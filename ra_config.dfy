/** Resource adapter profiles: named lists of key/value settings kept per
    resource adapter. `create` adds a profile, refusing a name the adapter
    already has; `update` merges a list of entries into a profile's settings
    (a `None` value deletes a setting, an unknown key is appended, a known
    one is overwritten). Keys are stored in lower case, and the settings
    table holds each key at most once per profile. */
module ResourceAdapterConfig {
  import opened Wrappers
  import Strings

  /** A stored setting; `value` may be `NULL`. */
  datatype Setting = Setting(key: string, value: Option<string>)

  /** What an entry of a configuration list holds under `'value'`. */
  datatype Field = Absent | Null | Text(s: string)

  /** One entry of a configuration list: its `'key'` (`None` when the
      entry has none) and its `'value'`. */
  datatype Entry = Entry(key: Option<string>, value: Field)

  datatype Error =
    | ResourceAdapterNotFound(msg: string)
    | ResourceAlreadyExists(msg: string)
    | ResourceNotFound(msg: string)
    | KeyError
    | InvalidArgument(msg: string)
    | ValidationError
    | IntegrityError

  const MalformedMessage := "Malformed resource adapter configuration data"

  function AdapterNotFoundMessage(adapter: string): string
  {
    "Resource adapter [" + adapter + "] not found"
  }

  function AlreadyExistsMessage(name: string): string
  {
    "Resource adapter configuration [" + name + "] already exists"
  }

  function ProfileNotFoundMessage(adapter: string, name: string): string
  {
    "Resource adapter configuration [" + name + "] does not exist for resource adapter [" + adapter + "]"
  }

  /** The entry has both a `'key'` and a `'value'`. */
  predicate WellFormed(e: Entry)
  {
    e.key.Some? && !e.value.Absent?
  }

  predicate AllWellFormed(es: seq<Entry>)
  {
    forall t :: 0 <= t < |es| ==> WellFormed(es[t])
  }

  /** The settings table's unique constraint on `(key, profile)`. */
  predicate DistinctKeys(ss: seq<Setting>)
  {
    forall i, j :: 0 <= i < j < |ss| ==> ss[i].key != ss[j].key
  }

  /** Two lists whose settings have the same keys, position by position. */
  predicate SameKeys(ss: seq<Setting>, tt: seq<Setting>)
  {
    |ss| == |tt| && forall j :: 0 <= j < |ss| ==> ss[j].key == tt[j].key
  }

  // ---------------------------------------------------------------------
  // _setting_exists
  // ---------------------------------------------------------------------

  /** The position of the setting `_setting_exists` returns: the first one
      whose key equals `key.lower()`, or `None`. */
  function SettingIndex(ss: seq<Setting>, key: string): (r: Option<nat>)
    ensures r.Some? ==> r.value < |ss| && ss[r.value].key == Strings.Lower(key)
    ensures r.Some? ==> forall j :: 0 <= j < r.value ==> ss[j].key != Strings.Lower(key)
    ensures r.None? <==> forall j :: 0 <= j < |ss| ==> ss[j].key != Strings.Lower(key)
    decreases |ss|
  {
    if |ss| == 0 then None
    else if ss[0].key == Strings.Lower(key) then Some(0)
    else
      var r := SettingIndex(ss[1..], key);
      assert forall j :: 1 <= j < |ss| ==> ss[j] == ss[1..][j - 1];
      if r.None? then None else Some(r.value + 1)
  }

  /** `_setting_exists`: a scan for the first setting with the key. */
  method SettingExists(settings: seq<Setting>, key: string) returns (r: Option<nat>)
    ensures r == SettingIndex(settings, key)
  {
    var wanted := Strings.Lower(key);
    var i := 0;
    while i < |settings|
      invariant 0 <= i <= |settings|
      invariant forall j :: 0 <= j < i ==> settings[j].key != wanted
    {
      if settings[i].key == wanted {
        return Some(i);
      }
      i := i + 1;
    }
    return None;
  }

  /** Only the keys matter to the lookup. */
  lemma SameKeysSameIndex(ss: seq<Setting>, tt: seq<Setting>, key: string)
    requires SameKeys(ss, tt)
    ensures SettingIndex(ss, key) == SettingIndex(tt, key)
  {
    if SettingIndex(ss, key).Some? {
      SameKeysFirst(ss, tt, key, SettingIndex(ss, key).value);
    }
  }

  /** The first position with the key in one list is the first in the other. */
  lemma SameKeysFirst(ss: seq<Setting>, tt: seq<Setting>, key: string, j: nat)
    requires SameKeys(ss, tt) && SettingIndex(ss, key) == Some(j)
    ensures SettingIndex(tt, key) == Some(j)
  {
    assert tt[j].key == Strings.Lower(key);
  }

  // ---------------------------------------------------------------------
  // __update_settings
  // ---------------------------------------------------------------------

  /** The existing setting a well-formed entry refers to: the lookup is
      done with `entry['key'].lower()`. */
  function Target(ss: seq<Setting>, e: Entry): (r: Option<nat>)
    requires e.key.Some?
    ensures r.Some? ==> r.value < |ss|
  {
    SettingIndex(ss, Strings.Lower(e.key.value))
  }

  /** The entry overwrites the value of the existing setting at `j`. */
  predicate Overwrites(ss: seq<Setting>, j: nat, e: Entry)
  {
    WellFormed(e) && e.value.Text? && Target(ss, e) == Some(j)
  }

  /** The entry marks the existing setting at `j` for deletion. */
  predicate Deletes(ss: seq<Setting>, j: nat, e: Entry)
  {
    WellFormed(e) && e.value.Null? && Target(ss, e) == Some(j)
  }

  /** The entry names no existing setting and so creates one. */
  predicate Creates(ss: seq<Setting>, e: Entry)
  {
    WellFormed(e) && e.value.Text? && Target(ss, e).None?
  }

  /** The setting an entry that creates one appends. */
  function NewSetting(e: Entry): Setting
    requires e.key.Some? && e.value.Text?
  {
    Setting(Strings.Lower(e.key.value), Some(e.value.s))
  }

  /** The value of the existing setting at `j` once the entries are
      applied: the last value written to it, else the stored one. */
  function UpdatedValue(es: seq<Entry>, ss: seq<Setting>, j: nat): Option<string>
    requires j < |ss|
    decreases |es|
  {
    if |es| == 0 then ss[j].value
    else if Overwrites(ss, j, es[|es| - 1]) then Some(es[|es| - 1].value.s)
    else UpdatedValue(es[..|es| - 1], ss, j)
  }

  /** The existing settings with their values overwritten in place. */
  function Updated(es: seq<Entry>, ss: seq<Setting>): (r: seq<Setting>)
    ensures SameKeys(r, ss)
  {
    seq(|ss|, j requires 0 <= j < |ss| => Setting(ss[j].key, UpdatedValue(es, ss, j)))
  }

  /** The positions of the existing settings marked for deletion. */
  function Doomed(es: seq<Entry>, ss: seq<Setting>): (r: set<nat>)
    ensures forall j :: j in r ==> j < |ss|
    decreases |es|
  {
    if |es| == 0 then {}
    else
      var e := es[|es| - 1];
      Doomed(es[..|es| - 1], ss) + (if WellFormed(e) && e.value.Null? && Target(ss, e).Some? then {Target(ss, e).value} else {})
  }

  /** The settings the entries create, in entry order. */
  function Added(es: seq<Entry>, ss: seq<Setting>): seq<Setting>
    decreases |es|
  {
    if |es| == 0 then []
    else
      var e := es[|es| - 1];
      Added(es[..|es| - 1], ss) + (if Creates(ss, e) then [NewSetting(e)] else [])
  }

  /** `s` without the positions in `d`, in order. */
  function Without(s: seq<Setting>, d: set<nat>): seq<Setting>
    decreases |s|
  {
    if |s| == 0 then []
    else Without(s[..|s| - 1], d) + (if |s| - 1 in d then [] else [s[|s| - 1]])
  }

  /** A profile's settings after `__update_settings` and the commit: the
      existing settings overwritten in place, the marked ones deleted, the
      created ones appended. */
  function Reconciled(es: seq<Entry>, ss: seq<Setting>): seq<Setting>
  {
    Without(Updated(es, ss), Doomed(es, ss)) + Added(es, ss)
  }

  /** One entry more, seen from the end of the list. */
  lemma LastEntry(es: seq<Entry>, i: nat)
    requires i < |es|
    ensures es[..i + 1][..i] == es[..i] && es[..i + 1][i] == es[i] && |es[..i + 1]| == i + 1
  {
  }

  /** A checked prefix grows by one well-formed entry. */
  lemma WellFormedStep(es: seq<Entry>, i: nat)
    requires i < |es| && AllWellFormed(es[..i]) && WellFormed(es[i])
    ensures AllWellFormed(es[..i + 1])
  {
    var p := es[..i + 1];
    forall t | 0 <= t < |p| ensures WellFormed(p[t]) {
      if t < i {
        assert p[t] == es[..i][t];
      }
    }
  }

  /** No entries leave the settings as they are. */
  lemma UpdatedNothing(ss: seq<Setting>)
    ensures Updated([], ss) == ss
  {
    assert forall j :: 0 <= j < |ss| ==> Updated([], ss)[j] == ss[j];
  }

  /** What one well-formed entry more does to each part of the plan. */
  lemma Step(es: seq<Entry>, i: nat, ss: seq<Setting>)
    requires i < |es| && WellFormed(es[i])
    ensures var e, t := es[i], Target(ss, es[i]);
      Doomed(es[..i + 1], ss) == Doomed(es[..i], ss) + (if e.value.Null? && t.Some? then {t.value} else {})
    ensures var e, t := es[i], Target(ss, es[i]);
      Added(es[..i + 1], ss) == Added(es[..i], ss) + (if e.value.Text? && t.None? then [NewSetting(e)] else [])
    ensures var e, t := es[i], Target(ss, es[i]);
      Updated(es[..i + 1], ss) ==
        if e.value.Text? && t.Some? then Updated(es[..i], ss)[t.value := Setting(ss[t.value].key, Some(e.value.s))]
        else Updated(es[..i], ss)
  {
    assert es[..i + 1][..i] == es[..i];
  }

  /** Appending after the last marked position leaves the appended part whole. */
  lemma {:induction false} WithoutAppend(a: seq<Setting>, b: seq<Setting>, d: set<nat>)
    requires forall j :: j in d ==> j < |a|
    ensures Without(a + b, d) == Without(a, d) + b
    decreases |b|
  {
    if |b| > 0 {
      var ab := a + b;
      assert ab[..|ab| - 1] == a + b[..|b| - 1];
      WithoutAppend(a, b[..|b| - 1], d);
      assert b == b[..|b| - 1] + [b[|b| - 1]];
    } else {
      assert a + b == a;
    }
  }

  /** One turn of the first loop of `__update_settings` for a well-formed
      entry: a `None` value marks the setting found, a value for an
      unknown key becomes a new setting, any other value overwrites the
      setting found. */
  method ApplyEntry(entry: Entry, settings: seq<Setting>, newSettings: seq<Setting>, deleteSettings: set<nat>,
                    ghost existing: seq<Setting>)
    returns (settings': seq<Setting>, newSettings': seq<Setting>, deleteSettings': set<nat>)
    requires WellFormed(entry) && SameKeys(settings, existing)
    ensures var t := Target(existing, entry);
      deleteSettings' == deleteSettings + (if entry.value.Null? && t.Some? then {t.value} else {})
    ensures var t := Target(existing, entry);
      newSettings' == newSettings + (if entry.value.Text? && t.None? then [NewSetting(entry)] else [])
    ensures var t := Target(existing, entry);
      settings' == if entry.value.Text? && t.Some? then settings[t.value := Setting(existing[t.value].key, Some(entry.value.s))]
                   else settings
  {
    settings', newSettings', deleteSettings' := settings, newSettings, deleteSettings;
    var key := Strings.Lower(entry.key.value);
    var setting := SettingExists(settings, key);
    SameKeysSameIndex(settings, existing, key);
    if entry.value.Null? {
      if setting.Some? {
        deleteSettings' := deleteSettings + {setting.value};
      }
    } else if setting.None? {
      newSettings' := newSettings + [Setting(key, Some(entry.value.s))];
    } else {
      settings' := settings[setting.value := Setting(settings[setting.value].key, Some(entry.value.s))];
    }
  }

  /** The first loop of `__update_settings`: each entry is checked (a
      malformed one raises `InvalidArgument`) and looked up among the
      existing settings; a value overwrites the setting found in place, a
      `None` marks it for deletion, and a value for an unknown key is kept
      as a new setting. */
  method MarkEntries(configuration: seq<Entry>, existing: seq<Setting>)
    returns (r: Result<(seq<Setting>, seq<Setting>, set<nat>), Error>)
    ensures r.Err? <==> !AllWellFormed(configuration)
    ensures r.Err? ==> r.error == InvalidArgument(MalformedMessage)
    ensures r.Ok? ==> r.value == (Updated(configuration, existing), Added(configuration, existing), Doomed(configuration, existing))
  {
    var settings := existing;
    var newSettings: seq<Setting> := [];
    var deleteSettings: set<nat> := {};
    var i := 0;
    assert configuration[..0] == [];
    UpdatedNothing(existing);
    while i < |configuration|
      invariant 0 <= i <= |configuration|
      invariant AllWellFormed(configuration[..i])
      invariant settings == Updated(configuration[..i], existing)
      invariant newSettings == Added(configuration[..i], existing)
      invariant deleteSettings == Doomed(configuration[..i], existing)
    {
      var entry := configuration[i];
      LastEntry(configuration, i);
      if !WellFormed(entry) {
        return Err(InvalidArgument(MalformedMessage));
      }
      WellFormedStep(configuration, i);
      Step(configuration, i, existing);
      settings, newSettings, deleteSettings := ApplyEntry(entry, settings, newSettings, deleteSettings, existing);
      i := i + 1;
    }
    assert configuration[..i] == configuration;
    return Ok((settings, newSettings, deleteSettings));
  }

  /** The second loop: the new settings are appended in order. */
  method AppendSettings(settings: seq<Setting>, newSettings: seq<Setting>) returns (r: seq<Setting>)
    ensures r == settings + newSettings
  {
    r := settings;
    var k := 0;
    while k < |newSettings|
      invariant 0 <= k <= |newSettings|
      invariant r == settings + newSettings[..k]
    {
      assert newSettings[..k + 1] == newSettings[..k] + [newSettings[k]];
      r := r + [newSettings[k]];
      k := k + 1;
    }
    assert newSettings[..k] == newSettings;
  }

  /** The third loop: the marked settings are deleted, which the commit
      makes visible as their removal from the profile's list. */
  method DeleteMarked(settings: seq<Setting>, marked: set<nat>) returns (r: seq<Setting>)
    ensures r == Without(settings, marked)
  {
    r := [];
    var j := 0;
    while j < |settings|
      invariant 0 <= j <= |settings|
      invariant r == Without(settings[..j], marked)
    {
      assert settings[..j + 1][..j] == settings[..j];
      if j !in marked {
        r := r + [settings[j]];
      }
      j := j + 1;
    }
    assert settings[..j] == settings;
  }

  /** `__update_settings` on a copy of the profile's settings, followed by
      the commit. */
  method UpdateSettings(configuration: seq<Entry>, existing: seq<Setting>) returns (r: Result<seq<Setting>, Error>)
    ensures r.Err? <==> !AllWellFormed(configuration)
    ensures r.Err? ==> r.error == InvalidArgument(MalformedMessage)
    ensures r.Ok? ==> r.value == Reconciled(configuration, existing)
  {
    var marked := MarkEntries(configuration, existing);
    if marked.Err? {
      return Err(marked.error);
    }
    var (settings, newSettings, deleteSettings) := marked.value;
    var all := AppendSettings(settings, newSettings);
    var kept := DeleteMarked(all, deleteSettings);
    WithoutAppend(settings, newSettings, deleteSettings);
    return Ok(kept);
  }

  // ---------------------------------------------------------------------
  // What the reconciliation means
  // ---------------------------------------------------------------------

  /** A position is marked exactly when some entry gives the setting
      there a `None` value. */
  lemma {:induction false} DoomedMeans(es: seq<Entry>, ss: seq<Setting>, j: nat)
    ensures j in Doomed(es, ss) <==> exists t :: 0 <= t < |es| && Deletes(ss, j, es[t])
    decreases |es|
  {
    if |es| > 0 {
      var n := |es| - 1;
      var front := es[..n];
      DoomedMeans(front, ss, j);
      assert forall t :: 0 <= t < n ==> front[t] == es[t];
      if exists t :: 0 <= t < |es| && Deletes(ss, j, es[t]) {
        var t :| 0 <= t < |es| && Deletes(ss, j, es[t]);
        if t < n {
          assert Deletes(ss, j, front[t]);
        }
      }
    }
  }

  /** A setting no entry overwrites keeps its value; otherwise the last
      entry that overwrites it decides its value. */
  lemma UpdatedValueMeans(es: seq<Entry>, ss: seq<Setting>, j: nat, t: nat)
    requires j < |ss|
    ensures (forall u :: 0 <= u < |es| ==> !Overwrites(ss, j, es[u])) ==> UpdatedValue(es, ss, j) == ss[j].value
    ensures t < |es| && Overwrites(ss, j, es[t]) && (forall u :: t < u < |es| ==> !Overwrites(ss, j, es[u])) ==>
      UpdatedValue(es, ss, j) == Some(es[t].value.s)
  {
    if forall u :: 0 <= u < |es| ==> !Overwrites(ss, j, es[u]) {
      NotOverwritten(es, ss, j);
    }
    if t < |es| && Overwrites(ss, j, es[t]) && (forall u :: t < u < |es| ==> !Overwrites(ss, j, es[u])) {
      LastOverwriteWins(es, ss, j, t);
    }
  }

  /** A setting no entry overwrites keeps its value. */
  lemma {:induction false} NotOverwritten(es: seq<Entry>, ss: seq<Setting>, j: nat)
    requires j < |ss|
    requires forall u :: 0 <= u < |es| ==> !Overwrites(ss, j, es[u])
    ensures UpdatedValue(es, ss, j) == ss[j].value
    decreases |es|
  {
    if |es| > 0 {
      var front := es[..|es| - 1];
      assert forall u :: 0 <= u < |front| ==> front[u] == es[u];
      NotOverwritten(front, ss, j);
    }
  }

  /** The last entry that overwrites a setting decides its value. */
  lemma {:induction false} LastOverwriteWins(es: seq<Entry>, ss: seq<Setting>, j: nat, t: nat)
    requires j < |ss| && t < |es| && Overwrites(ss, j, es[t])
    requires forall u :: t < u < |es| ==> !Overwrites(ss, j, es[u])
    ensures UpdatedValue(es, ss, j) == Some(es[t].value.s)
    decreases |es|
  {
    if t < |es| - 1 {
      var front := es[..|es| - 1];
      assert forall u :: 0 <= u < |front| ==> front[u] == es[u];
      LastOverwriteWins(front, ss, j, t);
    }
  }

  /** A setting is created for exactly the entries that name no existing
      setting and give a value. */
  lemma {:induction false} AddedMeans(es: seq<Entry>, ss: seq<Setting>, x: Setting)
    ensures x in Added(es, ss) <==> exists t :: 0 <= t < |es| && Creates(ss, es[t]) && x == NewSetting(es[t])
    decreases |es|
  {
    if |es| > 0 {
      var n := |es| - 1;
      var front := es[..n];
      AddedMeans(front, ss, x);
      assert forall t :: 0 <= t < n ==> front[t] == es[t];
      if exists t :: 0 <= t < |es| && Creates(ss, es[t]) && x == NewSetting(es[t]) {
        var t :| 0 <= t < |es| && Creates(ss, es[t]) && x == NewSetting(es[t]);
        if t < n {
          assert Creates(ss, front[t]) && x == NewSetting(front[t]);
        }
      }
    }
  }

  /** The settings left are the ones at the positions not removed. */
  lemma {:induction false} WithoutMeans(s: seq<Setting>, d: set<nat>, x: Setting)
    ensures x in Without(s, d) <==> exists j :: 0 <= j < |s| && j !in d && s[j] == x
    decreases |s|
  {
    if |s| > 0 {
      var n := |s| - 1;
      var front := s[..n];
      WithoutMeans(front, d, x);
      assert forall j :: 0 <= j < n ==> front[j] == s[j];
      if exists j :: 0 <= j < |s| && j !in d && s[j] == x {
        var j :| 0 <= j < |s| && j !in d && s[j] == x;
        if j < n {
          assert front[j] == x;
        }
      }
    }
  }

  /** An entry with a `None` value for an existing key removes that key
      from the profile: no setting with it is left, nor created. */
  lemma NullRemovesSetting(es: seq<Entry>, ss: seq<Setting>, t: nat)
    requires DistinctKeys(ss)
    requires t < |es| && WellFormed(es[t]) && es[t].value.Null? && Target(ss, es[t]).Some?
    ensures forall x :: x in Reconciled(es, ss) ==> x.key != ss[Target(ss, es[t]).value].key
  {
    var j := Target(ss, es[t]).value;
    var u := Updated(es, ss);
    var d := Doomed(es, ss);
    DoomedMeans(es, ss, j);
    forall x | x in Reconciled(es, ss)
      ensures x.key != ss[j].key
    {
      if x in Without(u, d) {
        WithoutMeans(u, d, x);
        var i :| 0 <= i < |u| && i !in d && u[i] == x;
        assert i != j;
        assert x.key == ss[i].key;
      } else {
        assert x in Added(es, ss);
        AddedMeans(es, ss, x);
        var w :| 0 <= w < |es| && Creates(ss, es[w]) && x == NewSetting(es[w]);
        Strings.LowerTwice(es[w].key.value);
      }
    }
  }

  /** The lower-cased key of a well-formed entry. */
  function KeyOf(e: Entry): string
    requires e.key.Some?
  {
    Strings.Lower(e.key.value)
  }

  /** When the last entry that names key `k` gives it a value (and no entry
      deletes it), the profile holds `k` with that value, whether the key
      existed before or not. */
  lemma LastValueWins(es: seq<Entry>, ss: seq<Setting>, t: nat)
    requires DistinctKeys(ss) && AllWellFormed(es)
    requires forall j :: 0 <= j < |ss| ==> Strings.Lower(ss[j].key) == ss[j].key
    requires t < |es| && es[t].value.Text?
    requires forall u :: t < u < |es| ==> KeyOf(es[u]) != KeyOf(es[t])
    requires forall u :: 0 <= u < |es| && KeyOf(es[u]) == KeyOf(es[t]) ==> !es[u].value.Null?
    ensures Setting(KeyOf(es[t]), Some(es[t].value.s)) in Reconciled(es, ss)
  {
    var x := Setting(KeyOf(es[t]), Some(es[t].value.s));
    var target := Target(ss, es[t]);
    if target.None? {
      AddedMeans(es, ss, x);
    } else {
      var j := target.value;
      forall u | t < u < |es|
        ensures !Overwrites(ss, j, es[u])
      {
        if Overwrites(ss, j, es[u]) {
          Strings.LowerTwice(es[u].key.value);
          Strings.LowerTwice(es[t].key.value);
        }
      }
      UpdatedValueMeans(es, ss, j, t);
      DoomedMeans(es, ss, j);
      if j in Doomed(es, ss) {
        var u :| 0 <= u < |es| && Deletes(ss, j, es[u]);
        Strings.LowerTwice(es[u].key.value);
        Strings.LowerTwice(es[t].key.value);
      }
      Strings.LowerTwice(es[t].key.value);
      var up := Updated(es, ss);
      assert up[j] == x;
      WithoutMeans(up, Doomed(es, ss), x);
    }
  }

  /** A setting no entry names stays as it is. */
  lemma UntouchedKept(es: seq<Entry>, ss: seq<Setting>, j: nat)
    requires AllWellFormed(es) && j < |ss|
    requires forall u :: 0 <= u < |es| ==> Target(ss, es[u]) != Some(j)
    ensures ss[j] in Reconciled(es, ss)
  {
    UpdatedValueMeans(es, ss, j, 0);
    DoomedMeans(es, ss, j);
    var up := Updated(es, ss);
    assert up[j] == ss[j];
    WithoutMeans(up, Doomed(es, ss), ss[j]);
  }

  /** A `None` value for a key followed by a value for the same key still
      deletes the setting: the deletion is decided on the existing list. */
  lemma NullThenValueDeletes()
    ensures Reconciled([Entry(Some("a"), Null), Entry(Some("a"), Text("2"))], [Setting("a", Some("1"))]) == []
  {
    var es := [Entry(Some("a"), Null), Entry(Some("a"), Text("2"))];
    var ss := [Setting("a", Some("1"))];
    assert Strings.Lower("a") == "a";
    assert Target(ss, es[0]) == Some(0) && Target(ss, es[1]) == Some(0);
    assert es[..1] == [es[0]] && es[..1][..0] == [];
    assert Doomed(es, ss) == {0};
    Step(es, 0, ss);
    Step(es, 1, ss);
    assert es[..2] == es && es[..0] == [];
    assert Added(es, ss) == [];
    var up := Updated(es, ss);
    assert up[..0] == [];
    assert Without(up, {0}) == [];
  }

  // ---------------------------------------------------------------------
  // create and update
  // ---------------------------------------------------------------------

  /** The stored form of a well-formed entry of `create`. */
  function SettingOf(e: Entry): Setting
    requires WellFormed(e)
  {
    Setting(Strings.Lower(e.key.value), if e.value.Null? then None else Some(e.value.s))
  }

  /** The settings `create` gives a new profile, one per entry, in order. */
  function Created(es: seq<Entry>): (r: seq<Setting>)
    requires AllWellFormed(es)
    ensures |r| == |es|
  {
    seq(|es|, t requires 0 <= t < |es| => SettingOf(es[t]))
  }

  /** The dictionary handed to the configuration validator: a later entry
      for the same lower-cased key replaces an earlier one. */
  function View(es: seq<Entry>): map<string, Option<string>>
    requires AllWellFormed(es)
    decreases |es|
  {
    if |es| == 0 then map[]
    else
      var e := es[|es| - 1];
      View(es[..|es| - 1])[Strings.Lower(e.key.value) := SettingOf(e).value]
  }

  /** The validator sees every key of the entries, lower-cased, and no
      other. */
  lemma {:induction false} ViewKeys(es: seq<Entry>, k: string)
    requires AllWellFormed(es)
    ensures k in View(es) <==> exists u :: 0 <= u < |es| && Strings.Lower(es[u].key.value) == k
    decreases |es|
  {
    if |es| > 0 {
      var n := |es| - 1;
      var front := es[..n];
      assert forall u :: 0 <= u < n ==> front[u] == es[u];
      ViewKeys(front, k);
    }
  }

  /** The validator sees the value of the last entry for a key. */
  lemma {:induction false} ViewLast(es: seq<Entry>, t: nat)
    requires AllWellFormed(es) && t < |es|
    requires forall u :: t < u < |es| ==> Strings.Lower(es[u].key.value) != Strings.Lower(es[t].key.value)
    ensures Strings.Lower(es[t].key.value) in View(es)
    ensures View(es)[Strings.Lower(es[t].key.value)] == SettingOf(es[t]).value
    decreases |es|
  {
    var n := |es| - 1;
    var front := es[..n];
    assert forall u :: 0 <= u < n ==> front[u] == es[u];
    if t < n {
      ViewLast(front, t);
    }
  }

  /** The settings and validator dictionary `create` builds from its
      entries; an entry without `'key'` or `'value'` raises `KeyError`. */
  method BuildProfile(configuration: seq<Entry>) returns (r: Result<(seq<Setting>, map<string, Option<string>>), Error>)
    ensures r.Ok? <==> AllWellFormed(configuration)
    ensures r.Err? ==> r.error == KeyError
    ensures r.Ok? ==> r.value.0 == Created(configuration) && r.value.1 == View(configuration)
  {
    var settings: seq<Setting> := [];
    var validator: map<string, Option<string>> := map[];
    var i := 0;
    while i < |configuration|
      invariant 0 <= i <= |configuration|
      invariant AllWellFormed(configuration[..i])
      invariant settings == Created(configuration[..i])
      invariant validator == View(configuration[..i])
    {
      var entry := configuration[i];
      LastEntry(configuration, i);
      if !WellFormed(entry) {
        return Err(KeyError);
      }
      var setting := SettingOf(entry);
      settings := settings + [setting];
      validator := validator[setting.key := setting.value];
      i := i + 1;
    }
    assert configuration[..i] == configuration;
    return Ok((settings, validator));
  }

  /** Every key `create` stores is in lower case. */
  lemma CreatedKeysLower(es: seq<Entry>)
    requires AllWellFormed(es)
    ensures forall t :: 0 <= t < |es| ==> Strings.Lower(Created(es)[t].key) == Created(es)[t].key
  {
    forall t | 0 <= t < |es|
      ensures Strings.Lower(Created(es)[t].key) == Created(es)[t].key
    {
      Strings.LowerTwice(es[t].key.value);
    }
  }

  /** The resource adapter profiles of one installation. */
  class ConfigurationManager {
    /** The names of the installed resource adapters. */
    const adapters: set<string>
    /** Each profile's settings, by resource adapter name and profile name. */
    var profiles: map<(string, string), seq<Setting>>

    ghost predicate Valid()
      reads this
    {
      forall p :: p in profiles ==> p.0 in adapters && DistinctKeys(profiles[p])
    }

    constructor(adapters: set<string>)
      ensures Valid() && this.adapters == adapters && profiles == map[]
    {
      this.adapters := adapters;
      profiles := map[];
    }

    /** `create`: an unknown adapter or an existing profile name is refused;
        the entries become the profile's settings (a missing list is
        empty); unless `force` is set the validator must accept them; the
        commit refuses two settings with one key. */
    method Create(adapter: string, name: string, configuration: Option<seq<Entry>>, force: bool,
                  accepts: map<string, Option<string>> -> bool) returns (r: Outcome<Error>)
      requires Valid()
      modifies this
      ensures Valid()
      ensures adapter !in adapters ==> r == Fail(ResourceAdapterNotFound(AdapterNotFoundMessage(adapter)))
      ensures adapter in adapters && (adapter, name) in old(profiles) ==> r == Fail(ResourceAlreadyExists(AlreadyExistsMessage(name)))
      ensures r.Fail? ==> profiles == old(profiles)
      ensures var es := if configuration.None? then [] else configuration.value;
        adapter in adapters && (adapter, name) !in old(profiles) ==>
          (r.Pass? <==> AllWellFormed(es) && (force || accepts(View(es))) && DistinctKeys(Created(es)))
      ensures var es := if configuration.None? then [] else configuration.value;
        r.Pass? ==> AllWellFormed(es) && profiles == old(profiles)[(adapter, name) := Created(es)]
    {
      if adapter !in adapters {
        return Fail(ResourceAdapterNotFound(AdapterNotFoundMessage(adapter)));
      }
      if (adapter, name) in profiles {
        return Fail(ResourceAlreadyExists(AlreadyExistsMessage(name)));
      }
      var es := if configuration.None? then [] else configuration.value;
      var built := BuildProfile(es);
      if built.Err? {
        return Fail(built.error);
      }
      if !force && !accepts(built.value.1) {
        return Fail(ValidationError);
      }
      if !DistinctKeys(built.value.0) {
        return Fail(IntegrityError);
      }
      profiles := profiles[(adapter, name) := built.value.0];
      return Pass;
    }

    /** `update`: an unknown adapter is refused; unless `force` is set the
        entries are first read into the validator (a missing part raises
        `KeyError`) and must be accepted; an unknown profile raises
        `ResourceNotFound`; the entries are then merged into the profile's
        settings, and the commit refuses two settings with one key. */
    method Update(adapter: string, name: string, configuration: seq<Entry>, force: bool,
                  accepts: map<string, Option<string>> -> bool) returns (r: Outcome<Error>)
      requires Valid()
      modifies this
      ensures Valid()
      ensures adapter !in adapters ==> r == Fail(ResourceAdapterNotFound(AdapterNotFoundMessage(adapter)))
      ensures adapter in adapters && !force && !AllWellFormed(configuration) ==> r == Fail(KeyError)
      ensures adapter in adapters && force && !AllWellFormed(configuration) && (adapter, name) in old(profiles) ==>
        r == Fail(InvalidArgument(MalformedMessage))
      ensures adapter in adapters && (adapter, name) !in old(profiles) ==> r.Fail?
      ensures r.Fail? ==> profiles == old(profiles)
      ensures r.Pass? ==> (adapter, name) in old(profiles) && AllWellFormed(configuration)
      ensures r.Pass? ==> profiles == old(profiles)[(adapter, name) := Reconciled(configuration, old(profiles)[(adapter, name)])]
      ensures adapter in adapters && (adapter, name) in old(profiles) && AllWellFormed(configuration) ==>
        (r.Pass? <==> (force || accepts(View(configuration))) && DistinctKeys(Reconciled(configuration, old(profiles)[(adapter, name)])))
    {
      if adapter !in adapters {
        return Fail(ResourceAdapterNotFound(AdapterNotFoundMessage(adapter)));
      }
      if !force {
        var built := BuildProfile(configuration);
        if built.Err? {
          return Fail(built.error);
        }
        if !accepts(built.value.1) {
          return Fail(ValidationError);
        }
      }
      if (adapter, name) !in profiles {
        return Fail(ResourceNotFound(ProfileNotFoundMessage(adapter, name)));
      }
      var updated := UpdateSettings(configuration, profiles[(adapter, name)]);
      if updated.Err? {
        return Fail(updated.error);
      }
      if !DistinctKeys(updated.value) {
        return Fail(IntegrityError);
      }
      profiles := profiles[(adapter, name) := updated.value];
      return Pass;
    }
  }
}
