/** `_set_tags`: reconciling the tag objects of a database instance with a
    dictionary of tags. Tags whose names are kept are the same objects with
    their values reset; new names get new tag objects; the rest are
    removed. */
module TagsMixin {
  import opened Wrappers

  /** One `name: value` pair of the tags dictionary, in its iteration order. */
  datatype TagEntry = TagEntry(name: string, value: Option<string>)

  /** A tag row. Its name is never written after creation. */
  class Tag {
    const name: string
    var value: Option<string>

    constructor(name: string, value: Option<string>)
      ensures this.name == name && this.value == value
    {
      this.name := name;
      this.value := value;
    }
  }

  /** A database instance with a tags relationship. */
  class Tagged {
    var tags: seq<Tag>

    constructor(tags: seq<Tag>)
      ensures this.tags == tags
    {
      this.tags := tags;
    }
  }

  /** `if not tags: tags = {}`: `None` and the empty dictionary alike. */
  function Entries(tags: Option<seq<TagEntry>>): seq<TagEntry>
  {
    if tags.Some? then tags.value else []
  }

  /** The keys of the dictionary. */
  function Keys(es: seq<TagEntry>): set<string>
  {
    if |es| == 0 then {} else Keys(es[..|es| - 1]) + {es[|es| - 1].name}
  }

  /** A dictionary's keys are unique. */
  predicate DistinctKeys(es: seq<TagEntry>)
  {
    forall i, j :: 0 <= i < j < |es| ==> es[i].name != es[j].name
  }

  /** The keys are the names of the entries. */
  lemma {:induction false} KeysOfEntries(es: seq<TagEntry>)
    ensures forall i :: 0 <= i < |es| ==> es[i].name in Keys(es)
    ensures forall k :: k in Keys(es) ==> exists i :: 0 <= i < |es| && es[i].name == k
    decreases |es|
  {
    if |es| > 0 {
      var init := es[..|es| - 1];
      KeysOfEntries(init);
      assert forall i :: 0 <= i < |init| ==> init[i] == es[i];
    }
  }

  /** The value stored under `k`. */
  function ValueFor(es: seq<TagEntry>, k: string): Option<string>
    requires k in Keys(es)
  {
    if es[|es| - 1].name == k then es[|es| - 1].value else ValueFor(es[..|es| - 1], k)
  }

  /** With unique keys, the value for a key is the one its entry carries. */
  lemma {:induction false} ValueForEntry(es: seq<TagEntry>, j: nat)
    requires DistinctKeys(es) && j < |es|
    ensures es[j].name in Keys(es) && ValueFor(es, es[j].name) == es[j].value
    decreases |es|
  {
    KeysOfEntries(es);
    if j < |es| - 1 {
      var init := es[..|es| - 1];
      assert init[j] == es[j];
      assert DistinctKeys(init) by {
        forall a, b | 0 <= a < b < |init| ensures init[a].name != init[b].name {
          assert init[a] == es[a] && init[b] == es[b];
        }
      }
      ValueForEntry(init, j);
    }
  }

  /** No two tags share a name. */
  predicate NamesDistinct(ts: seq<Tag>)
  {
    forall i, j :: 0 <= i < j < |ts| ==> ts[i].name != ts[j].name
  }

  /** The names of the tags. */
  function Names(ts: seq<Tag>): set<string>
  {
    if |ts| == 0 then {} else Names(ts[..|ts| - 1]) + {ts[|ts| - 1].name}
  }

  lemma {:induction false} NamesOfTags(ts: seq<Tag>)
    ensures forall t :: t in ts ==> t.name in Names(ts)
    decreases |ts|
  {
    if |ts| > 0 {
      var init := ts[..|ts| - 1];
      NamesOfTags(init);
      assert forall t :: t in ts <==> t in init || t == ts[|ts| - 1] by {
        assert ts == init + [ts[|ts| - 1]];
      }
    }
  }

  /** No tag of `ts` is named `k`, so `k` is not among the names. */
  lemma {:induction false} NameWithoutTag(ts: seq<Tag>, k: string)
    requires forall t :: t in ts ==> t.name != k
    ensures k !in Names(ts)
    decreases |ts|
  {
    if |ts| > 0 {
      var init := ts[..|ts| - 1];
      assert forall t :: t in init ==> t in ts;
      NameWithoutTag(init, k);
    }
  }

  /** Two tags of a list with distinct names are one when their names agree. */
  lemma SameNameSame(ts: seq<Tag>, a: Tag, b: Tag)
    requires NamesDistinct(ts) && a in ts && b in ts && a.name == b.name
    ensures a == b
  {
    var i :| 0 <= i < |ts| && ts[i] == a;
    var j :| 0 <= j < |ts| && ts[j] == b;
    assert !(i < j) && !(j < i);
  }

  /** The tags not named `k`, in their order: `list.remove` of the one tag
      with that name. */
  function WithoutName(ts: seq<Tag>, k: string): seq<Tag>
  {
    if |ts| == 0 then []
    else WithoutName(ts[..|ts| - 1], k) + (if ts[|ts| - 1].name == k then [] else [ts[|ts| - 1]])
  }

  /** Appending a tag adds its name. */
  lemma NamesAppend(ts: seq<Tag>, t: Tag)
    ensures Names(ts + [t]) == Names(ts) + {t.name}
  {
    assert (ts + [t])[..|ts|] == ts;
  }

  /** Removing the tags named `k` keeps every other tag. */
  lemma {:induction false} WithoutNameMembership(ts: seq<Tag>, k: string, t: Tag)
    ensures t in WithoutName(ts, k) <==> t in ts && t.name != k
    decreases |ts|
  {
    if |ts| > 0 {
      var init := ts[..|ts| - 1];
      WithoutNameMembership(init, k, t);
      assert ts == init + [ts[|ts| - 1]];
    }
  }

  /** Removing the tags named `k` removes exactly that name. */
  lemma {:induction false} WithoutNameNames(ts: seq<Tag>, k: string)
    ensures Names(WithoutName(ts, k)) == Names(ts) - {k}
    decreases |ts|
  {
    if |ts| > 0 {
      var init := ts[..|ts| - 1];
      var last := ts[|ts| - 1];
      WithoutNameNames(init, k);
      assert Names(ts) == Names(init) + {last.name};
      if last.name != k {
        assert WithoutName(ts, k) == WithoutName(init, k) + [last];
        NamesAppend(WithoutName(init, k), last);
      } else {
        assert WithoutName(ts, k) == WithoutName(init, k);
      }
    }
  }

  /** Removing tags keeps the names distinct. */
  lemma {:induction false} WithoutNameDistinct(ts: seq<Tag>, k: string)
    requires NamesDistinct(ts)
    ensures NamesDistinct(WithoutName(ts, k))
    decreases |ts|
  {
    if |ts| > 0 {
      var init := ts[..|ts| - 1];
      var last := ts[|ts| - 1];
      assert NamesDistinct(init) by {
        forall a, b | 0 <= a < b < |init| ensures init[a].name != init[b].name {
          assert init[a] == ts[a] && init[b] == ts[b];
        }
      }
      WithoutNameDistinct(init, k);
      if last.name != k {
        forall t | t in init ensures t.name != last.name {
          var a :| 0 <= a < |init| && init[a] == t;
          assert ts[a] == t;
        }
        NameWithoutTag(init, last.name);
        WithoutNameNames(init, k);
        AppendDistinct(WithoutName(init, k), last);
      }
    }
  }

  /** Appending a tag with a new name keeps the names distinct. */
  lemma AppendDistinct(ts: seq<Tag>, t: Tag)
    requires NamesDistinct(ts) && t.name !in Names(ts)
    ensures NamesDistinct(ts + [t])
    ensures Names(ts + [t]) == Names(ts) + {t.name}
  {
    NamesOfTags(ts);
    assert (ts + [t])[..|ts|] == ts;
    forall a, b | 0 <= a < b < |ts + [t]| ensures (ts + [t])[a].name != (ts + [t])[b].name {
      if b == |ts| {
        assert (ts + [t])[a] in ts;
      }
    }
  }

  /** The state `_set_tags` leaves: the tag names are the dictionary's keys,
      each tag holds its key's value, and no name is stored twice. */
  ghost predicate TagsEqualDict(ts: seq<Tag>, es: seq<TagEntry>)
    reads ts
  {
    NamesDistinct(ts) && Names(ts) == Keys(es) &&
    forall t :: t in ts ==> t.name in Keys(es) && t.value == ValueFor(es, t.name)
  }

  /** The tags by name: `{tag.name: tag for tag in db_instance.tags}`. */
  function ByName(ts: seq<Tag>): (m: map<string, Tag>)
    ensures m.Keys == Names(ts)
    ensures forall k :: k in m ==> m[k] in ts && m[k].name == k
  {
    if |ts| == 0 then map[]
    else
      var init := ts[..|ts| - 1];
      var m := ByName(init);
      assert forall t :: t in init ==> t in ts;
      m[ts[|ts| - 1].name := ts[|ts| - 1]]
  }

  /** The facts about entry `i` the loop needs: its key is new and its value is its own. */
  lemma StepFacts(es: seq<TagEntry>, i: nat)
    requires DistinctKeys(es) && i < |es|
    ensures es[i].name !in Keys(es[..i])
    ensures es[i].name in Keys(es) && ValueFor(es, es[i].name) == es[i].value
    ensures Keys(es[..i + 1]) == Keys(es[..i]) + {es[i].name}
  {
    ValueForEntry(es, i);
    KeysOfEntries(es[..i]);
    forall j | 0 <= j < i ensures es[..i][j].name != es[i].name {
      assert es[..i][j] == es[j];
    }
    assert es[..i + 1][..i] == es[..i];
  }

  /** What the first loop of `_set_tags` keeps about names, once the keys
      `ks` are done: the tags still to delete are the old tags whose names
      were not given, no old tag was dropped, and every given name is used. */
  ghost predicate UpdateNames(ts: seq<Tag>, toDelete: map<string, Tag>, oldTags: seq<Tag>, ks: set<string>)
  {
    NamesDistinct(ts) &&
    toDelete.Keys == Names(oldTags) - ks &&
    Names(ts) == Names(oldTags) + ks &&
    (forall k :: k in toDelete ==> toDelete[k] in oldTags && toDelete[k].name == k) &&
    (forall t :: t in oldTags ==> t in ts)
  }

  /** Every tag whose name is in `ks` holds that key's value. */
  ghost predicate ValuesGiven(ts: seq<Tag>, es: seq<TagEntry>, ks: set<string>)
    reads ts
  {
    ks <= Keys(es) &&
    forall j :: 0 <= j < |ts| && ts[j].name in ks ==> ts[j].value == ValueFor(es, ts[j].name)
  }

  /** A given name already stored: its tag leaves the to-delete list. */
  lemma UpdateNamesKeep(ts: seq<Tag>, toDelete: map<string, Tag>, oldTags: seq<Tag>, ks: set<string>, k: string)
    requires UpdateNames(ts, toDelete, oldTags, ks) && k in toDelete
    ensures UpdateNames(ts, toDelete - {k}, oldTags, ks + {k})
  {
  }

  /** A given name not stored: a new tag with it is appended. */
  lemma UpdateNamesAdd(ts: seq<Tag>, toDelete: map<string, Tag>, oldTags: seq<Tag>, ks: set<string>, t: Tag)
    requires UpdateNames(ts, toDelete, oldTags, ks) && t.name !in toDelete && t.name !in ks
    ensures UpdateNames(ts + [t], toDelete, oldTags, ks + {t.name})
  {
    AppendDistinct(ts, t);
  }

  /** One pass of the first loop of `_set_tags`, for the entry `e`: a tag
      still to delete under its name is kept and gets its value, otherwise a
      new tag is appended. */
  method ApplyEntry(dbInstance: Tagged, toDelete: map<string, Tag>, e: TagEntry,
                    ghost es: seq<TagEntry>, ghost ks: set<string>, ghost oldTags: seq<Tag>)
    returns (rest: map<string, Tag>)
    requires UpdateNames(dbInstance.tags, toDelete, oldTags, ks)
    requires ValuesGiven(dbInstance.tags, es, ks)
    requires e.name !in ks && e.name in Keys(es) && ValueFor(es, e.name) == e.value
    modifies dbInstance, toDelete.Values
    ensures UpdateNames(dbInstance.tags, rest, oldTags, ks + {e.name})
    ensures ValuesGiven(dbInstance.tags, es, ks + {e.name})
    ensures forall t :: t in dbInstance.tags && t !in old(dbInstance.tags) ==> fresh(t)
  {
    if e.name in toDelete {
      var tag := toDelete[e.name];
      UpdateNamesKeep(dbInstance.tags, toDelete, oldTags, ks, e.name);
      forall t | t in dbInstance.tags && t.name == e.name ensures t == tag {
        SameNameSame(dbInstance.tags, t, tag);
      }
      rest := toDelete - {e.name};
      tag.value := e.value;
      forall j | 0 <= j < |dbInstance.tags| && dbInstance.tags[j].name in ks + {e.name}
        ensures dbInstance.tags[j].value == ValueFor(es, dbInstance.tags[j].name)
      {
        if dbInstance.tags[j].name != e.name {
          assert dbInstance.tags[j].name in ks;
        }
      }
    } else {
      var t := new Tag(e.name, e.value);
      ghost var before := dbInstance.tags;
      UpdateNamesAdd(dbInstance.tags, toDelete, oldTags, ks, t);
      dbInstance.tags := dbInstance.tags + [t];
      rest := toDelete;
      forall j | 0 <= j < |dbInstance.tags| && dbInstance.tags[j].name in ks + {e.name}
        ensures dbInstance.tags[j].value == ValueFor(es, dbInstance.tags[j].name)
      {
        if j < |before| {
          assert dbInstance.tags[j] == before[j];
        }
      }
    }
  }

  /** The first loop of `_set_tags`: a tag whose name is given gets the
      given value, a name not yet used gets a new tag appended; the answer is
      the tags whose names were not given, by name. */
  method UpdateOrAdd(dbInstance: Tagged, es: seq<TagEntry>) returns (toDelete: map<string, Tag>)
    requires DistinctKeys(es)
    requires NamesDistinct(dbInstance.tags)
    modifies dbInstance, dbInstance.tags
    ensures UpdateNames(dbInstance.tags, toDelete, old(dbInstance.tags), Keys(es))
    ensures ValuesGiven(dbInstance.tags, es, Keys(es))
    ensures forall t :: t in dbInstance.tags && t !in old(dbInstance.tags) ==> fresh(t)
  {
    ghost var oldTags := dbInstance.tags;
    toDelete := ByName(dbInstance.tags);
    var i := 0;
    while i < |es|
      invariant 0 <= i <= |es|
      invariant UpdateNames(dbInstance.tags, toDelete, oldTags, Keys(es[..i]))
      invariant ValuesGiven(dbInstance.tags, es, Keys(es[..i]))
      invariant forall t :: t in dbInstance.tags && t !in oldTags ==> fresh(t)
    {
      StepFacts(es, i);
      assert toDelete.Values <= set t | t in oldTags;
      toDelete := ApplyEntry(dbInstance, toDelete, es[i], es, Keys(es[..i]), oldTags);
      i := i + 1;
    }
    assert es[..i] == es;
  }

  /** What the second loop of `_set_tags` keeps: the names stored are the
      given keys and the names `left` still to remove, and an old tag is still
      stored exactly when its name is one of those. */
  ghost predicate LeftoverNames(ts: seq<Tag>, left: set<string>, ks: set<string>, oldTags: seq<Tag>)
  {
    left !! ks &&
    NamesDistinct(ts) &&
    Names(ts) == ks + left &&
    (forall t :: t in oldTags ==> (t in ts <==> t.name in ks || t.name in left)) &&
    (forall t :: t in ts ==> t in oldTags)
  }

  /** Removing the tag of one name left keeps the invariant. */
  lemma LeftoverStep(ts: seq<Tag>, left: set<string>, ks: set<string>, oldTags: seq<Tag>, k: string)
    requires LeftoverNames(ts, left, ks, oldTags) && k in left
    ensures LeftoverNames(WithoutName(ts, k), left - {k}, ks, oldTags)
  {
    var rest := WithoutName(ts, k);
    WithoutNameNames(ts, k);
    WithoutNameDistinct(ts, k);
    forall t | t in rest ensures t in oldTags {
      WithoutNameMembership(ts, k, t);
    }
    forall t | t in oldTags ensures t in rest <==> t.name in ks || t.name in left - {k} {
      WithoutNameMembership(ts, k, t);
    }
  }

  /** The second loop of `_set_tags`: every tag left over is removed. Names
      are distinct, so removing the first element equal to the tag removes
      the one tag of its name. */
  method RemoveLeftover(dbInstance: Tagged, toDelete: map<string, Tag>, ghost ks: set<string>)
    requires LeftoverNames(dbInstance.tags, toDelete.Keys, ks, dbInstance.tags)
    modifies dbInstance
    ensures LeftoverNames(dbInstance.tags, {}, ks, old(dbInstance.tags))
  {
    ghost var oldTags := dbInstance.tags;
    var left := toDelete;
    while left != map[]
      invariant LeftoverNames(dbInstance.tags, left.Keys, ks, oldTags)
      decreases |left|
    {
      var k :| k in left;
      LeftoverStep(dbInstance.tags, left.Keys, ks, oldTags, k);
      dbInstance.tags := WithoutName(dbInstance.tags, k);
      left := left - {k};
    }
  }

  /** `_set_tags`: afterwards the tags are exactly the dictionary given (no
      dictionary meaning none); a tag already there is kept, with its new
      value, exactly when its name is given, and any other tag is new. */
  method SetTags(dbInstance: Tagged, tags: Option<seq<TagEntry>>)
    requires DistinctKeys(Entries(tags))
    requires NamesDistinct(dbInstance.tags)
    modifies dbInstance, dbInstance.tags
    ensures TagsEqualDict(dbInstance.tags, Entries(tags))
    ensures forall t :: t in old(dbInstance.tags) ==> (t in dbInstance.tags <==> t.name in Keys(Entries(tags)))
    ensures forall t :: t in dbInstance.tags && t !in old(dbInstance.tags) ==> fresh(t)
  {
    var es := Entries(tags);
    ghost var oldTags := dbInstance.tags;
    var toDelete := UpdateOrAdd(dbInstance, es);
    ghost var middle := dbInstance.tags;
    NamesOfTags(middle);
    assert LeftoverNames(middle, toDelete.Keys, Keys(es), middle);
    RemoveLeftover(dbInstance, toDelete, Keys(es));
    NamesOfTags(dbInstance.tags);
  }
}
