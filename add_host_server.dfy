/** Host naming and address allocation for nodes being added: the `#R`/`#N`
    name templates, the first-free-slot search over the names already in use,
    IPv4 allocation on a provisioning network (addresses are 32-bit integers,
    as in section 3.2 of RFC 791), MAC address normalisation with the
    duplicate check, and the NIC boot flag. */
module AddHostServer {
  import opened Wrappers
  import Strings

  datatype Error =
    | InvalidArgument(msg: string)
    | InvalidMacAddress(msg: string)
    | MacAddressAlreadyExists(msg: string)
    | AddressValueError(msg: string)
    | NetworkValueError(msg: string)

  /** The Python value given as a template replacement: an `int`, a `str`, or anything else. */
  datatype Replacement = Number(n: int) | Text(t: string) | OtherValue

  const SpecifierMessage := "specifier must be one of \"#R\" or \"#N\""
  const TextMessage := "replacement must be \"_\" when type == str"
  const TypeMessage := "replacement must an integer or \"_\""
  const UniqueNameMessage := "Unable to generate unique host name"
  const ExhaustedMessage := "IP address space exhausted"

  // ---------------------------------------------------------------------
  // Name templates
  // ---------------------------------------------------------------------

  predicate KnownSpecifier(specifier: string)
  {
    specifier == "#R" || specifier == "#N"
  }

  /** The argument checks, in the order they are made; `None` when both arguments are acceptable. */
  function ArgumentError(specifier: string, replacement: Replacement): Option<Error>
  {
    if !KnownSpecifier(specifier) then Some(InvalidArgument(SpecifierMessage))
    else if replacement.Text? && replacement.t != "_" then Some(InvalidArgument(TextMessage))
    else if replacement.OtherValue? then Some(InvalidArgument(TypeMessage))
    else None
  }

  /** The number of consecutive `c` characters in `s` from index `i` on. */
  function RunLength(s: string, i: nat, c: char): (r: nat)
    ensures i <= |s| ==> i + r <= |s|
    decreases |s| - i
  {
    if i < |s| && s[i] == c then 1 + RunLength(s, i + 1, c) else 0
  }

  /** The run counted by `RunLength` is made of `c` and ends at the first other character. */
  lemma {:induction false} RunLengthRun(s: string, i: nat, c: char)
    requires i <= |s|
    ensures forall k :: i <= k < i + RunLength(s, i, c) ==> s[k] == c
    ensures i + RunLength(s, i, c) < |s| ==> s[i + RunLength(s, i, c)] != c
    decreases |s| - i
  {
    if i < |s| && s[i] == c {
      RunLengthRun(s, i + 1, c);
    }
  }

  /** The width of the first occurrence of `specifier`: the number of letters
      after its `#` (`#NNN` has width 3). */
  function Width(s: string, specifier: string): (w: nat)
    requires KnownSpecifier(specifier) && Strings.Contains(s, specifier)
    ensures w >= 1 && Strings.Find(s, specifier) + 1 + w <= |s|
  {
    var h := Strings.Find(s, specifier);
    assert s[h + 1] == s[h..h + 2][1];
    RunLength(s, h + 1, specifier[1])
  }

  /** What replaces a specifier of the given width. */
  function Fill(replacement: Replacement, width: nat): string
  {
    if replacement.Number? then Strings.ZeroPadded(replacement.n, width) else Strings.Repeat('_', width)
  }

  /** The result of substituting `replacement` for the first `#R...`/`#N...` run in `s`. */
  function Substituted(s: string, specifier: string, replacement: Replacement): Result<string, Error>
  {
    match ArgumentError(specifier, replacement)
    case Some(e) => Err(e)
    case None =>
      if !Strings.Contains(s, specifier) then Ok(s)
      else
        var h := Strings.Find(s, specifier);
        var w := Width(s, specifier);
        if replacement.Number? && replacement.n > Strings.Pow10(w) - 1 then Err(InvalidArgument(UniqueNameMessage))
        else Ok(s[..h] + Fill(replacement, w) + s[h + 1 + w..])
  }

  /** `_substituteHashSpecifier`: scans the run of specifier letters with a loop. */
  method SubstituteHashSpecifier(s: string, specifier: string, replacement: Replacement)
    returns (r: Result<string, Error>)
    ensures r == Substituted(s, specifier, replacement)
  {
    var bad := ArgumentError(specifier, replacement);
    if bad.Some? {
      return Err(bad.value);
    }
    var hashIdx := Strings.Find(s, specifier);
    if hashIdx < 0 {
      return Ok(s);
    }
    var left := s[..hashIdx];
    var letter := specifier[1];
    assert s[hashIdx + 1] == s[hashIdx..hashIdx + 2][1];
    var lastIdx := hashIdx + 1;
    var finalIdx := |s| - 1;
    while lastIdx < finalIdx && s[lastIdx + 1] == letter
      invariant hashIdx + 1 <= lastIdx <= finalIdx
      invariant RunLength(s, hashIdx + 1, letter) == lastIdx - hashIdx + RunLength(s, lastIdx + 1, letter)
      decreases finalIdx - lastIdx
    {
      lastIdx := lastIdx + 1;
    }
    var width := lastIdx - hashIdx;
    if replacement.Number? && replacement.n > Strings.Pow10(width) - 1 {
      return Err(InvalidArgument(UniqueNameMessage));
    }
    var right := s[lastIdx + 1..];
    var out := left;
    if replacement.Text? {
      out := out + Strings.Repeat('_', width);
    } else {
      out := out + Strings.ZeroPadded(replacement.n, width);
    }
    out := out + right;
    return Ok(out);
  }

  /** A specifier other than `#R`/`#N`, or a replacement that is neither an
      integer nor `"_"`, raises InvalidArgument whatever the string is. */
  lemma SubstituteRejects(s: string, specifier: string, replacement: Replacement)
    requires !KnownSpecifier(specifier) || (replacement.Text? && replacement.t != "_") || replacement.OtherValue?
    ensures Substituted(s, specifier, replacement).Err?
    ensures Substituted(s, specifier, replacement).error.InvalidArgument?
  {
  }

  /** A string without the specifier comes back unchanged. */
  lemma SubstituteAbsent(s: string, specifier: string, replacement: Replacement)
    requires ArgumentError(specifier, replacement).None?
    requires !Strings.Contains(s, specifier)
    ensures Substituted(s, specifier, replacement) == Ok(s)
  {
  }

  /** The run replaced is the `#`, then every repetition of the specifier's
      letter that follows it, and nothing more. */
  lemma SubstitutedRun(s: string, specifier: string)
    requires KnownSpecifier(specifier) && Strings.Contains(s, specifier)
    ensures var h := Strings.Find(s, specifier); var w := Width(s, specifier);
      s[h] == '#' &&
      (forall k :: h + 1 <= k < h + 1 + w ==> s[k] == specifier[1]) &&
      (h + 1 + w < |s| ==> s[h + 1 + w] != specifier[1])
  {
    var h := Strings.Find(s, specifier);
    SpecifierAt(s, specifier);
    RunLengthRun(s, h + 1, specifier[1]);
  }

  /** The first occurrence of a specifier is a `#` followed by its letter. */
  lemma SpecifierAt(s: string, specifier: string)
    requires KnownSpecifier(specifier) && Strings.Contains(s, specifier)
    ensures var h := Strings.Find(s, specifier);
      h + 2 <= |s| && s[h] == '#' && s[h + 1] == specifier[1]
  {
    var h := Strings.Find(s, specifier);
    assert s[h..h + 2] == specifier;
    assert s[h] == s[h..h + 2][0];
    assert s[h + 1] == s[h..h + 2][1];
  }

  /** A number that fits the width becomes exactly `width` digits that read
      back as the number; the rest of the string is kept, so the result is
      one character shorter (the `#` is dropped). */
  lemma SubstituteNumber(s: string, specifier: string, n: nat)
    requires KnownSpecifier(specifier) && Strings.Contains(s, specifier)
    requires n < Strings.Pow10(Width(s, specifier))
    ensures var h := Strings.Find(s, specifier); var w := Width(s, specifier);
      var r := Substituted(s, specifier, Number(n));
      r.Ok? && |r.value| == |s| - 1 &&
      r.value[..h] == s[..h] && r.value[h + w..] == s[h + 1 + w..] &&
      (var d := r.value[h..h + w];
       (forall k :: 0 <= k < |d| ==> Strings.IsDigit(d[k])) && Strings.DecimalValue(d) == n)
  {
    var h := Strings.Find(s, specifier);
    var w := Width(s, specifier);
    Strings.ZeroPaddedExact(n, w);
    var digits := Strings.ZeroPadded(n, w);
    assert Substituted(s, specifier, Number(n)) == Ok(s[..h] + digits + s[h + 1 + w..]);
    Splice(s[..h], digits, s[h + 1 + w..]);
  }

  /** The three parts of `a + mid + b` are found where they were put. */
  lemma Splice(a: string, mid: string, b: string)
    ensures var o := a + mid + b;
      |o| == |a| + |mid| + |b| && o[..|a|] == a &&
      o[|a|..|a| + |mid|] == mid && o[|a| + |mid|..] == b
  {
    var o := a + mid + b;
    assert o[..|a|] == a;
    assert o[|a|..|a| + |mid|] == mid;
    assert o[|a| + |mid|..] == b;
  }

  /** The `"_"` replacement puts one `_` per letter of the run. */
  lemma SubstituteUnderscore(s: string, specifier: string)
    requires KnownSpecifier(specifier) && Strings.Contains(s, specifier)
    ensures var h := Strings.Find(s, specifier); var w := Width(s, specifier);
      var r := Substituted(s, specifier, Text("_"));
      r.Ok? && |r.value| == |s| - 1 &&
      r.value[..h] == s[..h] && r.value[h + w..] == s[h + 1 + w..] &&
      (forall k :: h <= k < h + w ==> r.value[k] == '_')
  {
    var h := Strings.Find(s, specifier);
    var w := Width(s, specifier);
    var out := s[..h] + Strings.Repeat('_', w) + s[h + 1 + w..];
    assert Substituted(s, specifier, Text("_")) == Ok(out);
    assert out[..h] == s[..h];
    assert out[h + w..] == s[h + 1 + w..];
  }

  /** A number that does not fit in the width raises 'Unable to generate unique host name'. */
  lemma SubstituteTooLarge(s: string, specifier: string, n: int)
    requires KnownSpecifier(specifier) && Strings.Contains(s, specifier)
    requires n >= Strings.Pow10(Width(s, specifier))
    ensures Substituted(s, specifier, Number(n)) == Err(InvalidArgument(UniqueNameMessage))
  {
  }

  // ---------------------------------------------------------------------
  // Host-name helpers
  // ---------------------------------------------------------------------

  /** `get_host_name`: the text before the first '.'. */
  function GetHostName(name: string): (r: string)
    ensures Strings.StartsWith(name, r) && '.' !in r
    ensures |r| < |name| ==> name[|r|] == '.'
  {
    var i := Strings.Find(name, ".");
    if i < 0 then
      assert forall k :: 0 <= k < |name| ==> name[k] != '.' by {
        forall k | 0 <= k < |name| ensures name[k] != '.' {
          assert !Strings.OccursAt(name, ".", k);
          assert name[k..k + 1] == [name[k]];
        }
      }
      name
    else
      assert name[i] == name[i..i + 1][0];
      assert forall k :: 0 <= k < i ==> name[k] != '.' by {
        forall k | 0 <= k < i ensures name[k] != '.' {
          assert !Strings.OccursAt(name, ".", k);
          assert name[k..k + 1] == [name[k]];
        }
      }
      name[..i]
  }

  /** The host name of `host.zone` is `host`, for a host without a dot. */
  lemma GetHostNameOfQualified(host: string, zone: string)
    requires '.' !in host
    ensures GetHostName(host + "." + zone) == host
  {
    var q := host + "." + zone;
    var r := GetHostName(q);
    assert q[|host|] == '.';
    assert forall k :: 0 <= k < |host| ==> q[k] == host[k];
    assert q[..|host|] == host;
  }

  /** `strip_random_node_name_suffix`: `name[:-6]`. */
  function StripRandomSuffix(name: string): string
  {
    if |name| <= 6 then "" else name[..|name| - 6]
  }

  /** What `random.sample(string.ascii_lowercase, 5)` can produce. */
  predicate IsRandomSuffix(s: string)
  {
    |s| == 5 &&
    (forall i :: 0 <= i < |s| ==> 'a' <= s[i] <= 'z') &&
    (forall i, j :: 0 <= i < j < |s| ==> s[i] != s[j])
  }

  /** Stripping undoes appending '-' and a five-letter suffix. */
  lemma StripRandomSuffixRoundTrip(name: string, suffix: string)
    requires |suffix| == 5
    ensures StripRandomSuffix(name + "-" + suffix) == name
  {
    var full := name + "-" + suffix;
    if |full| > 6 {
      assert full[..|full| - 6] == name;
    }
  }

  /** The name stored in the session: with '-' and the suffix when randomized. */
  function WithSuffix(name: string, randomSuffix: Option<string>): string
  {
    if randomSuffix.Some? then name + "-" + randomSuffix.value else name
  }

  /** The name returned: qualified with the DNS zone when one is given. */
  function WithZone(name: string, dnsZone: Option<string>): string
  {
    if Truthy(dnsZone) then name + "." + dnsZone.value else name
  }

  /** Every name already in use: host names from the database (suffix
      stripped when randomizing) followed by the session's names. */
  function Taken(dbNames: seq<string>, session: seq<string>, randomize: bool): (t: seq<string>)
    ensures |t| == |dbNames| + |session|
    ensures forall i :: 0 <= i < |dbNames| ==>
      t[i] == (if randomize then StripRandomSuffix(GetHostName(dbNames[i])) else GetHostName(dbNames[i]))
    ensures forall i :: 0 <= i < |session| ==>
      t[|dbNames| + i] == (if randomize then StripRandomSuffix(session[i]) else session[i])
  {
    if randomize then
      seq(|dbNames|, i requires 0 <= i < |dbNames| => StripRandomSuffix(GetHostName(dbNames[i]))) +
      seq(|session|, i requires 0 <= i < |session| => StripRandomSuffix(session[i]))
    else
      seq(|dbNames|, i requires 0 <= i < |dbNames| => GetHostName(dbNames[i])) + session
  }

  // ---------------------------------------------------------------------
  // First free slot
  // ---------------------------------------------------------------------

  function SlotName(base: string, slot: nat): Result<string, Error>
  {
    Substituted(base, "#N", Number(slot))
  }

  /** A slot whose substitution succeeds fits the template's width. */
  lemma SlotFits(base: string, slot: nat)
    requires Strings.Contains(base, "#N") && SlotName(base, slot).Ok?
    ensures slot < Strings.Pow10(Width(base, "#N"))
  {
  }

  /** The first name from slot `slot` up that is not taken, or the error the
      template raises once the slots run past its width. */
  function FirstFreeSlot(base: string, taken: seq<string>, slot: nat): Result<string, Error>
    requires slot >= 1 && Strings.Contains(base, "#N")
    decreases Strings.Pow10(Width(base, "#N")) - slot
  {
    match SlotName(base, slot)
    case Err(e) => Err(e)
    case Ok(name) =>
      SlotFits(base, slot);
      if name !in taken then Ok(name) else FirstFreeSlot(base, taken, slot + 1)
  }

  /** A name found is free, and every slot before it gave a taken name. */
  lemma {:induction false} FirstFreeSlotFound(base: string, taken: seq<string>, slot: nat)
    requires slot >= 1 && Strings.Contains(base, "#N")
    requires FirstFreeSlot(base, taken, slot).Ok?
    ensures var name := FirstFreeSlot(base, taken, slot).value;
      name !in taken &&
      exists k :: slot <= k && SlotName(base, k) == Ok(name) &&
        forall j :: slot <= j < k ==> SlotName(base, j).Ok? && SlotName(base, j).value in taken
    decreases Strings.Pow10(Width(base, "#N")) - slot
  {
    var name := FirstFreeSlot(base, taken, slot).value;
    var here := SlotName(base, slot);
    SlotFits(base, slot);
    if here.value !in taken {
      assert SlotName(base, slot) == Ok(name);
    } else {
      FirstFreeSlotFound(base, taken, slot + 1);
      var k :| slot + 1 <= k && SlotName(base, k) == Ok(name) &&
        forall j :: slot + 1 <= j < k ==> SlotName(base, j).Ok? && SlotName(base, j).value in taken;
      assert slot <= k && SlotName(base, k) == Ok(name);
    }
  }

  /** A search that fails has found every slot of the template's width taken. */
  lemma {:induction false} FirstFreeSlotExhausted(base: string, taken: seq<string>, slot: nat)
    requires slot >= 1 && Strings.Contains(base, "#N")
    requires FirstFreeSlot(base, taken, slot).Err?
    ensures FirstFreeSlot(base, taken, slot).error == InvalidArgument(UniqueNameMessage)
    ensures forall j :: slot <= j < Strings.Pow10(Width(base, "#N")) ==>
      SlotName(base, j).Ok? && SlotName(base, j).value in taken
    decreases Strings.Pow10(Width(base, "#N")) - slot
  {
    var w := Width(base, "#N");
    if SlotName(base, slot).Ok? {
      SlotFits(base, slot);
      FirstFreeSlotExhausted(base, taken, slot + 1);
    } else {
      assert slot >= Strings.Pow10(w);
    }
  }

  /** The base name once `#R` is substituted. */
  function BaseName(nameFormat: string, rack: Option<Replacement>): Result<string, Error>
  {
    if rack.None? then Ok(nameFormat) else Substituted(nameFormat, "#R", rack.value)
  }

  /** The slot search, with a template that has no `#N` giving the template
      itself or failing when that name is taken. */
  function FreeName(base: string, taken: seq<string>): Result<string, Error>
  {
    if !Strings.Contains(base, "#N") then
      if base in taken then Err(InvalidArgument(UniqueNameMessage)) else Ok(base)
    else FirstFreeSlot(base, taken, 1)
  }

  /** The `for slot in itertools.count(1)` loop, ending when the template
      has no `#N` and its name is taken instead of running forever. */
  method FreeNameSearch(base: string, taken: seq<string>) returns (r: Result<string, Error>)
    ensures r == FreeName(base, taken)
  {
    if !Strings.Contains(base, "#N") {
      if base in taken {
        return Err(InvalidArgument(UniqueNameMessage));
      }
      return Ok(base);
    }
    var slot := 1;
    while true
      invariant 1 <= slot <= Strings.Pow10(Width(base, "#N"))
      invariant FirstFreeSlot(base, taken, slot) == FirstFreeSlot(base, taken, 1)
      decreases Strings.Pow10(Width(base, "#N")) - slot
    {
      var t := SubstituteHashSpecifier(base, "#N", Number(slot));
      if t.Err? {
        return Err(t.error);
      }
      SlotFits(base, slot);
      if t.value !in taken {
        return Ok(t.value);
      }
      slot := slot + 1;
    }
  }

  /** The error re-raised with the format appended. */
  function Reformat(e: Error, nameFormat: string): Error
  {
    InvalidArgument(e.msg + " (format=[" + nameFormat + "])")
  }

  /** The host name `generate_node_name` picks, before the suffix and the zone. */
  function HostNameFor(nameFormat: string, rack: Option<Replacement>, taken: seq<string>): Result<string, Error>
  {
    match BaseName(nameFormat, rack)
    case Err(e) => Err(Reformat(e, nameFormat))
    case Ok(base) =>
      match FreeName(base, taken)
      case Err(e) => Err(Reformat(e, nameFormat))
      case Ok(name) => Ok(name)
  }

  /** A generated host name is never one already in use. */
  lemma HostNameNotTaken(nameFormat: string, rack: Option<Replacement>, taken: seq<string>)
    requires HostNameFor(nameFormat, rack, taken).Ok?
    ensures HostNameFor(nameFormat, rack, taken).value !in taken
  {
    var base := BaseName(nameFormat, rack).value;
    if Strings.Contains(base, "#N") {
      FirstFreeSlotFound(base, taken, 1);
    }
  }

  /** With a `#N` template the name is that of the smallest slot from 1 whose name is free. */
  lemma HostNameSmallestSlot(nameFormat: string, rack: Option<Replacement>, taken: seq<string>)
    requires HostNameFor(nameFormat, rack, taken).Ok?
    requires Strings.Contains(BaseName(nameFormat, rack).value, "#N")
    ensures var base := BaseName(nameFormat, rack).value;
      var name := HostNameFor(nameFormat, rack, taken).value;
      exists k :: 1 <= k && SlotName(base, k) == Ok(name) &&
        forall j :: 1 <= j < k ==> SlotName(base, j).Ok? && SlotName(base, j).value in taken
  {
    FirstFreeSlotFound(BaseName(nameFormat, rack).value, taken, 1);
  }

  /** Once a name is recorded in the session, the next request cannot pick it again. */
  lemma NextNameDiffers(nameFormat: string, rack: Option<Replacement>, dbNames: seq<string>,
                        session: seq<string>, randomSuffix: Option<string>)
    requires randomSuffix.Some? ==> IsRandomSuffix(randomSuffix.value)
    requires HostNameFor(nameFormat, rack, Taken(dbNames, session, randomSuffix.Some?)).Ok?
    ensures var name := HostNameFor(nameFormat, rack, Taken(dbNames, session, randomSuffix.Some?)).value;
      var session' := session + [WithSuffix(name, randomSuffix)];
      HostNameFor(nameFormat, rack, Taken(dbNames, session', randomSuffix.Some?)) != Ok(name)
  {
    var name := HostNameFor(nameFormat, rack, Taken(dbNames, session, randomSuffix.Some?)).value;
    var session' := session + [WithSuffix(name, randomSuffix)];
    var t := Taken(dbNames, session', randomSuffix.Some?);
    if randomSuffix.Some? {
      StripRandomSuffixRoundTrip(name, randomSuffix.value);
    }
    assert t[|dbNames| + |session|] == name;
    if HostNameFor(nameFormat, rack, t).Ok? {
      HostNameNotTaken(nameFormat, rack, t);
    }
  }

  /** The slot loop as written: `itertools.count(1)` with no way out but a
      free name or an exception. `None` means it has not finished after
      `fuel` iterations. */
  function SlotSearchAsWritten(base: string, taken: seq<string>, slot: nat, fuel: nat): Option<Result<string, Error>>
    decreases fuel
  {
    if fuel == 0 then None
    else
      match SlotName(base, slot)
      case Err(e) => Some(Err(e))
      case Ok(name) => if name !in taken then Some(Ok(name)) else SlotSearchAsWritten(base, taken, slot + 1, fuel - 1)
  }

  /** With no `#N` in the template and that name taken, the loop as written
      never finishes, however many iterations it is given. */
  lemma {:induction false} SlotSearchNeverEnds(base: string, taken: seq<string>, slot: nat, fuel: nat)
    requires !Strings.Contains(base, "#N") && base in taken
    ensures SlotSearchAsWritten(base, taken, slot, fuel) == None
    decreases fuel
  {
    if fuel > 0 {
      assert SlotName(base, slot) == Ok(base);
      SlotSearchNeverEnds(base, taken, slot + 1, fuel - 1);
    }
  }

  /** With `#N` in the template, the loop as written ends with the corrected search's answer. */
  lemma {:induction false} SlotSearchAgrees(base: string, taken: seq<string>, slot: nat, fuel: nat)
    requires slot >= 1 && Strings.Contains(base, "#N")
    requires slot <= Strings.Pow10(Width(base, "#N")) < slot + fuel
    ensures SlotSearchAsWritten(base, taken, slot, fuel) == Some(FirstFreeSlot(base, taken, slot))
    decreases fuel
  {
    if SlotName(base, slot).Ok? {
      SlotFits(base, slot);
      if SlotName(base, slot).value in taken {
        SlotSearchAgrees(base, taken, slot + 1, fuel - 1);
      }
    }
  }

  // ---------------------------------------------------------------------
  // IPv4 allocation
  // ---------------------------------------------------------------------

  const AddressSpace: int := 0x1_0000_0000

  /** A provisioning network as the allocator sees it; `prefix` is the netmask's length. */
  datatype Network = Network(address: int, prefix: nat, usingDhcp: bool,
                             startIp: Option<int>, increment: int)

  /** The stepping loop: up to `steps` candidates `ip, ip + inc, …`, stopping at the first unused one. */
  function Probe(ip: int, inc: int, used: seq<int>, steps: nat): Result<int, Error>
    decreases steps
  {
    if steps == 0 then Err(InvalidArgument(ExhaustedMessage))
    else if ip !in used then Ok(ip)
    else if !(0 <= ip + inc < AddressSpace) then Err(AddressValueError("address out of range"))
    else Probe(ip + inc, inc, used, steps - 1)
  }

  /** The `k`-th address the loop tries: `start + k * inc`. */
  function Candidate(start: int, inc: int, k: nat): int
  {
    if k == 0 then start else Candidate(start, inc, k - 1) + inc
  }

  lemma {:induction false} CandidateClosedForm(start: int, inc: int, k: nat)
    ensures Candidate(start, inc, k) == start + k * inc
  {
    if k > 0 {
      CandidateClosedForm(start, inc, k - 1);
      assert k * inc == (k - 1) * inc + inc;
    }
  }

  /** Starting one step later is the same walk shifted by one. */
  lemma {:induction false} CandidateShift(start: int, inc: int, k: nat)
    ensures Candidate(start + inc, inc, k) == Candidate(start, inc, k + 1)
  {
    if k > 0 {
      CandidateShift(start, inc, k - 1);
    }
  }

  /** Every candidate before the `k`-th is in use. */
  predicate AllUsed(start: int, inc: int, used: seq<int>, k: nat)
  {
    forall j: nat :: j < k ==> Candidate(start, inc, j) in used
  }

  /** A probe that succeeds returns an unused candidate, every earlier candidate being used. */
  lemma {:induction false} ProbeFound(ip: int, inc: int, used: seq<int>, steps: nat, x: int)
    requires Probe(ip, inc, used, steps) == Ok(x)
    ensures x !in used
    ensures exists k: nat :: k < steps && x == Candidate(ip, inc, k) && AllUsed(ip, inc, used, k)
    decreases steps
  {
    if ip !in used {
      assert x == Candidate(ip, inc, 0);
      assert AllUsed(ip, inc, used, 0);
    } else {
      var next := ip + inc;
      ProbeFound(next, inc, used, steps - 1, x);
      var k: nat :| k < steps - 1 && x == Candidate(next, inc, k) && AllUsed(next, inc, used, k);
      CandidateShift(ip, inc, k);
      forall j: nat | j < k + 1 ensures Candidate(ip, inc, j) in used {
        if j > 0 {
          CandidateShift(ip, inc, j - 1);
        }
      }
      assert AllUsed(ip, inc, used, k + 1);
    }
  }

  /** Conversely, the first unused candidate within the step bound is the one returned. */
  lemma {:induction false} ProbeFirst(ip: int, inc: int, used: seq<int>, steps: nat, k: nat)
    requires k < steps && Candidate(ip, inc, k) !in used
    requires AllUsed(ip, inc, used, k)
    requires forall j: nat :: 1 <= j <= k ==> 0 <= Candidate(ip, inc, j) < AddressSpace
    ensures Probe(ip, inc, used, steps) == Ok(Candidate(ip, inc, k))
    decreases k
  {
    if k > 0 {
      assert Candidate(ip, inc, 0) in used;
      assert 0 <= Candidate(ip, inc, 1) < AddressSpace;
      var next := ip + inc;
      forall j: nat | j < k - 1 ensures Candidate(next, inc, j) in used {
        CandidateShift(ip, inc, j);
      }
      forall j: nat | 1 <= j <= k - 1 ensures 0 <= Candidate(next, inc, j) < AddressSpace {
        CandidateShift(ip, inc, j);
      }
      CandidateShift(ip, inc, k - 1);
      ProbeFirst(next, inc, used, steps - 1, k - 1);
    }
  }

  /** The network checks and the first candidate, up to the stepping loop. */
  function ProbeNetwork(n: Network, used: seq<int>): Result<int, Error>
  {
    if n.prefix > 32 then Err(NetworkValueError("invalid netmask"))
    else
      var count := Strings.Pow2(32 - n.prefix);
      if !(0 <= n.address < AddressSpace) || n.address % count != 0 then Err(NetworkValueError("invalid network"))
      else if n.startIp.None? && count < 2 then Err(InvalidArgument(ExhaustedMessage))
      else if n.startIp.Some? && !(0 <= n.startIp.value < AddressSpace) then Err(AddressValueError("invalid start address"))
      else Probe(FirstAddress(n), StepOf(n), used, count)
  }

  function FirstAddress(n: Network): int
  {
    if n.startIp.None? then n.address + 1 else n.startIp.value
  }

  function StepOf(n: Network): int
  {
    if n.increment != 0 then n.increment else 1
  }

  function Broadcast(n: Network): int
    requires n.prefix <= 32
  {
    n.address + Strings.Pow2(32 - n.prefix) - 1
  }

  /** `generate_provisioning_ip_address` as written: the stepped address is
      refused only when it is the broadcast address. */
  function AllocationAsWritten(network: Option<Network>, used: seq<int>): Result<Option<int>, Error>
  {
    if network.None? || network.value.usingDhcp then Ok(None)
    else
      match ProbeNetwork(network.value, used)
      case Err(e) => Err(e)
      case Ok(ip) => if ip == Broadcast(network.value) then Err(InvalidArgument(ExhaustedMessage)) else Ok(Some(ip))
  }

  /** The allocation with the stepped address also refused when it has left the network. */
  function Allocation(network: Option<Network>, used: seq<int>): Result<Option<int>, Error>
  {
    if network.None? || network.value.usingDhcp then Ok(None)
    else
      match ProbeNetwork(network.value, used)
      case Err(e) => Err(e)
      case Ok(ip) =>
        if ip == Broadcast(network.value) || !(network.value.address <= ip <= Broadcast(network.value))
        then Err(InvalidArgument(ExhaustedMessage))
        else Ok(Some(ip))
  }

  /** The address handed out as written is unused, not the broadcast
      address, and the first unused address `start + k * increment`; it may
      lie outside the network. */
  lemma AllocationAsWrittenFirstFree(network: Option<Network>, used: seq<int>)
    requires AllocationAsWritten(network, used).Ok? && AllocationAsWritten(network, used).value.Some?
    ensures var n := network.value; var ip := AllocationAsWritten(network, used).value.value;
      n.prefix <= 32 && ip !in used && ip != Broadcast(n) &&
      exists k: nat :: k < Strings.Pow2(32 - n.prefix) && ip == Candidate(FirstAddress(n), StepOf(n), k) &&
        AllUsed(FirstAddress(n), StepOf(n), used, k)
  {
    var n := network.value;
    var ip := AllocationAsWritten(network, used).value.value;
    assert ProbeNetwork(n, used) == Probe(FirstAddress(n), StepOf(n), used, Strings.Pow2(32 - n.prefix));
    ProbeFound(FirstAddress(n), StepOf(n), used, Strings.Pow2(32 - n.prefix), ip);
  }

  /** The two allocations differ only where the walk has left the network:
      whatever the corrected allocation returns, the code as written returns
      too, and an address the code hands out inside the network is the
      corrected one. */
  lemma AllocationAgreesInside(network: Option<Network>, used: seq<int>)
    ensures Allocation(network, used).Ok? ==> AllocationAsWritten(network, used) == Allocation(network, used)
    ensures AllocationAsWritten(network, used).Ok? && AllocationAsWritten(network, used).value.Some? &&
            network.value.prefix <= 32 &&
            network.value.address <= AllocationAsWritten(network, used).value.value <= Broadcast(network.value) ==>
      Allocation(network, used) == AllocationAsWritten(network, used)
  {
  }

  /** An address the code hands out and reserves is not handed out again. */
  lemma AllocationAsWrittenFresh(network: Option<Network>, used: seq<int>)
    requires AllocationAsWritten(network, used).Ok? && AllocationAsWritten(network, used).value.Some?
    ensures var ip := AllocationAsWritten(network, used).value.value;
      AllocationAsWritten(network, used + [ip]) != Ok(Some(ip))
  {
    var ip := AllocationAsWritten(network, used).value.value;
    var used' := used + [ip];
    assert ip in used';
    if AllocationAsWritten(network, used').Ok? && AllocationAsWritten(network, used').value.Some? {
      AllocationAsWrittenFirstFree(network, used');
    }
  }

  /** No network, or a network served by an external DHCP server, gets no address. */
  lemma AllocationDhcp(network: Option<Network>, used: seq<int>)
    requires network.None? || network.value.usingDhcp
    ensures Allocation(network, used) == Ok(None)
  {
  }

  /** An address handed out is unused, inside the network, not its broadcast
      address, and the first unused address `start + k * increment`. */
  lemma AllocationFirstFree(network: Option<Network>, used: seq<int>)
    requires Allocation(network, used).Ok? && Allocation(network, used).value.Some?
    ensures var n := network.value; var ip := Allocation(network, used).value.value;
      n.prefix <= 32 && ip !in used && n.address <= ip < Broadcast(n) &&
      exists k: nat :: k < Strings.Pow2(32 - n.prefix) && ip == Candidate(FirstAddress(n), StepOf(n), k) &&
        AllUsed(FirstAddress(n), StepOf(n), used, k)
  {
    var n := network.value;
    var ip := Allocation(network, used).value.value;
    assert ProbeNetwork(n, used) == Probe(FirstAddress(n), StepOf(n), used, Strings.Pow2(32 - n.prefix));
    ProbeFound(FirstAddress(n), StepOf(n), used, Strings.Pow2(32 - n.prefix), ip);
  }

  /** An address handed out and reserved is never handed out again. */
  lemma AllocationFresh(network: Option<Network>, used: seq<int>)
    requires Allocation(network, used).Ok? && Allocation(network, used).value.Some?
    ensures var ip := Allocation(network, used).value.value;
      Allocation(network, used + [ip]) != Ok(Some(ip))
  {
    var ip := Allocation(network, used).value.value;
    var used' := used + [ip];
    assert ip in used';
    if Allocation(network, used').Ok? && Allocation(network, used').value.Some? {
      AllocationFirstFree(network, used');
    }
  }

  /** 10.0.0.0/30 with increment 3 and 10.0.0.1 in use: the loop as written
      steps over the broadcast address 10.0.0.3 and hands out 10.0.0.4,
      which is outside the network; the corrected allocation refuses. */
  lemma AllocationLeavesNetwork()
    ensures var n := Network(167772160, 30, false, None, 3);
      AllocationAsWritten(Some(n), [167772161]) == Ok(Some(167772164)) &&
      167772164 > Broadcast(n) &&
      Allocation(Some(n), [167772161]) == Err(InvalidArgument(ExhaustedMessage))
  {
    assert Strings.Pow2(2) == 4;
  }

  // ---------------------------------------------------------------------
  // MAC addresses
  // ---------------------------------------------------------------------

  predicate IsHex(c: char)
  {
    ('0' <= c <= '9') || ('a' <= c <= 'f') || ('A' <= c <= 'F')
  }

  predicate IsMacSeparator(c: char)
  {
    c == ':' || c == '-'
  }

  /** Matching `([0-9A-Fa-f]{2}[:-]?){groups}[0-9A-Fa-f]{2}` from index `i`:
      the index just after the match. A separator is always taken when
      present, since a hex pair cannot start with one. */
  function MacBody(s: string, i: nat, groups: nat): Option<nat>
    decreases groups
  {
    if !(i + 2 <= |s| && IsHex(s[i]) && IsHex(s[i + 1])) then None
    else if groups == 0 then Some(i + 2)
    else MacBody(s, if i + 2 < |s| && IsMacSeparator(s[i + 2]) then i + 3 else i + 2, groups - 1)
  }

  /** `.*$`: no line break except possibly a final one. */
  predicate NoInnerNewline(s: string)
  {
    forall k :: 0 <= k < |s| - 1 ==> s[k] != '\n'
  }

  /** `re.match(r'^([0-9A-Fa-f]{2}[:-]?){5}[0-9A-Fa-f]{2}([:-]?.*)?$', s)`. */
  predicate MacMatches(s: string)
  {
    var end := MacBody(s, 0, 5);
    end.Some? && end.value <= |s| && NoInnerNewline(s[end.value..])
  }

  /** Python slicing `s[a:b]` with the bounds clamped. */
  function Slice(s: string, a: nat, b: nat): string
  {
    if a >= |s| || b <= a then "" else s[a..if b <= |s| then b else |s|]
  }

  /** Six colon-separated pairs cut from the first twelve characters. */
  function Grouped(m: string): string
  {
    Slice(m, 0, 2) + ":" + Slice(m, 2, 4) + ":" + Slice(m, 4, 6) + ":" +
    Slice(m, 6, 8) + ":" + Slice(m, 8, 10) + ":" + Slice(m, 10, 12)
  }

  /** The normalisation: dashes become colons (and the whole text lower case),
      and a text without colons is cut into six colon-separated pairs. */
  function NormalizedMac(mac: string): string
  {
    var m := if '-' in mac then Strings.Lower(Strings.ReplaceChar(mac, '-', ':')) else mac;
    if ':' !in m then Grouped(m) else m
  }

  /** A dashed address becomes the same text with colons, in lower case. */
  lemma NormalizedMacDashes(mac: string)
    requires '-' in mac
    ensures var r := NormalizedMac(mac);
      |r| == |mac| && '-' !in r && ':' in r &&
      forall i :: 0 <= i < |mac| ==> r[i] == Strings.LowerChar(if mac[i] == '-' then ':' else mac[i])
  {
    var i :| 0 <= i < |mac| && mac[i] == '-';
    var m := Strings.Lower(Strings.ReplaceChar(mac, '-', ':'));
    assert m[i] == ':';
  }

  /** The six two-digit pieces of a bare twelve-digit address. */
  function Pairs(mac: string): seq<string>
    requires |mac| == 12
  {
    [mac[0..2], mac[2..4], mac[4..6], mac[6..8], mac[8..10], mac[10..12]]
  }

  /** Twelve hex digits match the address pattern. */
  lemma BareMacMatches(mac: string)
    requires |mac| == 12 && forall i :: 0 <= i < 12 ==> IsHex(mac[i])
    ensures MacMatches(mac)
  {
    assert MacBody(mac, 10, 0) == Some(12);
    assert MacBody(mac, 8, 1) == Some(12);
    assert MacBody(mac, 6, 2) == Some(12);
    assert MacBody(mac, 4, 3) == Some(12);
    assert MacBody(mac, 2, 4) == Some(12);
    assert MacBody(mac, 0, 5) == Some(12);
  }

  /** The grouping of twelve characters is the join of their pairs. */
  lemma GroupedJoin(mac: string)
    requires |mac| == 12
    ensures Grouped(mac) == Strings.Join(Pairs(mac), ":")
  {
    var p := Pairs(mac);
    assert p[5..] == [p[5]];
    assert p[4..][1..] == p[5..];
    assert p[3..][1..] == p[4..];
    assert p[2..][1..] == p[3..];
    assert p[1..][1..] == p[2..];
    var j5 := Strings.Join(p[5..], ":");
    var j4 := Strings.Join(p[4..], ":");
    var j3 := Strings.Join(p[3..], ":");
    var j2 := Strings.Join(p[2..], ":");
    var j1 := Strings.Join(p[1..], ":");
    assert j4 == p[4] + ":" + j5;
    assert j3 == p[3] + ":" + j4;
    assert j2 == p[2] + ":" + j3;
    assert j1 == p[1] + ":" + j2;
    assert Strings.Join(p, ":") == p[0] + ":" + j1;
  }

  /** Twelve hex digits match, and become six colon-separated pairs: the
      normalised text splits on ':' into exactly those pairs. */
  lemma NormalizedMacPairs(mac: string)
    requires |mac| == 12 && forall i :: 0 <= i < 12 ==> IsHex(mac[i])
    ensures MacMatches(mac)
    ensures |NormalizedMac(mac)| == 17
    ensures Strings.Split(NormalizedMac(mac), ":") == Pairs(mac)
  {
    BareMacMatches(mac);
    assert '-' !in mac && ':' !in mac by {
      forall i | 0 <= i < 12 ensures mac[i] != '-' && mac[i] != ':' {
        assert IsHex(mac[i]);
      }
    }
    assert NormalizedMac(mac) == Grouped(mac);
    GroupedJoin(mac);
    var p := Pairs(mac);
    forall k | 0 <= k < |p| ensures ':' !in p[k] {
      assert p[k] == mac[2 * k..2 * k + 2];
    }
    Strings.SplitJoin(p, ':');
  }

  /** A character missing from a text is missing from every slice of it. */
  lemma SliceAvoids(s: string, a: nat, b: nat, c: char)
    requires c !in s
    ensures c !in Slice(s, a, b)
  {
    if !(a >= |s| || b <= a) {
      var t := Slice(s, a, b);
      forall i | 0 <= i < |t| ensures t[i] != c {
        assert t[i] == s[a + i];
      }
    }
  }

  /** Grouping a text without dashes gives a text with colons and no dashes. */
  lemma GroupedForm(m: string)
    requires '-' !in m
    ensures ':' in Grouped(m) && '-' !in Grouped(m)
  {
    SliceAvoids(m, 0, 2, '-');
    SliceAvoids(m, 2, 4, '-');
    SliceAvoids(m, 4, 6, '-');
    SliceAvoids(m, 6, 8, '-');
    SliceAvoids(m, 8, 10, '-');
    SliceAvoids(m, 10, 12, '-');
    assert Grouped(m)[|Slice(m, 0, 2)|] == ':';
  }

  /** Normalising twice changes nothing. */
  lemma NormalizedMacIdempotent(mac: string)
    ensures NormalizedMac(NormalizedMac(mac)) == NormalizedMac(mac)
  {
    if '-' in mac {
      NormalizedMacDashes(mac);
    } else if ':' !in mac {
      GroupedForm(mac);
    }
  }

  /** A NIC already recorded for a node that has this MAC address. */
  datatype KnownNic = KnownNic(mac: string, networkId: int)

  /** `_validate_mac_address`: empty or malformed addresses are refused, the
      address is normalised, and one already on the same network is refused. */
  function ValidateMacAddress(mac: string, networkId: int, networkLabel: string, known: seq<KnownNic>): (r: Result<string, Error>)
    ensures r.Err? && r.error.InvalidMacAddress? <==> mac == "" || !MacMatches(mac)
    ensures r.Err? && r.error.MacAddressAlreadyExists? <==>
      mac != "" && MacMatches(mac) &&
      exists i :: 0 <= i < |known| && known[i] == KnownNic(NormalizedMac(mac), networkId)
    ensures r.Ok? ==> r.value == NormalizedMac(mac) && MacMatches(mac)
  {
    if mac == "" then Err(InvalidMacAddress("MAC address is empty/undefined"))
    else if !MacMatches(mac) then Err(InvalidMacAddress("MAC address [" + mac + "] is invalid/malformed"))
    else
      var m := NormalizedMac(mac);
      if exists i :: 0 <= i < |known| && known[i] == KnownNic(m, networkId) then
        Err(MacAddressAlreadyExists("The MAC address [" + m + "] already exists on the network [" + networkLabel + "]"))
      else Ok(m)
  }

  // ---------------------------------------------------------------------
  // NIC boot flag
  // ---------------------------------------------------------------------

  /** Whether a NIC gets its hardware-profile network: it has an address, or
      the network is not a provisioning one. `networkType` is `None` when the
      profile has no network for this NIC. */
  function NicGetsNetwork(networkType: Option<string>, ip: Option<string>): bool
  {
    networkType.Some? && (Truthy(ip) || networkType.value != "provision")
  }

  /** The boot flag: the NIC's network is a provisioning network. */
  function NicBoot(networkType: Option<string>, ip: Option<string>): (b: bool)
    ensures b <==> networkType == Some("provision") && Truthy(ip)
  {
    NicGetsNetwork(networkType, ip) && networkType.value == "provision"
  }

  // ---------------------------------------------------------------------
  // Process-wide state
  // ---------------------------------------------------------------------

  /** The names and addresses handed out so far (`session_nodes`, `reservedIps`). */
  class AddHostServer {
    var sessionNodes: seq<string>
    var reservedIps: seq<int>

    constructor ()
      ensures sessionNodes == [] && reservedIps == []
    {
      sessionNodes := [];
      reservedIps := [];
    }

    /** `generate_node_name`: `dbNames` are the node names the database
        returns for the name filter; `randomSuffix` is the five random
        letters when randomizing. */
    method GenerateNodeName(nameFormat: string, rack: Option<Replacement>, randomSuffix: Option<string>,
                            dnsZone: Option<string>, dbNames: seq<string>)
      returns (r: Result<string, Error>)
      requires randomSuffix.Some? ==> IsRandomSuffix(randomSuffix.value)
      modifies this
      ensures reservedIps == old(reservedIps)
      ensures var h := HostNameFor(nameFormat, rack, Taken(dbNames, old(sessionNodes), randomSuffix.Some?));
        if h.Err? then (r == Err(h.error) && sessionNodes == old(sessionNodes))
        else (sessionNodes == old(sessionNodes) + [WithSuffix(h.value, randomSuffix)] &&
          r == Ok(WithZone(WithSuffix(h.value, randomSuffix), dnsZone)))
    {
      var base := nameFormat;
      if rack.Some? {
        var b := SubstituteHashSpecifier(nameFormat, "#R", rack.value);
        if b.Err? {
          return Err(Reformat(b.error, nameFormat));
        }
        base := b.value;
      }
      var taken := Taken(dbNames, sessionNodes, randomSuffix.Some?);
      var found := FreeNameSearch(base, taken);
      if found.Err? {
        return Err(Reformat(found.error, nameFormat));
      }
      var name := found.value;
      var entry := WithSuffix(name, randomSuffix);
      sessionNodes := sessionNodes + [entry];
      return Ok(WithZone(entry, dnsZone));
    }

    /** `generate_provisioning_ip_address`: `nicIps` are the addresses the
        network's NICs already have; a new address is reserved. As in the
        code, only the broadcast address stops a walk that has stepped out
        of the network. */
    method GenerateProvisioningIpAddress(network: Option<Network>, nicIps: seq<int>)
      returns (r: Result<Option<int>, Error>)
      modifies this
      ensures sessionNodes == old(sessionNodes)
      ensures r == AllocationAsWritten(network, nicIps + old(reservedIps))
      ensures reservedIps == if r.Ok? && r.value.Some? then old(reservedIps) + [r.value.value] else old(reservedIps)
    {
      if network.None? || network.value.usingDhcp {
        return Ok(None);
      }
      var n := network.value;
      if n.prefix > 32 {
        return Err(NetworkValueError("invalid netmask"));
      }
      var count := Strings.Pow2(32 - n.prefix);
      if !(0 <= n.address < AddressSpace) || n.address % count != 0 {
        return Err(NetworkValueError("invalid network"));
      }
      var used := nicIps + reservedIps;
      var ip;
      if n.startIp.None? {
        if count < 2 {
          return Err(InvalidArgument(ExhaustedMessage));
        }
        ip := n.address + 1;
      } else {
        if !(0 <= n.startIp.value < AddressSpace) {
          return Err(AddressValueError("invalid start address"));
        }
        ip := n.startIp.value;
      }
      var inc := if n.increment != 0 then n.increment else 1;
      var i := 0;
      var found := false;
      while i < count
        invariant 0 <= i <= count
        invariant !found
        invariant Probe(ip, inc, used, count - i) == ProbeNetwork(n, used)
        decreases count - i
      {
        if ip !in used {
          found := true;
          break;
        }
        if !(0 <= ip + inc < AddressSpace) {
          return Err(AddressValueError("address out of range"));
        }
        ip := ip + inc;
        i := i + 1;
      }
      if !found {
        return Err(InvalidArgument(ExhaustedMessage));
      }
      if ip == n.address + count - 1 {
        return Err(InvalidArgument(ExhaustedMessage));
      }
      reservedIps := reservedIps + [ip];
      return Ok(Some(ip));
    }
  }
}
