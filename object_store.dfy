/** The object store's query side: an object is a dictionary of values, a
    filter `attr__attr__op=value` walks the nested dictionaries along its
    attribute path and compares what it finds with `==`, `>` or `<`, and
    `list` yields the objects that pass every filter, in the store's order,
    up to a limit. */
module ObjectStore {
  import opened Wrappers
  import Strings

  /** The values an object holds, with Python's meaning: `None`, integers,
      strings, lists, tuples and dictionaries with string keys. Dafny's `==`
      on them is Python's `==`: element-wise for lists and tuples, a list is
      never equal to a tuple, and dictionaries compare without regard to
      order. */
  datatype Value =
    | Null
    | Int(i: int)
    | Str(s: string)
    | List(items: seq<Value>)
    | Tuple(items: seq<Value>)
    | Dict(m: map<string, Value>)

  datatype Comparator = Eq | Gt | Lt

  /** A comparison Python refuses (`'<' not supported between instances`). */
  datatype Error = TypeError

  /** One filter: its key (`attr__attr__op`) and the value on its right. */
  datatype Filter = Filter(key: string, right: Value)

  /** The names of `COMPARATORS`. */
  function ComparatorNamed(name: string): (r: Option<Comparator>)
    ensures r == Some(Eq) <==> name == "eq"
    ensures r == Some(Gt) <==> name == "gt"
    ensures r == Some(Lt) <==> name == "lt"
  {
    if name == "eq" then Some(Eq)
    else if name == "gt" then Some(Gt)
    else if name == "lt" then Some(Lt)
    else None
  }

  function Last(parts: seq<string>): string
    requires |parts| > 0
  {
    parts[|parts| - 1]
  }

  /** A filter key split on `__`: the attribute path and the comparator. The
      last part is the comparator when it names one, and `eq` is meant
      otherwise. */
  function ParseKey(key: string): (seq<string>, Comparator)
  {
    var parts := Strings.Split(key, "__");
    var named := ComparatorNamed(Last(parts));
    if named.Some? then (parts[..|parts| - 1], named.value) else (parts, Eq)
  }

  /** The path and, when one was named, the comparator's name, joined with
      `__` again, are the key; a path that ends in no comparator name means
      `eq`. */
  lemma ParseKeyMeaning(key: string)
    ensures var (path, cmp) := ParseKey(key);
      (ComparatorNamed(Last(Strings.Split(key, "__"))).Some? ==>
         Strings.Join(path + [Last(Strings.Split(key, "__"))], "__") == key) &&
      (ComparatorNamed(Last(Strings.Split(key, "__"))).None? ==>
         Strings.Join(path, "__") == key && cmp == Eq)
  {
    var parts := Strings.Split(key, "__");
    Strings.JoinSplit(key, "__");
    assert parts[..|parts| - 1] + [Last(parts)] == parts;
  }

  /** The value at the end of `path`, walking nested dictionaries, or `None`
      when some attribute is missing. A value that is not a dictionary has no
      attributes. */
  function Resolve(obj: Value, path: seq<string>): Option<Value>
    decreases |path|
  {
    if |path| == 0 then Some(obj)
    else if obj.Dict? && path[0] in obj.m then Resolve(obj.m[path[0]], path[1..])
    else None
  }

  /** Python's `<` on strings: code point by code point, a proper prefix
      first. */
  predicate StrLess(a: string, b: string)
    decreases |a|
  {
    if |a| == 0 then |b| > 0
    else if |b| == 0 then false
    else if a[0] != b[0] then a[0] < b[0]
    else StrLess(a[1..], b[1..])
  }

  /** The first index at which two sequences differ, or the length of the
      shorter one. */
  function FirstDifference(xs: seq<Value>, ys: seq<Value>): (r: nat)
    ensures r <= |xs| && r <= |ys|
    ensures forall j :: 0 <= j < r ==> xs[j] == ys[j]
    ensures r < |xs| && r < |ys| ==> xs[r] != ys[r]
    decreases |xs|
  {
    if |xs| == 0 || |ys| == 0 || xs[0] != ys[0] then 0
    else 1 + FirstDifference(xs[1..], ys[1..])
  }

  lemma {:induction false} FirstDifferenceSymmetric(xs: seq<Value>, ys: seq<Value>)
    ensures FirstDifference(xs, ys) == FirstDifference(ys, xs)
    decreases |xs|
  {
    if |xs| > 0 && |ys| > 0 && xs[0] == ys[0] {
      FirstDifferenceSymmetric(xs[1..], ys[1..]);
    }
  }

  /** Python's `<`: integers by value, strings by code points, lists and
      tuples lexicographically by their first differing element; any other
      pair raises `TypeError`. */
  function Less(a: Value, b: Value): Result<bool, Error>
    decreases a
  {
    match (a, b)
    case (Int(x), Int(y)) => Ok(x < y)
    case (Str(x), Str(y)) => Ok(StrLess(x, y))
    case (List(xs), List(ys)) => SeqLess(a, xs, ys)
    case (Tuple(xs), Tuple(ys)) => SeqLess(a, xs, ys)
    case _ => Err(TypeError)
  }

  /** The lexicographic step shared by lists and tuples. `a` is the container
      `xs` came from, so that the recursion is on a smaller value. */
  function SeqLess(a: Value, xs: seq<Value>, ys: seq<Value>): Result<bool, Error>
    requires (a.List? || a.Tuple?) && a.items == xs
    decreases a, 0
  {
    var i := FirstDifference(xs, ys);
    if i < |xs| && i < |ys| then Less(xs[i], ys[i]) else Ok(|xs| < |ys|)
  }

  /** The comparators: `left op right`, where `>` is `<` with the operands
      swapped. */
  function Compare(cmp: Comparator, left: Value, right: Value): Result<bool, Error>
  {
    match cmp
    case Eq => Ok(left == right)
    case Gt => Less(right, left)
    case Lt => Less(left, right)
  }

  /** `<` never holds both ways. */
  lemma {:induction false} LessAsymmetric(a: Value, b: Value)
    requires Less(a, b) == Ok(true)
    ensures Less(b, a) == Ok(false)
    decreases a
  {
    match (a, b)
    case (Int(x), Int(y)) =>
    case (Str(x), Str(y)) => StrLessAsymmetric(x, y);
    case (List(xs), List(ys)) => SeqLessAsymmetric(a, b, xs, ys);
    case (Tuple(xs), Tuple(ys)) => SeqLessAsymmetric(a, b, xs, ys);
  }

  lemma {:induction false} SeqLessAsymmetric(a: Value, b: Value, xs: seq<Value>, ys: seq<Value>)
    requires (a.List? && b.List?) || (a.Tuple? && b.Tuple?)
    requires a.items == xs && b.items == ys
    requires SeqLess(a, xs, ys) == Ok(true)
    ensures SeqLess(b, ys, xs) == Ok(false)
    decreases a, 0
  {
    var i := FirstDifference(xs, ys);
    FirstDifferenceSymmetric(xs, ys);
    if i < |xs| && i < |ys| {
      LessAsymmetric(xs[i], ys[i]);
    }
  }

  lemma {:induction false} StrLessAsymmetric(x: string, y: string)
    requires StrLess(x, y)
    ensures !StrLess(y, x)
    decreases |x|
  {
    if |x| > 0 && |y| > 0 && x[0] == y[0] {
      StrLessAsymmetric(x[1..], y[1..]);
    }
  }

  /** What one filter comes to: its attribute is missing, its comparison
      raises, or its comparison answers. */
  datatype Verdict = Missing | Raised(error: Error) | Compared(answer: bool)

  function Check(obj: Value, f: Filter): Verdict
  {
    var (path, cmp) := ParseKey(f.key);
    var left := Resolve(obj, path);
    if left.None? then Missing
    else
      match Compare(cmp, left.value, f.right)
      case Err(e) => Raised(e)
      case Ok(b) => Compared(b)
  }

  /** A filter holds when its path resolves and the comparison is true. */
  predicate Holds(obj: Value, f: Filter)
  {
    Check(obj, f) == Compared(true)
  }

  /** `b and r`, where an exception in `r` wins. */
  function AndThen(b: bool, r: Result<bool, Error>): Result<bool, Error>
  {
    match r
    case Err(e) => Err(e)
    case Ok(x) => Ok(b && x)
  }

  /** `matches_filters`, filter by filter in the dictionary's order: a
      missing attribute answers `False` at once, a comparison that raises
      propagates, and a false comparison makes the answer `False` while the
      later filters are still evaluated. */
  function Matches(obj: Value, filters: seq<Filter>): Result<bool, Error>
    decreases |filters|
  {
    if |filters| == 0 then Ok(true)
    else
      match Check(obj, filters[0])
      case Missing => Ok(false)
      case Raised(e) => Err(e)
      case Compared(b) => AndThen(b, Matches(obj, filters[1..]))
  }

  /** An object matches exactly when every filter holds; in particular no
      filters match everything. */
  lemma {:induction false} MatchesIffAllHold(obj: Value, filters: seq<Filter>)
    ensures Matches(obj, filters) == Ok(true) <==> forall i :: 0 <= i < |filters| ==> Holds(obj, filters[i])
    decreases |filters|
  {
    if |filters| > 0 {
      MatchesIffAllHold(obj, filters[1..]);
      assert forall i :: 1 <= i < |filters| ==> filters[1..][i - 1] == filters[i];
    }
  }

  /** A missing attribute makes the answer `False`, as long as no filter
      before it raises. */
  lemma {:induction false} MissingAttributeIsFalse(obj: Value, filters: seq<Filter>, i: nat)
    requires i < |filters|
    requires Check(obj, filters[i]) == Missing
    requires forall j :: 0 <= j < i ==> !Check(obj, filters[j]).Raised?
    ensures Matches(obj, filters) == Ok(false)
    decreases i
  {
    if i > 0 {
      assert forall j :: 0 <= j < i - 1 ==> filters[1..][j] == filters[j + 1];
      MissingAttributeIsFalse(obj, filters[1..], i - 1);
      assert !Check(obj, filters[0]).Raised?;
    }
  }

  /** The head of the loop body of `matches_filters`: the key is split on
      `__` and a comparator name at its end is popped. */
  method SplitKey(key: string) returns (parts: seq<string>, cmp: Comparator)
    ensures (parts, cmp) == ParseKey(key)
  {
    parts := Strings.Split(key, "__");
    cmp := Eq;
    var named := ComparatorNamed(parts[|parts| - 1]);
    if named.Some? {
      cmp := named.value;
      parts := parts[..|parts| - 1];
    }
  }

  /** The inner loop of `matches_filters`: the walk down the attribute path,
      `None` standing for its early `return False`. */
  method ResolvePath(obj: Value, path: seq<string>) returns (r: Option<Value>)
    ensures r == Resolve(obj, path)
  {
    var left := obj;
    var j := 0;
    while j < |path|
      invariant 0 <= j <= |path|
      invariant Resolve(obj, path) == Resolve(left, path[j..])
    {
      assert path[j..][1..] == path[j + 1..];
      if !(left.Dict? && path[j] in left.m) {
        return None;
      }
      left := left.m[path[j]];
      j := j + 1;
    }
    r := Some(left);
  }

  /** `matches_filters` as the source writes it: the outer loop over the
      filters. */
  method MatchesFilters(obj: Value, filters: seq<Filter>) returns (r: Result<bool, Error>)
    ensures r == Matches(obj, filters)
  {
    var result := true;
    var i := 0;
    while i < |filters|
      invariant 0 <= i <= |filters|
      invariant Matches(obj, filters) == AndThen(result, Matches(obj, filters[i..]))
    {
      assert filters[i..][1..] == filters[i + 1..];
      var parts, cmp := SplitKey(filters[i].key);
      var left := ResolvePath(obj, parts);
      if left.None? {
        assert Check(obj, filters[i]) == Missing;
        return Ok(false);
      }
      var c := Compare(cmp, left.value, filters[i].right);
      if c.Err? {
        assert Check(obj, filters[i]) == Raised(c.error);
        return Err(c.error);
      }
      assert Check(obj, filters[i]) == Compared(c.value);
      if !c.value {
        result := false;
      }
      i := i + 1;
    }
    assert filters[i..] == [];
    r := Ok(result);
  }

  /** `get_key_name`: `namespace:key`. */
  function KeyName(namespace: string, key: string): (r: string)
    ensures |r| == |namespace| + 1 + |key|
    ensures Strings.StartsWith(r, namespace + ":") && r[|namespace| + 1..] == key
  {
    namespace + ":" + key
  }

  /** Within one namespace, distinct keys have distinct store keys. */
  lemma KeyNameInjective(namespace: string, a: string, b: string)
    requires KeyName(namespace, a) == KeyName(namespace, b)
    ensures a == b
  {
    assert a == KeyName(namespace, a)[|namespace| + 1..];
  }

  /** One listed object: its key and the object (`Null` when the store has
      none under that key). */
  datatype Item = Item(key: string, obj: Value)

  /** The count at which `list` stops: `limit` when it is truthy and can be
      reached, none otherwise (no limit, `0`, or a negative limit, which the
      count never equals). */
  function Cap(limit: Option<int>): Option<nat>
  {
    if limit.Some? && limit.value > 0 then Some(limit.value) else None
  }

  /** `out` in front of the rest of a listing, if the rest does not raise. */
  function Glue(out: seq<Item>, rest: Result<seq<Item>, Error>): Result<seq<Item>, Error>
  {
    match rest
    case Err(e) => Err(e)
    case Ok(s) => Ok(out + s)
  }

  /** The listing of `items` (the store's sorted order), keeping the objects
      that match, stopping once `cap` of them are taken; an object whose
      filters raise ends the listing with the exception. */
  function Listed(items: seq<Item>, filters: seq<Filter>, cap: Option<nat>): Result<seq<Item>, Error>
    requires cap != Some(0)
    decreases |items|
  {
    if |items| == 0 then Ok([])
    else
      match Matches(items[0].obj, filters)
      case Err(e) => Err(e)
      case Ok(false) => Listed(items[1..], filters, cap)
      case Ok(true) =>
        if cap == Some(1) then Ok([items[0]])
        else Glue([items[0]], Listed(items[1..], filters, if cap.None? then None else Some(cap.value - 1)))
  }

  /** What is left of `cap` once `taken` objects are listed. */
  function Remaining(cap: Option<nat>, taken: nat): (r: Option<nat>)
    requires cap.Some? ==> taken < cap.value
    ensures r != Some(0)
  {
    if cap.None? then None else Some(cap.value - taken)
  }

  lemma GlueEmpty(rest: Result<seq<Item>, Error>)
    ensures Glue([], rest) == rest
  {
    if rest.Ok? {
      assert [] + rest.value == rest.value;
    }
  }

  lemma GlueGlue(out: seq<Item>, x: Item, rest: Result<seq<Item>, Error>)
    ensures Glue(out, Glue([x], rest)) == Glue(out + [x], rest)
  {
    if rest.Ok? {
      assert out + ([x] + rest.value) == (out + [x]) + rest.value;
    }
  }

  /** `ObjectStore.list` over the sorted items `list_sorted` yields. */
  method ListItems(sorted: seq<Item>, limit: Option<int>, filters: seq<Filter>) returns (r: Result<seq<Item>, Error>)
    ensures r == Listed(sorted, filters, Cap(limit))
  {
    var out: seq<Item> := [];
    var count := 0;
    var i := 0;
    assert sorted[0..] == sorted;
    GlueEmpty(Listed(sorted, filters, Cap(limit)));
    assert Remaining(Cap(limit), 0) == Cap(limit);
    while i < |sorted|
      invariant 0 <= i <= |sorted|
      invariant count == |out|
      invariant Cap(limit).Some? ==> count < Cap(limit).value
      invariant Listed(sorted, filters, Cap(limit)) ==
        Glue(out, Listed(sorted[i..], filters, Remaining(Cap(limit), count)))
    {
      assert sorted[i..][1..] == sorted[i + 1..] && sorted[i..][0] == sorted[i];
      var m := MatchesFilters(sorted[i].obj, filters);
      if m.Err? {
        assert Listed(sorted[i..], filters, Remaining(Cap(limit), count)) == Err(m.error);
        return Err(m.error);
      }
      if m.value {
        count := count + 1;
        if limit.Some? && limit.value != 0 && count == limit.value {
          assert Remaining(Cap(limit), count - 1) == Some(1);
          assert Listed(sorted[i..], filters, Some(1)) == Ok([sorted[i]]);
          return Ok(out + [sorted[i]]);
        }
        GlueGlue(out, sorted[i], Listed(sorted[i + 1..], filters, Remaining(Cap(limit), count)));
        out := out + [sorted[i]];
      }
      i := i + 1;
    }
    assert sorted[i..] == [] && out + [] == out;
    r := Ok(out);
  }

  /** Everything listed is one of the items and matches the filters, and no
      more than `cap` are listed. */
  lemma {:induction false} ListedSound(items: seq<Item>, filters: seq<Filter>, cap: Option<nat>)
    requires cap != Some(0)
    ensures var r := Listed(items, filters, cap);
      r.Ok? ==> (forall x :: x in r.value ==> x in items && Matches(x.obj, filters) == Ok(true)) &&
                (cap.Some? ==> |r.value| <= cap.value)
    decreases |items|
  {
    if |items| > 0 {
      var next := if cap.None? then None else Some(cap.value - 1);
      ListedSound(items[1..], filters, cap);
      if cap != Some(1) {
        ListedSound(items[1..], filters, next);
      }
    }
  }

  /** With no limit, every matching item is listed. */
  lemma {:induction false} ListedComplete(items: seq<Item>, filters: seq<Filter>)
    ensures var r := Listed(items, filters, None);
      r.Ok? ==> forall x :: x in items && Matches(x.obj, filters) == Ok(true) ==> x in r.value
    decreases |items|
  {
    if |items| > 0 {
      ListedComplete(items[1..], filters);
      assert forall x :: x in items ==> x == items[0] || x in items[1..];
    }
  }

  /** The first `k` elements of `s`, or all of them when there are fewer. */
  function Take(s: seq<Item>, k: nat): (r: seq<Item>)
    ensures |r| == if k <= |s| then k else |s|
    ensures r == s[..|r|]
  {
    if k <= |s| then s[..k] else s
  }

  /** With a limit, the listing is the first `k` objects of the listing
      without one, whenever that listing raises nothing. */
  lemma {:induction false} ListedFirstMatches(items: seq<Item>, filters: seq<Filter>, k: nat)
    requires k > 0
    ensures Listed(items, filters, None).Ok? ==>
      Listed(items, filters, Some(k)) == Ok(Take(Listed(items, filters, None).value, k))
    decreases |items|
  {
    if |items| > 0 {
      var m := Matches(items[0].obj, filters);
      if m == Ok(false) {
        ListedFirstMatches(items[1..], filters, k);
      } else if m == Ok(true) && k > 1 {
        ListedFirstMatches(items[1..], filters, k - 1);
        var tail := Listed(items[1..], filters, None);
        if tail.Ok? {
          assert Take([items[0]] + tail.value, k) == [items[0]] + Take(tail.value, k - 1);
        }
      }
    }
  }

  /** `s` is ordered by `le`, pair by pair. */
  ghost predicate OrderedBy(s: seq<Item>, le: (Item, Item) -> bool)
  {
    forall i, j :: 0 <= i < j < |s| ==> le(s[i], s[j])
  }

  /** An item before an ordered sequence it precedes keeps it ordered. */
  lemma PrependOrdered(x: Item, rest: seq<Item>, le: (Item, Item) -> bool)
    requires OrderedBy(rest, le)
    requires forall y :: y in rest ==> le(x, y)
    ensures OrderedBy([x] + rest, le)
  {
    forall i, j | 0 <= i < j < |[x] + rest| ensures le(([x] + rest)[i], ([x] + rest)[j]) {
      assert ([x] + rest)[j] == rest[j - 1];
      if i > 0 {
        assert ([x] + rest)[i] == rest[i - 1];
      }
    }
  }

  /** The tail of an ordered sequence is ordered, and its head comes before
      all of it. */
  lemma OrderedTail(items: seq<Item>, le: (Item, Item) -> bool)
    requires |items| > 0 && OrderedBy(items, le)
    ensures OrderedBy(items[1..], le)
    ensures forall y :: y in items[1..] ==> le(items[0], y)
  {
    forall y | y in items[1..] ensures le(items[0], y) {
      var k :| 0 <= k < |items[1..]| && items[1..][k] == y;
      assert items[k + 1] == y;
    }
    forall i, j | 0 <= i < j < |items[1..]| ensures le(items[1..][i], items[1..][j]) {
      assert items[1..][i] == items[i + 1] && items[1..][j] == items[j + 1];
    }
  }

  /** The listing keeps the store's order: whatever order the items were
      sorted in, the objects listed are in it too. */
  lemma {:induction false} ListedKeepsOrder(items: seq<Item>, filters: seq<Filter>, cap: Option<nat>, le: (Item, Item) -> bool)
    requires cap != Some(0)
    requires OrderedBy(items, le)
    ensures Listed(items, filters, cap).Ok? ==> OrderedBy(Listed(items, filters, cap).value, le)
    decreases |items|
  {
    if |items| > 0 {
      var next := if cap.None? then None else Some(cap.value - 1);
      OrderedTail(items, le);
      var m := Matches(items[0].obj, filters);
      if m == Ok(false) {
        ListedKeepsOrder(items[1..], filters, cap, le);
      } else if m == Ok(true) && cap != Some(1) {
        var tail := Listed(items[1..], filters, next);
        if tail.Ok? {
          ListedKeepsOrder(items[1..], filters, next, le);
          ListedSound(items[1..], filters, next);
          PrependOrdered(items[0], tail.value, le);
        }
      }
    }
  }
}
