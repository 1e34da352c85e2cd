/** Node look-up by name: the SQL `LIKE` patterns a nodespec expands to
    (`build_node_filterspec`) and the rule `getNode` uses to match a name.
    The database is a sequence of node names. */
module NodesDb {
  import opened Wrappers
  import Strings

  datatype Error = NodeNotFound(msg: string) | MultipleResultsFound

  /** SQL `LIKE`: '%' matches any run of characters, '_' any one character,
      and every other character itself (no escape character). */
  predicate Like(s: string, p: string)
    decreases |s| + |p|
  {
    if |p| == 0 then |s| == 0
    else if p[0] == '%' then Like(s, p[1..]) || (|s| > 0 && Like(s[1..], p))
    else if p[0] == '_' then |s| > 0 && Like(s[1..], p[1..])
    else |s| > 0 && s[0] == p[0] && Like(s[1..], p[1..])
  }

  /** Shell-style matching: '*' matches any run of characters, '?' any one. */
  predicate Glob(s: string, p: string)
    decreases |s| + |p|
  {
    if |p| == 0 then |s| == 0
    else if p[0] == '*' then Glob(s, p[1..]) || (|s| > 0 && Glob(s[1..], p))
    else if p[0] == '?' then |s| > 0 && Glob(s[1..], p[1..])
    else |s| > 0 && s[0] == p[0] && Glob(s[1..], p[1..])
  }

  /** `token.replace('*', '%').replace('?', '_')`. */
  function SqlWildcards(t: string): (r: string)
    ensures |r| == |t|
    ensures forall i :: 0 <= i < |t| ==>
      r[i] == if t[i] == '*' then '%' else if t[i] == '?' then '_' else t[i]
  {
    Strings.ReplaceChar(Strings.ReplaceChar(t, '*', '%'), '?', '_')
  }

  /** Neither SQL wildcard occurs in `t`. */
  predicate NoSqlWildcards(t: string)
  {
    '%' !in t && '_' !in t
  }

  /** For a token without SQL wildcards, the converted pattern matches under
      `LIKE` exactly the names the shell pattern matches. */
  lemma {:induction false} GlobIsLike(s: string, t: string)
    requires NoSqlWildcards(t)
    ensures Glob(s, t) <==> Like(s, SqlWildcards(t))
    decreases |s| + |t|
  {
    if |t| > 0 {
      var p := SqlWildcards(t);
      assert p[1..] == SqlWildcards(t[1..]);
      assert t[0] in t;
      assert NoSqlWildcards(t[1..]) by {
        assert forall c :: c in t[1..] ==> c in t;
      }
      GlobIsLike(s, t[1..]);
      if |s| > 0 {
        GlobIsLike(s[1..], t[1..]);
        if t[0] == '*' {
          GlobIsLike(s[1..], t);
        }
      }
    }
  }

  /** A pattern beginning with literal text matches exactly the strings that
      begin with that text and continue with a match of the rest. */
  lemma {:induction false} LikeLiteral(s: string, lit: string, rest: string)
    requires NoSqlWildcards(lit)
    ensures Like(s, lit + rest) <==> Strings.StartsWith(s, lit) && Like(s[|lit|..], rest)
    decreases |lit|
  {
    if |lit| > 0 {
      assert (lit + rest)[1..] == lit[1..] + rest;
      assert lit[0] in lit;
      assert NoSqlWildcards(lit[1..]) by {
        assert forall c :: c in lit[1..] ==> c in lit;
      }
      if |s| > 0 {
        LikeLiteral(s[1..], lit[1..], rest);
        if |lit| <= |s| {
          assert s[1..][|lit| - 1..] == s[|lit|..];
        }
        assert Strings.StartsWith(s, lit) <==> s[0] == lit[0] && Strings.StartsWith(s[1..], lit[1..]) by {
          if s[0] == lit[0] && Strings.StartsWith(s[1..], lit[1..]) {
            assert s[..|lit|] == [s[0]] + s[1..][..|lit| - 1];
          }
          if Strings.StartsWith(s, lit) {
            assert s[1..][..|lit| - 1] == s[..|lit|][1..];
          }
        }
      }
    } else {
      assert lit + rest == rest;
    }
  }

  /** '%' alone matches every string. */
  lemma {:induction false} LikeAnything(s: string)
    ensures Like(s, "%")
    decreases |s|
  {
    if |s| > 0 {
      LikeAnything(s[1..]);
    }
  }

  /** A pattern without wildcards matches only itself. */
  lemma LikeExact(s: string, lit: string)
    requires NoSqlWildcards(lit)
    ensures Like(s, lit) <==> s == lit
  {
    LikeLiteral(s, lit, "");
    assert lit + "" == lit;
    if Like(s, lit) {
      assert s[..|lit|] == lit && |s[|lit|..]| == 0;
      assert s == s[..|lit|] + s[|lit|..];
    }
  }

  /** `name.%` matches exactly the names that begin with `name.`. */
  lemma LikeDomain(s: string, name: string)
    requires NoSqlWildcards(name)
    ensures Like(s, name + ".%") <==> Strings.StartsWith(s, name + ".")
  {
    assert NoSqlWildcards(name + ".") by {
      assert forall c :: c in name + "." ==> c in name || c == '.';
    }
    assert name + ".%" == (name + ".") + "%";
    LikeLiteral(s, name + ".", "%");
    if Strings.StartsWith(s, name + ".") {
      LikeAnything(s[|name + "."|..]);
    }
  }

  // ---------------------------------------------------------------------
  // build_node_filterspec

  /** The patterns one nodespec token contributes. */
  function TokenFilters(t: string): (r: seq<string>)
    ensures 1 <= |r| <= 2
  {
    if '*' in t || '?' in t then [SqlWildcards(t)]
    else if '.' !in t then [t, t + ".%"]
    else [t]
  }

  /** What a token selects: a shell pattern selects what it matches, a short
      name selects itself and its fully-qualified forms, and any other name
      selects only itself. */
  predicate Selects(t: string, n: string)
  {
    if '*' in t || '?' in t then Glob(n, t)
    else if '.' !in t then n == t || Strings.StartsWith(n, t + ".")
    else n == t
  }

  /** A name matches one of a token's patterns exactly when the token selects it. */
  lemma TokenFiltersMeaning(t: string, n: string)
    requires NoSqlWildcards(t)
    ensures (exists f :: f in TokenFilters(t) && Like(n, f)) <==> Selects(t, n)
  {
    if '*' in t || '?' in t {
      GlobIsLike(n, t);
      assert TokenFilters(t)[0] == SqlWildcards(t);
    } else if '.' !in t {
      LikeExact(n, t);
      LikeDomain(n, t);
      assert TokenFilters(t)[0] == t && TokenFilters(t)[1] == t + ".%";
    } else {
      LikeExact(n, t);
      assert TokenFilters(t)[0] == t;
    }
  }

  /** The patterns of all the tokens, token by token. */
  function FilterSpec(tokens: seq<string>): seq<string>
  {
    if |tokens| == 0 then [] else FilterSpec(tokens[..|tokens| - 1]) + TokenFilters(tokens[|tokens| - 1])
  }

  lemma {:induction false} FilterSpecMembership(tokens: seq<string>, f: string)
    ensures f in FilterSpec(tokens) <==> exists i :: 0 <= i < |tokens| && f in TokenFilters(tokens[i])
    decreases |tokens|
  {
    if |tokens| > 0 {
      var init := tokens[..|tokens| - 1];
      FilterSpecMembership(init, f);
      assert forall i :: 0 <= i < |init| ==> init[i] == tokens[i];
    }
  }

  /** A node name matches the filter spec of a nodespec exactly when one of
      its tokens selects it. */
  lemma FilterSpecMeaning(tokens: seq<string>, n: string)
    requires forall i :: 0 <= i < |tokens| ==> NoSqlWildcards(tokens[i])
    ensures (exists f :: f in FilterSpec(tokens) && Like(n, f)) <==>
      exists i :: 0 <= i < |tokens| && Selects(tokens[i], n)
  {
    if exists f :: f in FilterSpec(tokens) && Like(n, f) {
      var f :| f in FilterSpec(tokens) && Like(n, f);
      FilterSpecMembership(tokens, f);
      var i :| 0 <= i < |tokens| && f in TokenFilters(tokens[i]);
      TokenFiltersMeaning(tokens[i], n);
    }
    if exists i :: 0 <= i < |tokens| && Selects(tokens[i], n) {
      var i :| 0 <= i < |tokens| && Selects(tokens[i], n);
      TokenFiltersMeaning(tokens[i], n);
      var f :| f in TokenFilters(tokens[i]) && Like(n, f);
      FilterSpecMembership(tokens, f);
    }
  }

  /** `build_node_filterspec`: the nodespec is split on ',' and each token
      appends its patterns. */
  method BuildNodeFilterspec(nodespec: string) returns (r: seq<string>)
    ensures r == FilterSpec(Strings.Split(nodespec, ","))
  {
    var tokens := Strings.Split(nodespec, ",");
    r := [];
    var i := 0;
    while i < |tokens|
      invariant 0 <= i <= |tokens|
      invariant r == FilterSpec(tokens[..i])
    {
      assert tokens[..i + 1][..i] == tokens[..i];
      var token := tokens[i];
      if '*' in token || '?' in token {
        r := r + [SqlWildcards(token)];
      } else if '.' !in token {
        r := r + [token];
        r := r + [token + ".%"];
      } else {
        r := r + [token];
      }
      i := i + 1;
    }
    assert tokens[..i] == tokens;
  }

  // ---------------------------------------------------------------------
  // getNode

  /** The `getNode` filter: a dotted name equals the node's name ignoring
      case; a short name also accepts `name.%`. */
  predicate NameMatches(nodeName: string, query: string)
  {
    var n := Strings.Lower(nodeName);
    var q := Strings.Lower(query);
    if '.' in query then n == q else n == q || Like(n, q + ".%")
  }

  /** Lowering case introduces no wildcard and no dot. */
  lemma LowerKeepsMarks(s: string)
    ensures '.' in Strings.Lower(s) <==> '.' in s
    ensures NoSqlWildcards(s) ==> NoSqlWildcards(Strings.Lower(s))
  {
    var l := Strings.Lower(s);
    if '.' in l {
      var i :| 0 <= i < |l| && l[i] == '.';
      assert s[i] == '.';
    }
    if '.' in s {
      var i :| 0 <= i < |s| && s[i] == '.';
      assert l[i] == '.';
    }
    if '%' in l {
      var i :| 0 <= i < |l| && l[i] == '%';
      assert s[i] == '%';
    }
    if '_' in l {
      var i :| 0 <= i < |l| && l[i] == '_';
      assert s[i] == '_';
    }
  }

  /** For a name without SQL wildcards: a dotted name matches exactly, ignoring
      case; a short name matches itself or any name it is the host part of. */
  lemma NameMatchesMeaning(nodeName: string, query: string)
    requires NoSqlWildcards(query)
    ensures NameMatches(nodeName, query) <==>
      Strings.Lower(nodeName) == Strings.Lower(query) ||
      ('.' !in query && Strings.StartsWith(Strings.Lower(nodeName), Strings.Lower(query) + "."))
  {
    LowerKeepsMarks(query);
    LikeDomain(Strings.Lower(nodeName), Strings.Lower(query));
  }

  /** The names in `names` that match `query`, in order. */
  function Matching(names: seq<string>, query: string): (r: seq<string>)
    ensures forall x :: x in r <==> x in names && NameMatches(x, query)
  {
    if |names| == 0 then []
    else (if NameMatches(names[0], query) then [names[0]] else []) + Matching(names[1..], query)
  }

  /** `getNode`: the one node whose name matches; `NodeNotFound` when none
      does, and the `MultipleResultsFound` of `.one()` when several do. */
  function GetNode(names: seq<string>, query: string): (r: Result<string, Error>)
    ensures r.Ok? ==> (r.value in names && NameMatches(r.value, query) &&
                       forall x :: x in names && NameMatches(x, query) ==> x == r.value)
    ensures r == Err(NodeNotFound("Node [" + query + "] not found")) <==>
      forall x :: x in names ==> !NameMatches(x, query)
  {
    var found := Matching(names, query);
    if |found| == 0 then Err(NodeNotFound("Node [" + query + "] not found"))
    else
      assert found[0] in found;
      if |found| == 1 then
        assert forall x :: x in found ==> x == found[0];
        Ok(found[0])
    else Err(MultipleResultsFound)
  }
}
