/** The Python string operations the model needs, written over `seq<char>`:
    ASCII case folding, `str.find`, `str.split`, `str.join`, `str.replace`,
    `str.startswith` and decimal formatting of integers (`'%d'`, `'%0*d'`). */
module Strings {

  /** `c.lower()` restricted to ASCII letters. */
  function LowerChar(c: char): char
  {
    if 'A' <= c <= 'Z' then (c as int + 32) as char else c
  }

  /** `s.lower()` restricted to ASCII letters. */
  function Lower(s: string): (r: string)
    ensures |r| == |s|
    ensures forall i :: 0 <= i < |s| ==> r[i] == LowerChar(s[i])
  {
    seq(|s|, i requires 0 <= i < |s| => LowerChar(s[i]))
  }

  /** `c.isalpha()` restricted to ASCII letters. */
  predicate IsAlpha(c: char)
  {
    ('a' <= c <= 'z') || ('A' <= c <= 'Z')
  }

  predicate IsDigit(c: char)
  {
    '0' <= c <= '9'
  }

  /** `s.startswith(prefix)`. */
  predicate StartsWith(s: string, prefix: string)
  {
    |prefix| <= |s| && s[..|prefix|] == prefix
  }

  /** `sub` occurs in `s` at index `i`. */
  predicate OccursAt(s: string, sub: string, i: int)
  {
    0 <= i && i + |sub| <= |s| && s[i..i + |sub|] == sub
  }

  /** `s.find(sub)`: the first index at which `sub` occurs, or -1. */
  function Find(s: string, sub: string): (r: int)
    ensures r == -1 || OccursAt(s, sub, r)
    ensures r == -1 ==> forall i :: 0 <= i <= |s| - |sub| ==> !OccursAt(s, sub, i)
    ensures r >= 0 ==> forall i :: 0 <= i < r ==> !OccursAt(s, sub, i)
    decreases |s|
  {
    if |sub| > |s| then -1
    else if s[..|sub|] == sub then 0
    else
      var k := Find(s[1..], sub);
      assert forall i :: 1 <= i <= |s| - |sub| ==> (OccursAt(s, sub, i) <==> OccursAt(s[1..], sub, i - 1)) by {
        forall i | 1 <= i <= |s| - |sub| ensures OccursAt(s, sub, i) <==> OccursAt(s[1..], sub, i - 1) {
          assert s[1..][i - 1..i - 1 + |sub|] == s[i..i + |sub|];
        }
      }
      if k < 0 then -1 else k + 1
  }

  /** `sub in s`. */
  predicate Contains(s: string, sub: string)
  {
    Find(s, sub) >= 0
  }

  /** `c in s` for a single character: the same as `Contains(s, [c])`. */
  lemma ContainsChar(s: string, c: char)
    ensures Contains(s, [c]) <==> c in s
  {
    if c in s {
      var i :| 0 <= i < |s| && s[i] == c;
      assert s[i..i + 1] == [c];
      assert OccursAt(s, [c], i);
    }
    if Contains(s, [c]) {
      var r := Find(s, [c]);
      assert s[r..r + 1] == [c];
      assert s[r] == c;
    }
  }

  /** `s.split(sep)` for a non-empty separator. */
  function Split(s: string, sep: string): (r: seq<string>)
    requires |sep| > 0
    ensures |r| >= 1
    decreases |s|
  {
    var i := Find(s, sep);
    if i < 0 then [s] else [s[..i]] + Split(s[i + |sep|..], sep)
  }

  /** `sep.join(parts)`. */
  function Join(parts: seq<string>, sep: string): string
  {
    if |parts| == 0 then ""
    else if |parts| == 1 then parts[0]
    else parts[0] + sep + Join(parts[1..], sep)
  }

  /** Joining the pieces of a split gives back the original string. */
  lemma {:induction false} JoinSplit(s: string, sep: string)
    requires |sep| > 0
    ensures Join(Split(s, sep), sep) == s
    decreases |s|
  {
    var i := Find(s, sep);
    if i >= 0 {
      var rest := s[i + |sep|..];
      JoinSplit(rest, sep);
      var tail := Split(rest, sep);
      assert Split(s, sep) == [s[..i]] + tail;
      assert s == s[..i] + sep + rest;
    }
  }

  /** Splitting a join on a one-character separator gives back the parts,
      provided no part contains the separator. */
  lemma {:induction false} SplitJoin(parts: seq<string>, sep: char)
    requires |parts| >= 1
    requires forall k :: 0 <= k < |parts| ==> sep !in parts[k]
    ensures Split(Join(parts, [sep]), [sep]) == parts
    decreases |parts|
  {
    var s := Join(parts, [sep]);
    ContainsChar(parts[0], sep);
    if |parts| == 1 {
      assert Find(parts[0], [sep]) == -1;
    } else {
      var rest := Join(parts[1..], [sep]);
      assert s == parts[0] + [sep] + rest;
      var i := |parts[0]|;
      assert OccursAt(s, [sep], i);
      forall j | 0 <= j < i ensures !OccursAt(s, [sep], j) {
        assert s[j] == parts[0][j];
      }
      assert Find(s, [sep]) == i;
      assert s[..i] == parts[0];
      assert s[i + 1..] == rest;
      assert Split(s, [sep]) == [parts[0]] + Split(rest, [sep]);
      SplitJoin(parts[1..], sep);
      assert parts == [parts[0]] + parts[1..];
    }
  }

  /** `s.replace(target, replacement)` for a non-empty `target`: every occurrence, left to right. */
  function Replace(s: string, target: string, replacement: string): (r: string)
    requires |target| > 0
    decreases |s|
  {
    var i := Find(s, target);
    if i < 0 then s else s[..i] + replacement + Replace(s[i + |target|..], target, replacement)
  }

  /** `s.replace(a, b)` for single characters. */
  function ReplaceChar(s: string, a: char, b: char): (r: string)
    ensures |r| == |s|
    ensures forall i :: 0 <= i < |s| ==> r[i] == if s[i] == a then b else s[i]
  {
    seq(|s|, i requires 0 <= i < |s| => if s[i] == a then b else s[i])
  }

  /** `c * n`. */
  function Repeat(c: char, n: nat): (r: string)
    ensures |r| == n
    ensures forall i :: 0 <= i < n ==> r[i] == c
  {
    seq(n, _ => c)
  }

  function DigitChar(d: nat): char
    requires d < 10
  {
    ('0' as int + d) as char
  }

  function Pow2(n: nat): (r: nat)
    ensures r >= 1
  {
    if n == 0 then 1 else 2 * Pow2(n - 1)
  }

  function Pow10(n: nat): (r: nat)
    ensures r >= 1
  {
    if n == 0 then 1 else 10 * Pow10(n - 1)
  }

  /** `str(n)` for a natural number: its decimal digits, most significant first. */
  function NatToString(n: nat): (r: string)
    ensures |r| >= 1
    ensures forall i :: 0 <= i < |r| ==> IsDigit(r[i])
    decreases n
  {
    if n < 10 then [DigitChar(n)] else NatToString(n / 10) + [DigitChar(n % 10)]
  }

  /** The value of a string of decimal digits. */
  function DecimalValue(s: string): nat
    requires forall i :: 0 <= i < |s| ==> IsDigit(s[i])
  {
    if s == [] then 0 else 10 * DecimalValue(s[..|s| - 1]) + DigitValue(s[|s| - 1])
  }

  function DigitValue(c: char): nat
    requires IsDigit(c)
  {
    c as int - '0' as int
  }

  /** Reading back the digits of `n` gives `n`. */
  lemma {:induction false} DecimalRoundTrip(n: nat)
    ensures DecimalValue(NatToString(n)) == n
    decreases n
  {
    if n >= 10 {
      DecimalRoundTrip(n / 10);
      var s := NatToString(n);
      assert s[..|s| - 1] == NatToString(n / 10);
    }
  }

  /** `n` has at most `w` decimal digits exactly when `n < 10^w` (for `w >= 1`). */
  lemma {:induction false} DigitCount(n: nat, w: nat)
    requires w >= 1
    ensures |NatToString(n)| <= w <==> n < Pow10(w)
    decreases n
  {
    if n >= 10 {
      if w == 1 {
        assert |NatToString(n)| >= 2 by { assert |NatToString(n)| == |NatToString(n / 10)| + 1; }
      } else {
        DigitCount(n / 10, w - 1);
      }
    } else {
      assert Pow10(w) >= 10 by { assert Pow10(w) == 10 * Pow10(w - 1); }
    }
  }

  /** `str(i)` for any integer. */
  function IntToString(i: int): string
  {
    if i < 0 then "-" + NatToString(-i) else NatToString(i)
  }

  /** Python's `'%0*d' % (width, n)`: the decimal digits of `n` padded on the
      left with zeros to `width` characters, the sign counting as one of them. */
  function ZeroPadded(n: int, width: nat): (r: string)
  {
    var digits := NatToString(if n < 0 then -n else n);
    var sign := if n < 0 then "-" else "";
    var pad := if |sign| + |digits| < width then width - |sign| - |digits| else 0;
    sign + Repeat('0', pad) + digits
  }

  /** A padded non-negative number below `10^width` is exactly `width` digits
      long and reads back as the number. */
  lemma ZeroPaddedExact(n: nat, width: nat)
    requires width >= 1 && n < Pow10(width)
    ensures |ZeroPadded(n, width)| == width
    ensures forall i :: 0 <= i < width ==> IsDigit(ZeroPadded(n, width)[i])
    ensures DecimalValue(ZeroPadded(n, width)) == n
  {
    DigitCount(n, width);
    var digits := NatToString(n);
    var zeros := Repeat('0', width - |digits|);
    assert ZeroPadded(n, width) == zeros + digits;
    DecimalRoundTrip(n);
    LeadingZeros(zeros, digits);
  }

  /** Leading zeros do not change the value of a digit string. */
  lemma {:induction false} LeadingZeros(zeros: string, digits: string)
    requires forall i :: 0 <= i < |zeros| ==> zeros[i] == '0'
    requires forall i :: 0 <= i < |digits| ==> IsDigit(digits[i])
    ensures DecimalValue(zeros + digits) == DecimalValue(digits)
    decreases |digits|
  {
    if digits == [] {
      assert zeros + digits == zeros;
      AllZeros(zeros);
    } else {
      var s := zeros + digits;
      assert s[..|s| - 1] == zeros + digits[..|digits| - 1];
      LeadingZeros(zeros, digits[..|digits| - 1]);
    }
  }

  lemma {:induction false} AllZeros(zeros: string)
    requires forall i :: 0 <= i < |zeros| ==> zeros[i] == '0'
    ensures DecimalValue(zeros) == 0
    decreases |zeros|
  {
    if zeros != [] {
      AllZeros(zeros[..|zeros| - 1]);
    }
  }

  /** Lower-casing twice is lower-casing once. */
  lemma LowerTwice(s: string)
    ensures Lower(Lower(s)) == Lower(s)
  {
    var once := Lower(s);
    assert forall i :: 0 <= i < |s| ==> LowerChar(once[i]) == once[i];
  }

  /** Text `int()` reads: an optional sign and at least one decimal digit. */
  predicate DecimalText(s: string)
  {
    var digits := Unsigned(s);
    |digits| > 0 && forall i :: 0 <= i < |digits| ==> IsDigit(digits[i])
  }

  /** `s` without its leading sign, if it has one. */
  function Unsigned(s: string): string
  {
    if |s| > 0 && (s[0] == '+' || s[0] == '-') then s[1..] else s
  }

  /** `int(s)` for decimal text. */
  function IntValue(s: string): int
    requires DecimalText(s)
  {
    var v := DecimalValue(Unsigned(s)) as int;
    if s[0] == '-' then 0 - v else v
  }

  /** `int(str(i)) == i`, and `str(i)` holds neither a space nor a comma. */
  lemma IntTextRoundTrip(i: int)
    ensures DecimalText(IntToString(i)) && IntValue(IntToString(i)) == i
    ensures IntToString(i) != "" && forall k :: 0 <= k < |IntToString(i)| ==> IntToString(i)[k] != ' '
  {
    var n := if i < 0 then -i else i;
    DecimalRoundTrip(n);
    var digits := NatToString(n);
    if i < 0 {
      assert IntToString(i)[1..] == digits;
    }
  }

  /** The pieces of `s.split(c)` hold no `c`, and no character that is not in `s`. */
  lemma {:induction false} SplitPieces(s: string, c: char)
    ensures forall k :: 0 <= k < |Split(s, [c])| ==> c !in Split(s, [c])[k]
    ensures forall k, x :: 0 <= k < |Split(s, [c])| && x in Split(s, [c])[k] ==> x in s
    decreases |s|
  {
    var i := Find(s, [c]);
    if i < 0 {
      ContainsChar(s, c);
    } else {
      forall j | 0 <= j < i
        ensures s[j] != c
      {
        assert !OccursAt(s, [c], j);
        assert s[j..j + 1] == [s[j]];
      }
      var rest := s[i + 1..];
      SplitPieces(rest, c);
      assert forall x :: x in s[..i] ==> x in s;
      assert forall x :: x in rest ==> x in s;
      assert Split(s, [c]) == [s[..i]] + Split(rest, [c]);
    }
  }

  /** A character in neither the parts nor the separator is not in their join. */
  lemma {:induction false} JoinAvoids(parts: seq<string>, sep: string, c: char)
    requires c !in sep
    requires forall k :: 0 <= k < |parts| ==> c !in parts[k]
    ensures c !in Join(parts, sep)
    decreases |parts|
  {
    if |parts| > 1 {
      JoinAvoids(parts[1..], sep, c);
    }
  }
}
