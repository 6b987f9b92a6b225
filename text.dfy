/**
 * The string library calls the pipeline relies on: strings.TrimSpace,
 * strings.Split (joining its pieces with strings.Join gives back the text,
 * and splitting undoes a join for a one-character separator the pieces
 * avoid), strconv.Atoi (which reads back every decimal rendering of an
 * int64), and the byte-wise order Go uses on strings.
 *
 * Strings are sequences of Unicode scalar values. Since UTF-8 preserves
 * code point order, comparing code points orders strings as Go's byte
 * comparison does.
 */
module Text {
  import opened Wrappers
  import Int64

  // ---------------------------------------------------------------- spaces

  /** Unicode white space, as unicode.IsSpace defines it. */
  predicate IsSpace(c: char) {
    var n := c as int;
    (0x09 <= n <= 0x0D) || n == 0x20 || n == 0x85 || n == 0xA0 || n == 0x1680
    || (0x2000 <= n <= 0x200A) || n == 0x2028 || n == 0x2029 || n == 0x202F
    || n == 0x205F || n == 0x3000
  }

  ghost predicate AllSpace(s: string) {
    forall k :: 0 <= k < |s| ==> IsSpace(s[k])
  }

  /** Neither end of s is white space. */
  predicate Trimmed(s: string) {
    s == [] || (!IsSpace(s[0]) && !IsSpace(s[|s| - 1]))
  }

  /** The first position at or after i that does not hold white space, or |s|. */
  function SkipSpace(s: string, i: nat): (j: nat)
    requires i <= |s|
    ensures i <= j <= |s|
    ensures forall k :: i <= k < j ==> IsSpace(s[k])
    ensures j == |s| || !IsSpace(s[j])
    decreases |s| - i
  {
    if i < |s| && IsSpace(s[i]) then SkipSpace(s, i + 1) else i
  }

  /** The end of s[lo..j] once its trailing white space is cut off. */
  function SkipSpaceBack(s: string, lo: nat, j: nat): (k: nat)
    requires lo <= j <= |s|
    ensures lo <= k <= j
    ensures forall m :: k <= m < j ==> IsSpace(s[m])
    ensures k == lo || !IsSpace(s[k - 1])
    decreases j
  {
    if j > lo && IsSpace(s[j - 1]) then SkipSpaceBack(s, lo, j - 1) else j
  }

  /** strings.TrimSpace: s with the white space at both ends cut off. */
  function TrimSpace(s: string): (r: string)
    ensures |r| <= |s|
    ensures Trimmed(r)
  {
    var a := SkipSpace(s, 0);
    var b := SkipSpaceBack(s, a, |s|);
    s[a..b]
  }

  /**
   * What TrimSpace keeps is one slice of s, and everything it cuts off on
   * either side of that slice is white space.
   */
  lemma TrimSpaceCuts(s: string) returns (i: nat)
    ensures i + |TrimSpace(s)| <= |s| && TrimSpace(s) == s[i..i + |TrimSpace(s)|]
    ensures AllSpace(s[..i]) && AllSpace(s[i + |TrimSpace(s)|..])
  {
    i := SkipSpace(s, 0);
    var b := SkipSpaceBack(s, i, |s|);
    assert TrimSpace(s) == s[i..b];
    forall k | 0 <= k < |s| - b
      ensures IsSpace(s[b..][k])
    {
      assert s[b..][k] == s[b + k];
    }
  }

  /** Trimming twice trims nothing more. */
  lemma {:induction false} TrimSpaceIdempotent(s: string)
    ensures TrimSpace(TrimSpace(s)) == TrimSpace(s)
  {
    var t := TrimSpace(s);
    TrimOfTrimmed(t);
  }

  lemma {:induction false} TrimOfTrimmed(t: string)
    requires Trimmed(t)
    ensures TrimSpace(t) == t
  {
    assert t[0..|t|] == t;
  }

  // ------------------------------------------------------ search and split

  /** sep occurs in s starting at position i. */
  predicate OccursAt(s: string, sep: string, i: int) {
    0 <= i && i + |sep| <= |s| && s[i..i + |sep|] == sep
  }

  ghost predicate Contains(s: string, sep: string) {
    exists i :: OccursAt(s, sep, i)
  }

  /** The first position at or after `from` where sep occurs in s, or -1. */
  function IndexFrom(s: string, sep: string, from: nat): (r: int)
    requires from <= |s|
    ensures r == -1 || (from <= r && OccursAt(s, sep, r))
    ensures r >= 0 ==> forall k :: from <= k < r ==> !OccursAt(s, sep, k)
    ensures r == -1 ==> forall k :: from <= k ==> !OccursAt(s, sep, k)
    decreases |s| - from
  {
    if from + |sep| > |s| then -1
    else if s[from..from + |sep|] == sep then from
    else IndexFrom(s, sep, from + 1)
  }

  /** strings.Index: the first occurrence of sep in s, or -1 when there is none. */
  function Index(s: string, sep: string): (r: int)
    ensures r == -1 <==> !Contains(s, sep)
    ensures r >= 0 ==> OccursAt(s, sep, r) && forall k :: 0 <= k < r ==> !OccursAt(s, sep, k)
  {
    IndexFrom(s, sep, 0)
  }

  /** One piece per character: what strings.Split does with an empty separator. */
  function Explode(s: string): (r: seq<string>)
    ensures |r| == |s|
    ensures forall k :: 0 <= k < |s| ==> r[k] == [s[k]]
  {
    if s == [] then [] else [[s[0]]] + Explode(s[1..])
  }

  /** A piece of an exploded text stays at most one character long when trimmed. */
  lemma ExplodedPiece(s: string, k: int)
    requires 0 <= k < |s|
    ensures |TrimSpace(Explode(s)[k])| <= 1
  {
    assert |Explode(s)[k]| == 1;
  }

  /**
   * strings.Split: the pieces of s between the non-overlapping occurrences of
   * sep, scanned from the left. A non-empty separator always yields at least
   * one piece (the whole of s when sep does not occur); an empty separator
   * yields one piece per character, hence none for the empty string.
   */
  function Split(s: string, sep: string): (r: seq<string>)
    ensures sep != [] ==> |r| >= 1
    ensures sep == [] ==> |r| == |s|
    decreases |s|
  {
    if sep == [] then Explode(s)
    else
      var i := Index(s, sep);
      if i < 0 then [s] else [s[..i]] + Split(s[i + |sep|..], sep)
  }

  /** strings.Join: the pieces with sep between each two neighbours. */
  function Join(parts: seq<string>, sep: string): string {
    if |parts| == 0 then []
    else if |parts| == 1 then parts[0]
    else parts[0] + sep + Join(parts[1..], sep)
  }

  lemma {:induction false} JoinExplode(s: string)
    ensures Join(Explode(s), []) == s
  {
    if |s| > 1 {
      JoinExplode(s[1..]);
      assert Explode(s)[1..] == Explode(s[1..]);
    }
  }

  lemma JoinCons(head: string, tail: seq<string>, sep: string)
    requires tail != []
    ensures Join([head] + tail, sep) == head + sep + Join(tail, sep)
  {
    assert ([head] + tail)[1..] == tail;
  }

  lemma SplitStep(s: string, sep: string, i: int)
    requires sep != [] && i == Index(s, sep) && i >= 0
    ensures Split(s, sep) == [s[..i]] + Split(s[i + |sep|..], sep)
  {
  }

  /** One step of the split: the piece before the first separator, then the rest. */
  lemma SplitAt(s: string, sep: string, i: int)
    requires sep != [] && i == Index(s, sep) && i >= 0
    requires Join(Split(s[i + |sep|..], sep), sep) == s[i + |sep|..]
    ensures Join(Split(s, sep), sep) == s
  {
    var rest := s[i + |sep|..];
    var tail := Split(rest, sep);
    SplitStep(s, sep, i);
    JoinCons(s[..i], tail, sep);
    assert s == s[..i] + s[i..i + |sep|] + rest;
  }

  /** Joining the pieces with the separator gives back the text that was split. */
  lemma {:induction false} SplitJoin(s: string, sep: string)
    ensures Join(Split(s, sep), sep) == s
    decreases |s|
  {
    if sep == [] {
      JoinExplode(s);
    } else {
      var i := Index(s, sep);
      if i >= 0 {
        var rest := s[i + |sep|..];
        SplitJoin(rest, sep);
        SplitAt(s, sep, i);
      }
    }
  }

  /** No piece of a split contains the (non-empty) separator. */
  lemma {:induction false} SplitPiecesAvoidSep(s: string, sep: string)
    requires sep != []
    ensures forall p :: p in Split(s, sep) ==> !Contains(p, sep)
    decreases |s|
  {
    var i := Index(s, sep);
    if i >= 0 {
      var rest := s[i + |sep|..];
      SplitPiecesAvoidSep(rest, sep);
      var head := s[..i];
      PrefixBeforeIndex(s, sep, i);
      assert Split(s, sep) == [head] + Split(rest, sep);
    }
  }

  /** A character separator that does not occur in head splits head + [c] + rest right after head. */
  lemma SplitConsChar(head: string, c: char, rest: string)
    requires c !in head
    ensures Split(head + [c] + rest, [c]) == [head] + Split(rest, [c])
  {
    var s := head + [c] + rest;
    assert OccursAt(s, [c], |head|);
    forall k | 0 <= k < |head|
      ensures !OccursAt(s, [c], k)
    {
      assert s[k..k + 1] == [head[k]];
    }
    assert Index(s, [c]) == |head|;
    assert s[..|head|] == head && s[|head| + 1..] == rest;
  }

  /** A text without the separator character is a single piece. */
  lemma SplitNoChar(s: string, c: char)
    requires c !in s
    ensures Split(s, [c]) == [s]
  {
    forall k | 0 <= k < |s|
      ensures !OccursAt(s, [c], k)
    {
      assert s[k..k + 1] == [s[k]];
    }
    assert !Contains(s, [c]);
  }

  /**
   * Splitting on a character undoes joining with it: pieces that do not
   * contain the character come back unchanged.
   */
  lemma {:induction false} JoinSplitChar(parts: seq<string>, c: char)
    requires parts != []
    requires forall i :: 0 <= i < |parts| ==> c !in parts[i]
    ensures Split(Join(parts, [c]), [c]) == parts
    decreases |parts|
  {
    if |parts| == 1 {
      SplitNoChar(parts[0], c);
    } else {
      JoinSplitChar(parts[1..], c);
      SplitConsChar(parts[0], c, Join(parts[1..], [c]));
      assert parts == [parts[0]] + parts[1..];
    }
  }

  /** The text before the first occurrence of sep does not contain sep. */
  lemma PrefixBeforeIndex(s: string, sep: string, i: int)
    requires sep != [] && i == Index(s, sep) && i >= 0
    ensures !Contains(s[..i], sep)
  {
    SliceOccurrences(s, sep, 0, i);
    forall k | 0 <= k < i
      ensures !OccursAt(s[..i], sep, k)
    {
      assert !OccursAt(s, sep, 0 + k);
    }
  }

  /** A slice of a text that does not contain sep does not contain it either. */
  lemma SliceAvoidsSep(t: string, sep: string, a: nat, b: nat)
    requires a <= b <= |t| && !Contains(t, sep)
    ensures !Contains(t[a..b], sep)
  {
    SliceOccurrences(t, sep, a, b);
  }

  /** An occurrence in a slice is an occurrence in the whole, shifted by the slice's start. */
  lemma SliceOccurrences(t: string, sep: string, a: nat, b: nat)
    requires a <= b <= |t|
    ensures forall k :: OccursAt(t[a..b], sep, k) ==> OccursAt(t, sep, a + k)
  {
    forall k | OccursAt(t[a..b], sep, k)
      ensures OccursAt(t, sep, a + k)
    {
      var x, y := t[a..b][k..k + |sep|], t[a + k..a + k + |sep|];
      assert forall j :: 0 <= j < |x| ==> x[j] == y[j];
      assert x == y;
    }
  }

  /** Any piece of a split, once trimmed, is trimmed and does not contain the separator. */
  lemma TrimmedPiece(s: string, sep: string, k: int)
    requires sep != [] && 0 <= k < |Split(s, sep)|
    ensures Trimmed(TrimSpace(Split(s, sep)[k]))
    ensures !Contains(TrimSpace(Split(s, sep)[k]), sep)
  {
    var parts := Split(s, sep);
    SplitPiecesAvoidSep(s, sep);
    assert parts[k] in parts;
    TrimSpaceAvoidsSep(parts[k], sep);
  }

  /** Trimming a text that does not contain sep leaves a text that does not contain it. */
  lemma TrimSpaceAvoidsSep(s: string, sep: string)
    requires !Contains(s, sep)
    ensures !Contains(TrimSpace(s), sep)
  {
    var i := TrimSpaceCuts(s);
    SliceAvoidsSep(s, sep, i, i + |TrimSpace(s)|);
  }

  // ------------------------------------------------------ decimal integers

  predicate IsDigit(c: char) {
    '0' <= c <= '9'
  }

  predicate AllDigits(s: string) {
    forall k :: 0 <= k < |s| ==> IsDigit(s[k])
  }

  function DigitValue(c: char): nat
    requires IsDigit(c)
  {
    (c as int) - ('0' as int)
  }

  /** The value of a string of decimal digits, most significant first. */
  function DigitsValue(s: string): nat
    requires AllDigits(s)
    decreases |s|
  {
    if s == [] then 0 else DigitsValue(s[..|s| - 1]) * 10 + DigitValue(s[|s| - 1])
  }

  /**
   * strconv.Atoi: an optional sign followed by at least one decimal digit,
   * whose value fits in a 64-bit int. Anything else (empty text, a sign
   * alone, spaces, a fraction, underscores, overflow) is an error.
   */
  function Atoi(s: string): (r: Option<int>)
    ensures r.Some? ==> Int64.InRange(r.value)
    ensures r.Some? ==> s != [] && (IsDigit(s[0]) || s[0] == '-' || s[0] == '+')
  {
    var signed := |s| > 0 && (s[0] == '-' || s[0] == '+');
    var digits := if signed then s[1..] else s;
    if digits == [] || !AllDigits(digits) then None
    else
      var v: int := if signed && s[0] == '-' then -(DigitsValue(digits) as int) else DigitsValue(digits);
      if Int64.InRange(v) then Some(v) else None
  }

  /**
   * Atoi beyond canonical renderings: a plus sign and leading zeros are
   * accepted, a trailing letter and a sign alone are not.
   */
  lemma AtoiExamples()
    ensures Atoi("+1") == Some(1)
    ensures Atoi("01") == Some(1)
    ensures Atoi("1a") == None
    ensures Atoi("-") == None
  {
    assert DigitsValue("1") == 1 by {
      assert "1"[..0] == [];
    }
    assert "+1"[1..] == "1";
    assert DigitsValue("01") == 1 by {
      assert "01"[..1] == "0" && "0"[..0] == [];
    }
    assert !IsDigit("1a"[1]);
    assert "-"[1..] == [];
  }

  function DigitChar(d: nat): (c: char)
    requires d < 10
    ensures IsDigit(c) && DigitValue(c) == d
  {
    (('0' as int) + d) as char
  }

  /** The decimal digits of n, without leading zeros. */
  function NatDigits(n: nat): (r: string)
    ensures r != [] && AllDigits(r)
    decreases n
  {
    if n < 10 then [DigitChar(n)] else NatDigits(n / 10) + [DigitChar(n % 10)]
  }

  /** The decimal rendering of n that strconv.Itoa produces. */
  function Itoa(n: int): string {
    if n < 0 then "-" + NatDigits(-n) else NatDigits(n)
  }

  /** A decimal rendering holds digits and at most a leading minus sign, never a dot. */
  lemma ItoaHasNoDot(n: int)
    ensures '.' !in Itoa(n)
  {
    var d := NatDigits(if n < 0 then -n else n);
    assert forall k :: 0 <= k < |d| ==> d[k] != '.';
    if n < 0 {
      assert Itoa(n) == "-" + d;
    }
  }

  lemma {:induction false} NatDigitsValue(n: nat)
    ensures DigitsValue(NatDigits(n)) == n
    decreases n
  {
    if n >= 10 {
      NatDigitsValue(n / 10);
      var s := NatDigits(n);
      assert s[..|s| - 1] == NatDigits(n / 10);
    }
  }

  /** Atoi reads back every 64-bit int from its decimal rendering. */
  lemma AtoiItoa(n: int)
    requires Int64.InRange(n)
    ensures Atoi(Itoa(n)) == Some(n)
  {
    var m: nat := if n < 0 then -n else n;
    var d := NatDigits(m);
    NatDigitsValue(m);
    if n < 0 {
      var s := "-" + d;
      assert s[0] == '-' && s[1..] == d;
      AtoiOf(s, d, -(m as int));
    } else {
      assert d[0] != '-' && d[0] != '+' by { assert IsDigit(d[0]); }
      AtoiOf(d, d, m);
    }
  }

  /** What Atoi returns once the sign and the digits of s are known. */
  lemma AtoiOf(s: string, digits: string, v: int)
    requires digits != [] && AllDigits(digits) && Int64.InRange(v)
    requires (s == digits && s[0] != '-' && s[0] != '+' && v == DigitsValue(digits))
          || (|s| > 0 && s[0] == '-' && s[1..] == digits && v == -(DigitsValue(digits) as int))
    ensures Atoi(s) == Some(v)
  {
  }

  // ---------------------------------------------------------- string order

  /** a sorts before or equal to b, comparing character by character. */
  predicate LessEq(a: string, b: string)
    decreases |a|
  {
    a == [] || (b != [] && (a[0] < b[0] || (a[0] == b[0] && LessEq(a[1..], b[1..]))))
  }

  lemma {:induction false} LessEqTotal(a: string, b: string)
    ensures LessEq(a, b) || LessEq(b, a)
    decreases |a|
  {
    if a != [] && b != [] && a[0] == b[0] {
      LessEqTotal(a[1..], b[1..]);
    }
  }

  lemma {:induction false} LessEqAntisymmetric(a: string, b: string)
    requires LessEq(a, b) && LessEq(b, a)
    ensures a == b
    decreases |a|
  {
    if a != [] {
      LessEqAntisymmetric(a[1..], b[1..]);
      assert a == [a[0]] + a[1..] && b == [b[0]] + b[1..];
    }
  }

  lemma {:induction false} LessEqTransitive(a: string, b: string, c: string)
    requires LessEq(a, b) && LessEq(b, c)
    ensures LessEq(a, c)
    decreases |a|
  {
    if a != [] && a[0] == b[0] && b[0] == c[0] {
      LessEqTransitive(a[1..], b[1..], c[1..]);
    }
  }

  /** Every non-empty finite set of strings has a least element. */
  lemma {:induction false} LeastExists(s: set<string>)
    requires s != {}
    ensures exists k :: k in s && forall j :: j in s ==> LessEq(k, j)
    decreases |s|
  {
    var x :| x in s;
    if s == {x} {
      LessEqTotal(x, x);
    } else {
      var rest := s - {x};
      LeastExists(rest);
      var k :| k in rest && forall j :: j in rest ==> LessEq(k, j);
      LessEqTotal(k, x);
      if LessEq(k, x) {
        assert forall j :: j in s ==> LessEq(k, j);
      } else {
        forall j | j in s
          ensures LessEq(x, j)
        {
          if j == x { LessEqTotal(x, x); } else { LessEqTransitive(x, k, j); }
        }
      }
    }
  }

  /** The least string of a non-empty set. */
  function Least(s: set<string>): (k: string)
    requires s != {}
    ensures k in s && forall j :: j in s ==> LessEq(k, j)
  {
    LeastExists(s);
    forall a, b | LessEq(a, b) && LessEq(b, a)
      ensures a == b
    {
      LessEqAntisymmetric(a, b);
    }
    var k :| k in s && forall j :: j in s ==> LessEq(k, j);
    k
  }

  /** Each string of r sorts strictly before every later one. */
  predicate Ascending(r: seq<string>) {
    forall i, j :: 0 <= i < j < |r| ==> LessEq(r[i], r[j]) && r[i] != r[j]
  }

  lemma AscendingCons(k: string, rest: seq<string>)
    requires Ascending(rest)
    requires forall x :: x in rest ==> LessEq(k, x) && k != x
    ensures Ascending([k] + rest)
  {
    var r := [k] + rest;
    forall i, j | 0 <= i < j < |r|
      ensures LessEq(r[i], r[j]) && r[i] != r[j]
    {
      assert r[j] == rest[j - 1] && r[j] in rest;
      if i > 0 {
        assert r[i] == rest[i - 1];
      }
    }
  }

  /** The strings of s in ascending order, as Go's fmt lists the keys of a map. */
  function Sorted(s: set<string>): (r: seq<string>)
    ensures |r| == |s|
    ensures forall k :: k in r <==> k in s
    ensures Ascending(r)
    decreases |s|
  {
    if s == {} then []
    else
      var k := Least(s);
      var rest := Sorted(s - {k});
      AscendingCons(k, rest);
      assert forall x :: x in [k] + rest <==> x == k || x in rest;
      [k] + rest
  }
}
