/**
 * The string primitives the dashboard relies on, as Python defines them:
 * `str.isspace`, `str.strip`, `str.split(',')`, `sep.join`, the code-point
 * order `sorted` uses on strings, and decimal rendering of a counter.
 */
module Strings {

  /** Python's `str.isspace()` on one character. */
  predicate IsSpace(c: char) {
    || c == ' ' || ('\t' <= c <= '\r')                // tab, LF, VT, FF, CR
    || ('\U{001C}' <= c <= '\U{001F}')                 // file/group/record/unit separators
    || c == '\U{0085}' || c == '\U{00A0}' || c == '\U{1680}'
    || ('\U{2000}' <= c <= '\U{200A}')
    || c == '\U{2028}' || c == '\U{2029}' || c == '\U{202F}' || c == '\U{205F}' || c == '\U{3000}'
  }

  predicate AllSpace(s: string) {
    forall k :: 0 <= k < |s| ==> IsSpace(s[k])
  }

  /** The number of whitespace characters `s` starts with. */
  function LeadingSpaces(s: string): (n: nat)
    ensures n <= |s|
    ensures forall k :: 0 <= k < n ==> IsSpace(s[k])
    ensures n == |s| || !IsSpace(s[n])
  {
    if s != [] && IsSpace(s[0]) then
      var n := 1 + LeadingSpaces(s[1..]);
      assert forall k :: 1 <= k < |s| ==> s[k] == s[1..][k - 1];
      n
    else 0
  }

  /** The number of whitespace characters `s` ends with. */
  function TrailingSpaces(s: string): (n: nat)
    ensures n <= |s|
    ensures forall k :: |s| - n <= k < |s| ==> IsSpace(s[k])
    ensures n == |s| || !IsSpace(s[|s| - n - 1])
  {
    if s != [] && IsSpace(s[|s| - 1]) then
      var n := 1 + TrailingSpaces(s[..|s| - 1]);
      assert forall k :: 0 <= k < |s| - 1 ==> s[k] == s[..|s| - 1][k];
      n
    else 0
  }

  /** Python's `s.lstrip()`. */
  function TrimLeft(s: string): string {
    s[LeadingSpaces(s)..]
  }

  /** Python's `s.rstrip()`. */
  function TrimRight(s: string): string {
    s[..|s| - TrailingSpaces(s)]
  }

  /** No whitespace at either end. */
  predicate Stripped(s: string) {
    s == [] || (!IsSpace(s[0]) && !IsSpace(s[|s| - 1]))
  }

  /**
   * Python's `s.strip()`: a middle part of `s`, cut off only whitespace on
   * either side, that starts and ends with a non-space.
   */
  function Trim(s: string): (r: string)
    ensures Stripped(r)
    ensures exists a, b :: 0 <= a <= b <= |s| && r == s[a..b] && AllSpace(s[..a]) && AllSpace(s[b..])
  {
    var a := LeadingSpaces(s);
    var l := TrimLeft(s);
    assert l == [] || l[0] == s[a];
    var t := TrailingSpaces(l);
    var b := |s| - t;
    ShiftAll(s, IsSpace, a, |l| - t);
    SliceOfSlice(s, a, |l| - t);
    EdgesAll(s, IsSpace, a, b);
    assert TrimRight(l) == s[a..b] && AllSpace(s[..a]) && AllSpace(s[b..]);
    TrimRight(l)
  }

  lemma SliceOfSlice<T>(s: seq<T>, a: nat, n: nat)
    requires a + n <= |s|
    ensures s[a..][..n] == s[a..a + n]
  {
  }

  /** Whatever holds of `s[a..]` from position `m` on holds of `s` from `a + m` on. */
  lemma ShiftAll<T>(s: seq<T>, p: T -> bool, a: nat, m: nat)
    requires a + m <= |s|
    requires forall k :: m <= k < |s[a..]| ==> p(s[a..][k])
    ensures forall k :: a + m <= k < |s| ==> p(s[k])
  {
    forall k | a + m <= k < |s| ensures p(s[k]) {
      assert s[k] == s[a..][k - a];
    }
  }

  /** Whatever holds of the elements before `a` and from `b` on holds of the two end slices. */
  lemma EdgesAll<T>(s: seq<T>, p: T -> bool, a: nat, b: nat)
    requires a <= b <= |s|
    requires forall k :: 0 <= k < a ==> p(s[k])
    requires forall k :: b <= k < |s| ==> p(s[k])
    ensures forall k :: 0 <= k < |s[..a]| ==> p(s[..a][k])
    ensures forall k :: 0 <= k < |s[b..]| ==> p(s[b..][k])
  {
    forall k | 0 <= k < |s[b..]| ensures p(s[b..][k]) {
      assert s[b..][k] == s[b + k];
    }
  }

  /** `strip()` is the empty string exactly when every character is whitespace. */
  lemma TrimEmptyIff(s: string)
    ensures Trim(s) == [] <==> AllSpace(s)
  {
    var n := LeadingSpaces(s);
    if n < |s| {
      var l := TrimLeft(s);
      assert l[0] == s[n];
      assert |TrimRight(l)| > 0;
    }
  }

  /** A string with no whitespace at either end is its own `strip()`. */
  lemma TrimOfTrimmed(s: string)
    requires Stripped(s)
    ensures Trim(s) == s
  {
  }

  /** `strip()` is idempotent. */
  lemma TrimIdempotent(s: string)
    ensures Trim(Trim(s)) == Trim(s)
  {
    TrimOfTrimmed(Trim(s));
  }

  /** A leading blank does not change `strip()`. */
  lemma TrimSpacePrefix(s: string)
    ensures Trim(" " + s) == Trim(s)
  {
    assert (" " + s)[1..] == s;
  }

  /** Python's `s.split(',')`: never empty, and no piece contains a comma. */
  function Split(s: string): (r: seq<string>)
    ensures |r| >= 1
    ensures forall k :: 0 <= k < |r| ==> ',' !in r[k]
  {
    if s == [] then [""]
    else
      var rest := Split(s[1..]);
      if s[0] == ',' then [""] + rest
      else [[s[0]] + rest[0]] + rest[1..]
  }

  /** Python's `sep.join(pieces)`. */
  function Join(pieces: seq<string>, sep: string): (r: string)
    ensures forall c :: c in r ==> c in sep || exists p :: p in pieces && c in p
  {
    if pieces == [] then ""
    else if |pieces| == 1 then pieces[0]
    else pieces[0] + sep + Join(pieces[1..], sep)
  }

  /** Joining the pieces of a split with a comma gives back the original string. */
  lemma {:induction false} JoinSplit(s: string)
    ensures Join(Split(s), ",") == s
  {
    if s != [] {
      var rest := Split(s[1..]);
      JoinSplit(s[1..]);
      if s[0] == ',' {
        assert Split(s) == [""] + rest;
        assert ([""] + rest)[1..] == rest;
      } else {
        var r := Split(s);
        assert r == [[s[0]] + rest[0]] + rest[1..];
        if |rest| == 1 {
          assert r == [[s[0]] + rest[0]];
        } else {
          assert r[1..] == rest[1..];
          assert Join(rest, ",") == rest[0] + "," + Join(rest[1..], ",");
        }
      }
    }
  }

  lemma {:induction false} SplitNoComma(s: string)
    requires ',' !in s
    ensures Split(s) == [s]
  {
    if s != [] {
      SplitNoComma(s[1..]);
      assert s == [s[0]] + s[1..];
    }
  }

  /** Splitting distributes over a comma. */
  lemma {:induction false} SplitAtComma(a: string, b: string)
    ensures Split(a + "," + b) == Split(a) + Split(b)
  {
    if a == [] {
      assert a + "," + b == [','] + b;
      assert ([','] + b)[1..] == b;
    } else {
      var s := a + "," + b;
      assert s[1..] == a[1..] + "," + b;
      SplitAtComma(a[1..], b);
    }
  }

  /** Splitting a comma-joined list of comma-free pieces gives back the pieces. */
  lemma {:induction false} SplitJoin(pieces: seq<string>)
    requires |pieces| >= 1
    requires forall k :: 0 <= k < |pieces| ==> ',' !in pieces[k]
    ensures Split(Join(pieces, ",")) == pieces
  {
    if |pieces| == 1 {
      SplitNoComma(pieces[0]);
    } else {
      var tail := pieces[1..];
      assert forall k :: 0 <= k < |tail| ==> tail[k] == pieces[k + 1];
      SplitJoin(tail);
      assert Join(pieces, ",") == pieces[0] + "," + Join(tail, ",");
      SplitAtComma(pieces[0], Join(tail, ","));
      SplitNoComma(pieces[0]);
      assert pieces == [pieces[0]] + tail;
    }
  }

  /** Lexicographic order on code points: how Python's `sorted` compares strings. */
  predicate Less(a: string, b: string)
    ensures Less(a, b) ==> a != b
  {
    if a == [] then b != []
    else if b == [] then false
    else a[0] < b[0] || (a[0] == b[0] && Less(a[1..], b[1..]))
  }

  lemma {:induction false} LessIrreflexive(a: string)
    ensures !Less(a, a)
  {
    if a != [] {
      LessIrreflexive(a[1..]);
    }
  }

  lemma {:induction false} LessTransitive(a: string, b: string, c: string)
    requires Less(a, b) && Less(b, c)
    ensures Less(a, c)
  {
    if a != [] && a[0] == b[0] && b[0] == c[0] {
      LessTransitive(a[1..], b[1..], c[1..]);
    }
  }

  lemma {:induction false} LessTotal(a: string, b: string)
    requires a != b
    ensures Less(a, b) || Less(b, a)
  {
    if a != [] && b != [] && a[0] == b[0] {
      assert a == [a[0]] + a[1..] && b == [b[0]] + b[1..];
      LessTotal(a[1..], b[1..]);
    }
  }

  /** The decimal digit character for `d`. */
  function Digit(d: nat): (c: char)
    requires d < 10
    ensures '0' <= c <= '9'
  {
    "0123456789"[d]
  }

  /** `str(n)` for a natural number: a non-empty string of decimal digits with no leading zero. */
  function NatToString(n: nat): (r: string)
    ensures |r| >= 1
    ensures forall k :: 0 <= k < |r| ==> '0' <= r[k] <= '9'
    ensures (|r| == 1) == (n < 10)
    ensures |r| > 1 ==> r[0] != '0'
  {
    if n < 10 then [Digit(n)] else NatToString(n / 10) + [Digit(n % 10)]
  }

  lemma DigitInjective(a: nat, b: nat)
    requires a < 10 && b < 10 && Digit(a) == Digit(b)
    ensures a == b
  {
  }

  /** Different counters render as different strings. */
  lemma {:induction false} NatToStringInjective(a: nat, b: nat)
    requires NatToString(a) == NatToString(b)
    ensures a == b
  {
    var ra, rb := NatToString(a), NatToString(b);
    if a < 10 {
      DigitInjective(a, b);
    } else {
      assert ra[|ra| - 1] == Digit(a % 10) && rb[|rb| - 1] == Digit(b % 10);
      DigitInjective(a % 10, b % 10);
      assert ra[..|ra| - 1] == NatToString(a / 10);
      assert rb[..|rb| - 1] == NatToString(b / 10);
      NatToStringInjective(a / 10, b / 10);
    }
  }
}
