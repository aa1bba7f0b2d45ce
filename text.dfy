/**
  String operations of the JavaScript engine that the model relies on:
  decimal formatting and zero padding, the `<` comparison on strings,
  `Array.prototype.join`, `String.prototype.trim`, lower-casing and
  `String.prototype.includes`.
*/
module Text {
  predicate IsDigit(c: char) {
    '0' <= c <= '9'
  }

  function DigitChar(n: int): (c: char)
    requires 0 <= n <= 9
    ensures IsDigit(c)
  {
    ['0', '1', '2', '3', '4', '5', '6', '7', '8', '9'][n]
  }

  function DigitValue(c: char): int
    requires IsDigit(c)
  {
    c as int - '0' as int
  }

  function Pow10(w: nat): nat {
    if w == 0 then 1 else 10 * Pow10(w - 1)
  }

  /** `String(n)` for a non-negative integer: its shortest decimal form. */
  function DecimalString(n: nat): (s: string)
    ensures |s| >= 1 && forall i :: 0 <= i < |s| ==> IsDigit(s[i])
  {
    if n < 10 then [DigitChar(n)] else DecimalString(n / 10) + [DigitChar(n % 10)]
  }

  /** The value of a string of decimal digits (0 for the empty string). */
  function ParseDecimal(s: string): nat
    requires forall i :: 0 <= i < |s| ==> IsDigit(s[i])
  {
    if s == [] then 0 else 10 * ParseDecimal(s[..|s| - 1]) + DigitValue(s[|s| - 1])
  }

  function Zeros(k: nat): (s: string)
    ensures |s| == k && forall i :: 0 <= i < k ==> s[i] == '0'
  {
    if k == 0 then [] else Zeros(k - 1) + ['0']
  }

  /** `String(n).padStart(w, '0')`. */
  function Pad(n: nat, w: nat): (s: string)
    ensures forall i :: 0 <= i < |s| ==> IsDigit(s[i])
  {
    var d := DecimalString(n);
    if |d| >= w then d else Zeros(w - |d|) + d
  }

  lemma {:induction false} DecimalRoundTrip(n: nat)
    ensures ParseDecimal(DecimalString(n)) == n
  {
    if n >= 10 {
      DecimalRoundTrip(n / 10);
      var s := DecimalString(n);
      assert s[..|s| - 1] == DecimalString(n / 10);
    }
  }

  lemma {:induction false} LeadingZeros(k: nat, s: string)
    requires forall i :: 0 <= i < |s| ==> IsDigit(s[i])
    ensures ParseDecimal(Zeros(k) + s) == ParseDecimal(s)
    decreases |s| + k
  {
    if s == [] {
      assert Zeros(k) + s == Zeros(k);
      if k > 0 {
        assert Zeros(k)[..k - 1] == Zeros(k - 1) + [];
        LeadingZeros(k - 1, []);
      }
    } else {
      var t := Zeros(k) + s;
      assert t[..|t| - 1] == Zeros(k) + s[..|s| - 1];
      LeadingZeros(k, s[..|s| - 1]);
    }
  }

  /** Zero padding loses nothing: the padded string still reads as n. */
  lemma PadRoundTrip(n: nat, w: nat)
    ensures ParseDecimal(Pad(n, w)) == n
  {
    DecimalRoundTrip(n);
    var d := DecimalString(n);
    if |d| < w {
      LeadingZeros(w - |d|, d);
    }
  }

  lemma {:induction false} DecimalLength(n: nat, w: nat)
    requires 1 <= w && n < Pow10(w)
    ensures |DecimalString(n)| <= w
  {
    if n >= 10 {
      DecimalLength(n / 10, w - 1);
    }
  }

  /** A number below 10^w padded to width w has exactly w digits. */
  lemma PadLength(n: nat, w: nat)
    requires 1 <= w && n < Pow10(w)
    ensures |Pad(n, w)| == w
  {
    DecimalLength(n, w);
  }

  /** JavaScript's `a < b` on strings: character by character, a proper prefix first (characters compare as code points). */
  predicate Less(a: string, b: string) {
    if b == [] then false
    else if a == [] then true
    else if a[0] != b[0] then a[0] < b[0]
    else Less(a[1..], b[1..])
  }

  lemma {:induction false} LessIrreflexive(a: string)
    ensures !Less(a, a)
  {
    if a != [] {
      LessIrreflexive(a[1..]);
    }
  }

  lemma {:induction false} LessTransitive(a: string, b: string, c: string)
    requires Less(a, b) && Less(b, c)
    ensures Less(a, c)
  {
    if a != [] && a[0] == b[0] && b[0] == c[0] {
      LessTransitive(a[1..], b[1..], c[1..]);
    }
  }

  lemma {:induction false} LessTotal(a: string, b: string)
    ensures a == b || Less(a, b) || Less(b, a)
  {
    if a != [] && b != [] && a[0] == b[0] {
      LessTotal(a[1..], b[1..]);
      if a[1..] == b[1..] {
        assert a == [a[0]] + a[1..] && b == [b[0]] + b[1..];
      }
    }
  }

  lemma {:induction false} LessAsymmetric(a: string, b: string)
    requires Less(a, b)
    ensures !Less(b, a)
  {
    if a != [] && a[0] == b[0] {
      LessAsymmetric(a[1..], b[1..]);
    }
  }

  /** `xs.join(sep)`. */
  function Join(xs: seq<string>, sep: string): string {
    if xs == [] then "" else if |xs| == 1 then xs[0] else xs[0] + sep + Join(xs[1..], sep)
  }

  /** Where element i starts in `xs.join(sep)`: the lengths of the elements before it, each followed by sep. */
  function JoinOffset(xs: seq<string>, sep: string, i: int): nat
    requires 0 <= i <= |xs|
  {
    if i == 0 then 0 else JoinOffset(xs, sep, i - 1) + |xs[i - 1]| + |sep|
  }

  lemma {:induction false} JoinOffsetTail(xs: seq<string>, sep: string, i: int)
    requires 1 <= i <= |xs|
    ensures JoinOffset(xs, sep, i) == |xs[0]| + |sep| + JoinOffset(xs[1..], sep, i - 1)
  {
    if i > 1 {
      JoinOffsetTail(xs, sep, i - 1);
    }
  }

  /**
    The layout of `xs.join(sep)`: element i stands at JoinOffset(xs, sep, i),
    sep follows each element but the last, and nothing follows the last.
  */
  lemma {:induction false} JoinLayout(xs: seq<string>, sep: string, i: int)
    requires 0 <= i < |xs|
    ensures var j := Join(xs, sep); var o := JoinOffset(xs, sep, i);
      o + |xs[i]| <= |j| && j[o..o + |xs[i]|] == xs[i]
      && (i + 1 < |xs| ==> JoinOffset(xs, sep, i + 1) <= |j| && j[o + |xs[i]|..JoinOffset(xs, sep, i + 1)] == sep)
      && (i + 1 == |xs| ==> |j| == o + |xs[i]|)
  {
    var j := Join(xs, sep);
    if |xs| == 1 {
      assert j == xs[0];
    } else {
      var head, rest := xs[0] + sep, Join(xs[1..], sep);
      assert j == head + rest;
      if i == 0 {
        JoinFront(j, xs[0], sep, rest);
      } else {
        var tail := xs[1..];
        JoinLayout(tail, sep, i - 1);
        JoinOffsetTail(xs, sep, i);
        JoinOffsetTail(xs, sep, i + 1);
        assert tail[i - 1] == xs[i];
        LayoutShift(j, head, rest, xs[i], sep, JoinOffset(tail, sep, i - 1), JoinOffset(tail, sep, i),
          JoinOffset(xs, sep, i), JoinOffset(xs, sep, i + 1), i + 1 == |xs|);
      }
    }
  }

  lemma JoinFront(j: string, x: string, sep: string, rest: string)
    requires j == x + sep + rest
    ensures |x| + |sep| <= |j| && j[0..|x|] == x && j[|x|..|x| + |sep|] == sep
  {
  }

  /** Where x and the following sep stand in rest, they stand |head| further on in j = head + rest. */
  lemma LayoutShift(j: string, head: string, rest: string, x: string, sep: string, o: int, o2: int, p: int, p2: int, last: bool)
    requires j == head + rest && p == |head| + o && p2 == |head| + o2
    requires 0 <= o && o + |x| <= |rest| && rest[o..o + |x|] == x
    requires !last ==> o + |x| <= o2 <= |rest| && rest[o + |x|..o2] == sep
    requires last ==> |rest| == o + |x|
    ensures p + |x| <= |j| && j[p..p + |x|] == x
    ensures !last ==> p2 <= |j| && j[p + |x|..p2] == sep
    ensures last ==> |j| == p + |x|
  {
    assert j[p..p + |x|] == rest[o..o + |x|];
    if !last {
      assert j[p + |x|..p2] == rest[o + |x|..o2];
    }
  }

  /**
    The characters `String.prototype.trim` removes: the WhiteSpace and
    LineTerminator code points of ECMA-262 (section 12.2 and 12.3).
  */
  predicate IsTrimmable(c: char) {
    var u := c as int;
    // WhiteSpace: TAB, VT, FF, SP, NBSP, ZWNBSP and the Space_Separator category
    u == 0x09 || u == 0x0B || u == 0x0C || u == 0x20 || u == 0xA0 || u == 0xFEFF
    || u == 0x1680 || (0x2000 <= u <= 0x200A) || u == 0x202F || u == 0x205F || u == 0x3000
    // LineTerminator: LF, CR, LS, PS
    || u == 0x0A || u == 0x0D || u == 0x2028 || u == 0x2029
  }

  function TrimStart(s: string): (r: string)
    ensures |r| <= |s| && r == s[|s| - |r|..]
    ensures r == [] || !IsTrimmable(r[0])
    ensures forall i :: 0 <= i < |s| - |r| ==> IsTrimmable(s[i])
  {
    if s != [] && IsTrimmable(s[0]) then TrimStart(s[1..]) else s
  }

  function TrimEnd(s: string): (r: string)
    ensures |r| <= |s| && r == s[..|r|]
    ensures r == [] || !IsTrimmable(r[|r| - 1])
    ensures forall i :: |r| <= i < |s| ==> IsTrimmable(s[i])
  {
    if s != [] && IsTrimmable(s[|s| - 1]) then TrimEnd(s[..|s| - 1]) else s
  }

  /** r is the slice of s at offset i, and everything around it is white space. */
  predicate TrimmedAt(s: string, r: string, i: int) {
    0 <= i <= |s| - |r| && r == s[i..i + |r|]
    && (forall k :: 0 <= k < i ==> IsTrimmable(s[k]))
    && (forall k :: i + |r| <= k < |s| ==> IsTrimmable(s[k]))
  }

  /**
    `s.trim()`: the longest middle slice of s that neither starts nor ends
    with white space; everything cut off is white space.
  */
  function Trim(s: string): (r: string)
    ensures exists i :: TrimmedAt(s, r, i)
    ensures r == [] || (!IsTrimmable(r[0]) && !IsTrimmable(r[|r| - 1]))
  {
    var t := TrimStart(s);
    var r := TrimEnd(t);
    TrimBothEnds(s, t, r);
    r
  }

  /** White space cut from the front and then from the back leaves a slice of s with white space around it. */
  lemma TrimBothEnds(s: string, t: string, r: string)
    requires |t| <= |s| && t == s[|s| - |t|..] && forall k :: 0 <= k < |s| - |t| ==> IsTrimmable(s[k])
    requires |r| <= |t| && r == t[..|r|] && forall k :: |r| <= k < |t| ==> IsTrimmable(t[k])
    ensures TrimmedAt(s, r, |s| - |t|)
  {
    var i := |s| - |t|;
    assert r == s[i..i + |r|];
    forall k | i + |r| <= k < |s|
      ensures IsTrimmable(s[k])
    {
      assert s[k] == t[k - i];
    }
  }

  function LowerChar(c: char): char {
    if 'A' <= c <= 'Z' then (c as int + 32) as char else c
  }

  /** `s.toLowerCase()`, restricted to the ASCII letters. */
  function Lower(s: string): (r: string)
    ensures |r| == |s|
  {
    if s == [] then [] else [LowerChar(s[0])] + Lower(s[1..])
  }

  predicate OccursAt(s: string, q: string, i: int) {
    0 <= i <= |s| - |q| && s[i..i + |q|] == q
  }

  /** `s.includes(q)`: q occurs in s as a contiguous piece. */
  predicate Includes(s: string, q: string) {
    exists i | 0 <= i <= |s| :: OccursAt(s, q, i)
  }
}
