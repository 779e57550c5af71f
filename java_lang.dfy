/** The parts of the Java class library whose behaviour the evaluation tool
    relies on: `double` division, `String.trim`, `StringTokenizer`,
    `Integer.parseInt`, `lastIndexOf`/`indexOf`, `contains`, `startsWith`,
    ASCII case folding and `String.split` on a literal separator. */
module JavaLang {
  import opened Wrappers

  /** A Java `double` as far as this model needs it: a finite value (an
      exact real, rounding is not modelled), NaN or a signed infinity. */
  datatype Double = Finite(value: real) | NaN | Infinity(positive: bool)

  /** IEEE division of two finite values: `x / 0.0` is NaN when `x` is zero
      and an infinity of the sign of `x` otherwise. */
  function Divide(a: real, b: real): (r: Double)
    ensures r.Finite? <==> b != 0.0
    ensures r.Finite? ==> r.value * b == a
    ensures r.NaN? <==> b == 0.0 && a == 0.0
    ensures r.Infinity? ==> b == 0.0 && (r.positive <==> a > 0.0)
  {
    if b != 0.0 then Finite(a / b)
    else if a == 0.0 then NaN
    else Infinity(a > 0.0)
  }

  /** For a positive `c`, multiplying by `c` keeps the order. */
  lemma ScaleOrder(a: real, b: real, c: real)
    requires c > 0.0
    ensures a <= b <==> a * c <= b * c
    ensures a < b <==> a * c < b * c
  {
    assert b * c - a * c == (b - a) * c;
    if a < b {
      assert (b - a) * c > 0.0;
    } else {
      assert (a - b) * c >= 0.0;
    }
  }

  // ---------------------------------------------------------------------
  // Characters and substrings

  /** `String.trim` removes every leading and trailing character whose code
      is at most that of the space character. */
  predicate IsTrimmed(c: char) { c <= ' ' }

  function TrimStart(s: string): (r: nat)
    ensures r <= |s|
    ensures forall i :: 0 <= i < r ==> IsTrimmed(s[i])
    ensures r < |s| ==> !IsTrimmed(s[r])
    decreases |s|
  {
    if |s| == 0 || !IsTrimmed(s[0]) then 0 else 1 + TrimStart(s[1..])
  }

  function TrimEnd(s: string): (r: nat)
    ensures r <= |s|
    ensures forall i :: r <= i < |s| ==> IsTrimmed(s[i])
    ensures 0 < r ==> !IsTrimmed(s[r - 1])
    decreases |s|
  {
    if |s| == 0 || !IsTrimmed(s[|s| - 1]) then |s| else TrimEnd(s[..|s| - 1])
  }

  /** `r` is `s` with only characters up to the space removed before
      position `i` and after `r`. */
  predicate StrippedAt(s: string, r: string, i: int) {
    && 0 <= i && i + |r| <= |s| && s[i..i + |r|] == r
    && (forall k :: 0 <= k < i ==> IsTrimmed(s[k]))
    && (forall k :: i + |r| <= k < |s| ==> IsTrimmed(s[k]))
  }

  function Trim(s: string): (r: string)
    ensures |r| <= |s|
    ensures |r| > 0 ==> !IsTrimmed(r[0]) && !IsTrimmed(r[|r| - 1])
    ensures exists i :: StrippedAt(s, r, i)
  {
    var i := TrimStart(s);
    var j := TrimEnd(s);
    if i < j then
      assert StrippedAt(s, s[i..j], i);
      s[i..j]
    else
      assert StrippedAt(s, [], 0);
      []
  }

  /** The contract of `Trim` determines it: a string that `s` strips to
      and that starts and ends with a visible character is `Trim(s)`. */
  lemma TrimDetermined(s: string, r: string, i: int)
    requires StrippedAt(s, r, i)
    requires |r| > 0 ==> !IsTrimmed(r[0]) && !IsTrimmed(r[|r| - 1])
    ensures r == Trim(s)
  {
    var a, b := TrimStart(s), TrimEnd(s);
    if |r| == 0 {
      assert forall k :: 0 <= k < |s| ==> IsTrimmed(s[k]) by {
        forall k | 0 <= k < |s| ensures IsTrimmed(s[k]) {
          if k >= i {
            assert i + |r| <= k;
          }
        }
      }
      assert a == |s|;
    } else {
      assert s[i] == r[0] && s[i + |r| - 1] == r[|r| - 1];
      assert a == i;
      assert b == i + |r|;
    }
  }

  /** Trimming removes only characters at the ends: a string that already
      starts and ends with a visible character is unchanged, so `Trim` is
      idempotent. */
  lemma TrimKeepsTrimmed(s: string)
    requires |s| == 0 || (!IsTrimmed(s[0]) && !IsTrimmed(s[|s| - 1]))
    ensures Trim(s) == s
  {
    if |s| > 0 {
      assert TrimStart(s) == 0;
      assert TrimEnd(s) == |s|;
    }
  }

  lemma TrimIdempotent(s: string)
    ensures Trim(Trim(s)) == Trim(s)
  {
    TrimKeepsTrimmed(Trim(s));
  }

  /** `s.lastIndexOf(c)`: the largest index holding `c`, or -1. */
  function LastIndexOf(s: string, c: char): (r: int)
    ensures -1 <= r < |s|
    ensures r == -1 <==> c !in s
    ensures r >= 0 ==> s[r] == c && c !in s[r + 1..]
    decreases |s|
  {
    if |s| == 0 then -1
    else if s[|s| - 1] == c then |s| - 1
    else
      var r := LastIndexOf(s[..|s| - 1], c);
      assert s == s[..|s| - 1] + [s[|s| - 1]];
      assert r >= 0 ==> s[r + 1..] == s[..|s| - 1][r + 1..] + [s[|s| - 1]];
      r
  }

  /** `s.indexOf(c)`: the smallest index holding `c`, or -1. */
  function IndexOf(s: string, c: char): (r: int)
    ensures -1 <= r < |s|
    ensures r == -1 <==> c !in s
    ensures r >= 0 ==> s[r] == c && c !in s[..r]
    decreases |s|
  {
    if |s| == 0 then -1
    else if s[0] == c then 0
    else
      var r := IndexOf(s[1..], c);
      assert s == [s[0]] + s[1..];
      assert r >= 0 ==> s[..r + 1] == [s[0]] + s[1..][..r];
      if r == -1 then -1 else r + 1
  }

  /** `s.startsWith(p)`. */
  predicate StartsWith(s: string, p: string) {
    |p| <= |s| && s[..|p|] == p
  }

  /** `q` occurs in `s` starting at index `i`. */
  predicate OccursAt(s: string, q: string, i: int) {
    0 <= i <= |s| - |q| && s[i..i + |q|] == q
  }

  /** `s.contains(q)`: `q` occurs in `s` as a contiguous substring. */
  predicate Contains(s: string, q: string) {
    exists i | 0 <= i <= |s| - |q| :: OccursAt(s, q, i)
  }

  // ---------------------------------------------------------------------
  // ASCII case folding (`toLowerCase`, `equalsIgnoreCase`)

  function LowerChar(c: char): (r: char)
    ensures 'A' <= c <= 'Z' ==> 'a' <= r <= 'z'
    ensures !('A' <= c <= 'Z') ==> r == c
  {
    if 'A' <= c <= 'Z' then (c as int - 'A' as int + 'a' as int) as char else c
  }

  function ToLowerCase(s: string): string {
    seq(|s|, i requires 0 <= i < |s| => LowerChar(s[i]))
  }

  /** Strings of the same length whose characters agree after case folding. */
  predicate EqualsIgnoreCase(a: string, b: string) {
    |a| == |b| && ToLowerCase(a) == ToLowerCase(b)
  }

  // ---------------------------------------------------------------------
  // StringTokenizer with a single delimiter character

  /** Length of the longest prefix of `s` free of `d`. */
  function RunLength(s: string, d: char): (n: nat)
    ensures n <= |s|
    ensures d !in s[..n]
    ensures n < |s| ==> s[n] == d
    decreases |s|
  {
    if |s| == 0 || s[0] == d then 0
    else
      var n := RunLength(s[1..], d);
      assert s[..n + 1] == [s[0]] + s[1..][..n];
      n + 1
  }

  /** The tokens a `StringTokenizer(s, d)` hands out: the maximal non-empty
      runs of characters other than `d`, in order. */
  function Tokens(s: string, d: char): (r: seq<string>)
    ensures forall k :: 0 <= k < |r| ==> |r[k]| > 0 && d !in r[k]
    decreases |s|
  {
    if |s| == 0 then []
    else if s[0] == d then Tokens(s[1..], d)
    else
      var n := RunLength(s, d);
      [s[..n]] + Tokens(s[n..], d)
  }

  /** `s` with every occurrence of `d` removed. */
  function Without(s: string, d: char): string
    decreases |s|
  {
    if |s| == 0 then [] else (if s[0] == d then [] else [s[0]]) + Without(s[1..], d)
  }

  /** The strings of `ts` one after another. */
  function Concat(ts: seq<string>): string {
    if |ts| == 0 then [] else ts[0] + Concat(ts[1..])
  }

  lemma {:induction false} WithoutAppend(a: string, b: string, d: char)
    ensures Without(a + b, d) == Without(a, d) + Without(b, d)
    decreases |a|
  {
    if |a| > 0 {
      assert (a + b)[1..] == a[1..] + b;
      WithoutAppend(a[1..], b, d);
    } else {
      assert a + b == b;
    }
  }

  lemma {:induction false} WithoutAbsent(a: string, d: char)
    requires d !in a
    ensures Without(a, d) == a
    decreases |a|
  {
    if |a| > 0 {
      WithoutAbsent(a[1..], d);
      assert a == [a[0]] + a[1..];
    }
  }

  /** The tokens hold every character of `s` other than the delimiter, in
      order, and nothing else. */
  lemma {:induction false} TokensContent(s: string, d: char)
    ensures Concat(Tokens(s, d)) == Without(s, d)
    decreases |s|
  {
    if |s| == 0 {
    } else if s[0] == d {
      TokensContent(s[1..], d);
    } else {
      var n := RunLength(s, d);
      var ts := Tokens(s[n..], d);
      assert s == s[..n] + s[n..];
      WithoutAppend(s[..n], s[n..], d);
      WithoutAbsent(s[..n], d);
      TokensContent(s[n..], d);
      assert ([s[..n]] + ts)[1..] == ts;
    }
  }

  /** The inverse of tokenising: the tokens glued with one delimiter. */
  function JoinTokens(ts: seq<string>, d: char): string {
    if |ts| == 0 then [] else if |ts| == 1 then ts[0] else ts[0] + [d] + JoinTokens(ts[1..], d)
  }

  lemma {:induction false} RunLengthOfToken(t: string, rest: string, d: char)
    requires d !in t
    requires |rest| == 0 || rest[0] == d
    ensures RunLength(t + rest, d) == |t|
    decreases |t|
  {
    var s := t + rest;
    if |t| == 0 {
      assert s == rest;
    } else {
      assert s[0] == t[0] && t[0] != d;
      assert s[1..] == t[1..] + rest;
      RunLengthOfToken(t[1..], rest, d);
    }
  }

  /** Tokenising the delimiter-joined tokens gives them back. */
  lemma {:induction false} TokensOfJoin(ts: seq<string>, d: char)
    requires forall k :: 0 <= k < |ts| ==> |ts[k]| > 0 && d !in ts[k]
    ensures Tokens(JoinTokens(ts, d), d) == ts
    decreases |ts|
  {
    if |ts| == 0 {
    } else if |ts| == 1 {
      var t := ts[0];
      assert t + [] == t;
      RunLengthOfToken(t, [], d);
      assert t[..|t|] == t && t[|t|..] == [];
    } else {
      var t := ts[0];
      var rest := [d] + JoinTokens(ts[1..], d);
      var s := JoinTokens(ts, d);
      assert s == t + rest;
      RunLengthOfToken(t, rest, d);
      assert s[..|t|] == t;
      assert s[|t|..] == rest;
      assert rest[1..] == JoinTokens(ts[1..], d);
      TokensOfJoin(ts[1..], d);
      assert Tokens(rest, d) == Tokens(rest[1..], d);
      assert ts == [ts[0]] + ts[1..];
    }
  }

  // ---------------------------------------------------------------------
  // Integer.parseInt (radix 10)

  const INT_MIN: int := -0x8000_0000
  const INT_MAX: int := 0x7FFF_FFFF

  predicate IsDigit(c: char) { '0' <= c <= '9' }

  predicate AllDigits(s: string) { forall i :: 0 <= i < |s| ==> IsDigit(s[i]) }

  /** The number a string of decimal digits denotes, most significant first. */
  function DigitsValue(s: string): (n: nat)
    requires AllDigits(s)
    decreases |s|
  {
    if |s| == 0 then 0
    else DigitsValue(s[..|s| - 1]) * 10 + (s[|s| - 1] as int - '0' as int)
  }

  /** `Integer.parseInt(s)`: an optional sign followed by at least one digit,
      denoting a value in the 32-bit range; anything else is a
      `NumberFormatException`, modelled as `None`. */
  function ParseInt(s: string): (r: Option<int>)
    ensures r.Some? ==> INT_MIN <= r.value <= INT_MAX
    ensures r.Some? ==> |s| > 0
  {
    if |s| == 0 then None
    else
      var negative := s[0] == '-';
      var digits := if s[0] == '-' || s[0] == '+' then s[1..] else s;
      if |digits| == 0 || !AllDigits(digits) then None
      else
        var magnitude: int := DigitsValue(digits);
        var v := if negative then -magnitude else magnitude;
        if INT_MIN <= v <= INT_MAX then Some(v) else None
  }

  /** Decimal rendering of a natural number, without leading zeros. */
  function ShowNat(n: nat): (s: string)
    ensures |s| > 0 && AllDigits(s)
    ensures s[0] != '-' && s[0] != '+'
  {
    if n < 10 then [('0' as int + n) as char]
    else ShowNat(n / 10) + [('0' as int + n % 10) as char]
  }

  /** `Integer.toString(n)`. */
  function ShowInt(n: int): string {
    if n < 0 then "-" + ShowNat(-n) else ShowNat(n)
  }

  lemma {:induction false} DigitsValueOfShowNat(n: nat)
    ensures DigitsValue(ShowNat(n)) == n
  {
    var s := ShowNat(n);
    if n >= 10 {
      DigitsValueOfShowNat(n / 10);
      assert s[..|s| - 1] == ShowNat(n / 10);
    }
  }

  /** `Integer.parseInt` reads back every 32-bit value `Integer.toString`
      writes. */
  lemma ParseIntShowInt(n: int)
    requires INT_MIN <= n <= INT_MAX
    ensures ParseInt(ShowInt(n)) == Some(n)
  {
    if n < 0 {
      DigitsValueOfShowNat(-n);
      assert ShowInt(n)[1..] == ShowNat(-n);
    } else {
      DigitsValueOfShowNat(n);
    }
  }

  // ---------------------------------------------------------------------
  // String.split with a literal separator and limit 0

  lemma ShiftOccurs(s: string, q: string)
    requires |s| > 0
    ensures forall j :: 1 <= j ==> (OccursAt(s, q, j) <==> OccursAt(s[1..], q, j - 1))
  {
    forall j | 1 <= j
      ensures OccursAt(s, q, j) <==> OccursAt(s[1..], q, j - 1)
    {
      if 1 <= j <= |s| - |q| {
        assert s[j..j + |q|] == s[1..][j - 1..j - 1 + |q|];
      }
    }
  }

  /** The first index at which `sep` occurs in `s`, if any. */
  function IndexOfSeq(s: string, sep: string): (r: Option<nat>)
    requires |sep| > 0
    ensures r.Some? ==> OccursAt(s, sep, r.value)
    ensures r.Some? ==> forall j :: 0 <= j < r.value ==> !OccursAt(s, sep, j)
    ensures r.None? ==> forall j :: !OccursAt(s, sep, j)
    decreases |s|
  {
    if |s| < |sep| then None
    else if s[..|sep|] == sep then Some(0)
    else
      match IndexOfSeq(s[1..], sep)
      case None =>
        ShiftOccurs(s, sep);
        None
      case Some(k) =>
        ShiftOccurs(s, sep);
        Some(k + 1)
  }

  /** The pieces between successive non-overlapping occurrences of `sep`,
      found from left to right. */
  function Pieces(s: string, sep: string): (r: seq<string>)
    requires |sep| > 0
    ensures |r| >= 1
    decreases |s|
  {
    match IndexOfSeq(s, sep)
    case None => [s]
    case Some(i) => [s[..i]] + Pieces(s[i + |sep|..], sep)
  }

  function JoinWith(ps: seq<string>, sep: string): string
    requires |ps| >= 1
  {
    if |ps| == 1 then ps[0] else ps[0] + sep + JoinWith(ps[1..], sep)
  }

  /** Gluing the pieces back with the separator restores the input. */
  lemma {:induction false} JoinWithPieces(s: string, sep: string)
    requires |sep| > 0
    ensures JoinWith(Pieces(s, sep), sep) == s
    decreases |s|
  {
    match IndexOfSeq(s, sep)
    case None =>
    case Some(i) =>
      JoinWithPieces(s[i + |sep|..], sep);
      var ps := Pieces(s, sep);
      assert ps[1..] == Pieces(s[i + |sep|..], sep);
      assert s == s[..i] + sep + s[i + |sep|..];
  }

  function DropTrailingEmpty(ps: seq<string>): (r: seq<string>)
    ensures |r| <= |ps| && r == ps[..|r|]
    ensures |r| > 0 ==> r[|r| - 1] != []
    ensures forall k :: |r| <= k < |ps| ==> ps[k] == []
  {
    if |ps| == 0 then []
    else if ps[|ps| - 1] == [] then DropTrailingEmpty(ps[..|ps| - 1])
    else ps
  }

  /** `s.split(sep)`: when `sep` does not occur the input is returned whole
      (so `"".split(sep)` has one empty element); otherwise the pieces,
      with trailing empty pieces removed. */
  function Split(s: string, sep: string): (r: seq<string>)
    requires |sep| > 0
  {
    var ps := Pieces(s, sep);
    if |ps| == 1 then ps else DropTrailingEmpty(ps)
  }
}
