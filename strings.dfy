/** Byte-string helpers the tracker takes from Go's `bytes`, `strings`,
    `strconv` and `fmt` packages: whitespace trimming, splitting at a
    separator, joining with a separator, and decimal parsing and rendering.
    Characters stand for bytes; only ASCII whitespace is recognised. */
module Strings {
  import opened Types

  /** The ASCII characters `bytes.TrimSpace` removes. */
  predicate IsSpace(c: char) {
    c == ' ' || c == '\t' || c == '\n' || c == '\r' || c == '\U{000B}' || c == '\U{000C}'
  }

  /** Every character of `s` from index `lo` up to (not including) `hi` is whitespace. */
  predicate SpaceBetween(s: string, lo: int, hi: int)
    requires 0 <= lo <= hi <= |s|
  {
    forall i :: lo <= i < hi ==> IsSpace(s[i])
  }

  /** How many whitespace characters `s` starts with. */
  function LeadingSpaces(s: string): (n: nat)
    ensures n <= |s|
  {
    if s != [] && IsSpace(s[0]) then 1 + LeadingSpaces(s[1..]) else 0
  }

  /** How many whitespace characters `s` ends with. */
  function TrailingSpaces(s: string): (n: nat)
    ensures n <= |s|
  {
    if s != [] && IsSpace(s[|s| - 1]) then 1 + TrailingSpaces(s[..|s| - 1]) else 0
  }

  /** `s` with its leading whitespace removed: a suffix of `s`. */
  function TrimLeft(s: string): string {
    s[LeadingSpaces(s)..]
  }

  /** `s` with its trailing whitespace removed: a prefix of `s`. */
  function TrimRight(s: string): string {
    s[..|s| - TrailingSpaces(s)]
  }

  lemma {:induction false} LeadingShape(s: string)
    ensures var n := LeadingSpaces(s); SpaceBetween(s, 0, n) && (n == |s| || !IsSpace(s[n]))
  {
    if s != [] && IsSpace(s[0]) {
      var t := s[1..];
      LeadingShape(t);
      forall i | 0 < i < LeadingSpaces(s)
        ensures IsSpace(s[i])
      {
        assert s[i] == t[i - 1];
      }
    }
  }

  lemma {:induction false} TrailingShape(s: string)
    ensures var n := TrailingSpaces(s); SpaceBetween(s, |s| - n, |s|) && (n == |s| || !IsSpace(s[|s| - n - 1]))
  {
    if s != [] && IsSpace(s[|s| - 1]) {
      var init := s[..|s| - 1];
      TrailingShape(init);
      forall i | |s| - TrailingSpaces(s) <= i < |s| - 1
        ensures IsSpace(s[i])
      {
        assert s[i] == init[i];
      }
    }
  }

  /** Only leading whitespace is cut, and all of it. */
  lemma TrimLeftShape(s: string)
    ensures SpaceBetween(s, 0, |s| - |TrimLeft(s)|)
    ensures TrimLeft(s) == [] || !IsSpace(TrimLeft(s)[0])
  {
    LeadingShape(s);
  }

  /** Only trailing whitespace is cut, and all of it. */
  lemma TrimRightShape(s: string)
    ensures SpaceBetween(s, |TrimRight(s)|, |s|)
    ensures TrimRight(s) == [] || !IsSpace(TrimRight(s)[|TrimRight(s)| - 1])
  {
    TrailingShape(s);
  }

  /** `bytes.TrimSpace`: the middle of `s` once whitespace is cut from both ends. */
  function TrimSpace(s: string): string {
    TrimRight(TrimLeft(s))
  }

  /** What trimming means: `s` is whitespace, then the result, then whitespace. */
  lemma TrimSpaceShape(s: string)
    ensures var r := TrimSpace(s); var i := |s| - |TrimLeft(s)|;
      i + |r| <= |s| && s[i..i + |r|] == r
      && SpaceBetween(s, 0, i) && SpaceBetween(s, i + |r|, |s|)
  {
    TrimSpaceMiddle(s);
    TrimSpaceAfter(s);
    TrimLeftShape(s);
  }

  lemma TrimSpaceMiddle(s: string)
    ensures var r := TrimSpace(s); var i := |s| - |TrimLeft(s)|;
      i + |r| <= |s| && s[i..i + |r|] == r
  {
    SliceOfSuffix(s, |s| - |TrimLeft(s)|, |TrimSpace(s)|);
  }

  lemma TrimSpaceAfter(s: string)
    ensures var r := TrimSpace(s); var i := |s| - |TrimLeft(s)|;
      i + |r| <= |s| && SpaceBetween(s, i + |r|, |s|)
  {
    var l := TrimLeft(s);
    TrimRightShape(l);
    SpaceInSuffix(s, |s| - |l|, |TrimRight(l)|);
  }

  /** A string is what comes before position `i`, the character at `i`, and
      what comes after. */
  lemma SplitAround(s: string, i: nat)
    requires i < |s|
    ensures s == s[..i] + [s[i]] + s[i + 1..]
  {
  }

  lemma SliceOfSuffix(s: string, i: nat, k: nat)
    requires i + k <= |s|
    ensures s[i..][..k] == s[i..i + k]
  {
  }

  /** Whitespace in a suffix of `s` is whitespace of `s`, shifted. */
  lemma SpaceInSuffix(s: string, i: nat, k: nat)
    requires i + k <= |s|
    requires SpaceBetween(s[i..], k, |s| - i)
    ensures SpaceBetween(s, i + k, |s|)
  {
    forall j | i + k <= j < |s|
      ensures IsSpace(s[j])
    {
      assert s[j] == s[i..][j - i];
    }
  }

  /** ... and the result neither starts nor ends with whitespace. */
  lemma {:induction false} TrimSpaceEnds(s: string)
    ensures var r := TrimSpace(s); r == [] || (!IsSpace(r[0]) && !IsSpace(r[|r| - 1]))
  {
    var l := TrimLeft(s);
    var r := TrimRight(l);
    TrimLeftShape(s);
    TrimRightShape(l);
    if r != [] {
      assert r[0] == l[0];
    }
  }

  /** Trimming keeps only characters of the original. */
  lemma TrimSpaceWithin(s: string, c: char)
    requires c in TrimSpace(s)
    ensures c in s
  {
    var r := TrimSpace(s);
    var n := LeadingSpaces(s);
    var j :| 0 <= j < |r| && r[j] == c;
    assert r[j] == s[n + j];
  }

  /** Text that neither starts nor ends with whitespace is left as it is. */
  lemma TrimSpaceClean(s: string)
    requires s == [] || (!IsSpace(s[0]) && !IsSpace(s[|s| - 1]))
    ensures TrimSpace(s) == s
  {
  }

  /** Trimming is idempotent. */
  lemma {:induction false} TrimSpaceIdempotent(s: string)
    ensures TrimSpace(TrimSpace(s)) == TrimSpace(s)
  {
    TrimSpaceEnds(s);
    var r := TrimSpace(s);
    assert TrimLeft(r) == r;
    assert TrimRight(r) == r;
  }

  /** Index of the first `c` in `s`, or `|s|` when there is none. */
  function IndexOf(s: string, c: char): (i: nat)
    ensures i <= |s|
    ensures c !in s[..i]
    ensures i < |s| ==> s[i] == c
  {
    if s == [] then 0
    else if s[0] == c then 0
    else
      var j := IndexOf(s[1..], c);
      assert s[1..][..j] == s[1..j + 1];
      assert s[..j + 1] == [s[0]] + s[1..j + 1];
      1 + j
  }

  /** `bytes.Split(s, sep)` for a one-character separator: the pieces between
      the separators, always at least one (`Split("", c) == [""]`). */
  function Split(s: string, c: char): (r: seq<string>)
    ensures |r| >= 1
    ensures forall k :: 0 <= k < |r| ==> c !in r[k]
    decreases |s|
  {
    var i := IndexOf(s, c);
    if i == |s| then [s] else [s[..i]] + Split(s[i + 1..], c)
  }

  /** `xs[0] + sep + xs[1] + ... + sep + xs[n-1]`, built left to right the way
      an accumulating loop builds it. */
  function Join(xs: seq<string>, c: char): string
    requires |xs| >= 1
  {
    if |xs| == 1 then xs[0] else Join(xs[..|xs| - 1], c) + [c] + xs[|xs| - 1]
  }

  lemma {:induction false} JoinCons(xs: seq<string>, c: char)
    requires |xs| >= 2
    ensures Join(xs, c) == xs[0] + [c] + Join(xs[1..], c)
  {
    if |xs| == 2 {
      assert xs[1..][..1] == [xs[1]];
    } else {
      var init := xs[..|xs| - 1];
      JoinCons(init, c);
      assert init[1..] == xs[1..][..|xs[1..]| - 1];
    }
  }

  /** Joining the pieces of a split gives back the original text. */
  lemma {:induction false} JoinSplit(s: string, c: char)
    ensures Join(Split(s, c), c) == s
    decreases |s|
  {
    var i := IndexOf(s, c);
    if i < |s| {
      var rest := Split(s[i + 1..], c);
      JoinSplit(s[i + 1..], c);
      var xs := [s[..i]] + rest;
      assert Split(s, c) == xs;
      assert xs[1..] == rest;
      JoinCons(xs, c);
      assert Join(xs, c) == s[..i] + [c] + s[i + 1..];
      SplitAround(s, i);
    } else {
      assert Split(s, c) == [s];
    }
  }

  lemma {:induction false} IndexOfAfter(x: string, t: string, c: char)
    requires c !in x
    requires t != [] && t[0] == c
    ensures IndexOf(x + t, c) == |x|
  {
    if x != [] {
      assert (x + t)[1..] == x[1..] + t;
      IndexOfAfter(x[1..], t, c);
    }
  }

  /** Splitting a join gives back the pieces, provided no piece holds the separator. */
  lemma {:induction false} SplitJoin(xs: seq<string>, c: char)
    requires |xs| >= 1
    requires forall k :: 0 <= k < |xs| ==> c !in xs[k]
    ensures Split(Join(xs, c), c) == xs
    decreases |xs|
  {
    if |xs| >= 2 {
      JoinCons(xs, c);
      var s := Join(xs, c);
      var tail := Join(xs[1..], c);
      assert s == xs[0] + ([c] + tail);
      IndexOfAfter(xs[0], [c] + tail, c);
      assert s[|xs[0]| + 1..] == tail;
      SplitJoin(xs[1..], c);
      assert xs == [xs[0]] + xs[1..];
    }
  }

  predicate IsDigit(c: char) {
    '0' <= c <= '9'
  }

  predicate AllDigits(s: string) {
    forall i :: 0 <= i < |s| ==> IsDigit(s[i])
  }

  function DigitValue(c: char): nat
    requires IsDigit(c)
  {
    (c as int) - ('0' as int)
  }

  function DigitChar(d: nat): (c: char)
    requires d < 10
    ensures IsDigit(c) && DigitValue(c) == d
  {
    ('0' as int + d) as char
  }

  /** The number a string of decimal digits denotes, most significant first. */
  function DecimalValue(s: string): nat
    requires AllDigits(s)
  {
    if s == [] then 0 else DecimalValue(s[..|s| - 1]) * 10 + DigitValue(s[|s| - 1])
  }

  /** `strconv.ParseUint(s, 10, bitSize)` with `limit == 2^bitSize`: one or more
      decimal digits (no sign, no underscore) whose value is below the limit. */
  function ParseUint(s: string, limit: nat): (r: Option<nat>)
    ensures r.Some? <==> |s| > 0 && AllDigits(s) && DecimalValue(s) < limit
    ensures r.Some? ==> r.value == DecimalValue(s) && r.value < limit
  {
    if |s| > 0 && AllDigits(s) && DecimalValue(s) < limit then Some(DecimalValue(s)) else None
  }

  const MAX_UINT32_EXCL: nat := 0x1_0000_0000
  const MAX_UINT64_EXCL: nat := 0x1_0000_0000_0000_0000

  /** The decimal rendering of `n`, without leading zeros. */
  function NatToDecimal(n: nat): (s: string)
    ensures |s| > 0 && AllDigits(s)
  {
    if n < 10 then [DigitChar(n)] else NatToDecimal(n / 10) + [DigitChar(n % 10)]
  }

  /** `fmt.Sprint` of a Go `int`: a minus sign for negative values. */
  function IntToDecimal(i: int): (s: string)
    ensures |s| > 0
    ensures i < 0 ==> s == "-" + NatToDecimal(-i) && s[0] == '-'
    ensures i >= 0 ==> s == NatToDecimal(i)
  {
    if i < 0 then "-" + NatToDecimal(-i) else NatToDecimal(i)
  }

  /** A digit string in the form `NatToDecimal` produces: no leading zero. */
  predicate IsCanonicalDecimal(s: string) {
    |s| > 0 && AllDigits(s) && (s[0] != '0' || |s| == 1)
  }

  /** Rendering then reading a number gives the number back. */
  lemma {:induction false} DecimalOfRendering(n: nat)
    ensures DecimalValue(NatToDecimal(n)) == n
    ensures IsCanonicalDecimal(NatToDecimal(n))
  {
    var s := NatToDecimal(n);
    if n >= 10 {
      DecimalOfRendering(n / 10);
      var p := NatToDecimal(n / 10);
      assert s[..|s| - 1] == p;
      assert s[0] == p[0];
    }
  }

  /** So the parser accepts every rendering of a number below its limit. */
  lemma ParseRendering(n: nat, limit: nat)
    requires n < limit
    ensures ParseUint(NatToDecimal(n), limit) == Some(n)
  {
    DecimalOfRendering(n);
  }

  lemma {:induction false} LeadingNonZeroPositive(s: string)
    requires |s| > 0 && AllDigits(s) && s[0] != '0'
    ensures DecimalValue(s) >= 1
    ensures |s| >= 2 ==> DecimalValue(s) >= 10
  {
    if |s| >= 2 {
      LeadingNonZeroPositive(s[..|s| - 1]);
    }
  }

  /** Reading then rendering a canonical digit string gives the string back;
      a string with a leading zero ("0493520") renders differently. */
  lemma {:induction false} RenderingOfDecimal(s: string)
    requires IsCanonicalDecimal(s)
    ensures NatToDecimal(DecimalValue(s)) == s
  {
    if |s| >= 2 {
      var p := s[..|s| - 1];
      LeadingNonZeroPositive(s);
      RenderingOfDecimal(p);
      var v := DecimalValue(s);
      assert v / 10 == DecimalValue(p);
      assert v % 10 == DigitValue(s[|s| - 1]);
      assert s == p + [s[|s| - 1]];
    }
  }

  lemma LeadingZeroNotCanonical(s: string)
    requires |s| >= 2 && AllDigits(s) && s[0] == '0'
    ensures NatToDecimal(DecimalValue(s)) != s
  {
    DecimalOfRendering(DecimalValue(s));
  }
}
