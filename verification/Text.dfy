/** Delimited text and decimal numbers: what the client uses of Go's `bytes`, `strings` and
    `strconv` packages. A Go string and a Go byte slice are both a `string` here, one character
    a byte. */
module Text {

  datatype Option<+T> = None | Some(value: T)

  const U16: nat := 0x1_0000
  const U31: nat := 0x8000_0000
  const U32: nat := 0x1_0000_0000
  const U64: nat := 0x1_0000_0000_0000_0000
  const I64: nat := 0x8000_0000_0000_0000

  // ---------------------------------------------------------------- delimiters

  /** `bytes.IndexByte`: the first position of `c`, or -1. */
  function IndexOf(s: string, c: char): (i: int)
    ensures -1 <= i < |s|
    ensures i == -1 <==> c !in s
    ensures i >= 0 ==> s[i] == c && c !in s[..i]
  {
    if s == "" then -1
    else if s[0] == c then 0
    else
      var j := IndexOf(s[1..], c);
      if j == -1 then -1 else assert s[..j + 1] == [s[0]] + s[1..][..j]; j + 1
  }

  lemma {:induction false} IndexAtFirst(a: string, c: char, b: string)
    requires c !in a
    ensures IndexOf(a + [c] + b, c) == |a|
  {
    if a != "" {
      IndexAtFirst(a[1..], c, b);
      assert (a + [c] + b)[1..] == a[1..] + [c] + b;
    }
  }

  /** `SplitN(s, c, 2)` when it yields two parts: what stands before and after the first `c`. */
  function Cut(s: string, c: char): (r: Option<(string, string)>)
    ensures r.None? <==> c !in s
    ensures r.Some? ==> c !in r.value.0 && s == r.value.0 + [c] + r.value.1
  {
    var i := IndexOf(s, c);
    if i == -1 then None else Some((s[..i], s[i + 1..]))
  }

  lemma CutAtFirst(a: string, c: char, b: string)
    requires c !in a
    ensures Cut(a + [c] + b, c) == Some((a, b))
  {
    IndexAtFirst(a, c, b);
    assert (a + [c] + b)[..|a|] == a;
    assert (a + [c] + b)[|a| + 1..] == b;
  }

  /** `bytes.Split` on a one-byte separator. */
  function Split(s: string, c: char): (parts: seq<string>)
    ensures |parts| > 0
    decreases |s|
  {
    var i := IndexOf(s, c);
    if i == -1 then [s] else [s[..i]] + Split(s[i + 1..], c)
  }

  function Join(parts: seq<string>, c: char): string
    requires |parts| > 0
  {
    if |parts| == 1 then parts[0] else parts[0] + [c] + Join(parts[1..], c)
  }

  ghost predicate Free(parts: seq<string>, c: char) {
    forall p | p in parts :: c !in p
  }

  ghost function Count(s: string, c: char): nat {
    multiset(s)[c]
  }

  /** Delimiters hidden inside the parts themselves. */
  ghost function Stray(parts: seq<string>, c: char): nat {
    if parts == [] then 0 else Count(parts[0], c) + Stray(parts[1..], c)
  }

  lemma JoinCons(head: string, rest: seq<string>, c: char)
    requires |rest| > 0
    ensures Join([head] + rest, c) == head + [c] + Join(rest, c)
  {
    assert ([head] + rest)[1..] == rest;
  }

  lemma {:induction false} JoinOfSplit(s: string, c: char)
    ensures Join(Split(s, c), c) == s
    decreases |s|
  {
    hide IndexOf, Join;
    var i := IndexOf(s, c);
    if i == -1 {
      JoinOne(s, c);
    } else {
      JoinOfSplit(s[i + 1..], c);
      JoinCons(s[..i], Split(s[i + 1..], c), c);
      assert s == s[..i] + [c] + s[i + 1..];
    }
  }

  lemma JoinOne(s: string, c: char)
    ensures Join([s], c) == s
  {
  }

  lemma {:induction false} SplitIsFree(s: string, c: char)
    ensures Free(Split(s, c), c)
    decreases |s|
  {
    hide IndexOf;
    var i := IndexOf(s, c);
    if i != -1 { SplitIsFree(s[i + 1..], c); }
  }

  lemma {:induction false} SplitCount(s: string, c: char)
    ensures |Split(s, c)| == Count(s, c) + 1
    decreases |s|
  {
    hide IndexOf;
    var i := IndexOf(s, c);
    if i != -1 {
      SplitCount(s[i + 1..], c);
      assert s == s[..i] + [c] + s[i + 1..];
    }
  }

  lemma {:induction false} JoinCount(parts: seq<string>, c: char)
    requires |parts| > 0
    ensures Count(Join(parts, c), c) == |parts| - 1 + Stray(parts, c)
  {
    if |parts| > 1 { JoinCount(parts[1..], c); }
  }

  lemma {:induction false} StrayFree(parts: seq<string>, c: char)
    ensures Stray(parts, c) == 0 <==> Free(parts, c)
  {
    if parts != [] {
      StrayFree(parts[1..], c);
      assert c in parts[0] <==> Count(parts[0], c) > 0;
      assert parts == [parts[0]] + parts[1..];
    }
  }

  lemma {:induction false} SplitOfFreeJoin(parts: seq<string>, c: char)
    requires |parts| > 0 && Free(parts, c)
    ensures Split(Join(parts, c), c) == parts
  {
    hide IndexOf;
    if |parts| > 1 {
      var rest := Join(parts[1..], c);
      SplitOfFreeJoin(parts[1..], c);
      CutAtFirst(parts[0], c, rest);
      assert Split(Join(parts, c), c) == [parts[0]] + Split(rest, c);
    }
  }

  /** Splitting undoes joining exactly when no part hides a delimiter; otherwise it yields more
      parts than were joined. */
  lemma SplitOfJoin(parts: seq<string>, c: char)
    requires |parts| > 0
    ensures Split(Join(parts, c), c) == parts <==> Free(parts, c)
    ensures |Split(Join(parts, c), c)| == |parts| <==> Free(parts, c)
  {
    if Free(parts, c) {
      SplitOfFreeJoin(parts, c);
    } else {
      SplitCount(Join(parts, c), c);
      JoinCount(parts, c);
      StrayFree(parts, c);
    }
  }

  // ------------------------------------------------------------------- numbers

  predicate IsDigit(c: char) { '0' <= c <= '9' }

  predicate AllDigits(s: string) { forall i | 0 <= i < |s| :: IsDigit(s[i]) }

  function Digit(n: nat): (c: char)
    requires n < 10
    ensures IsDigit(c)
  {
    '0' + n as char
  }

  function Value(s: string): nat
    requires AllDigits(s)
  {
    if s == "" then 0 else 10 * Value(s[..|s| - 1]) + (s[|s| - 1] - '0') as nat
  }

  /** `strconv.FormatUint(n, 10)`, and `strconv.Itoa` on a number that is not negative. */
  function Format(n: nat): (s: string)
    ensures s != "" && AllDigits(s)
  {
    if n < 10 then [Digit(n)] else Format(n / 10) + [Digit(n % 10)]
  }

  /** `strconv.ParseUint(s, 10, bits)` with `limit` = 2 to the `bits`: digits only, no sign,
      leading zeros allowed, out of range refused. */
  function ParseUint(s: string, limit: nat): (r: Option<nat>)
    ensures r.Some? ==> r.value < limit
  {
    if s != "" && AllDigits(s) && Value(s) < limit then Some(Value(s)) else None
  }

  /** `strconv.Atoi` with a 64-bit `int`: an optional sign, then digits. */
  function Atoi(s: string): Option<int> {
    var signed := s != "" && (s[0] == '-' || s[0] == '+');
    var digits := if signed then s[1..] else s;
    if digits == "" || !AllDigits(digits) then None
    else if signed && s[0] == '-' then
      if Value(digits) <= I64 then Some(-(Value(digits) as int)) else None
    else
      if Value(digits) < I64 then Some(Value(digits)) else None
  }

  lemma {:induction false} ValueOfFormat(n: nat)
    ensures Value(Format(n)) == n
  {
    if n >= 10 {
      ValueOfFormat(n / 10);
      var s := Format(n);
      assert s[..|s| - 1] == Format(n / 10);
    }
  }

  /** A printed number parses back exactly when it fits the width asked for. */
  lemma ParseOfFormat(n: nat, limit: nat)
    ensures ParseUint(Format(n), limit) == if n < limit then Some(n) else None
  {
    ValueOfFormat(n);
  }

  function Zeros(k: nat): string { seq(k, _ => '0') }

  lemma FormatSnoc(n: nat, c: char)
    requires IsDigit(c)
    ensures Format(10 * n + (c - '0') as nat) == if n == 0 then [c] else Format(n) + [c]
  {
    var d := (c - '0') as nat;
    assert Digit(d) == c;
    assert (10 * n + d) / 10 == n && (10 * n + d) % 10 == d;
  }

  /** Digits are the number they stand for as it is printed, behind any number of zeros. */
  lemma {:induction false} DigitsAreZerosAndNumber(s: string) returns (k: nat)
    requires s != "" && AllDigits(s)
    ensures s == Zeros(k) + Format(Value(s))
  {
    var p, d := s[..|s| - 1], s[|s| - 1];
    assert s == p + [d];
    FormatSnoc(Value(p), d);
    var n := Value(s);
    assert Format(n) == if Value(p) == 0 then [d] else Format(Value(p)) + [d];
    hide Value, Format;
    if p == "" {
      k := 0;
      assert Value(p) == 0 by { NoDigits(); }
    } else {
      k := DigitsAreZerosAndNumber(p);
      if Value(p) == 0 {
        assert Format(0) == "0" by { FormatZero(); }
        assert Zeros(k) + "0" == Zeros(k + 1);
        k := k + 1;
      } else {
        assert Zeros(k) + Format(Value(p)) + [d] == Zeros(k) + (Format(Value(p)) + [d]);
      }
    }
  }

  lemma NoDigits()
    ensures Value("") == 0
  {
  }

  lemma FormatZero()
    ensures Format(0) == "0"
  {
  }

  lemma {:induction false} ValueOfZeros(k: nat, s: string)
    requires AllDigits(s)
    ensures AllDigits(Zeros(k) + s) && Value(Zeros(k) + s) == Value(s)
    decreases |s|, k
  {
    var z := Zeros(k) + s;
    if s != "" {
      ValueOfZeros(k, s[..|s| - 1]);
      assert z[..|z| - 1] == Zeros(k) + s[..|s| - 1];
    } else if k > 0 {
      ValueOfZeros(k - 1, s);
      assert z[..|z| - 1] == Zeros(k - 1) + s;
    }
  }

  /** Exactly what is accepted as a number, and as which. */
  lemma ParseUintExactly(s: string, limit: nat, n: nat)
    ensures ParseUint(s, limit) == Some(n) <==> n < limit && exists k :: s == Zeros(k) + Format(n)
  {
    if ParseUint(s, limit) == Some(n) {
      var k := DigitsAreZerosAndNumber(s);
    }
    if k :| s == Zeros(k) + Format(n) {
      ValueOfZeros(k, Format(n));
      ValueOfFormat(n);
    }
  }

  ghost predicate Signed(s: string, sign: string, k: nat, n: nat, v: int) {
    && (sign == "" || sign == "+" || sign == "-") && s == sign + (Zeros(k) + Format(n))
    && v == if sign == "-" then -(n as int) else n
  }

  /** The same for a number that may have a sign. */
  lemma AtoiExactly(s: string, v: int)
    ensures Atoi(s) == Some(v) <==>
            -0x8000_0000_0000_0000 <= v < 0x8000_0000_0000_0000 && exists sign, k, n :: Signed(s, sign, k, n, v)
  {
    hide Format, Value, Zeros;
    if Atoi(s) == Some(v) {
      var signed := s[0] == '-' || s[0] == '+';
      var sign, digits := if signed then s[..1] else "", if signed then s[1..] else s;
      assert s == sign + digits;
      assert signed ==> sign == [s[0]];
      var k := DigitsAreZerosAndNumber(digits);
      assert Signed(s, sign, k, Value(digits), v);
    }
    if -0x8000_0000_0000_0000 <= v < 0x8000_0000_0000_0000 {
      if sign, k, n :| Signed(s, sign, k, n, v) {
        var digits := Zeros(k) + Format(n);
        ValueOfZeros(k, Format(n));
        ValueOfFormat(n);
        assert IsDigit(digits[0]);
        assert s[|sign|..] == digits;
      }
    }
  }

  lemma AtoiOfFormat(n: nat)
    ensures Atoi(Format(n)) == if n < I64 then Some(n) else None
  {
    ValueOfFormat(n);
    assert IsDigit(Format(n)[0]);
  }

  lemma FormatHasNo(n: nat, c: char)
    requires !IsDigit(c)
    ensures c !in Format(n)
  {
  }
}
