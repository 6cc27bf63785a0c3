/** Small things several parts of the firmware share. */
module Basics {

  datatype Option<+T> = None | Some(value: T)

  type Byte = b: int | 0 <= b < 256
  type Bytes = seq<Byte>
  type u32 = v: int | 0 <= v < 0x1_0000_0000

  function Min(x: int, y: int): int { if x < y then x else y }

  /** A number in decimal digits. */
  function Decimal(n: nat): (t: string)
    ensures t != "" && forall i :: 0 <= i < |t| ==> '0' <= t[i] <= '9'
  {
    (if n < 10 then "" else Decimal(n / 10)) + [(48 + n % 10) as char]
  }

  /** The number the digits at the front stand for, after those already read. */
  function DigitsValue(text: string, acc: nat): nat {
    if text != "" && '0' <= text[0] <= '9' then DigitsValue(text[1..], acc * 10 + (text[0] - '0') as nat) else acc
  }

  function DigitRun(text: string): (n: nat)
    ensures n <= |text|
  {
    if text != "" && '0' <= text[0] <= '9' then 1 + DigitRun(text[1..]) else 0
  }

  predicate DigitsEnd(rest: string) { rest == "" || !('0' <= rest[0] <= '9') }

  /** A digit at the end of a number. */
  lemma {:induction false} LastDigit(n: nat, rest: string)
    ensures var d := [(48 + n % 10) as char];
            && Decimal(n) + rest == (if n < 10 then "" else Decimal(n / 10)) + (d + rest)
            && DigitsValue(d + rest, n / 10) == DigitsValue(rest, n)
            && DigitRun(d + rest) == 1 + DigitRun(rest)
  {
    var d := [(48 + n % 10) as char];
    assert (d + rest)[1..] == rest;
    assert (if n < 10 then "" else Decimal(n / 10)) + d + rest == (if n < 10 then "" else Decimal(n / 10)) + (d + rest);
  }

  /** Reading digits undoes printing them. */
  lemma {:induction false} DecimalReads(n: nat, rest: string)
    ensures DigitsValue(Decimal(n) + rest, 0) == DigitsValue(rest, n)
    ensures DigitRun(Decimal(n) + rest) == |Decimal(n)| + DigitRun(rest)
  {
    hide Decimal, DigitsValue, DigitRun;
    LastDigit(n, rest);
    var d := [(48 + n % 10) as char];
    if n >= 10 {
      DecimalReads(n / 10, d + rest);
      DecimalLonger(n);
    } else {
      OneDigit(n);
      assert "" + (d + rest) == d + rest;
    }
  }

  /** Where the digits end, the number printed is what is read. */
  lemma {:induction false} WholeDecimalReads(n: nat, rest: string)
    requires DigitsEnd(rest)
    ensures DigitsValue(Decimal(n) + rest, 0) == n && DigitRun(Decimal(n) + rest) == |Decimal(n)|
    ensures (Decimal(n) + rest)[|Decimal(n)|..] == rest && (Decimal(n) + rest)[0] == Decimal(n)[0]
  {
    hide Decimal;
    DecimalReads(n, rest);
  }

  lemma {:induction false} DecimalLonger(n: nat)
    requires n >= 10
    ensures |Decimal(n)| == |Decimal(n / 10)| + 1
  {
  }

  lemma {:induction false} OneDigit(n: nat)
    requires n < 10
    ensures |Decimal(n)| == 1 && n / 10 == 0
  {
  }

  /** Cutting a concatenation inside its first part, or inside its second. */
  lemma CutConcat<T>(a: seq<T>, b: seq<T>, n: nat)
    requires n <= |a| + |b|
    ensures n <= |a| ==> (a + b)[..n] == a[..n] && (a + b)[n..] == a[n..] + b
    ensures n >= |a| ==> (a + b)[..n] == a + b[..n - |a|] && (a + b)[n..] == b[n - |a|..]
  {
  }

  /** The different values of a list, in order of first appearance. */
  function Firsts<T(==)>(xs: seq<T>): seq<T> {
    if xs == [] then []
    else
      var before := Firsts(xs[..|xs| - 1]);
      var x := xs[|xs| - 1];
      if x in before then before else before + [x]
  }

  lemma {:induction false} FirstsAreTheValues<T>(xs: seq<T>)
    ensures forall i, j :: 0 <= i < j < |Firsts(xs)| ==> Firsts(xs)[i] != Firsts(xs)[j]
    ensures forall x :: x in Firsts(xs) <==> x in xs
  {
    if xs != [] {
      var front, last := xs[..|xs| - 1], xs[|xs| - 1];
      FirstsAreTheValues(front);
      assert xs == front + [last];
    }
  }

  lemma {:induction false} FirstsSnoc<T>(xs: seq<T>, x: T)
    ensures Firsts(xs + [x]) == if x in Firsts(xs) then Firsts(xs) else Firsts(xs) + [x]
  {
    assert (xs + [x])[..|xs|] == xs;
  }

  /** A list without repetitions is its own list of different values. */
  lemma {:induction false} FirstsOfDistinct<T>(xs: seq<T>)
    requires forall i, j :: 0 <= i < j < |xs| ==> xs[i] != xs[j]
    ensures Firsts(xs) == xs
  {
    if xs != [] {
      var front, last := xs[..|xs| - 1], xs[|xs| - 1];
      FirstsOfDistinct(front);
      assert xs == front + [last];
    }
  }

  lemma {:induction false} FirstsGrow<T>(xs: seq<T>, i: nat)
    requires i <= |xs|
    ensures Firsts(xs[..i]) <= Firsts(xs)
    decreases |xs|
  {
    if i < |xs| {
      FirstsGrow(xs[..|xs| - 1], i);
      assert xs[..|xs| - 1][..i] == xs[..i];
    } else {
      assert xs[..i] == xs;
    }
  }
}
