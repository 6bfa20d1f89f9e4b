/** decodeBase58 (pkg/rpcfetch/client.go): a number is converted from base 58 to
    base 256 in place, digit by digit. It is a bijection between the strings over
    the alphabet and all byte strings. */
module Base58 {
  import opened Bytes

  /** The digits 1-9, then the letters without 0, O, I and l:
      123456789ABCDEFGHJKLMNPQRSTUVWXYZabcdefghijkmnopqrstuvwxyz */
  function Letter(i: nat): char
    requires i < 58
  {
    if i < 9 then '1' + i as char
    else if i < 17 then 'A' + (i - 9) as char
    else if i < 22 then 'J' + (i - 17) as char
    else if i < 33 then 'P' + (i - 22) as char
    else if i < 44 then 'a' + (i - 33) as char
    else 'm' + (i - 44) as char
  }

  // -------------------------------------------------------- positional notation

  type Digits = seq<nat>

  predicate Below(b: nat, ds: Digits) {
    forall i :: 0 <= i < |ds| ==> ds[i] < b
  }

  /** No leading zero. */
  predicate Minimal(ds: Digits) {
    ds == [] || ds[0] != 0
  }

  /** The number that digits denote in base b, most significant digit first. */
  function Value(b: nat, ds: Digits): nat
    decreases |ds|
  {
    if ds == [] then 0 else Value(b, ds[..|ds| - 1]) * b + ds[|ds| - 1]
  }

  /** The digits of a number in base b, without leading zeros. */
  function DigitsOf(b: nat, v: nat): (ds: Digits)
    requires b > 1
    decreases v
  {
    if v == 0 then [] else
    Shrinks(b, v);
    DigitsOf(b, v / b) + [v % b]
  }

  lemma Shrinks(b: nat, v: nat)
    requires b > 1 && v > 0
    ensures v / b < v && v == v / b * b + v % b && 0 <= v % b < b && 0 <= v / b
  {
    var q := v / b;
    assert v == q * b + v % b;
    Grows(q, b - 2);
  }

  lemma Grows(a: int, b: int)
    requires a >= 0 && b >= 0
    ensures a * b >= 0
  {
  }

  lemma DivMod(b: nat, q: nat, r: nat)
    requires r < b
    ensures (q * b + r) / b == q && (q * b + r) % b == r
  {
    var v := q * b + r;
    assert v == v / b * b + v % b;
    var d := v / b - q;
    assert d * b == r - v % b;
    Grows(if d >= 1 then d - 1 else if d <= -1 then -1 - d else 0, b);
  }

  lemma {:induction false} DigitsDenote(b: nat, v: nat)
    requires b > 1
    ensures Value(b, DigitsOf(b, v)) == v && Minimal(DigitsOf(b, v)) && Below(b, DigitsOf(b, v))
    ensures v > 0 ==> DigitsOf(b, v) != []
    decreases v
  {
    if v > 0 {
      Shrinks(b, v);
      DigitsDenote(b, v / b);
      var most, all := DigitsOf(b, v / b), DigitsOf(b, v);
      assert all[..|all| - 1] == most;
      if most == [] { assert v / b == 0; }
    }
  }

  lemma {:induction false} ValuePositive(b: nat, ds: Digits)
    requires b > 1 && ds != [] && ds[0] != 0
    ensures Value(b, ds) > 0
    decreases |ds|
  {
    if |ds| > 1 {
      ValuePositive(b, ds[..|ds| - 1]);
      assert Value(b, ds[..|ds| - 1]) * b > 0;
    }
  }

  /** Digits without leading zeros are the digits of their value. */
  lemma {:induction false} MinimalIsCanonical(b: nat, ds: Digits)
    requires b > 1 && Below(b, ds) && Minimal(ds)
    ensures DigitsOf(b, Value(b, ds)) == ds
    decreases |ds|
  {
    if ds != [] {
      var most, last := ds[..|ds| - 1], ds[|ds| - 1];
      MinimalIsCanonical(b, most);
      ValuePositive(b, ds);
      DivMod(b, Value(b, most), last);
      assert ds == most + [last];
    }
  }

  function LeadingZeros(ds: Digits): (n: nat)
    ensures n <= |ds| && ds[..n] == ZeroBytes(n) && (n < |ds| ==> ds[n] != 0)
  {
    if ds == [] || ds[0] != 0 then 0 else
    var n := 1 + LeadingZeros(ds[1..]);
    assert ds[..n] == [ds[0]] + ds[1..][..n - 1];
    n
  }

  lemma {:induction false} LeadingZerosOf(n: nat, ds: Digits)
    requires Minimal(ds)
    ensures LeadingZeros(ZeroBytes(n) + ds) == n
  {
    if n > 0 {
      assert (ZeroBytes(n) + ds)[1..] == ZeroBytes(n - 1) + ds;
      LeadingZerosOf(n - 1, ds);
    } else {
      assert ZeroBytes(0) + ds == ds;
    }
  }

  lemma {:induction false} ZerosAddNothing(b: nat, n: nat, ds: Digits)
    ensures Value(b, ZeroBytes(n) + ds) == Value(b, ds)
    decreases n + |ds|
  {
    var all := ZeroBytes(n) + ds;
    if ds != [] {
      assert all[..|all| - 1] == ZeroBytes(n) + ds[..|ds| - 1];
      ZerosAddNothing(b, n, ds[..|ds| - 1]);
    } else if n > 0 {
      assert all[..|all| - 1] == ZeroBytes(n - 1) + [];
      ZerosAddNothing(b, n - 1, []);
    } else {
      assert all == [];
    }
  }

  /** From base b to base c, one leading zero for each leading zero. */
  function Convert(b: nat, c: nat, ds: Digits): Digits
    requires c > 1
  {
    ZeroBytes(LeadingZeros(ds)) + DigitsOf(c, Value(b, ds))
  }

  lemma ConvertBelow(b: nat, c: nat, ds: Digits)
    requires c > 1
    ensures Below(c, Convert(b, c, ds))
  {
    DigitsDenote(c, Value(b, ds));
  }

  /** Converting there and back gives the same digits: conversion is a bijection. */
  lemma ConvertBack(b: nat, c: nat, ds: Digits)
    requires b > 1 && c > 1 && Below(b, ds)
    ensures Convert(c, b, Convert(b, c, ds)) == ds
  {
    var (z, v) := (LeadingZeros(ds), Value(b, ds));
    DigitsDenote(c, v);
    LeadingZerosOf(z, DigitsOf(c, v));
    ZerosAddNothing(c, z, DigitsOf(c, v));
    ZerosThenDigits(b, ds);
  }

  lemma ZerosThenDigits(b: nat, ds: Digits)
    requires b > 1 && Below(b, ds)
    ensures ZeroBytes(LeadingZeros(ds)) + DigitsOf(b, Value(b, ds)) == ds
  {
    var z := LeadingZeros(ds);
    var rest := ds[z..];
    assert ds == ZeroBytes(z) + rest;
    ZerosAddNothing(b, z, rest);
    MinimalIsCanonical(b, rest);
  }

  // ---------------------------------------------------------------- the strings

  /** The position of a character in the alphabet, at i or after it. */
  function Search(c: char, i: nat): (k: Option<nat>)
    requires i <= 58
    ensures k.Some? ==> i <= k.value < 58 && Letter(k.value) == c
    decreases 58 - i
  {
    if i == 58 then None else if Letter(i) == c then Some(i) else Search(c, i + 1)
  }

  predicate InAlphabet(c: char) {
    Search(c, 0).Some?
  }

  predicate Valid(s: string) {
    forall i :: 0 <= i < |s| ==> InAlphabet(s[i])
  }

  function Digit(c: char): (d: nat)
    requires InAlphabet(c)
    ensures d < 58 && Letter(d) == c
  {
    Search(c, 0).value
  }

  lemma {:induction false} SearchFinds(i: nat, k: nat)
    requires i <= k < 58
    ensures Search(Letter(k), i) == Some(k)
    decreases k - i
  {
    if i < k {
      LettersDiffer(i, k);
      SearchFinds(i + 1, k);
    }
  }

  function StringDigits(s: string): (ds: Digits)
    requires Valid(s)
    ensures |ds| == |s| && Below(58, ds)
  {
    seq(|s|, i requires 0 <= i < |s| => Digit(s[i]))
  }

  function Spell(ds: Digits): (s: string)
    requires Below(58, ds)
    ensures |s| == |ds|
  {
    seq(|ds|, i requires 0 <= i < |ds| => Letter(ds[i]))
  }

  /** One zero byte per leading '1', then the minimal big-endian bytes of the value. */
  function Decoded(s: string): (bytes: seq<byte>)
    requires Valid(s)
  {
    ConvertBelow(58, 256, StringDigits(s));
    Convert(58, 256, StringDigits(s))
  }

  function Encoded(bytes: seq<byte>): (s: string) {
    ConvertBelow(256, 58, bytes);
    Spell(Convert(256, 58, bytes))
  }

  lemma LettersDiffer(i: nat, j: nat)
    requires i < 58 && j < 58
    ensures Letter(i) == Letter(j) ==> i == j
  {
  }

  lemma SpellDigits(s: string)
    requires Valid(s)
    ensures Spell(StringDigits(s)) == s
  {
  }

  lemma DigitsSpell(ds: Digits)
    requires Below(58, ds)
    ensures Valid(Spell(ds)) && StringDigits(Spell(ds)) == ds
  {
    var s := Spell(ds);
    forall i | 0 <= i < |s| ensures InAlphabet(s[i]) && Digit(s[i]) == ds[i] {
      SearchFinds(0, ds[i]);
    }
  }

  lemma EncodeDecode(s: string)
    requires Valid(s)
    ensures Encoded(Decoded(s)) == s
  {
    ConvertBack(58, 256, StringDigits(s));
    SpellDigits(s);
  }

  lemma DecodeEncode(bytes: seq<byte>)
    ensures Valid(Encoded(bytes)) && Decoded(Encoded(bytes)) == bytes
  {
    ConvertBelow(256, 58, bytes);
    DigitsSpell(Convert(256, 58, bytes));
    ConvertBack(256, 58, bytes);
  }

  lemma DecodeInjective(s: string, t: string)
    requires Valid(s) && Valid(t) && Decoded(s) == Decoded(t)
    ensures s == t
  {
    EncodeDecode(s);
    EncodeDecode(t);
  }

  // ----------------------------------------------------------------- the decoder

  lemma {:induction false} ValueConcat(a: Digits, b: Digits)
    ensures Value(256, a + b) == Value(256, a) * Pow256(|b|) + Value(256, b)
    decreases |b|
  {
    if b == [] {
      assert a + b == a;
    } else {
      var most := b[..|b| - 1];
      assert (a + b)[..|a + b| - 1] == a + most;
      ValueConcat(a, most);
      Scale(Value(256, a), Pow256(|most|), Value(256, most));
    }
  }

  lemma Scale(x: int, w: int, t: int)
    ensures (x * w + t) * 256 == x * (256 * w) + t * 256
  {
  }

  lemma ValuePrepend(x: byte, rest: Digits)
    ensures Value(256, [x] + rest) == x * Pow256(|rest|) + Value(256, rest)
  {
    OneDigit(x);
    ValueConcat([x], rest);
  }

  lemma OneDigit(x: byte)
    ensures Value(256, [x]) == x
  {
    assert [x][..0] == [];
    assert Value(256, [x]) == Value(256, []) * 256 + x;
  }

  /** One digit position of the inner loop: the byte and what it carries on. */
  lemma CarryStep(carry: nat, next: nat, x: byte, y: byte, w: int, done: int, was: int, digit: int)
    requires carry + x * 58 == next * 256 + y
    requires carry * w + done == 58 * was + digit
    ensures next * (256 * w) + (y * w + done) == 58 * (x * w + was) + digit
  {
    assert (carry + x * 58) * w == (next * 256 + y) * w;
    assert (carry + x * 58) * w == carry * w + 58 * (x * w);
    assert (next * 256 + y) * w == next * (256 * w) + y * w;
  }

  lemma LeadingDigit(ds: Digits)
    requires Below(256, ds) && ds != []
    ensures ds[0] != 0 <==> Value(256, ds) >= Pow256(|ds| - 1)
  {
    var rest := ds[1..];
    assert ds == [ds[0]] + rest;
    ValuePrepend(ds[0], rest);
    ValueBound(rest);
    if ds[0] != 0 { Grows(ds[0] - 1, Pow256(|rest|)); }
  }

  lemma {:induction false} ValueBound(ds: Digits)
    requires Below(256, ds)
    ensures Value(256, ds) < Pow256(|ds|)
    decreases |ds|
  {
    if ds != [] { ValueBound(ds[..|ds| - 1]); }
  }

  /** What the loops keep: carry and the bytes already rewritten hold the new value. */
  ghost predicate Holds(carry: nat, done: seq<byte>, was: nat, digit: nat) {
    carry * Pow256(|done|) + Value(256, done) == 58 * was + digit
  }

  lemma RewriteByte(result: seq<byte>, before: seq<byte>, j: nat, carry: nat, digit: nat)
    requires |result| == |before| && j < |result| && result[..j + 1] == before[..j + 1] && carry <= 58
    requires Holds(carry, result[j + 1..], Value(256, before[j + 1..]), digit)
    ensures var c := carry + result[j] as int * 58;
      var now := result[j := c % 256];
      c / 256 <= 58 && Holds(c / 256, now[j..], Value(256, before[j..]), digit)
  {
    var c := carry + result[j] as int * 58;
    var now := result[j := c % 256];
    var (tail, old_) := (result[j + 1..], before[j + 1..]);
    assert now[j..] == [c % 256] + tail && before[j..] == [before[j]] + old_;
    assert result[j] == result[..j + 1][j] == before[..j + 1][j] == before[j];
    ValuePrepend(c % 256, tail);
    ValuePrepend(before[j], old_);
    CarryStep(carry, c / 256, result[j], c % 256, Pow256(|tail|), Value(256, tail), Value(256, old_), digit);
  }

  lemma PrependCarry(carry: nat, result: seq<byte>, was: nat, digit: nat)
    requires Holds(carry, result, was, digit)
    ensures Holds(carry / 256, [carry % 256] + result, was, digit)
  {
    var w, t := Pow256(|result|), Value(256, result);
    ValuePrepend(carry % 256, result);
    assert carry == carry / 256 * 256 + carry % 256;
    Regroup(carry / 256, carry % 256, w);
  }

  lemma Regroup(q: int, r: int, w: int)
    ensures (q * 256 + r) * w == q * (256 * w) + r * w
  {
  }

  /** Bytes are rewritten from the last to the first. */
  method RewriteBytes(before: seq<byte>, digit: nat) returns (result: seq<byte>, carry: nat)
    requires digit < 58
    ensures |result| == |before| && Holds(carry, result, Value(256, before), digit)
  {
    result, carry := before, digit;
    var j := |result| - 1;
    assert before[|before|..] == [];
    while j >= 0
      invariant -1 <= j < |result| == |before| && carry <= 58
      invariant result[..j + 1] == before[..j + 1]
      invariant Holds(carry, result[j + 1..], Value(256, before[j + 1..]), digit)
    {
      RewriteByte(result, before, j, carry, digit);
      carry := carry + result[j] as int * 58;
      result := result[j := carry % 256];
      carry := carry / 256;
      j := j - 1;
    }
    assert result[0..] == result && before[0..] == before;
  }

  /** What is left of the carry is put in front. */
  method PushCarry(tail: seq<byte>, rest: nat, ghost was: nat, ghost digit: nat) returns (result: seq<byte>)
    requires Holds(rest, tail, was, digit) && (rest == 0 ==> Minimal(tail))
    ensures Holds(0, result, was, digit) && Minimal(result)
  {
    result := tail;
    var carry := rest;
    while carry > 0
      invariant carry >= 0 && Holds(carry, result, was, digit)
      invariant carry == 0 ==> Minimal(result)
    {
      PrependCarry(carry, result, was, digit);
      result := [carry % 256] + result;
      carry := carry / 256;
    }
  }

  /** The inner loops for one character. */
  method AddDigit(before: seq<byte>, digit: nat) returns (result: seq<byte>)
    requires digit < 58 && Minimal(before)
    ensures Value(256, result) == Value(256, before) * 58 + digit && Minimal(result)
  {
    var carry;
    result, carry := RewriteBytes(before, digit);
    if carry == 0 && before != [] { NoZeroInFront(before, result, digit); }
    result := PushCarry(result, carry, Value(256, before), digit);
  }

  /** Without a carry left over, the first byte has not become zero. */
  lemma NoZeroInFront(before: seq<byte>, result: seq<byte>, digit: nat)
    requires |result| == |before| > 0 && Minimal(before)
    requires Holds(0, result, Value(256, before), digit)
    ensures Minimal(result)
  {
    LeadingDigit(before);
    LeadingDigit(result);
  }

  method FindDigit(c: char) returns (k: Option<nat>)
    ensures k == Search(c, 0)
  {
    var i := 0;
    while i < 58
      invariant 0 <= i <= 58 && Search(c, 0) == Search(c, i)
    {
      if Letter(i) == c { return Some(i); }
      i := i + 1;
    }
    return None;
  }

  /** The first character outside the alphabet, if there is one. */
  method FirstInvalid(s: string) returns (c: Option<char>)
    ensures c.None? <==> Valid(s)
    ensures c.Some? ==> exists i :: 0 <= i < |s| && s[i] == c.value && !InAlphabet(s[i]) && Valid(s[..i])
  {
    var i := 0;
    while i < |s|
      invariant 0 <= i <= |s| && Valid(s[..i])
    {
      var k := FindDigit(s[i]);
      if k.None? { return Some(s[i]); }
      i := i + 1;
    }
    assert s[..i] == s;
    return None;
  }

  method Convert256(s: string) returns (result: seq<byte>)
    requires Valid(s)
    ensures Value(256, result) == Value(58, StringDigits(s)) && Minimal(result)
  {
    result := [];
    var i := 0;
    while i < |s|
      invariant 0 <= i <= |s|
      invariant Value(256, result) == Value(58, StringDigits(s)[..i]) && Minimal(result)
    {
      var digit := FindDigit(s[i]);
      assert StringDigits(s)[..i + 1][..i] == StringDigits(s)[..i];
      result := AddDigit(result, digit.value);
      i := i + 1;
    }
    assert StringDigits(s)[..i] == StringDigits(s);
  }

  method DecodeBase58(s: string) returns (r: Result<seq<byte>, char>)
    ensures r.Ok? <==> Valid(s)
    ensures r.Ok? ==> r.value == Decoded(s)
    ensures r.Err? ==> exists i :: 0 <= i < |s| && s[i] == r.error && !InAlphabet(s[i]) && Valid(s[..i])
  {
    var invalid := FirstInvalid(s);
    if invalid.Some? { return Err(invalid.value); }
    var result := Convert256(s);
    MinimalIsCanonical(256, result);
    result := AddLeadingZeros(s, result);
    return Ok(result);
  }

  /** One zero byte for each leading '1'. */
  method AddLeadingZeros(s: string, bytes: seq<byte>) returns (result: seq<byte>)
    requires Valid(s)
    ensures result == ZeroBytes(LeadingZeros(StringDigits(s))) + bytes
  {
    result := bytes;
    assert ZeroBytes(0) + bytes == bytes;
    ghost var n := LeadingZeros(StringDigits(s));
    var i := 0;
    while i < |s| && s[i] == '1'
      invariant 0 <= i <= n && result == ZeroBytes(i) + bytes
    {
      OneIsZero(s, i);
      assert [0] + (ZeroBytes(i) + bytes) == ZeroBytes(i + 1) + bytes;
      result := [0] + result;
      i := i + 1;
    }
    if i < |s| { OneIsZero(s, i); }
  }

  /** '1' is the digit zero, and is counted exactly while it leads. */
  lemma OneIsZero(s: string, i: nat)
    requires Valid(s) && i < |s| && i <= LeadingZeros(StringDigits(s))
    ensures s[i] == '1' <==> i < LeadingZeros(StringDigits(s))
  {
    var ds := StringDigits(s);
    SearchFinds(0, 0);
    assert Letter(0) == '1';
    var n := LeadingZeros(ds);
    if i < n { assert ds[i] == ds[..n][i]; }
  }
}
