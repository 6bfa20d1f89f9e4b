/** Program derived addresses and the Ed25519 curve test they rest on
    (pkg/svm/syscall/pda.go; section 5.1.3 of RFC 8032). */
module Pda {
  import opened Bytes
  import opened Modular
  import opened Euler

  // ---------------------------------------------------------------- the curve

  /** -x^2 + y^2 = 1 + d x^2 y^2, modulo p. */
  ghost predicate OnCurve(p: int, d: int, x: int, y: int) {
    Cong(p, y * y - x * x, 1 + d * (x * x) * (y * y))
  }

  ghost predicate HasPoint(p: int, d: int, y: int) {
    exists x: int :: OnCurve(p, d, x, y)
  }

  function Numerator(p: int, y: nat): nat
    requires p > 0
  {
    (y * y % p - 1) % p
  }

  function Denominator(p: int, d: nat, y: nat): nat
    requires p > 0
  {
    (d * (y * y % p) + 1) % p
  }

  /** The test, in terms of y alone: x^2 is a quotient, and is it a square? */
  function CurveTest(p: int, d: nat, y: nat): bool
    requires p > 1
  {
    y < p &&
    match ModInverse(Denominator(p, d, y), p)
    case None => false
    case Some(v) =>
      var x2 := Numerator(p, y) * v % p;
      ModExp(x2, (p - 1) / 2, p) == 1 || x2 == 0
  }

  lemma FractionCong(p: int, d: nat, y: nat)
    requires p > 0
    ensures Cong(p, Numerator(p, y), y * y - 1) && Cong(p, Denominator(p, d, y), d * (y * y) + 1)
  {
    var (s, t) := (y * y, y * y % p);
    ModCong(p, s);
    CongRefl(p, 1);
    CongAdd(p, t, s, 1, 1);
    ModCong(p, t - 1);
    CongTrans(p, Numerator(p, y), t - 1, s - 1);
    CongScale(p, d, t, s);
    CongAdd(p, d * t, d * s, 1, 1);
    ModCong(p, d * t + 1);
    CongTrans(p, Denominator(p, d, y), d * t + 1, d * s + 1);
  }

  /** The curve equation, solved for x^2 times the denominator. */
  lemma Rearranged(p: int, d: nat, x: int, y: nat)
    requires p > 0
    ensures OnCurve(p, d, x, y) <==> Cong(p, x * x * Denominator(p, d, y), Numerator(p, y))
  {
    var (s, q, den, num) := (y * y, x * x, Denominator(p, d, y), Numerator(p, y));
    FractionCong(p, d, y);
    CongScale(p, q, den, d * s + 1);
    Expand(q, d, s);
    if OnCurve(p, d, x, y) {
      CongRefl(p, q - 1);
      CongAdd(p, s - q, 1 + d * q * s, q - 1, q - 1);
      CongSym(p, s - 1, q * (d * s + 1));
      CongSym(p, num, s - 1);
      CongTrans(p, q * den, q * (d * s + 1), s - 1);
      CongTrans(p, q * den, s - 1, num);
    }
    if Cong(p, q * den, num) {
      CongSym(p, q * den, q * (d * s + 1));
      CongTrans(p, q * (d * s + 1), q * den, num);
      CongTrans(p, q * (d * s + 1), num, s - 1);
      CongSym(p, q * (d * s + 1), s - 1);
      CongRefl(p, 1 - q);
      CongAdd(p, s - 1, q * (d * s + 1), 1 - q, 1 - q);
    }
  }

  lemma Expand(q: int, d: int, s: int)
    ensures q * (d * s + 1) == d * q * s + q
  {
  }

  /** Unless d is -1, a point of the curve never makes the denominator vanish. */
  lemma DenominatorNonzero(p: int, d: nat, x: int, y: nat)
    requires p > 1 && !Cong(p, d, -1) && OnCurve(p, d, x, y)
    ensures Denominator(p, d, y) != 0
  {
    if Denominator(p, d, y) == 0 {
      var s := y * y;
      Rearranged(p, d, x, y);
      FractionCong(p, d, y);
      var num := Numerator(p, y);
      assert x * x * 0 == 0;
      CongTrans(p, 0, num, s - 1);
      CongRefl(p, 1);
      CongAdd(p, 0, s - 1, 1, 1);
      CongScale(p, d, 1, s);
      CongAdd(p, d * 1, d * s, 1, 1);
      CongSym(p, 0, d * s + 1);
      CongTrans(p, d + 1, d * s + 1, 0);
      CongAdd(p, d + 1, 0, 1, 1);
      assert false;
    }
  }

  lemma ZeroHasNoInverse(p: int)
    requires p > 1
    ensures ModInverse(0, p).None?
  {
    InverseExact(0, p, 0);
    CongUniqueOne(p);
  }

  /** With an invertible denominator the solutions x are the roots of the quotient. */
  lemma RootsOfQuotient(p: int, d: nat, x: int, y: nat, v: nat)
    requires p > 1 && Cong(p, Denominator(p, d, y) * v, 1)
    ensures OnCurve(p, d, x, y) <==> Cong(p, x * x, Numerator(p, y) * v % p)
  {
    var (q, den, num) := (x * x, Denominator(p, d, y), Numerator(p, y));
    var x2 := num * v % p;
    Rearranged(p, d, x, y);
    ModCong(p, num * v);
    CongScale(p, q, den * v, 1);
    CongScale(p, num, den * v, 1);
    Associate(q, den, v);
    assert num * (den * v) == num * v * den;
    if Cong(p, q * den, num) {
      CongScale(p, v, q * den, num);
      CongSym(p, q * den * v, q * 1);
      CongTrans(p, q, q * den * v, num * v);
      CongSym(p, x2, num * v);
      CongTrans(p, q, num * v, x2);
    }
    if Cong(p, q, x2) {
      CongTrans(p, q, x2, num * v);
      CongScale(p, den, q, num * v);
      CongTrans(p, q * den, num * v * den, num * 1);
    }
  }

  /** The test is exact, for any odd prime and any d other than -1: it accepts y
      precisely when some x completes it to a point of the curve. */
  lemma CurveTestExact(p: int, d: nat, y: nat)
    requires IsPrime(p) && p % 2 == 1 && !Cong(p, d, -1) && y < p
    ensures CurveTest(p, d, y) <==> HasPoint(p, d, y)
  {
    var den := Denominator(p, d, y);
    if den == 0 {
      ZeroHasNoInverse(p);
      if HasPoint(p, d, y) {
        var x: int :| OnCurve(p, d, x, y);
        DenominatorNonzero(p, d, x, y);
        assert false;
      }
    } else {
      PrimeInverse(p, den);
      var v := ModInverse(den, p).value;
      var x2 := Numerator(p, y) * v % p;
      SquareOrZero(p, x2);
      if HasPoint(p, d, y) {
        var x: int :| OnCurve(p, d, x, y);
        RootsOfQuotient(p, d, x, y, v);
        assert Cong(p, x * x, x2);
      }
      if Square(p, x2) {
        var x: int :| Cong(p, x * x, x2);
        RootsOfQuotient(p, d, x, y, v);
        assert OnCurve(p, d, x, y);
      }
    }
  }

  lemma SquareOrZero(p: int, a: nat)
    requires IsPrime(p) && p % 2 == 1 && a < p
    ensures ModExp(a, (p - 1) / 2, p) == 1 || a == 0 <==> Square(p, a)
  {
    if a == 0 {
      CongRefl(p, 0);
      assert Cong(p, 0 * 0, 0);
    } else {
      EulerCriterion(p, a);
    }
  }

  // ------------------------------------------------------------------ edwards25519

  const P: int := 57896044618658097711785492504343953926634992332820282019728792003956564819949

  const INVERSE: nat := 37095705934669439343138083508754565189542113879843219016388785533085940283556

  /** d = -121665 / 121666. */
  function D(p: int): nat
    requires p > 0
  {
    var v := ModInverse(121666, p);
    if v.Some? then -121665 * v.value % p else 0
  }

  /** 121666 is invertible modulo 2^255 - 19, so computing d never meets a nil. */
  lemma DIsDefined()
    ensures ModInverse(121666, P).Some?
  {
    CongWitness(P, 121666 * INVERSE, 1, 77955);
    InverseExact(121666, P, INVERSE);
  }

  /** d satisfies its defining equation and is not -1. */
  lemma DIsNotMinusOne(p: int)
    requires p > 1 && ModInverse(121666, p).Some?
    ensures Cong(p, 121666 * D(p), -121665) && !Cong(p, D(p), -1)
  {
    var v := ModInverse(121666, p).value;
    InverseExact(121666, p, v);
    NegatedQuotient(p, 121666, v, D(p));
    NotMinusOne(p, 121666, D(p));
  }

  lemma NegatedQuotient(p: int, a: nat, v: nat, d: nat)
    requires p > 1 && Cong(p, a * v, 1) && d == -(a - 1) * v % p
    ensures Cong(p, a * d, -(a - 1))
  {
    var b := -(a - 1);
    ModCong(p, b * v);
    CongScale(p, a, d, b * v);
    CongScale(p, b, a * v, 1);
    Swap(a, b, v);
    CongTrans(p, a * d, a * (b * v), b);
  }

  lemma NotMinusOne(p: int, a: nat, d: nat)
    requires p > 1 && Cong(p, a * d, 1 - a)
    ensures !Cong(p, d, -1)
  {
    if Cong(p, d, -1) {
      var (t, u) := (a * d, a * -1);
      CongScale(p, a, d, -1);
      CongSym(p, t, u);
      CongTrans(p, u, t, 1 - a);
      CongRefl(p, a);
      CongAdd(p, u, 1 - a, a, a);
      assert u + a == 0;
      CongUniqueOne(p);
    }
  }

  /** A point's encoding without the sign of x. */
  function ClearSign(point: seq<byte>): seq<byte>
    requires |point| == 32
  {
    point[31 := point[31] % 128]
  }

  /** y is read from the top byte down, eight bits at a time. */
  method IsOnCurve(point: seq<byte>) returns (on: bool)
    ensures on <==> |point| == 32 && CurveTest(P, D(P), UnLE(ClearSign(point)))
    ensures IsPrime(P) ==>
      (on <==> |point| == 32 && UnLE(ClearSign(point)) < P && HasPoint(P, D(P), UnLE(ClearSign(point))))
  {
    if |point| != 32 { return false; }
    var d := D(P);
    var bytes := point[31 := point[31] % 128];
    var y: nat := 0;
    var i := 31;
    while i >= 0
      invariant -1 <= i <= 31 && y == UnLE(bytes[i + 1..])
    {
      assert bytes[i..][0] == bytes[i] && bytes[i..][1..] == bytes[i + 1..];
      y := y * 256 + bytes[i];
      i := i - 1;
    }
    assert bytes[0..] == bytes;
    if IsPrime(P) && y < P { EdwardsTestExact(y); }
    on := TestY(P, d, y);
  }

  /** On edwards25519, the test accepts exactly the y of points. */
  lemma EdwardsTestExact(y: nat)
    requires IsPrime(P) && y < P
    ensures CurveTest(P, D(P), y) <==> HasPoint(P, D(P), y)
  {
    DIsDefined();
    DIsNotMinusOne(P);
    CurveTestExact(P, D(P), y);
  }

  method TestY(p: int, d: nat, y: nat) returns (on: bool)
    requires p > 1
    ensures on <==> CurveTest(p, d, y)
  {
    if y >= p { return false; }
    var y2 := y * y % p;
    var num := (y2 - 1) % p;
    var den := (d * y2 + 1) % p;
    var inverse := ModInverse(den, p);
    if inverse.None? { return false; }
    var x2 := num * inverse.value % p;
    var legendre := ModExp(x2, (p - 1) / 2, p);
    return legendre == 1 || x2 == 0;
  }

  // ---------------------------------------------------------- program addresses

  const MAX_SEEDS: int := 16
  const MAX_SEED_LEN: int := 32
  const FIND_COST: int := 1500

  /** "ProgramDerivedAddress" */
  const MARKER: seq<byte> := [80, 114, 111, 103, 114, 97, 109, 68, 101, 114, 105, 118, 101, 100, 65, 100, 100, 114,
    101, 115, 115]

  datatype PdaError = MaxSeedsExceeded | MaxSeedLengthExceeded | AddressOnCurve | NoViableBump | ComputeExceeded

  function Join(seeds: seq<seq<byte>>): seq<byte>
    decreases |seeds|
  {
    if seeds == [] then [] else Join(seeds[..|seeds| - 1]) + seeds[|seeds| - 1]
  }

  predicate SeedsFit(seeds: seq<seq<byte>>) {
    |seeds| <= MAX_SEEDS && forall i :: 0 <= i < |seeds| ==> |seeds[i]| <= MAX_SEED_LEN
  }

  function Derived(sha: Sha, seeds: seq<seq<byte>>, program: seq<byte>): Hash {
    sha(Join(seeds) + program + MARKER)
  }

  /** Whether these seeds give an address: they fit, and their hash is not accepted
      as a curve point. */
  predicate Viable(sha: Sha, seeds: seq<seq<byte>>, program: seq<byte>) {
    SeedsFit(seeds) && !CurveTest(P, D(P), UnLE(ClearSign(Derived(sha, seeds, program))))
  }

  method CreateProgramAddress(sha: Sha, seeds: seq<seq<byte>>, program: seq<byte>) returns (r: Result<Hash, PdaError>)
    ensures r.Ok? <==> Viable(sha, seeds, program)
    ensures r.Ok? ==> r.value == Derived(sha, seeds, program)
    ensures r.Err? ==> r.error == if |seeds| > MAX_SEEDS then MaxSeedsExceeded
                                  else if !SeedsFit(seeds) then MaxSeedLengthExceeded else AddressOnCurve
    ensures IsPrime(P) && r.Ok? ==> (var y := UnLE(ClearSign(r.value)); y >= P || !HasPoint(P, D(P), y))
  {
    if |seeds| > MAX_SEEDS { return Err(MaxSeedsExceeded); }
    var i, input := 0, [];
    while i < |seeds|
      invariant 0 <= i <= |seeds|
      invariant forall k :: 0 <= k < i ==> |seeds[k]| <= MAX_SEED_LEN
    {
      if |seeds[i]| > MAX_SEED_LEN { return Err(MaxSeedLengthExceeded); }
      i := i + 1;
    }
    i := 0;
    while i < |seeds|
      invariant 0 <= i <= |seeds| && input == Join(seeds[..i])
    {
      assert seeds[..i + 1][..i] == seeds[..i];
      input := input + seeds[i];
      i := i + 1;
    }
    assert seeds[..i] == seeds;
    var hash := sha(input + program + MARKER);
    var on := IsOnCurve(hash);
    if on { return Err(AddressOnCurve); }
    return Ok(hash);
  }

  class ComputeContext {
    const limit: u64
    var consumed: u64

    constructor (limit: u64)
      ensures this.limit == limit && consumed == 0
    {
      this.limit, consumed := limit, 0;
    }

    /** The sum is a uint64. */
    method ConsumeCU(cost: u64) returns (ok: bool)
      modifies this
      ensures ok == Affords(old(consumed), cost, limit)
      ensures consumed == if ok then WrapAdd(old(consumed), cost) else old(consumed)
    {
      if WrapAdd(consumed, cost) > limit { return false; }
      consumed := WrapAdd(consumed, cost);
      return true;
    }
  }

  predicate Affords(consumed: u64, cost: u64, limit: u64) {
    WrapAdd(consumed, cost) <= limit
  }

  function WithBump(seeds: seq<seq<byte>>, bump: byte): seq<seq<byte>> {
    seeds + [[bump]]
  }

  /** No bump from low to 255 gives an address. */
  ghost predicate NoneFrom(sha: Sha, seeds: seq<seq<byte>>, program: seq<byte>, low: int) {
    forall b: byte :: low <= b ==> !Viable(sha, WithBump(seeds, b), program)
  }

  /** The meter after n charges for an attempt. */
  function Charged(consumed: u64, n: nat): u64 {
    if n == 0 then consumed else WrapAdd(Charged(consumed, n - 1), FIND_COST)
  }

  /** Short of the top of the uint64 range, that is plain addition. */
  lemma {:induction false} ChargedAdds(consumed: u64, n: nat)
    requires consumed + n * FIND_COST < U64_SIZE
    ensures Charged(consumed, n) == consumed + n * FIND_COST
  {
    if n > 0 { ChargedAdds(consumed, n - 1); }
  }

  lemma NoneNext(sha: Sha, seeds: seq<seq<byte>>, program: seq<byte>, bump: byte)
    requires NoneFrom(sha, seeds, program, bump + 1) && !Viable(sha, WithBump(seeds, bump), program)
    ensures NoneFrom(sha, seeds, program, bump)
  {
  }

  /** What trying a bump, after all larger ones have failed, has found. */
  ghost predicate Found(sha: Sha, seeds: seq<seq<byte>>, program: seq<byte>, bump: byte, r: Result<Hash, PdaError>) {
    match r
    case Ok(pda) =>
      Viable(sha, WithBump(seeds, bump), program) && pda == Derived(sha, WithBump(seeds, bump), program)
      && NoneFrom(sha, seeds, program, bump + 1)
    case Err(e) => NoneFrom(sha, seeds, program, if e == ComputeExceeded then bump + 1 else bump)
  }

  /** One bump: charged, then tried. */
  method TryBump(sha: Sha, seeds: seq<seq<byte>>, program: seq<byte>, ctx: ComputeContext, bump: byte)
    returns (r: Result<Hash, PdaError>)
    requires NoneFrom(sha, seeds, program, bump + 1)
    modifies ctx
    ensures r == Err(ComputeExceeded) <==> !Affords(old(ctx.consumed), FIND_COST, ctx.limit)
    ensures ctx.consumed
      == if r == Err(ComputeExceeded) then old(ctx.consumed) else WrapAdd(old(ctx.consumed), FIND_COST)
    ensures Found(sha, seeds, program, bump, r)
  {
    var ok := ctx.ConsumeCU(FIND_COST);
    if !ok { return Err(ComputeExceeded); }
    r := CreateProgramAddress(sha, WithBump(seeds, bump), program);
    if r.Err? { NoneNext(sha, seeds, program, bump); }
  }

  /** The search takes the largest viable bump there is and has charged for every
      attempt; it fails only when the meter refuses, or when no bump at all is viable
      and 256 attempts have been charged. */
  method FindProgramAddress(sha: Sha, seeds: seq<seq<byte>>, program: seq<byte>, ctx: ComputeContext)
    returns (r: Result<(Hash, byte), PdaError>, ghost charges: nat)
    modifies ctx
    ensures charges <= 256 && ctx.consumed == Charged(old(ctx.consumed), charges)
    ensures r.Ok? ==> charges == 256 - r.value.1 && Found(sha, seeds, program, r.value.1, Ok(r.value.0))
    ensures r.Err? ==> NoneFrom(sha, seeds, program, 256 - charges)
    ensures r.Err? ==> r.error == if charges == 256 then NoViableBump else ComputeExceeded
    ensures r.Err? && charges < 256 ==> !Affords(ctx.consumed, FIND_COST, ctx.limit)
  {
    var bump: byte := 255;
    var tried := TryBump(sha, seeds, program, ctx, bump);
    while tried.Err? && tried.error != ComputeExceeded && bump > 0
      invariant ctx.consumed
        == Charged(old(ctx.consumed), if tried == Err(ComputeExceeded) then 255 - bump else 256 - bump)
      invariant tried == Err(ComputeExceeded) ==> !Affords(ctx.consumed, FIND_COST, ctx.limit)
      invariant Found(sha, seeds, program, bump, tried)
      decreases bump
    {
      bump := bump - 1;
      tried := TryBump(sha, seeds, program, ctx, bump);
    }
    charges := if tried == Err(ComputeExceeded) then 255 - bump else 256 - bump;
    r := if tried.Ok? then Ok((tried.value, bump))
         else if tried.error == ComputeExceeded then Err(ComputeExceeded) else Err(NoViableBump);
  }

  /** Too many seeds, or too long a seed: no bump helps. */
  lemma HopelessSeeds(sha: Sha, seeds: seq<seq<byte>>, program: seq<byte>)
    requires !SeedsFit(seeds) || |seeds| == MAX_SEEDS
    ensures NoneFrom(sha, seeds, program, 0)
  {
    forall b: byte ensures !Viable(sha, WithBump(seeds, b), program) {
      var more := WithBump(seeds, b);
      if SeedsFit(more) {
        forall i | 0 <= i < |seeds| ensures |seeds[i]| <= MAX_SEED_LEN { assert more[i] == seeds[i]; }
        assert false;
      }
    }
  }
}
