/** Euler's criterion: modulo an odd prime p, a nonzero a is a square exactly when
    its ((p - 1) / 2)-th power is 1. Both directions come from multiplying all
    residues together in pairs whose product is a. */
module Euler {
  import opened Modular

  // -------------------------------------------------------- products over sets

  ghost function Product(s: set<int>): int {
    if exists x :: x in s then
      var x :| x in s;
      x * Product(s - {x})
    else 1
  }

  lemma {:induction false} ProductWithout(s: set<int>, x: int)
    requires x in s
    ensures Product(s) == x * Product(s - {x})
    decreases s
  {
    var y :| y in s && Product(s) == y * Product(s - {y});
    if x != y {
      ProductWithout(s - {y}, x);
      ProductWithout(s - {x}, y);
      assert s - {x} - {y} == s - {y} - {x};
      Swap(x, y, Product(s - {y} - {x}));
    }
  }

  lemma Swap(x: int, y: int, z: int)
    ensures x * (y * z) == y * (x * z)
  {
  }

  /** The nonzero residues. */
  function Units(p: nat): (s: set<int>)
    ensures forall x :: x in s <==> 1 <= x < p
  {
    if p <= 1 then {} else Units(p - 1) + {p - 1}
  }

  lemma {:induction false} UnitsSize(p: int)
    requires p >= 1
    ensures |Units(p)| == p - 1
    decreases p
  {
    if p > 1 {
      UnitsSize(p - 1);
      assert Units(p) == Units(p - 1) + {p - 1};
    } else {
      assert Units(p) == {};
    }
  }

  // -------------------------------------------------------------------- pairing

  /** Every member has a different member with which its product is a. */
  ghost predicate Paired(p: int, a: int, s: set<int>) {
    forall x {:trigger HasPartner(p, a, s, x)} :: x in s ==> HasPartner(p, a, s, x)
  }

  ghost predicate HasPartner(p: int, a: int, s: set<int>, x: int) {
    exists y :: y in s && y != x && Cong(p, x * y, a)
  }

  lemma Cancel(p: int, x: int, y: int, z: int)
    requires IsPrime(p) && 0 < x < p && 0 < y < p && 0 < z < p && Cong(p, x * y, x * z)
    ensures y == z
  {
    CongRefl(p, x * z);
    CongAdd(p, x * y, x * z, x * z, x * z);
    assert x * y - x * z == x * (y - z);
    EuclidLemma(p, x, y - z);
    if Cong(p, x, 0) {
      CongUnique(p, x, 0);
    } else {
      CongRefl(p, z);
      CongAdd(p, y - z, 0, z, z);
      assert y - z + z == y;
      CongUnique(p, y, z);
    }
  }

  lemma SamePartner(p: int, a: int, x: int, y: int, z: int)
    requires IsPrime(p) && 0 < x < p && 0 < y < p && 0 < z < p && Cong(p, x * y, a)
    requires Cong(p, x * z, a) || Cong(p, z * x, a)
    ensures y == z
  {
    assert x * z == z * x;
    CongSym(p, x * z, a);
    CongTrans(p, x * y, a, x * z);
    Cancel(p, x, y, z);
  }

  lemma PartnerStays(p: int, a: int, s: set<int>, x: int, y: int, z: int)
    requires IsPrime(p) && s <= Units(p) && Paired(p, a, s)
    requires x in s && y in s && x != y && Cong(p, x * y, a) && z in s && z != x && z != y
    ensures HasPartner(p, a, s - {x} - {y}, z)
  {
    assert HasPartner(p, a, s, z);
    var w :| w in s && w != z && Cong(p, z * w, a);
    if w == x { SamePartner(p, a, x, y, z); }
    if w == y {
      assert x * y == y * x;
      SamePartner(p, a, y, x, z);
    }
    assert w in s - {x} - {y};
  }

  /** The product of a paired set is a power of a. */
  lemma {:induction false} PairProduct(p: int, a: int, s: set<int>) returns (h: nat)
    requires IsPrime(p) && s <= Units(p) && Paired(p, a, s)
    ensures |s| == 2 * h && Cong(p, Product(s), Pow(a, h))
    decreases s
  {
    if s == {} {
      CongRefl(p, 1);
      return 0;
    }
    var x :| x in s;
    assert HasPartner(p, a, s, x);
    var y :| y in s && y != x && Cong(p, x * y, a);
    RestPaired(p, a, s, x, y);
    TwoFactors(s, x, y);
    h := PairProduct(p, a, s - {x} - {y});
    OnePower(p, a, a, x * y, Product(s - {x} - {y}), h);
    h := h + 1;
  }

  lemma RestPaired(p: int, a: int, s: set<int>, x: int, y: int)
    requires IsPrime(p) && s <= Units(p) && Paired(p, a, s)
    requires x in s && y in s && x != y && Cong(p, x * y, a)
    ensures Paired(p, a, s - {x} - {y}) && s - {x} - {y} <= Units(p)
  {
    var rest := s - {x} - {y};
    forall z | z in rest ensures HasPartner(p, a, rest, z) { PartnerStays(p, a, s, x, y, z); }
  }

  /** c times the k-th power, where c is b, and b is a or its negation. */
  lemma OnePower(p: int, a: int, b: int, c: int, rest: int, k: nat)
    requires Cong(p, c, b) && Cong(p, rest, Pow(a, k)) && (b == a || b == -a)
    ensures Cong(p, c * rest, if b == a then Pow(a, k + 1) else -Pow(a, k + 1))
  {
    CongMul(p, c, b, rest, Pow(a, k));
    if b != a { Negate(a, Pow(a, k)); }
  }

  lemma TwoFactors(s: set<int>, x: int, y: int)
    requires x in s && y in s && x != y
    ensures Product(s) == x * y * Product(s - {x} - {y}) && |s| == |s - {x} - {y}| + 2
  {
    ProductWithout(s, x);
    ProductWithout(s - {x}, y);
    Associate(x, y, Product(s - {x} - {y}));
  }

  // ------------------------------------------------------------------- squares

  ghost predicate Square(p: int, a: int) {
    exists x: int :: Cong(p, x * x, a)
  }

  lemma UnitPartner(p: int, a: int, x: int) returns (y: int)
    requires IsPrime(p) && 0 < a < p && 0 < x < p
    ensures 0 < y < p && Cong(p, x * y, a)
  {
    PrimeInverse(p, x);
    var v := ModInverse(x, p).value;
    y := (v * a) % p;
    ModCong(p, v * a);
    CongScale(p, x, y, v * a);
    CongScale(p, a, x * v, 1);
    Associate(x, v, a);
    CongTrans(p, x * y, x * (v * a), a);
    if y == 0 {
      CongSym(p, x * y, a);
      CongUnique(p, a, 0);
    }
  }

  lemma NonSquareProduct(p: int, a: int)
    requires IsPrime(p) && 0 < a < p && !Square(p, a)
    ensures Cong(p, Product(Units(p)), Pow(a, (p - 1) / 2))
  {
    forall x | x in Units(p) ensures HasPartner(p, a, Units(p), x) {
      var y := UnitPartner(p, a, x);
      assert y in Units(p);
    }
    var h := PairProduct(p, a, Units(p));
    UnitsSize(p);
    assert h == (p - 1) / 2;
  }

  /** A square has the roots r and p - r and no others. */
  lemma OnlyRoots(p: int, r: int, x: int)
    requires IsPrime(p) && 0 < r < p && 0 < x < p && Cong(p, x * x, r * r)
    ensures x == r || x == p - r
  {
    CongRefl(p, r * r);
    CongAdd(p, x * x, r * r, r * r, r * r);
    assert x * x - r * r == (x - r) * (x + r);
    EuclidLemma(p, x - r, x + r);
    if Cong(p, x - r, 0) {
      CongRefl(p, r);
      CongAdd(p, x - r, 0, r, r);
      CongUnique(p, x, r);
    } else {
      CongWitness(p, p - r, -r, 1);
      CongRefl(p, r);
      CongAdd(p, x + r, 0, r, r);
      CongSym(p, p - r, -r);
      CongTrans(p, x, -r, p - r);
      CongUnique(p, x, p - r);
    }
  }

  lemma NegatedSquare(p: int, r: int)
    ensures Cong(p, (p - r) * (p - r), r * r) && Cong(p, r * (p - r), -(r * r))
  {
    assert (p - r) * (p - r) == r * r + (p - 2 * r) * p;
    CongWitness(p, (p - r) * (p - r), r * r, p - 2 * r);
    assert r * (p - r) == -(r * r) + r * p;
    CongWitness(p, r * (p - r), -(r * r), r);
  }

  lemma RootsPairedAway(p: int, a: int, r: int, x: int)
    requires IsPrime(p) && 0 < a < p && 0 < r < p && Cong(p, r * r, a)
    requires 0 < x < p && x != r && x != p - r
    ensures HasPartner(p, a, Units(p) - {r} - {p - r}, x)
  {
    var y := UnitPartner(p, a, x);
    CongSym(p, r * r, a);
    if y == x {
      CongTrans(p, x * x, a, r * r);
      OnlyRoots(p, r, x);
    }
    assert x * y == y * x;
    if y == r { SamePartner(p, a, r, r, x); }
    if y == p - r {
      NegatedSquare(p, r);
      CongTrans(p, (p - r) * (p - r), r * r, a);
      SamePartner(p, a, p - r, p - r, x);
    }
  }

  lemma SquareProduct(p: int, a: int, r: int)
    requires IsPrime(p) && p % 2 == 1 && 0 < a < p && 0 < r < p && Cong(p, r * r, a)
    ensures Cong(p, Product(Units(p)), -Pow(a, (p - 1) / 2))
  {
    OthersPaired(p, a, r);
    UnitsSize(p);
    TwoFactors(Units(p), r, p - r);
    var h := PairProduct(p, a, Units(p) - {r} - {p - r});
    RootsProduct(p, a, r);
    OnePower(p, a, -a, r * (p - r), Product(Units(p) - {r} - {p - r}), h);
    assert h + 1 == (p - 1) / 2;
  }

  lemma OthersPaired(p: int, a: int, r: int)
    requires IsPrime(p) && 0 < a < p && 0 < r < p && Cong(p, r * r, a)
    ensures Paired(p, a, Units(p) - {r} - {p - r})
  {
    var rest := Units(p) - {r} - {p - r};
    forall x | x in rest ensures HasPartner(p, a, rest, x) { RootsPairedAway(p, a, r, x); }
  }

  lemma RootsProduct(p: int, a: int, r: int)
    requires Cong(p, r * r, a)
    ensures Cong(p, r * (p - r), -a)
  {
    NegatedSquare(p, r);
    CongScale(p, -1, r * r, a);
    CongTrans(p, r * (p - r), -(r * r), -a);
  }

  lemma Negate(a: int, b: int)
    ensures -a * b == -(a * b)
  {
  }

  /** Wilson's theorem. */
  lemma Wilson(p: int)
    requires IsPrime(p) && p % 2 == 1
    ensures Cong(p, Product(Units(p)), -1)
  {
    CongRefl(p, 1);
    SquareProduct(p, 1, 1);
    PowOfOne((p - 1) / 2);
  }

  lemma {:induction false} PowOfOne(n: nat)
    ensures Pow(1, n) == 1
  {
    if n > 0 { PowOfOne(n - 1); }
  }

  lemma UnitRoot(p: int, a: int) returns (r: int)
    requires IsPrime(p) && 0 < a < p && Square(p, a)
    ensures 0 < r < p && Cong(p, r * r, a)
  {
    var x: int :| Cong(p, x * x, a);
    r := x % p;
    ModCong(p, x);
    CongMul(p, r, x, r, x);
    CongTrans(p, r * r, x * x, a);
    if r == 0 {
      CongSym(p, r * r, a);
      CongUnique(p, a, 0);
    }
  }

  /** Euler's criterion, in both directions. */
  lemma EulerCriterion(p: int, a: int)
    requires IsPrime(p) && p % 2 == 1 && 0 < a < p
    ensures ModExp(a, (p - 1) / 2, p) == 1 <==> Square(p, a)
  {
    Wilson(p);
    CongSym(p, Product(Units(p)), -1);
    var h := (p - 1) / 2;
    if Square(p, a) {
      var r := UnitRoot(p, a);
      SquareProduct(p, a, r);
      CongTrans(p, -1, Product(Units(p)), -Pow(a, h));
      CongScale(p, -1, -1, -Pow(a, h));
      CongSym(p, 1, Pow(a, h));
      ModUnique(p, Pow(a, h), 1);
    } else {
      NonSquareProduct(p, a);
      CongTrans(p, -1, Product(Units(p)), Pow(a, h));
      CongSym(p, -1, Pow(a, h));
      CongWitness(p, -1, p - 1, -1);
      CongTrans(p, Pow(a, h), -1, p - 1);
      ModUnique(p, Pow(a, h), p - 1);
    }
  }
}
