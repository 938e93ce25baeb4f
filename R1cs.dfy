/** The rank-1 constraint check of `checkConstraints` and its inner `evalLC`
    (common/tester.js:346-371, wasm/tester.js:251-278), over the prime field of the
    circuit: integers modulo `p`, with `F.e` reducing a witness entry modulo `p`. */
module R1cs {
  import opened Outcomes

  /** The field's modulus. */
  type Modulus = p: int | p > 1 witness 2

  /** A sparse linear combination: coefficient per witness index. */
  type LC = map<nat, int>

  /** One constraint `A * B - C = 0`, as the constraint file lists it. */
  datatype Constraint = Constraint(a: LC, b: LC, c: LC)

  /** `F.e(x)`: the field element of an integer, its least non-negative residue. */
  function Reduce(p: Modulus, x: int): (r: int)
    ensures 0 <= r < p && (x - r) % p == 0
  {
    ModOfDifference(x, p);
    x % p
  }

  lemma ModOfDifference(x: int, p: int)
    requires p > 0
    ensures (x - x % p) % p == 0
  {
    var q := x / p;
    assert x - x % p == q * p;
    MultipleMod(q, p);
  }

  // ---------------------------------------------------------------- modular arithmetic

  lemma MultipleMod(q: int, p: int)
    requires p > 0
    ensures (q * p) % p == 0
  {
    var r := (q * p) % p;
    var d := (q * p) / p;
    assert q * p == d * p + r;
    assert r == (q - d) * p;
    SmallMultipleIsZero(q - d, p);
  }

  /** The only multiple of `p` strictly between `-p` and `p` is 0. */
  lemma SmallMultipleIsZero(m: int, p: int)
    requires p > 0 && -p < m * p < p
    ensures m == 0
  {
  }

  /** Two integers with the same residue differ by a multiple of `p`, and conversely. */
  lemma SameResidue(x: int, y: int, p: int)
    requires p > 0
    ensures x % p == y % p <==> (x - y) % p == 0
  {
    var qx, qy := x / p, y / p;
    assert x == qx * p + x % p && y == qy * p + y % p;
    var qd := (x - y) / p;
    assert x - y == qd * p + (x - y) % p;
    if x % p == y % p {
      assert x - y == (qx - qy) * p;
      MultipleMod(qx - qy, p);
    }
    if (x - y) % p == 0 {
      assert x % p - y % p == (qd - qx + qy) * p;
      SmallMultipleIsZero(qd - qx + qy, p);
    }
  }

  /** Adding a multiple of `p` does not change the residue. */
  lemma ModAddMultiple(x: int, q: int, p: int)
    requires p > 0
    ensures (x + q * p) % p == x % p
  {
    SameResidue(x + q * p, x, p);
    MultipleMod(q, p);
  }

  lemma ModAdd(a: int, b: int, p: int)
    requires p > 0
    ensures (a % p + b) % p == (a + b) % p
  {
    ModAddMultiple(a % p + b, a / p, p);
    assert a % p + b + (a / p) * p == a + b;
  }

  lemma ModAddBoth(a: int, b: int, p: int)
    requires p > 0
    ensures (a % p + b % p) % p == (a + b) % p
  {
    ModAdd(a, b % p, p);
    ModAdd(b, a, p);
    assert a + b % p == b % p + a;
  }

  lemma ModMul(a: int, b: int, p: int)
    requires p > 0
    ensures ((a % p) * (b % p)) % p == (a * b) % p
  {
    var qa, qb := a / p, b / p;
    var ra, rb := a % p, b % p;
    assert a == qa * p + ra && b == qb * p + rb;
    assert a * b == ra * rb + (qa * b + ra * qb) * p by {
      assert a * b == (qa * p + ra) * b;
      assert (qa * p + ra) * b == qa * p * b + ra * b;
      assert ra * b == ra * (qb * p + rb);
      assert ra * (qb * p + rb) == ra * qb * p + ra * rb;
    }
    ModAddMultiple(ra * rb, qa * b + ra * qb, p);
  }

  // ---------------------------------------------------------------- evalLC

  /** Every non-empty set of naturals has a least element. */
  lemma {:induction false} LeastOf(s: set<nat>) returns (m: nat)
    requires s != {}
    ensures m in s && forall j :: j in s ==> m <= j
    decreases |s|
  {
    var x :| x in s;
    var rest := s - {x};
    if rest == {} {
      assert s == {x};
      m := x;
    } else {
      var r := LeastOf(rest);
      assert s == rest + {x};
      m := if x < r then x else r;
    }
  }

  lemma MinExists(s: set<nat>)
    requires s != {}
    ensures exists k :: k in s && forall j :: j in s ==> k <= j
  {
    var m := LeastOf(s);
  }

  /** The least key of a non-empty key set: `for (let w in lc)` visits integer keys in
      ascending order. */
  ghost function MinKey(s: set<nat>): (k: nat)
    requires s != {}
    ensures k in s && forall j :: j in s ==> k <= j
  {
    MinExists(s);
    var k :| k in s && forall j :: j in s ==> k <= j; k
  }

  /** `F.mul(coefficient, F.e(entry))` before the product is reduced. */
  function Weighted(p: Modulus, coefficient: int, entry: int): int
  {
    coefficient * Reduce(p, entry)
  }

  /** Every index the combination mentions has a witness entry. */
  predicate Covers(lc: LC, w: seq<int>)
  {
    forall k :: k in lc ==> k < |w|
  }

  /** The integer sum of `lc[k] * F.e(w[k])` over the keys `keys`. */
  ghost function Sum(p: Modulus, lc: LC, keys: set<nat>, w: seq<int>): int
    requires keys <= lc.Keys && forall k :: k in keys ==> k < |w|
    decreases |keys|
  {
    if keys == {} then 0
    else
      var k := MinKey(keys);
      Weighted(p, lc[k], w[k]) + Sum(p, lc, keys - {k}, w)
  }

  /** What `evalLC(lc)` returns: the combination's value in the field, or the TypeError of
      `F.e(undefined)` when it mentions an index past the end of the witness. */
  ghost function LcValue(p: Modulus, lc: LC, w: seq<int>): (r: Result<int>)
    ensures r.Ok? <==> Covers(lc, w)
    ensures r.Ok? ==> 0 <= r.value < p
  {
    if Covers(lc, w) then Ok(Sum(p, lc, lc.Keys, w) % p) else Err(WitnessEntryMissing)
  }

  /** `evalLC(lc)`: accumulates `v = F.add(v, F.mul(lc[k], F.e(witness[k])))` key by key,
      starting from `F.zero`. */
  method EvalLC(p: Modulus, lc: LC, w: seq<int>) returns (r: Result<int>)
    ensures r == LcValue(p, lc, w)
  {
    var v := 0;
    var remaining := lc.Keys;
    ghost var total := 0;
    while remaining != {}
      invariant remaining <= lc.Keys
      invariant forall k :: k in lc.Keys - remaining ==> k < |w|
      invariant v == total % p
      invariant Covers(lc, w) ==> total + Sum(p, lc, remaining, w) == Sum(p, lc, lc.Keys, w)
      decreases |remaining|
    {
      MinExists(remaining);
      var k :| k in remaining && forall j :: j in remaining ==> k <= j;
      if k >= |w| {
        return Err(WitnessEntryMissing);
      }
      var term := Weighted(p, lc[k], w[k]);
      ModAddBoth(total, term, p);
      if Covers(lc, w) {
        assert MinKey(remaining) == k;
      }
      v := (v + term % p) % p;
      total := total + term;
      assert lc.Keys - (remaining - {k}) == (lc.Keys - remaining) + {k};
      remaining := remaining - {k};
    }
    assert lc.Keys - remaining == lc.Keys;
    return Ok(v);
  }

  /** An empty combination evaluates to the field's zero, whatever the witness. */
  lemma EmptyLcIsZero(p: Modulus, w: seq<int>)
    ensures LcValue(p, map[], w) == Ok(0)
  {
    assert Sum(p, map[], {}, w) == 0;
  }

  // ---------------------------------------------------------------- checkConstraints

  /** The constraint holds of the witness: every index it mentions has an entry, and
      `A * B - C` is a multiple of `p`, where each of `A`, `B`, `C` is summed over the
      integers. */
  ghost predicate Satisfied(p: Modulus, c: Constraint, w: seq<int>)
  {
    && Covers(c.a, w) && Covers(c.b, w) && Covers(c.c, w)
    && (Sum(p, c.a, c.a.Keys, w) * Sum(p, c.b, c.b.Keys, w) - Sum(p, c.c, c.c.Keys, w)) % p == 0
  }

  /** One round of the loop: evaluate A, B and C in that order, then test
      `F.isZero(F.sub(F.mul(a, b), c))`. */
  ghost function ConstraintOutcome(p: Modulus, c: Constraint, w: seq<int>): Outcome
  {
    match (LcValue(p, c.a, w), LcValue(p, c.b, w), LcValue(p, c.c, w))
    case (Ok(a), Ok(b), Ok(cv)) =>
      if (a * b - cv) % p == 0 then Pass else Fail(ConstraintDoesNotMatch)
    case _ => Fail(WitnessEntryMissing)
  }

  /** The whole check: the outcome of the first constraint that does not pass. */
  ghost function ConstraintsOutcome(p: Modulus, cs: seq<Constraint>, w: seq<int>): Outcome
  {
    if cs == [] then Pass
    else if ConstraintOutcome(p, cs[0], w).Fail? then ConstraintOutcome(p, cs[0], w)
    else ConstraintsOutcome(p, cs[1..], w)
  }

  /** The loop of `checkConstraints` over the constraints in file order. It changes neither
      the witness nor the constraints. */
  method CheckAll(p: Modulus, cs: seq<Constraint>, w: seq<int>) returns (r: Outcome)
    ensures r == ConstraintsOutcome(p, cs, w)
  {
    var i := 0;
    while i < |cs|
      invariant 0 <= i <= |cs|
      invariant ConstraintsOutcome(p, cs[i..], w) == ConstraintsOutcome(p, cs, w)
    {
      assert cs[i..][1..] == cs[i + 1..];
      var a := EvalLC(p, cs[i].a, w);
      if a.Err? { return Fail(a.failure); }
      var b := EvalLC(p, cs[i].b, w);
      if b.Err? { return Fail(b.failure); }
      var c := EvalLC(p, cs[i].c, w);
      if c.Err? { return Fail(c.failure); }
      if (a.value * b.value - c.value) % p != 0 {
        return Fail(ConstraintDoesNotMatch);
      }
      i := i + 1;
    }
    return Pass;
  }

  /** One constraint passes exactly when it is satisfied; it fails with "Constraint doesn't
      match" exactly when every index it mentions has a witness entry but the equation does
      not hold. */
  lemma ConstraintOutcomeSpec(p: Modulus, c: Constraint, w: seq<int>)
    ensures ConstraintOutcome(p, c, w).Pass? <==> Satisfied(p, c, w)
    ensures ConstraintOutcome(p, c, w) == Fail(ConstraintDoesNotMatch)
        <==> Covers(c.a, w) && Covers(c.b, w) && Covers(c.c, w) && !Satisfied(p, c, w)
    ensures ConstraintOutcome(p, c, w).Fail? ==>
              ConstraintOutcome(p, c, w).failure in {ConstraintDoesNotMatch, WitnessEntryMissing}
  {
    if Covers(c.a, w) && Covers(c.b, w) && Covers(c.c, w) {
      var sa, sb, sc := Sum(p, c.a, c.a.Keys, w), Sum(p, c.b, c.b.Keys, w), Sum(p, c.c, c.c.Keys, w);
      ModMul(sa, sb, p);
      SameResidue((sa % p) * (sb % p), sc % p, p);
      SameResidue(sa * sb, sc, p);
      SameResidue((sa % p) * (sb % p), sa * sb, p);
      ModAdd(sc, 0, p);
      assert (sc % p) % p == sc % p;
    }
  }

  /** `checkConstraints` returns normally iff every constraint is satisfied; otherwise it
      stops at the first constraint that is not, with that constraint's failure. */
  lemma {:induction false} CheckConstraintsSpec(p: Modulus, cs: seq<Constraint>, w: seq<int>)
    ensures ConstraintsOutcome(p, cs, w).Pass? <==> forall i :: 0 <= i < |cs| ==> Satisfied(p, cs[i], w)
    ensures ConstraintsOutcome(p, cs, w).Fail? ==>
              exists i :: (0 <= i < |cs| && !Satisfied(p, cs[i], w)
                && (forall j :: 0 <= j < i ==> Satisfied(p, cs[j], w))
                && ConstraintsOutcome(p, cs, w) == ConstraintOutcome(p, cs[i], w))
  {
    if cs != [] {
      ConstraintOutcomeSpec(p, cs[0], w);
      CheckConstraintsSpec(p, cs[1..], w);
      assert forall i :: 1 <= i < |cs| ==> cs[i] == cs[1..][i - 1];
      if Satisfied(p, cs[0], w) && ConstraintsOutcome(p, cs[1..], w).Fail? {
        var i :| 0 <= i < |cs| - 1 && !Satisfied(p, cs[1..][i], w)
                 && (forall j :: 0 <= j < i ==> Satisfied(p, cs[1..][j], w))
                 && ConstraintsOutcome(p, cs[1..], w) == ConstraintOutcome(p, cs[1..][i], w);
        assert cs[i + 1] == cs[1..][i];
      }
    }
  }

  /** A constraint set whose combinations are all empty is satisfied by any witness. */
  lemma {:induction false} EmptyConstraintsPass(p: Modulus, cs: seq<Constraint>, w: seq<int>)
    requires forall i :: 0 <= i < |cs| ==> cs[i] == Constraint(map[], map[], map[])
    ensures ConstraintsOutcome(p, cs, w) == Pass
  {
    if cs != [] {
      EmptyLcIsZero(p, w);
      EmptyConstraintsPass(p, cs[1..], w);
    }
  }

  /** `1 * 1 - 2` is not a multiple of any modulus above 1, so the constraint
      `{0: 1} * {0: 1} = {0: 2}` fails against the witness `[1]`, with no index reported. */
  lemma OneTimesOneIsNotTwo(p: Modulus)
    ensures ConstraintsOutcome(p, [Constraint(map[0 := 1], map[0 := 1], map[0 := 2])], [1])
         == Fail(ConstraintDoesNotMatch)
  {
    var one, two: LC := map[0 := 1], map[0 := 2];
    assert MinKey({0}) == 0;
    assert {0} - {0} == {};
    assert Sum(p, one, one.Keys, [1]) == 1 * Reduce(p, 1);
    assert Sum(p, two, two.Keys, [1]) == 2 * Reduce(p, 1);
    assert Reduce(p, 1) == 1;
    assert (1 * 1 - 2) % p != 0;
  }
}
