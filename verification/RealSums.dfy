/** Real arithmetic for sums and scaling. Products and quotients are wrapped in `Times` and `Part`,
    whose laws are proved once here, so that longer proofs can hide them. */
module RealSums {

  // ── Products and quotients ──────────────────────────────────────────────

  function Times(a: real, b: real): real { a * b }

  /** One of `k` equal parts of `x`; nothing when there are no parts. */
  function Part(x: real, k: nat): real {
    if k == 0 then 0.0 else x / k as real
  }

  function Abs(x: real): real { if x < 0.0 then -x else x }

  lemma ProductMono(d: real, a: real, b: real)
    requires 0.0 <= d && a <= b
    ensures d * a <= d * b
  {}

  lemma TimesMono(d: real, a: real, b: real)
    requires 0.0 <= d && a <= b
    ensures Times(d, a) <= Times(d, b)
  {
    ProductMono(d, a, b);
  }

  lemma TimesAdds(d: real, a: real, b: real)
    ensures Times(d, a + b) == Times(d, a) + Times(d, b)
    ensures Times(d, a - b) == Times(d, a) - Times(d, b)
    ensures Times(d, 0.0) == 0.0
    ensures Times(1.0, a) == a
  {}

  lemma TimesAbs(d: real, a: real)
    requires 0.0 <= d
    ensures Abs(Times(d, a)) == Times(d, Abs(a))
  {
    if a < 0.0 {
      ProductMono(d, a, 0.0);
    } else {
      ProductMono(d, 0.0, a);
    }
  }

  lemma ProductFraction(d: real, p: real)
    requires 0.0 <= d <= 1.0 && 0.0 <= p
    ensures 0.0 <= d * p <= p
  {}

  lemma TimesFraction(d: real, p: real)
    requires 0.0 <= d <= 1.0 && 0.0 <= p
    ensures 0.0 <= Times(d, p) <= p
    ensures p <= 1.0 ==> Times(d, p) <= d
  {
    ProductFraction(d, p);
    if p <= 1.0 {
      ProductFraction(p, d);
    }
  }

  lemma TimesAssociative(a: real, b: real, c: real)
    ensures Times(a, Times(b, c)) == Times(Times(a, b), c)
  {}

  lemma QuotientLaws(a: real, b: real, k: real)
    requires k > 0.0
    ensures a / k - b / k == (a - b) / k
    ensures a / k + b / k == (a + b) / k
    ensures (a >= 0.0 ==> a / k >= 0.0) && (a > 0.0 ==> a / k > 0.0) && (a <= 0.0 ==> a / k <= 0.0)
    ensures (-a) / k == -(a / k)
    ensures k * (a / k) == a
  {}

  lemma PartLaws(a: real, b: real, k: nat)
    ensures Part(a, k) - Part(b, k) == Part(a - b, k)
    ensures a >= 0.0 ==> Part(a, k) >= 0.0
    ensures a > 0.0 && k > 0 ==> Part(a, k) > 0.0
    ensures k > 0 ==> Times(k as real, Part(a, k)) == a
    ensures Part(0.0, k) == 0.0
  {
    if k > 0 {
      QuotientLaws(a, b, k as real);
    }
  }

  lemma PartAbs(a: real, k: nat)
    ensures Abs(Part(a, k)) == Part(Abs(a), k)
  {
    if k > 0 {
      QuotientLaws(a, 0.0, k as real);
    }
  }

  lemma PartMono(a: real, b: real, k: nat)
    requires a <= b
    ensures Part(a, k) <= Part(b, k)
  {
    PartLaws(b, a, k);
    PartLaws(b - a, 0.0, k);
  }

  // ── Sums over a set, in no particular order ─────────────────────────────

  ghost function SumSet<T(!new)>(s: set<T>, f: T -> real): real {
    if s == {} then 0.0
    else
      var x :| x in s;
      f(x) + SumSet(s - {x}, f)
  }

  /** The order in which a set is summed does not matter. */
  lemma {:induction false} SumSetRemove<T(!new)>(s: set<T>, x: T, f: T -> real)
    requires x in s
    ensures SumSet(s, f) == f(x) + SumSet(s - {x}, f)
    decreases s
  {
    var y :| y in s && SumSet(s, f) == f(y) + SumSet(s - {y}, f);
    if y != x {
      SumSetRemove(s - {y}, x, f);
      SumSetRemove(s - {x}, y, f);
      assert s - {y} - {x} == s - {x} - {y};
    }
  }

  lemma {:induction false} SumSetCong<T(!new)>(s: set<T>, f: T -> real, g: T -> real)
    requires forall x :: x in s ==> f(x) == g(x)
    ensures SumSet(s, f) == SumSet(s, g)
  {
    if s != {} {
      var x :| x in s;
      SumSetRemove(s, x, f);
      SumSetRemove(s, x, g);
      SumSetCong(s - {x}, f, g);
    }
  }

  lemma {:induction false} SumSetMono<T(!new)>(s: set<T>, f: T -> real, g: T -> real)
    requires forall x :: x in s ==> f(x) <= g(x)
    ensures SumSet(s, f) <= SumSet(s, g)
  {
    if s != {} {
      var x :| x in s;
      SumSetRemove(s, x, f);
      SumSetRemove(s, x, g);
      SumSetMono(s - {x}, f, g);
    }
  }

  lemma {:induction false} SumSetAdd<T(!new)>(s: set<T>, f: T -> real, g: T -> real, h: T -> real)
    requires forall x :: x in s ==> h(x) == f(x) + g(x)
    ensures SumSet(s, h) == SumSet(s, f) + SumSet(s, g)
  {
    if s != {} {
      var x :| x in s;
      SumSetRemove(s, x, f);
      SumSetRemove(s, x, g);
      SumSetRemove(s, x, h);
      SumSetAdd(s - {x}, f, g, h);
    }
  }

  lemma {:induction false} SumSetTimes<T(!new)>(s: set<T>, a: real, f: T -> real, h: T -> real)
    requires forall x :: x in s ==> h(x) == Times(a, f(x))
    ensures SumSet(s, h) == Times(a, SumSet(s, f))
  {
    if s == {} {
      TimesAdds(a, 0.0, 0.0);
    } else {
      hide Times;
      var x :| x in s;
      SumSetRemove(s, x, f);
      SumSetRemove(s, x, h);
      SumSetTimes(s - {x}, a, f, h);
      TimesAdds(a, f(x), SumSet(s - {x}, f));
    }
  }

  lemma {:induction false} SumSetConst<T(!new)>(s: set<T>, c: real, f: T -> real)
    requires forall x :: x in s ==> f(x) == c
    ensures SumSet(s, f) == Times(|s| as real, c)
  {
    if s != {} {
      var x :| x in s;
      SumSetRemove(s, x, f);
      SumSetConst(s - {x}, c, f);
      assert |s| as real == |s - {x}| as real + 1.0;
    }
  }

  // ── Sums over a list ────────────────────────────────────────────────────

  ghost function SumSeq<T>(xs: seq<T>, f: T -> real): real {
    if xs == [] then 0.0 else SumSeq(xs[..|xs| - 1], f) + f(xs[|xs| - 1])
  }

  lemma {:induction false} SumSeqNonNegative<T>(xs: seq<T>, f: T -> real)
    requires forall x :: x in xs ==> f(x) >= 0.0
    ensures SumSeq(xs, f) >= 0.0
  {
    if xs != [] {
      SumSeqNonNegative(xs[..|xs| - 1], f);
    }
  }

  /** The terms of `w` filed under key `k`, and zero elsewhere. */
  function Filed<T>(key: T -> int, w: T -> real, k: int): T -> real {
    x => if key(x) == k then w(x) else 0.0
  }

  ghost function FiledSum<T>(xs: seq<T>, key: T -> int, w: T -> real): int -> real {
    k => SumSeq(xs, Filed(key, w, k))
  }

  /** Exchange of summation: filing a list under its keys and adding the files gives the list's sum. */
  lemma {:induction false} SumByKey<T>(s: set<int>, xs: seq<T>, key: T -> int, w: T -> real)
    requires forall x :: x in xs ==> key(x) in s
    ensures SumSet(s, FiledSum(xs, key, w)) == SumSeq(xs, w)
  {
    var all := FiledSum(xs, key, w);
    if xs == [] {
      SumSetConst(s, 0.0, all);
    } else {
      var before, last := xs[..|xs| - 1], xs[|xs| - 1];
      SumByKey(s, before, key, w);
      var rest := FiledSum(before, key, w);
      var k := key(last);
      SumSetRemove(s, k, all);
      SumSetRemove(s, k, rest);
      SumSetCong(s - {k}, all, rest);
    }
  }
}
