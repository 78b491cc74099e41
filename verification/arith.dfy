/** Small facts about natural-number division and about index sequences,
    shared by the launch, swizzle and reduction models. */
module Arith {

  /** The half-open interval [lo, hi) as an increasing sequence. */
  function Range(lo: nat, hi: nat): (s: seq<nat>)
    ensures |s| == if lo <= hi then hi - lo else 0
    ensures forall k :: 0 <= k < |s| ==> s[k] == lo + k
    decreases hi - lo
  {
    if lo < hi then [lo] + Range(lo + 1, hi) else []
  }

  lemma RangeMembership(lo: nat, hi: nat, x: nat)
    ensures x in Range(lo, hi) <==> lo <= x < hi
  {
    if lo <= x < hi {
      assert Range(lo, hi)[x - lo] == x;
    }
  }

  /** Two adjacent intervals glue into one. */
  lemma RangeAppend(lo: nat, mid: nat, hi: nat)
    requires lo <= mid <= hi
    ensures Range(lo, mid) + Range(mid, hi) == Range(lo, hi)
  {
    var a := Range(lo, mid) + Range(mid, hi);
    assert |a| == |Range(lo, hi)|;
    forall k | 0 <= k < |a|
      ensures a[k] == Range(lo, hi)[k]
    {
      if k < mid - lo {
        assert a[k] == Range(lo, mid)[k];
      } else {
        assert a[k] == Range(mid, hi)[k - (mid - lo)];
      }
    }
  }

  /** No element occurs twice. */
  predicate NoDup<T(==)>(s: seq<T>)
  {
    forall p, q :: 0 <= p < q < |s| ==> s[p] != s[q]
  }

  predicate StrictlyIncreasing(s: seq<nat>)
  {
    forall p, q :: 0 <= p < q < |s| ==> s[p] < s[q]
  }

  /** Every x in [0, w) occurs exactly once in s, and nothing else does. */
  predicate ExactlyOnce(s: seq<nat>, w: nat)
  {
    && NoDup(s)
    && (forall x :: x in s ==> x < w)
    && (forall x: nat :: x < w ==> x in s)
  }

  lemma RangeExactlyOnce(w: nat)
    ensures ExactlyOnce(Range(0, w), w)
  {
    forall x: nat
      ensures x in Range(0, w) <==> x < w
    {
      RangeMembership(0, w, x);
    }
  }

  predicate Disjoint<T(==)>(a: seq<T>, b: seq<T>)
  {
    forall x :: x in a ==> x !in b
  }

  lemma NoDupConcat<T>(a: seq<T>, b: seq<T>)
    requires NoDup(a) && NoDup(b) && Disjoint(a, b)
    ensures NoDup(a + b)
  {
    var c := a + b;
    forall p, q | 0 <= p < q < |c|
      ensures c[p] != c[q]
    {
      if p < |a| && q >= |a| {
        assert c[p] in a && c[q] == b[q - |a|];
      } else if p >= |a| {
        assert c[p] == b[p - |a|] && c[q] == b[q - |a|];
      }
    }
  }

  lemma StrictlyIncreasingNoDup(s: seq<nat>)
    requires StrictlyIncreasing(s)
    ensures NoDup(s)
  {
  }

  /** The concatenation of a sequence of sequences, in order. */
  function Flatten<T>(ss: seq<seq<T>>): seq<T>
    decreases |ss|
  {
    if |ss| == 0 then [] else Flatten(ss[..|ss| - 1]) + ss[|ss| - 1]
  }

  /** An element of a concatenation comes from one of its parts. */
  lemma {:induction false} FlattenMembership<T>(ss: seq<seq<T>>, x: T)
    ensures x in Flatten(ss) <==> exists k :: 0 <= k < |ss| && x in ss[k]
    decreases |ss|
  {
    if |ss| > 0 {
      var init := ss[..|ss| - 1];
      FlattenMembership(init, x);
      if x in Flatten(init) {
        var k :| 0 <= k < |init| && x in init[k];
        assert ss[k] == init[k];
      }
      if exists k :: 0 <= k < |ss| && x in ss[k] {
        var k :| 0 <= k < |ss| && x in ss[k];
        if k < |ss| - 1 { assert init[k] == ss[k]; }
      }
    }
  }

  /** Parts without repeats that share no element concatenate without repeats. */
  lemma {:induction false} FlattenNoDup<T>(ss: seq<seq<T>>)
    requires forall k :: 0 <= k < |ss| ==> NoDup(ss[k])
    requires forall k1, k2 :: 0 <= k1 < k2 < |ss| ==> Disjoint(ss[k1], ss[k2])
    ensures NoDup(Flatten(ss))
    decreases |ss|
  {
    if |ss| > 0 {
      var n := |ss| - 1;
      var init := ss[..n];
      FlattenNoDup(init);
      forall x | x in Flatten(init)
        ensures x !in ss[n]
      {
        FlattenMembership(init, x);
        var k :| 0 <= k < |init| && x in init[k];
        assert Disjoint(ss[k], ss[n]);
      }
      NoDupConcat(Flatten(init), ss[n]);
    }
  }

  /** Euclidean division on naturals is determined by quotient and remainder. */
  lemma DivModUnique(a: nat, d: nat, q: nat, r: nat)
    requires d > 0 && r < d && a == q * d + r
    ensures a / d == q && a % d == r
  {
    var k: int := q - a / d;
    assert k * d == a % d - r;
    MulMonoInt(1, k, d);
    MulMonoInt(k, -1, d);
  }

  /** Multiplying by a natural preserves order, on all integers. */
  lemma MulMonoInt(a: int, b: int, c: nat)
    ensures a <= b ==> a * c <= b * c
  {
    if a <= b {
      assert b * c - a * c == (b - a) * c;
    }
  }

  /** Adding the divisor adds one to the quotient. */
  lemma DivAddDivisor(a: nat, d: nat)
    requires d > 0
    ensures (a + d) / d == a / d + 1
  {
    DivModUnique(a + d, d, a / d + 1, a % d);
  }

  /** Multiplying a smaller factor gives a smaller product. */
  lemma MulMono(a: nat, b: nat, c: nat)
    requires a <= b
    ensures a * c <= b * c
  {
  }

  /** A strictly smaller product with the same positive factor has a smaller other factor. */
  lemma MulLess(a: nat, b: nat, c: nat)
    requires c > 0 && a * c < b * c
    ensures a < b
  {
    if a >= b { MulMono(b, a, c); }
  }

  /** Integer division is monotone in the dividend. */
  lemma DivMonoNumerator(a: nat, b: nat, d: nat)
    requires d > 0 && a <= b
    ensures a / d <= b / d
  {
    var qa, qb := a / d, b / d;
    assert qa * d <= a <= b < (qb + 1) * d;
    assert qa < qb + 1 by { MulLess(qa, qb + 1, d); }
  }

  /** Integer division is antitone in the divisor. */
  lemma DivAntiDivisor(a: nat, d1: nat, d2: nat)
    requires 0 < d1 <= d2
    ensures a / d2 <= a / d1
  {
    var q := a / d2;
    assert q * d1 <= q * d2 <= a by { MulMono(d1, d2, q); }
    DivMonoNumerator(q * d1, a, d1);
    DivModUnique(q * d1, d1, q, 0);
  }

  /** In a sequence without repeats every element occurs exactly once. */
  lemma {:induction false} NoDupCount<T>(s: seq<T>, x: T)
    requires NoDup(s)
    ensures multiset(s)[x] == if x in s then 1 else 0
    decreases |s|
  {
    if |s| > 0 {
      var t := s[1..];
      assert s == [s[0]] + t;
      assert NoDup(t) by {
        forall p, q | 0 <= p < q < |t|
          ensures t[p] != t[q]
        {
          assert t[p] == s[p + 1] && t[q] == s[q + 1];
        }
      }
      NoDupCount(t, x);
      if x == s[0] {
        assert x !in t by {
          forall q | 0 <= q < |t|
            ensures t[q] != x
          {
            assert t[q] == s[q + 1];
          }
        }
      }
    }
  }

  /** Two sequences without repeats that hold the same elements are
      permutations of each other. */
  lemma NoDupSameElements<T>(a: seq<T>, b: seq<T>)
    requires NoDup(a) && NoDup(b)
    requires forall x :: x in a <==> x in b
    ensures multiset(a) == multiset(b)
  {
    forall x
      ensures multiset(a)[x] == multiset(b)[x]
    {
      NoDupCount(a, x);
      NoDupCount(b, x);
    }
  }

  /** Taking the first element off `a` and the same element out of the
      middle of a permutation of `a` leaves permutations of each other. */
  lemma MultisetRemove<T>(a: seq<T>, pre: seq<T>, x: T, post: seq<T>)
    requires |a| > 0 && a[0] == x
    requires multiset(a) == multiset(pre + ([x] + post))
    ensures multiset(a[1..]) == multiset(pre + post)
  {
    assert a == [x] + a[1..];
    assert multiset(a) == multiset([x]) + multiset(a[1..]);
    assert multiset(pre + ([x] + post)) == multiset(pre) + multiset([x]) + multiset(post);
    assert multiset(pre + post) == multiset(pre) + multiset(post);
    forall y
      ensures multiset(a[1..])[y] == multiset(pre + post)[y]
    {
      assert multiset(a)[y] == multiset([x])[y] + multiset(a[1..])[y];
    }
  }

  /** Index `c` of an `s`-row, `r`-column matrix read row-major sits at row
      `c / r`, column `c % r`; its position in the transposed matrix,
      `(c % r) * s + c / r`, is again an index of the matrix, at row `c % r`
      and column `c / r`. */
  lemma TransposeIndex(r: nat, s: nat, c: nat)
    requires r > 0 && s > 0 && c < s * r
    ensures (c % r) * s + c / r < r * s
    ensures ((c % r) * s + c / r) / s == c % r
    ensures ((c % r) * s + c / r) % s == c / r
  {
    var q, p := c / r, c % r;
    assert q * r <= c;
    MulLess(q, s, r);
    MulMono(p, r - 1, s);
    assert (r - 1) * s + s == r * s;
    DivModUnique(p * s + q, s, p, q);
  }

  /** The quotient of a sum is the sum of the quotients, or one more. */
  lemma DivOfSum(a: nat, b: nat, d: nat)
    requires d > 0
    ensures (a + b) / d == a / d + b / d || (a + b) / d == a / d + b / d + 1
  {
    var qa, ra := a / d, a % d;
    var qb, rb := b / d, b % d;
    MulAddDistrib(qa, qb, d);
    if ra + rb < d {
      DivModUnique(a + b, d, qa + qb, ra + rb);
    } else {
      MulAddDistrib(qa + qb, 1, d);
      DivModUnique(a + b, d, qa + qb + 1, ra + rb - d);
    }
  }

  lemma MulAddDistrib(x: int, y: int, d: int)
    ensures (x + y) * d == x * d + y * d
  {
  }
}
