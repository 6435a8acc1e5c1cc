/** The mathematics of the sieve: repeatedly taking the first number and dropping its multiples leaves the primes. */
module Primes {
  predicate Divides(d: nat, n: nat) { d > 0 && n % d == 0 }

  ghost predicate IsPrime(n: nat) { n >= 2 && forall d: nat :: 2 <= d < n ==> !Divides(d, n) }

  /** lo, lo + 1, .., hi */
  function Range(lo: nat, hi: nat): seq<nat>
    decreases hi + 1 - lo
  {
    if lo > hi then [] else [lo] + Range(lo + 1, hi)
  }

  /** What filtro lets through: the numbers the base does not divide. */
  function Sifted(s: seq<nat>, base: nat): (t: seq<nat>)
    requires base > 0
    ensures |t| <= |s| && forall x :: x in t <==> x in s && !Divides(base, x)
  {
    if s == [] then [] else (if Divides(base, s[0]) then [] else [s[0]]) + Sifted(s[1..], base)
  }

  lemma {:induction false} SiftedAppend(s: seq<nat>, x: nat, base: nat)
    requires base > 0
    ensures Sifted(s + [x], base) == Sifted(s, base) + if Divides(base, x) then [] else [x]
  {
    hide Divides;
    if s == [] {
      assert s + [x] == [x];
    } else {
      assert (s + [x])[0] == s[0] && (s + [x])[1..] == s[1..] + [x];
      var head := if Divides(base, s[0]) then [] else [s[0]];
      assert Sifted(s + [x], base) == head + Sifted(s[1..] + [x], base);
      SiftedAppend(s[1..], x, base);
    }
  }

  predicate Increasing(s: seq<nat>) { forall i, j :: 0 <= i < j < |s| ==> s[i] < s[j] }

  lemma {:induction false} SiftedIncreasing(s: seq<nat>, base: nat)
    requires base > 0 && Increasing(s)
    ensures Increasing(Sifted(s, base))
  {
    if s != [] {
      SiftedIncreasing(s[1..], base);
      var t := Sifted(s[1..], base);
      forall i | 0 <= i < |t| ensures t[i] > s[0] {
        assert t[i] in t;
      }
    }
  }

  /** The first numbers of the stages' streams, one after the other. */
  function Heads(s: seq<nat>): seq<nat>
    requires forall x :: x in s ==> x > 0
    decreases |s|
  {
    if s == [] then []
    else
      assert s[0] in s;
      SiftedShorter(s);
      [s[0]] + Heads(Sifted(s, s[0]))
  }

  lemma SiftedShorter(s: seq<nat>)
    requires s != [] && s[0] > 0
    ensures |Sifted(s, s[0])| < |s|
  {
    assert s[0] % s[0] == 0;
  }

  /** The primes from lo to hi, in increasing order. */
  ghost function PrimesFrom(lo: nat, hi: nat): seq<nat>
    decreases hi + 1 - lo
  {
    if lo > hi then [] else (if IsPrime(lo) then [lo] else []) + PrimesFrom(lo + 1, hi)
  }

  /** Exactly the numbers from 2 to n without a divisor below m. */
  ghost predicate Rough(s: seq<nat>, m: nat, n: nat) {
    Increasing(s) && forall x: nat :: x in s <==> 2 <= x <= n && forall d: nat :: 2 <= d < m ==> !Divides(d, x)
  }

  lemma DividesTrans(d: nat, e: nat, n: nat)
    requires Divides(d, e) && Divides(e, n)
    ensures Divides(d, n)
  {
    var a, b := e / d, n / e;
    assert e == d * a && n == e * b;
    assert n == d * (a * b);
    MultipleMod(d, a * b);
  }

  lemma MultipleMod(d: nat, k: nat)
    requires d > 0
    ensures (d * k) % d == 0
  {
    var x := d * k;
    var q, r := x / d, x % d;
    assert x == d * q + r;
    assert d * (k - q) == r;
    if k - q >= 1 {
      Times(d, k - q);
    } else if k - q <= -1 {
      Times(d, q - k);
    }
  }

  lemma Times(d: int, k: int)
    requires d > 0 && k >= 1
    ensures d * k >= d && d * -k == -(d * k)
  {}

  lemma DividesLe(d: nat, n: nat)
    requires Divides(d, n) && n > 0
    ensures d <= n
  {}

  /** A divisor of a rough number is rough. */
  lemma RoughDivisor(s: seq<nat>, m: nat, n: nat, d: nat, x: nat)
    requires Rough(s, m, n) && x in s && 2 <= d && Divides(d, x)
    ensures d in s
  {
    DividesLe(d, x);
    forall e: nat | 2 <= e < m ensures !Divides(e, d) {
      if Divides(e, d) {
        DividesTrans(e, d, x);
      }
    }
  }

  lemma HeadLeast(s: seq<nat>, x: nat)
    requires Increasing(s) && x in s
    ensures s[0] <= x
  {}

  /** The least number without a divisor below m is the least prime that is at least m, and dropping its
      multiples leaves the numbers without a divisor up to it. */
  lemma RoughStep(s: seq<nat>, m: nat, n: nat)
    requires Rough(s, m, n) && s != [] && 2 <= m
    ensures m <= s[0] <= n && IsPrime(s[0]) && Rough(Sifted(s, s[0]), s[0] + 1, n)
    ensures forall q: nat :: m <= q < s[0] ==> !IsPrime(q)
  {
    var p := s[0];
    assert p in s && 2 <= p <= n;
    assert Divides(p, p) by { MultipleMod(p, 1); }
    forall d: nat | 2 <= d < p ensures !Divides(d, p) {
      if Divides(d, p) {
        RoughDivisor(s, m, n, d, p);
        HeadLeast(s, d);
      }
    }
    forall q: nat | m <= q < p ensures !IsPrime(q) {
      if IsPrime(q) {
        assert q in s;
        HeadLeast(s, q);
      }
    }
    SiftedIncreasing(s, p);
    forall x: nat ensures x in Sifted(s, p) <==> 2 <= x <= n && forall d: nat :: 2 <= d < p + 1 ==> !Divides(d, x) {
      SiftedRough(s, m, n, x);
    }
  }

  lemma SiftedRough(s: seq<nat>, m: nat, n: nat, x: nat)
    requires Rough(s, m, n) && s != [] && 2 <= m <= s[0]
    ensures x in Sifted(s, s[0]) <==> 2 <= x <= n && forall d: nat :: 2 <= d < s[0] + 1 ==> !Divides(d, x)
  {
    var p := s[0];
    assert x in Sifted(s, p) <==> x in s && !Divides(p, x);
    if x in Sifted(s, p) {
      forall d: nat | 2 <= d < p + 1 ensures !Divides(d, x) {
        if Divides(d, x) {
          RoughDivisor(s, m, n, d, x);
          HeadLeast(s, d);
        }
      }
    }
  }

  lemma {:induction false} NoPrimes(lo: nat, mid: nat, hi: nat)
    requires lo <= mid && forall q: nat :: lo <= q < mid && q <= hi ==> !IsPrime(q)
    ensures PrimesFrom(lo, hi) == PrimesFrom(mid, hi) || (mid > hi && PrimesFrom(lo, hi) == [])
    decreases mid - lo
  {
    if lo < mid {
      NoPrimes(lo + 1, mid, hi);
    }
  }

  lemma {:induction false} HeadsArePrimes(s: seq<nat>, m: nat, n: nat)
    requires Rough(s, m, n) && 2 <= m && forall x :: x in s ==> x > 0
    ensures Heads(s) == PrimesFrom(m, n)
    decreases |s|
  {
    if s == [] {
      forall q: nat | m <= q <= n ensures IsPrime(q) ==> q in s {}
      NoPrimes(m, if m <= n then n + 1 else m, n);
    } else {
      var p := s[0];
      RoughStep(s, m, n);
      SiftedShorter(s);
      HeadsArePrimes(Sifted(s, p), p + 1, n);
      NoPrimes(m, p, n);
    }
  }

  lemma {:induction false} RangeMembers(lo: nat, hi: nat)
    ensures Increasing(Range(lo, hi)) && forall x: nat :: x in Range(lo, hi) <==> lo <= x <= hi
    decreases hi + 1 - lo
  {
    if lo <= hi {
      RangeMembers(lo + 1, hi);
      var t := Range(lo + 1, hi);
      forall i | 0 <= i < |t| ensures t[i] > lo {
        assert t[i] in t;
      }
    }
  }

  lemma SieveOfRange(n: nat)
    ensures (forall x :: x in Range(2, n) ==> x > 0) && Heads(Range(2, n)) == PrimesFrom(2, n)
  {
    RangeMembers(2, n);
    HeadsArePrimes(Range(2, n), 2, n);
  }

  /** PrimesFrom is what its name says. */
  lemma {:induction false} PrimesFromMeans(lo: nat, hi: nat)
    ensures Increasing(PrimesFrom(lo, hi)) && forall p: nat :: p in PrimesFrom(lo, hi) <==> lo <= p <= hi && IsPrime(p)
    decreases hi + 1 - lo
  {
    if lo <= hi {
      PrimesFromMeans(lo + 1, hi);
      var t := PrimesFrom(lo + 1, hi);
      forall i | 0 <= i < |t| ensures t[i] > lo {
        assert t[i] in t;
      }
    }
  }
}
