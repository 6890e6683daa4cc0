/** Cyclic rotation of sequences, and counting in them. */
module Cyclic {

  /** The sequence read from index `n`, wrapping round. */
  function Rot<T>(s: seq<T>, n: nat): (r: seq<T>)
    requires s != []
    ensures |r| == |s|
  {
    s[n % |s|..] + s[..n % |s|]
  }

  lemma MulAtLeast(d: int, m: nat)
    requires d >= 1
    ensures d * m >= m
  {
    assert d * m == (d - 1) * m + m;
  }

  lemma QuotientUnique(q: int, r: int, q': int, r': int, m: nat)
    requires 0 <= r < m && 0 <= r' < m && q * m + r == q' * m + r'
    ensures q == q' && r == r'
  {
    var d := q - q';
    assert d * m == r' - r;
    if d >= 1 {
      MulAtLeast(d, m);
    } else if d <= -1 {
      MulAtLeast(-d, m);
    }
  }

  lemma ModUnique(a: int, q: int, r: int, m: nat)
    requires 0 <= r < m && a == q * m + r
    ensures a % m == r && a / m == q
  {
    QuotientUnique(q, r, a / m, a % m, m);
  }

  /** Adding a multiple of the modulus to either operand does not change a remainder. */
  lemma ModPeriod(a: nat, q: nat, m: nat)
    requires m > 0
    ensures (a + q * m) % m == a % m
  {
    var k, r := a / m, a % m;
    assert a == k * m + r;
    assert (k + q) * m == k * m + q * m;
    ModUnique(a + q * m, k + q, r, m);
  }

  lemma QuotientRemainder(a: int, m: nat, q: int)
    requires m > 0
    ensures 0 <= a - q * m < m <==> q == a / m
  {
    assert a == (a / m) * m + a % m;
    if 0 <= a - q * m < m {
      QuotientUnique(q, a - q * m, a / m, a % m, m);
    }
  }

  lemma ModSum(a: nat, b: nat, m: nat)
    requires m > 0
    ensures (a % m + b) % m == (a + b) % m
  {
    var q := a / m;
    assert a == q * m + a % m;
    assert a + b == (a % m + b) + q * m;
    ModPeriod(a % m + b, q, m);
  }

  lemma RotIndex<T>(s: seq<T>, n: nat, i: nat)
    requires i < |s|
    ensures Rot(s, n)[i] == s[(i + n) % |s|]
  {
    var k := n % |s|;
    ModSum(n, i, |s|);
    assert (k + i) % |s| == (i + n) % |s|;
    if i + k < |s| {
      ModUnique(k + i, 0, k + i, |s|);
    } else {
      ModUnique(k + i, 1, k + i - |s|, |s|);
    }
  }

  /** The same for a rotation by less than the length, without a division. */
  lemma RotatedAt<T>(s: seq<T>, n: nat, i: nat)
    requires i < |s| && n <= |s|
    ensures Rot(s, n)[i] == s[if i + n < |s| then i + n else i + n - |s|]
  {
    RotIndex(s, n, i);
    ModUnique(i + n, if i + n < |s| then 0 else 1, if i + n < |s| then i + n else i + n - |s|, |s|);
  }

  lemma RotTwice<T>(s: seq<T>, a: nat, b: nat, i: nat)
    requires i < |s|
    ensures Rot(Rot(s, a), b)[i] == Rot(s, a + b)[i]
  {
    hide Rot;
    var j := (i + b) % |s|;
    RotIndex(Rot(s, a), b, i);
    RotIndex(s, a, j);
    RotIndex(s, a + b, i);
    ModSum(i + b, a, |s|);
  }

  /** Rotations compose by adding. */
  lemma RotAdd<T>(s: seq<T>, a: nat, b: nat)
    requires s != []
    ensures Rot(Rot(s, a), b) == Rot(s, a + b)
  {
    hide Rot;
    forall i | 0 <= i < |s|
      ensures Rot(Rot(s, a), b)[i] == Rot(s, a + b)[i]
    {
      RotTwice(s, a, b, i);
    }
  }

  /** A whole number of turns is the identity. */
  lemma RotCycle<T>(s: seq<T>, q: nat)
    requires s != []
    ensures Rot(s, q * |s|) == s
  {
    ModPeriod(0, q, |s|);
  }

  function Count(s: seq<bool>): nat {
    if s == [] then 0 else (if s[0] then 1 else 0) + Count(s[1..])
  }

  lemma {:induction false} CountConcat(a: seq<bool>, b: seq<bool>)
    ensures Count(a + b) == Count(a) + Count(b)
  {
    if a == [] {
      assert a + b == b;
    } else {
      assert (a + b)[1..] == a[1..] + b;
      CountConcat(a[1..], b);
    }
  }

  lemma CountRot(s: seq<bool>, n: nat)
    requires s != []
    ensures Count(Rot(s, n)) == Count(s)
  {
    var k := n % |s|;
    CountConcat(s[k..], s[..k]);
    CountConcat(s[..k], s[k..]);
    assert s == s[..k] + s[k..];
  }
}
