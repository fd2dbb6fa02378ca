/** The least number of subvolumes (src/ClusterBootstrap/deploy.py, create_glusterFS_volume). */
module Subvolumes {
  import opened Jobs
  import opened Arithmetic

  ghost predicate Divides(d: nat, n: int) {
    d > 0 && n % d == 0
  }

  ghost predicate IsGcd(d: nat, n: nat, m: nat) {
    Divides(d, n) && Divides(d, m) && forall c: nat :: Divides(c, n) && Divides(c, m) ==> c <= d
  }

  function Abs(x: int): nat { if x < 0 then -x else x }

  predicate Works(nodes: nat, multiple: int, s: nat)
    requires multiple != 0
  {
    (nodes * s) % multiple == 0
  }

  lemma MulZero(n: nat, m: int)
    requires m != 0
    ensures (n * Abs(m)) % m == 0
  {
    var q: int := if m > 0 then n else 0 - n;
    assert n * Abs(m) == q * m;
    Divisible(n * Abs(m), m, q);
  }

  lemma Divisible(x: int, m: int, q: int)
    requires m != 0 && x == q * m
    ensures x % m == 0
  {
    if m > 0 {
      DivModUnique(x, m, q, 0);
    } else {
      assert x == (0 - q) * (0 - m);
      DivModUnique(x, 0 - m, 0 - q, 0);
      var q', r := x / m, x % m;
      assert x == q' * m + r == (0 - q') * (0 - m) + r;
      DivModUnique(x, 0 - m, 0 - q', r);
    }
  }

  /** None is the failing modulo by zero. */
  method CountSubvolumes(nodes: nat, multiple: int) returns (s: Option<nat>)
    requires nodes > 0
    ensures s.None? <==> multiple == 0
    ensures s.Some? ==> s.value > 0 && Works(nodes, multiple, s.value)
    ensures s.Some? ==> forall t: nat | 0 < t < s.value :: !Works(nodes, multiple, t)
    ensures s.Some? ==> Divides(s.value, Abs(multiple)) && IsGcd(Abs(multiple) / s.value, nodes, Abs(multiple))
  {
    if multiple == 0 {
      return None;
    }
    var subvolumes: nat := 1;
    MulZero(nodes, multiple);
    while (nodes * subvolumes) % multiple != 0
      invariant 0 < subvolumes <= Abs(multiple)
      invariant forall t: nat | 0 < t < subvolumes :: !Works(nodes, multiple, t)
      decreases Abs(multiple) - subvolumes
    {
      subvolumes := subvolumes + 1;
    }
    LeastIsQuotient(nodes, multiple, subvolumes);
    return Some(subvolumes);
  }

  /** The counts that work are closed under difference, so the least one divides every other. */
  lemma LeastDivides(nodes: nat, multiple: int, s: nat, t: nat)
    requires multiple != 0 && s > 0 && Works(nodes, multiple, s) && Works(nodes, multiple, t)
    requires forall u: nat | 0 < u < s :: !Works(nodes, multiple, u)
    ensures t % s == 0
  {
    var q, r := t / s, t % s;
    var a, b := (nodes * t) / multiple, (nodes * s) / multiple;
    Multiple(nodes * t, multiple);
    Multiple(nodes * s, multiple);
    RemainderMultiple(nodes, multiple, s, t, q, r, a, b);
    Divisible(nodes * r, multiple, a - q * b);
    assert Works(nodes, multiple, r);
  }

  lemma RemainderMultiple(nodes: int, multiple: int, s: int, t: int, q: int, r: int, a: int, b: int)
    requires t == q * s + r && nodes * t == a * multiple && nodes * s == b * multiple
    ensures nodes * r == (a - q * b) * multiple
  {
    MulSub(t, q * s, nodes);
    MulCommutes(nodes, t);
    MulCommutes(nodes, r);
    MulCommutes(nodes, s);
    MulAssociates(q, s, nodes);
    MulAssociates(q, b, multiple);
    MulSub(a, q * b, multiple);
  }

  /** The least working count is the multiple divided by its greatest common divisor with the nodes. */
  lemma LeastIsQuotient(nodes: nat, multiple: int, s: nat)
    requires nodes > 0 && multiple != 0 && s > 0 && Works(nodes, multiple, s)
    requires forall t: nat | 0 < t < s :: !Works(nodes, multiple, t)
    ensures Divides(s, Abs(multiple)) && IsGcd(Abs(multiple) / s, nodes, Abs(multiple))
  {
    var m := Abs(multiple);
    MulZero(nodes, multiple);
    LeastDivides(nodes, multiple, s, m);
    var d := m / s;
    assert m == d * s;
    CommonDivisor(nodes, multiple, s, d);
    forall c: nat | Divides(c, nodes) && Divides(c, m) ensures c <= d {
      QuotientWorks(nodes, multiple, c);
      LeastAtMost(nodes, multiple, s, m / c);
      assert m == (m / c) * c;
      Larger(m / c, c, s, d);
    }
  }

  lemma Larger(x: nat, c: nat, s: nat, d: nat)
    requires x >= s > 0 && x * c == d * s
    ensures c <= d
  {
    MulMonotone(s, x, c);
    MulCommutes(s, c);
    if c > d {
      MulMonotone(d + 1, c, s);
      MulAdd(d, 1, s);
    }
  }

  lemma LeastAtMost(nodes: nat, multiple: int, s: nat, t: nat)
    requires multiple != 0 && Works(nodes, multiple, t) && t > 0
    requires forall u: nat | 0 < u < s :: !Works(nodes, multiple, u)
    ensures s <= t
  {
  }

  lemma CommonDivisor(nodes: nat, multiple: int, s: nat, d: nat)
    requires multiple != 0 && s > 0 && Abs(multiple) == d * s && Works(nodes, multiple, s)
    ensures d > 0 && Divides(d, nodes) && Divides(d, Abs(multiple))
  {
    var k := (nodes * s) / multiple;
    assert nodes * s == k * multiple;
    var j := if multiple > 0 then k else -k;
    assert nodes * s == j * (d * s);
    assert (nodes - j * d) * s == 0;
    assert nodes == j * d;
    Divisible(nodes, d, j);
    Divisible(d * s, d, s);
  }

  lemma QuotientWorks(nodes: nat, multiple: int, c: nat)
    requires multiple != 0 && Divides(c, nodes) && Divides(c, Abs(multiple))
    ensures Abs(multiple) / c > 0 && Works(nodes, multiple, Abs(multiple) / c)
  {
    var m := Abs(multiple);
    var x, y := nodes / c, m / c;
    assert nodes == x * c && m == y * c;
    assert nodes * y == x * m by { assert (x * c) * y == x * (y * c); }
    MulZero(x, multiple);
  }
}
