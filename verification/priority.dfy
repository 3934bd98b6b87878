/** The replacement priority both caching tables derive from a state's hash.
    The source divides 0xFFFFFFFF by the hash, so small hashes get large
    priorities; it leaves a zero hash undefined (a division by zero). */
module Priority {

  /** Largest unsigned 32-bit value; the numerator of the priority. */
  const MAX_PRIORITY: nat := 0xFFFF_FFFF

  /** getPriority as written: 0xFFFFFFFF div (hash & 0xFFFFFFFF). On a 32-bit
      hash the mask is the identity; a zero hash is a division by zero, which
      the precondition records. */
  function GetPriority(hash: bv32): (p: nat)
    requires hash != 0
    ensures 1 <= p <= MAX_PRIORITY
    ensures hash == 1 ==> p == MAX_PRIORITY
  {
    DivAtLeastOne(MAX_PRIORITY, hash as int);
    MAX_PRIORITY / (hash as int)
  }

  /** The priority with the zero hash given the value the quotient tends to
      as the hash shrinks: the largest priority. Every other hash gets exactly
      what getPriority computes. The caching tables use this total version. */
  function StatePriority(hash: bv32): (p: nat)
    ensures 1 <= p <= MAX_PRIORITY
    ensures hash != 0 ==> p == GetPriority(hash)
    ensures hash == 0 ==> p == MAX_PRIORITY
  {
    if hash == 0 then MAX_PRIORITY else GetPriority(hash)
  }

  /** Multiplying by a non-negative factor preserves order. */
  lemma MulMonotone(a: int, b: int, c: int)
    requires 0 <= c
    ensures a <= b ==> a * c <= b * c
  {
    if a <= b {
      assert b * c - a * c == (b - a) * c;
    }
  }

  /** Euclidean division by a positive divisor, spelled out. */
  lemma DivMod(n: nat, d: int)
    requires 0 < d
    ensures (n / d) * d + n % d == n && 0 <= n % d < d && n / d >= 0
  {
  }

  lemma DivAtLeastOne(n: nat, d: int)
    requires 0 < d <= n
    ensures 1 <= n / d <= n
  {
    var q := n / d;
    DivMod(n, d);
    var p := q * d;
    assert p > 0;
    MulMonotone(q, 0, d);
    assert q >= 1;
    MulMonotone(1, d, q);
    assert q <= d * q;
    assert d * q == p;
  }

  /** If q copies of d fit under n, then q is at most n div d. */
  lemma QuotientBound(n: nat, d: int, q: nat)
    requires 0 < d && q * d <= n
    ensures q <= n / d
  {
    var k := n / d;
    DivMod(n, d);
    MulMonotone(k + 1, q, d);
    assert (k + 1) * d == k * d + d;
  }

  /** Dividing by a larger divisor never gives a larger quotient. */
  lemma DivAntitone(n: nat, x: int, y: int)
    requires 0 < x <= y
    ensures n / y <= n / x
  {
    var q := n / y;
    DivMod(n, y);
    MulMonotone(x, y, q);
    assert q * x <= q * y;
    QuotientBound(n, x, q);
  }

  /** getPriority is antitone: a larger hash never gets a larger priority. */
  lemma GetPriorityAntitone(a: bv32, b: bv32)
    requires 0 < a as int <= b as int
    ensures GetPriority(a) >= GetPriority(b)
  {
    var x, y := a as int, b as int;
    DivAntitone(MAX_PRIORITY, x, y);
    assert GetPriority(a) == MAX_PRIORITY / x;
    assert GetPriority(b) == MAX_PRIORITY / y;
  }

  /** The corrected priority is antitone over every 32-bit hash, zero included. */
  lemma StatePriorityAntitone(a: bv32, b: bv32)
    requires a as int <= b as int
    ensures StatePriority(a) >= StatePriority(b)
  {
    if a != 0 {
      GetPriorityAntitone(a, b);
    }
  }
}
