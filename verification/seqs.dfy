/** Sequence helpers shared by both puzzle domains: the sum and XOR folds
    behind the from-scratch heuristic and hash, the two-cell swap every move
    performs, and permutations of 0..n-1. */
module Seqs {

  /** Sum of a sequence of integers. */
  function Sum(s: seq<int>): int
  {
    if |s| == 0 then 0 else s[0] + Sum(s[1..])
  }

  /** XOR of a sequence of 32-bit words; the empty XOR is 0. */
  function Xor(s: seq<bv32>): bv32
  {
    if |s| == 0 then 0 else s[0] ^ Xor(s[1..])
  }

  /** Changing one term of a sum changes the sum by the difference. */
  lemma {:induction false} SumUpdate(s: seq<int>, k: nat, v: int)
    requires k < |s|
    ensures Sum(s[k := v]) == Sum(s) - s[k] + v
  {
    if k == 0 {
      assert s[k := v][1..] == s[1..];
    } else {
      assert s[k := v][1..] == s[1..][k - 1 := v];
      SumUpdate(s[1..], k - 1, v);
    }
  }

  /** The recursive definition of Xor, one step. */
  lemma XorUnfold(s: seq<bv32>)
    requires |s| > 0
    ensures Xor(s) == s[0] ^ Xor(s[1..])
  {
  }

  lemma XorCancel(a: bv32, v: bv32, r: bv32)
    ensures v ^ r == (a ^ r) ^ a ^ v
  {
  }

  lemma XorAssoc(a: bv32, b: bv32, c: bv32, d: bv32)
    ensures a ^ (b ^ c ^ d) == (a ^ b) ^ c ^ d
  {
  }

  /** The base case of XorUpdate: replacing the first term. */
  lemma XorUpdateHead(s: seq<bv32>, v: bv32)
    requires 0 < |s|
    ensures Xor(s[0 := v]) == Xor(s) ^ s[0] ^ v
  {
    assert s[0 := v][1..] == s[1..];
    XorUnfold(s[0 := v]);
    XorUnfold(s);
    XorCancel(s[0], v, Xor(s[1..]));
  }

  /** The inductive step of XorUpdate: a later term, given the claim for the tail. */
  lemma XorUpdateTail(s: seq<bv32>, k: nat, v: bv32)
    requires 0 < k < |s|
    requires Xor(s[1..][k - 1 := v]) == Xor(s[1..]) ^ s[k] ^ v
    ensures Xor(s[k := v]) == Xor(s) ^ s[k] ^ v
  {
    assert s[k := v][1..] == s[1..][k - 1 := v];
    XorUnfold(s[k := v]);
    XorUnfold(s);
    XorAssoc(s[0], Xor(s[1..]), s[k], v);
  }

  /** Changing one term of an XOR XORs out the old term and XORs in the new one. */
  lemma {:induction false} XorUpdate(s: seq<bv32>, k: nat, v: bv32)
    requires k < |s|
    ensures Xor(s[k := v]) == Xor(s) ^ s[k] ^ v
  {
    if k == 0 {
      XorUpdateHead(s, v);
    } else {
      XorUpdate(s[1..], k - 1, v);
      XorUpdateTail(s, k, v);
    }
  }

  /** Changing two distinct terms of an XOR, in the order incrementHash
      XORs the four words: new i, old j, old i, new j. */
  lemma XorTwoUpdates(s: seq<bv32>, i: nat, j: nat, vi: bv32, vj: bv32)
    requires i < |s| && j < |s| && i != j
    ensures Xor(s[i := vi][j := vj]) == Xor(s) ^ vi ^ s[j] ^ s[i] ^ vj
  {
    XorUpdate(s, i, vi);
    XorUpdate(s[i := vi], j, vj);
    XorShuffle(Xor(s), s[i], vi, s[j], vj);
  }

  /** x ^ a ^ b ^ c ^ d, regrouped. */
  lemma XorShuffle(x: bv32, a: bv32, b: bv32, c: bv32, d: bv32)
    ensures x ^ a ^ b ^ c ^ d == x ^ b ^ c ^ a ^ d
  {
  }

  lemma {:induction false} SumNonNegative(s: seq<int>)
    requires forall i :: 0 <= i < |s| ==> s[i] >= 0
    ensures Sum(s) >= 0
  {
    if |s| > 0 {
      SumNonNegative(s[1..]);
    }
  }

  lemma {:induction false} SumOfZeros(s: seq<int>)
    requires forall i :: 0 <= i < |s| ==> s[i] == 0
    ensures Sum(s) == 0
  {
    if |s| > 0 {
      SumOfZeros(s[1..]);
    }
  }

  lemma {:induction false} XorOfZeros(s: seq<bv32>)
    requires forall i :: 0 <= i < |s| ==> s[i] == 0
    ensures Xor(s) == 0
  {
    if |s| > 0 {
      XorOfZeros(s[1..]);
    }
  }

  lemma {:induction false} SumConcat(a: seq<int>, b: seq<int>)
    ensures Sum(a + b) == Sum(a) + Sum(b)
  {
    if |a| == 0 {
      assert a + b == b;
    } else {
      assert (a + b)[1..] == a[1..] + b;
      SumConcat(a[1..], b);
    }
  }

  /** A sequence and its mirror image have the same sum. */
  lemma {:induction false} SumMirror(a: seq<int>, b: seq<int>)
    requires |a| == |b|
    requires forall i :: 0 <= i < |a| ==> a[i] == b[|b| - 1 - i]
    ensures Sum(a) == Sum(b)
  {
    if |a| > 0 {
      var n := |b|;
      assert b == b[..n - 1] + [b[n - 1]];
      SumConcat(b[..n - 1], [b[n - 1]]);
      assert Sum([b[n - 1]]) == b[n - 1] + Sum([]);
      SumMirror(a[1..], b[..n - 1]);
    }
  }

  /** A prefix one longer is the shorter prefix and the next element. */
  lemma TakeSnoc<T>(s: seq<T>, i: nat)
    requires i < |s|
    ensures s[..i + 1] == s[..i] + [s[i]]
  {
  }

  /** Appending after a non-empty sequence leaves its head and extends its tail. */
  lemma SnocTail<T>(s: seq<T>, x: T)
    requires 0 < |s|
    ensures (s + [x])[0] == s[0] && (s + [x])[1..] == s[1..] + [x]
  {
  }

  /** Prepending and appending commute. */
  lemma ConsSnoc<T>(a: T, t: seq<T>, x: T)
    ensures [a] + (t + [x]) == ([a] + t) + [x]
  {
  }

  /** Exchange the elements at positions i and j. */
  function Swap<T>(s: seq<T>, i: nat, j: nat): (r: seq<T>)
    requires i < |s| && j < |s|
    ensures |r| == |s|
    ensures r[i] == s[j] && r[j] == s[i]
    ensures forall k :: 0 <= k < |s| && k != i && k != j ==> r[k] == s[k]
  {
    s[i := s[j]][j := s[i]]
  }

  /** s holds each of 0..n-1 exactly once. */
  predicate IsPermutation(s: seq<nat>, n: nat)
  {
    && |s| == n
    && (forall i :: 0 <= i < |s| ==> s[i] < n)
    && (forall i, j :: 0 <= i < j < |s| ==> s[i] != s[j])
  }

  lemma SwapPreservesPermutation(s: seq<nat>, n: nat, i: nat, j: nat)
    requires IsPermutation(s, n) && i < n && j < n
    ensures IsPermutation(Swap(s, i, j), n)
  {
    var r := Swap(s, i, j);
    forall a, b | 0 <= a < b < |r|
      ensures r[a] != r[b]
    {
      var a' := if a == i then j else if a == j then i else a;
      var b' := if b == i then j else if b == j then i else b;
      assert r[a] == s[a'] && r[b] == s[b'];
      assert a' != b';
      if a' < b' { assert s[a'] != s[b']; } else { assert s[b'] != s[a']; }
    }
  }

  /** In a permutation, the value at a position determines the position. */
  lemma PermutationInjective(s: seq<nat>, n: nat, i: nat, j: nat)
    requires IsPermutation(s, n) && i < n && j < n && s[i] == s[j]
    ensures i == j
  {
  }
}
