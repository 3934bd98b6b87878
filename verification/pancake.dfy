/** The pancake puzzle: eight distinct pancakes 0..7 in positions 0..7.
    Operator k reverses positions 0..k. The hash is an XOR of
    per-(pancake, position) random words; the heuristic counts gaps between
    neighbours that are not consecutive sizes, the plate counting as pancake
    8 beside position 0. */
module Pancake {
  import opened Seqs

  const NUM_PANCAKES: nat := 8
  /** Capacity of an operator list, and the largest previous-operator slot
      of the lookup table. */
  const MAX_NUM_OPS: nat := NUM_PANCAKES
  const NO_OP: int := 0

  datatype Stack = Stack(cakes: seq<nat>)

  predicate Valid(s: Stack)
  {
    IsPermutation(s.cakes, NUM_PANCAKES)
  }

  /** State::init: the goal, pancake 7 in position 0 beside the plate. */
  function Goal(): (s: Stack)
    ensures Valid(s)
    ensures s.cakes[NUM_PANCAKES - 1] == 0 && s.cakes[0] == NUM_PANCAKES - 1
  {
    Stack(seq(NUM_PANCAKES, i requires 0 <= i < NUM_PANCAKES => NUM_PANCAKES - 1 - i))
  }

  /** State::operator== compares the pancakes. */
  predicate Same(a: Stack, b: Stack)
  {
    a.cakes == b.cakes
  }

  /** reverse: every flip is its own inverse. */
  function Reverse(op: int): (r: int)
    ensures r == op
  {
    op
  }

  /** Operators apply() handles inside the stack: reversals of positions
      0..k (operator 0 reverses one position and changes nothing). */
  predicate LegalOp(op: int)
  {
    0 <= op < NUM_PANCAKES
  }

  /** The flip of positions 0..top, as a reference definition. */
  function Flip(cakes: seq<nat>, top: nat): (r: seq<nat>)
    requires top < |cakes|
  {
    seq(|cakes|, i requires 0 <= i < |cakes| => if i <= top then cakes[top - i] else cakes[i])
  }

  lemma FlipPreservesPermutation(cakes: seq<nat>, top: nat)
    requires IsPermutation(cakes, NUM_PANCAKES) && top < NUM_PANCAKES
    ensures IsPermutation(Flip(cakes, top), NUM_PANCAKES)
  {
    var r := Flip(cakes, top);
    forall a, b | 0 <= a < b < |r|
      ensures r[a] != r[b]
    {
      var a' := if a <= top then top - a else a;
      var b' := if b <= top then top - b else b;
      assert r[a] == cakes[a'] && r[b] == cakes[b'];
      if a' < b' { assert cakes[a'] != cakes[b']; } else { assert cakes[b'] != cakes[a']; }
    }
  }

  /** A flip undone by the same flip. */
  lemma FlipInvolution(cakes: seq<nat>, top: nat)
    requires top < |cakes|
    ensures Flip(Flip(cakes, top), top) == cakes
  {
  }

  // ---------------------------------------------------------------------------
  // XOR-Zobrist hash

  /** The random table hashTable[pancake][position]. */
  predicate HashTableOk(table: seq<seq<bv32>>)
  {
    |table| == NUM_PANCAKES && forall i :: 0 <= i < NUM_PANCAKES ==> |table[i]| == NUM_PANCAKES
  }

  predicate InRange(cakes: seq<nat>)
  {
    |cakes| == NUM_PANCAKES && forall i :: 0 <= i < NUM_PANCAKES ==> cakes[i] < NUM_PANCAKES
  }

  function HashTerms(table: seq<seq<bv32>>, cakes: seq<nat>): seq<bv32>
    requires HashTableOk(table) && InRange(cakes)
  {
    seq(NUM_PANCAKES, i requires 0 <= i < NUM_PANCAKES => table[cakes[i]][i])
  }

  /** Hash::calculateHash, from scratch. */
  function CalculateHash(table: seq<seq<bv32>>, cakes: seq<nat>): bv32
    requires HashTableOk(table) && InRange(cakes)
  {
    Xor(HashTerms(table, cakes))
  }

  /** Hash::incrementHash, called after positions i1 and i2 were swapped: it
      XORs the four words of both pancakes at both positions. */
  function IncrementHash(table: seq<seq<bv32>>, after: seq<nat>, value: bv32, i1: nat, i2: nat): bv32
    requires HashTableOk(table) && InRange(after) && i1 < NUM_PANCAKES && i2 < NUM_PANCAKES
  {
    var p1 := after[i1];
    var p2 := after[i2];
    value ^ table[p1][i1] ^ table[p1][i2] ^ table[p2][i1] ^ table[p2][i2]
  }

  lemma SwapInRange(cakes: seq<nat>, i1: nat, i2: nat)
    requires InRange(cakes) && i1 < NUM_PANCAKES && i2 < NUM_PANCAKES
    ensures InRange(Swap(cakes, i1, i2))
  {
  }

  /** Swapping two positions changes exactly their two hash terms. */
  lemma SwapTerms(table: seq<seq<bv32>>, cakes: seq<nat>, i1: nat, i2: nat)
    requires HashTableOk(table) && InRange(cakes)
    requires i1 < NUM_PANCAKES && i2 < NUM_PANCAKES && i1 != i2
    ensures InRange(Swap(cakes, i1, i2))
    ensures HashTerms(table, Swap(cakes, i1, i2)) ==
            HashTerms(table, cakes)[i1 := table[cakes[i2]][i1]][i2 := table[cakes[i1]][i2]]
  {
    SwapInRange(cakes, i1, i2);
  }

  /** One swap updated incrementally gives the from-scratch hash of the swapped stack. */
  lemma IncrementHashExact(table: seq<seq<bv32>>, cakes: seq<nat>, i1: nat, i2: nat)
    requires HashTableOk(table) && InRange(cakes)
    requires i1 < NUM_PANCAKES && i2 < NUM_PANCAKES && i1 != i2
    ensures InRange(Swap(cakes, i1, i2))
    ensures IncrementHash(table, Swap(cakes, i1, i2), CalculateHash(table, cakes), i1, i2)
            == CalculateHash(table, Swap(cakes, i1, i2))
  {
    var terms := HashTerms(table, cakes);
    SwapTerms(table, cakes, i1, i2);
    XorTwoUpdates(terms, i1, i2, table[cakes[i2]][i1], table[cakes[i1]][i2]);
  }

  // ---------------------------------------------------------------------------
  // The flip as State::apply performs it: swap i with top - i for i below
  // (top + 1) / 2, updating the hash after every swap.

  /** The stack after the first i swaps of the flip of positions 0..top. */
  function PartialFlip(cakes: seq<nat>, top: nat, i: nat): seq<nat>
    requires top < |cakes|
  {
    seq(|cakes|, k requires 0 <= k < |cakes| =>
      if k <= top && (k < i || k > top - i) then cakes[top - k] else cakes[k])
  }

  /** The swap loop of State::apply from iteration i on; returns the stack
      and the hash it leaves behind. */
  function SwapLoop(table: seq<seq<bv32>>, cakes: seq<nat>, hash: bv32, top: nat, i: nat): (r: (seq<nat>, bv32))
    requires HashTableOk(table) && InRange(cakes) && top < NUM_PANCAKES && i <= (top + 1) / 2
    ensures InRange(r.0)
    decreases (top + 1) / 2 - i
  {
    if i == (top + 1) / 2 then (cakes, hash)
    else
      var swapped := Swap(cakes, i, top - i);
      SwapLoop(table, swapped, IncrementHash(table, swapped, hash, i, top - i), top, i + 1)
  }

  /** The swap of iteration i extends the partial flip by one step. */
  lemma PartialFlipStep(cakes: seq<nat>, top: nat, i: nat)
    requires top < |cakes| && i < (top + 1) / 2
    ensures Swap(PartialFlip(cakes, top, i), i, top - i) == PartialFlip(cakes, top, i + 1)
  {
  }

  /** After (top + 1) / 2 swaps the partial flip is the whole flip. */
  lemma PartialFlipDone(cakes: seq<nat>, top: nat)
    requires top < |cakes|
    ensures PartialFlip(cakes, top, (top + 1) / 2) == Flip(cakes, top)
  {
  }

  lemma PartialFlipInRange(cakes: seq<nat>, top: nat, i: nat)
    requires InRange(cakes) && top < NUM_PANCAKES
    ensures InRange(PartialFlip(cakes, top, i))
  {
  }

  /** The loop started after i swaps of the flip finishes the flip, and keeps
      the hash equal to the from-scratch hash if it was on entry. */
  lemma {:induction false} SwapLoopFlips(table: seq<seq<bv32>>, cakes: seq<nat>, hash: bv32, top: nat, i: nat)
    requires HashTableOk(table) && InRange(cakes) && top < NUM_PANCAKES && i <= (top + 1) / 2
    ensures InRange(PartialFlip(cakes, top, i))
    ensures SwapLoop(table, PartialFlip(cakes, top, i), hash, top, i).0 == Flip(cakes, top)
    ensures hash == CalculateHash(table, PartialFlip(cakes, top, i)) ==>
              SwapLoop(table, PartialFlip(cakes, top, i), hash, top, i).1 == CalculateHash(table, Flip(cakes, top))
    decreases (top + 1) / 2 - i
  {
    PartialFlipInRange(cakes, top, i);
    if i == (top + 1) / 2 {
      PartialFlipDone(cakes, top);
    } else {
      var p := PartialFlip(cakes, top, i);
      PartialFlipStep(cakes, top, i);
      IncrementHashExact(table, p, i, top - i);
      SwapLoopFlips(table, cakes, IncrementHash(table, Swap(p, i, top - i), hash, i, top - i), top, i + 1);
    }
  }

  // ---------------------------------------------------------------------------
  // Gap heuristic

  function Abs(x: int): nat
  {
    if x < 0 then -x else x
  }

  /** 1 when two neighbouring pancakes are not consecutive sizes. */
  function Gap(x: int, y: int): int
  {
    if Abs(x - y) > 1 then 1 else 0
  }

  /** Term i compares position i with position i - 1, and position 0 with the plate. */
  function GapTerms(cakes: seq<nat>): seq<int>
  {
    seq(|cakes|, i requires 0 <= i < |cakes| => Gap(if i == 0 then NUM_PANCAKES else cakes[i - 1], cakes[i]))
  }

  /** Heuristic::calculateHeuristic: the number of gaps. */
  function CalculateHeuristic(cakes: seq<nat>): (h: int)
    ensures 0 <= h
  {
    SumNonNegative(GapTerms(cakes));
    Sum(GapTerms(cakes))
  }

  /** Heuristic::incrementHeuristic on the stack after flip `op`: only the
      plate-side pair and the pair just below the flipped part change. */
  function IncrementHeuristic(after: seq<nat>, op: nat, value: int): int
    requires op < |after| == NUM_PANCAKES
  {
    var v := value - Gap(after[op], NUM_PANCAKES) + Gap(after[0], NUM_PANCAKES);
    if op < NUM_PANCAKES - 1 then v + Gap(after[op], after[op + 1]) - Gap(after[0], after[op + 1])
    else v
  }

  lemma GoalHeuristicZero()
    ensures CalculateHeuristic(Goal().cakes) == 0
  {
    var terms := GapTerms(Goal().cakes);
    assert forall i :: 0 <= i < |terms| ==> terms[i] == 0;
    SumOfZeros(terms);
  }

  /** The gap count split at the flip boundary: the plate pair, the pairs
      inside the flipped part, and the pairs from the flip boundary down. */
  lemma GapSumSplit(cakes: seq<nat>, op: nat)
    requires |cakes| == NUM_PANCAKES && op < NUM_PANCAKES
    ensures CalculateHeuristic(cakes) == Gap(NUM_PANCAKES, cakes[0]) + Sum(GapTerms(cakes)[1..])
    ensures Sum(GapTerms(cakes)[1..]) == Sum(GapTerms(cakes)[1..op + 1]) + Sum(GapTerms(cakes)[op + 1..])
  {
    var t := GapTerms(cakes);
    assert t[1..] == t[1..op + 1] + t[op + 1..];
    SumConcat(t[1..op + 1], t[op + 1..]);
  }

  /** Inside the flipped part the pairs are the old pairs in mirror order. */
  lemma FlippedPairsMirror(cakes: seq<nat>, op: nat)
    requires |cakes| == NUM_PANCAKES && op < NUM_PANCAKES
    ensures Sum(GapTerms(Flip(cakes, op))[1..op + 1]) == Sum(GapTerms(cakes)[1..op + 1])
  {
    var a := GapTerms(Flip(cakes, op))[1..op + 1];
    var b := GapTerms(cakes)[1..op + 1];
    forall j | 0 <= j < |a|
      ensures a[j] == b[|b| - 1 - j]
    {
      assert a[j] == Gap(cakes[op - j], cakes[op - j - 1]);
      assert b[|b| - 1 - j] == Gap(cakes[op - j - 1], cakes[op - j]);
    }
    SumMirror(a, b);
  }

  /** Below the flipped part only the boundary pair changes. */
  lemma BoundaryPair(cakes: seq<nat>, op: nat)
    requires |cakes| == NUM_PANCAKES && op < NUM_PANCAKES
    ensures op + 1 < NUM_PANCAKES ==>
              Sum(GapTerms(Flip(cakes, op))[op + 1..]) ==
              Sum(GapTerms(cakes)[op + 1..]) - Gap(cakes[op], cakes[op + 1]) + Gap(cakes[0], cakes[op + 1])
    ensures op + 1 == NUM_PANCAKES ==> Sum(GapTerms(Flip(cakes, op))[op + 1..]) == Sum(GapTerms(cakes)[op + 1..])
  {
    var t := GapTerms(cakes)[op + 1..];
    var t' := GapTerms(Flip(cakes, op))[op + 1..];
    if op + 1 < NUM_PANCAKES {
      var g := Gap(cakes[0], cakes[op + 1]);
      assert t' == t[0 := g];
      SumUpdate(t, 0, g);
    } else {
      assert t == [] && t' == [];
    }
  }

  /** After a flip the incremental gap count equals the from-scratch one. */
  lemma IncrementHeuristicExact(cakes: seq<nat>, op: nat)
    requires |cakes| == NUM_PANCAKES && op < NUM_PANCAKES
    ensures IncrementHeuristic(Flip(cakes, op), op, CalculateHeuristic(cakes)) == CalculateHeuristic(Flip(cakes, op))
  {
    GapSumSplit(cakes, op);
    GapSumSplit(Flip(cakes, op), op);
    FlippedPairsMirror(cakes, op);
    BoundaryPair(cakes, op);
  }

  /** One flip away from the goal, the gap count as written is 2: the plate
      pair and the flip-boundary pair both open a gap. The count therefore
      overestimates the distance and changes by more than the move's cost. */
  lemma GapHeuristicOverestimates()
    ensures Flip(Flip(Goal().cakes, 1), 1) == Goal().cakes
    ensures CalculateHeuristic(Goal().cakes) == 0
    ensures CalculateHeuristic(Flip(Goal().cakes, 1)) == 2
  {
    GoalHeuristicZero();
    FlipInvolution(Goal().cakes, 1);
    GoalIsLiteral();
    FlipGoalLiteral();
    GapTermsLiteral();
    SumLiteral();
  }

  lemma SumLiteral()
    ensures Sum([1, 0, 1, 0, 0, 0, 0, 0]) == 2
  {
  }

  lemma GoalIsLiteral()
    ensures Goal().cakes == [7, 6, 5, 4, 3, 2, 1, 0]
  {
  }

  lemma FlipGoalLiteral()
    ensures Flip([7, 6, 5, 4, 3, 2, 1, 0], 1) == [6, 7, 5, 4, 3, 2, 1, 0]
  {
  }

  lemma GapTermsLiteral()
    ensures GapTerms([6, 7, 5, 4, 3, 2, 1, 0]) == [1, 0, 1, 0, 0, 0, 0, 0]
  {
  }

  /** The pancake one smaller than the smallest, standing for the plate at
      the fixed end of the stack (the end no flip moves). */
  const PLATE: int := -1

  /** The gap heuristic with the plate where flips cannot reach it: the
      neighbouring positions are compared, and the last position with the
      plate. This is the count the domain uses. */
  function StackGaps(cakes: seq<nat>): (h: int)
    requires 1 <= |cakes|
    ensures 0 <= h
    ensures h == CalculateHeuristic(cakes) - Gap(NUM_PANCAKES, cakes[0]) + Gap(cakes[|cakes| - 1], PLATE)
  {
    SumNonNegative(GapTerms(cakes)[1..]);
    assert GapTerms(cakes) == [GapTerms(cakes)[0]] + GapTerms(cakes)[1..];
    Sum(GapTerms(cakes)[1..]) + Gap(cakes[|cakes| - 1], PLATE)
  }

  /** The incremental update of StackGaps after flip `op`: only the pair at
      the flip boundary changes, the plate standing below a whole-stack flip. */
  function IncrementStackGaps(after: seq<nat>, op: nat, value: int): int
    requires op < |after| == NUM_PANCAKES
  {
    var below := if op < NUM_PANCAKES - 1 then after[op + 1] else PLATE;
    value + Gap(after[op], below) - Gap(after[0], below)
  }

  lemma IncrementStackGapsExact(cakes: seq<nat>, op: nat)
    requires |cakes| == NUM_PANCAKES && op < NUM_PANCAKES
    ensures IncrementStackGaps(Flip(cakes, op), op, StackGaps(cakes)) == StackGaps(Flip(cakes, op))
  {
    GapSumSplit(cakes, op);
    GapSumSplit(Flip(cakes, op), op);
    FlippedPairsMirror(cakes, op);
    BoundaryPair(cakes, op);
  }

  /** A flip changes StackGaps by at most one, the cost of the move. */
  lemma StackGapsConsistent(cakes: seq<nat>, op: nat)
    requires |cakes| == NUM_PANCAKES && op < NUM_PANCAKES
    ensures -1 <= StackGaps(Flip(cakes, op)) - StackGaps(cakes) <= 1
  {
    IncrementStackGapsExact(cakes, op);
  }

  lemma StackGapsGoalZero()
    ensures StackGaps(Goal().cakes) == 0
  {
    GoalHeuristicZero();
  }

  /** The stack after the flips `ops` in order. */
  function FlipAll(cakes: seq<nat>, ops: seq<nat>): (r: seq<nat>)
    requires forall i :: 0 <= i < |ops| ==> ops[i] < |cakes|
    ensures |r| == |cakes|
    decreases |ops|
  {
    if |ops| == 0 then cakes else FlipAll(Flip(cakes, ops[0]), ops[1..])
  }

  /** StackGaps never overestimates: a stack the flips `ops` bring to the
      goal has at most |ops| gaps. */
  lemma {:induction false} StackGapsAdmissible(cakes: seq<nat>, ops: seq<nat>)
    requires |cakes| == NUM_PANCAKES
    requires forall i :: 0 <= i < |ops| ==> ops[i] < NUM_PANCAKES
    requires FlipAll(cakes, ops) == Goal().cakes
    ensures StackGaps(cakes) <= |ops|
    decreases |ops|
  {
    if |ops| == 0 {
      StackGapsGoalZero();
    } else {
      StackGapsConsistent(cakes, ops[0]);
      StackGapsAdmissible(Flip(cakes, ops[0]), ops[1..]);
    }
  }

  // ---------------------------------------------------------------------------
  // Operators

  /** The operators i..7 in increasing order, leaving out `trans`. */
  function OpsFrom(i: nat, trans: int): (ops: seq<int>)
    requires i <= NUM_PANCAKES
    ensures forall op :: op in ops <==> i <= op < NUM_PANCAKES && op != trans
    ensures forall a, b :: 0 <= a < b < |ops| ==> ops[a] < ops[b]
    ensures |ops| == NUM_PANCAKES - i - (if i <= trans < NUM_PANCAKES then 1 else 0)
    decreases NUM_PANCAKES - i
  {
    if i == NUM_PANCAKES then []
    else
      var rest := OpsFrom(i + 1, trans);
      assert forall b :: 0 <= b < |rest| ==> rest[b] in rest;
      (if i != trans then [i] else []) + rest
  }

  /** OpLookupTable::_getValidOperators: flips 1..7 in order, leaving out
      reverse(prevOp), which is prevOp itself. */
  function ValidOperators(prevOp: int): (ops: seq<int>)
    ensures forall op :: op in ops <==> 1 <= op < NUM_PANCAKES && op != prevOp
    ensures forall a, b :: 0 <= a < b < |ops| ==> ops[a] < ops[b]
    ensures |ops| == if 1 <= prevOp < NUM_PANCAKES then NUM_PANCAKES - 2 else NUM_PANCAKES - 1
    ensures |ops| <= MAX_NUM_OPS
  {
    OpsFrom(NO_OP + 1, Reverse(prevOp))
  }

  /** The lookup table: one list per previous operator 0..MAX_NUM_OPS. */
  function OpTable(): (t: seq<seq<int>>)
    ensures |t| == MAX_NUM_OPS + 1
  {
    seq(MAX_NUM_OPS + 1, p => ValidOperators(p))
  }

  /** OpLookupTable::getValidOperators: the lookup agrees with the direct computation. */
  function GetValidOperators(prevOp: int): (ops: seq<int>)
    requires 0 <= prevOp <= MAX_NUM_OPS
    ensures ops == ValidOperators(prevOp)
  {
    OpTable()[prevOp]
  }

  /** What State::apply returns: the new stack, the updated hash and
      heuristic, and the move's cost. */
  datatype Applied = Applied(stack: Stack, hash: bv32, heuristic: int, cost: int)

  /** State::apply: the swap loop with its per-swap hash update, then the
      incremental heuristic (the corrected StackGaps), cost 1. */
  function Apply(table: seq<seq<bv32>>, s: Stack, hash: bv32, heuristic: int, op: int): (r: Applied)
    requires HashTableOk(table) && Valid(s) && LegalOp(op)
    ensures r.stack.cakes == Flip(s.cakes, op) && Valid(r.stack) && r.cost == 1
    ensures hash == CalculateHash(table, s.cakes) ==> r.hash == CalculateHash(table, r.stack.cakes)
    ensures heuristic == StackGaps(s.cakes) ==> r.heuristic == StackGaps(r.stack.cakes)
  {
    assert PartialFlip(s.cakes, op, 0) == s.cakes;
    SwapLoopFlips(table, s.cakes, hash, op, 0);
    FlipPreservesPermutation(s.cakes, op);
    IncrementStackGapsExact(s.cakes, op);
    var looped := SwapLoop(table, s.cakes, hash, op, 0);
    Applied(Stack(looped.0), looped.1, IncrementStackGaps(looped.0, op, heuristic), 1)
  }
}
