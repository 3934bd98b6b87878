/** SearchState: a puzzle state together with the path cost that reached
    it, the operator that produced it, and its incrementally maintained
    heuristic and hash. apply/unapply move along an edge and back. */
module SearchStates {
  import opened Config
  import opened Seqs
  import opened Domain

  /** What every search shares: the configuration and the hash table. */
  datatype Env = Env(cfg: Options, table: HashTable)
  {
    predicate Ok()
    {
      TableOk(cfg.domain, table)
    }
  }

  datatype SearchState = SearchState(state: PuzzleState, cost: int, prevOp: int, heuristic: int, hash: bv32)

  /** The invariant every search state keeps: a valid state of the compiled
      domain, a previous operator the lookup table has a row for, and hash
      and heuristic exactly the from-scratch values. */
  predicate Consistent(env: Env, s: SearchState)
  {
    && env.Ok()
    && Valid(env.cfg.domain, s.state)
    && OpInRange(env.cfg.domain, s.prevOp)
    && s.hash == Hash(env.cfg.domain, env.table, s.state)
    && s.heuristic == Heuristic(s.state)
  }

  /** Equal in everything but the previous operator, which unapply does not restore. */
  predicate SameNode(a: SearchState, b: SearchState)
  {
    a.state == b.state && a.cost == b.cost && a.heuristic == b.heuristic && a.hash == b.hash
  }

  /** SearchState::_init (and init) on a state already in place: cost 0,
      no previous operator, hash and heuristic from scratch. */
  function Init(env: Env, st: PuzzleState): (s: SearchState)
    requires env.Ok() && Valid(env.cfg.domain, st)
    ensures Consistent(env, s)
    ensures s.state == st && s.cost == 0 && s.prevOp == NO_OP
  {
    SearchState(st, 0, NO_OP, Heuristic(st), Hash(env.cfg.domain, env.table, st))
  }

  /** The SearchState constructor: the goal state, initialised. */
  function Fresh(env: Env): (s: SearchState)
    requires env.Ok()
    ensures Consistent(env, s) && s.state == Goal(env.cfg.domain) && s.cost == 0
  {
    Init(env, Goal(env.cfg.domain))
  }

  /** SearchState::load: read the state from the values of one line, then initialise. */
  function Load(env: Env, values: seq<nat>, before: SearchState): (s: SearchState)
    requires env.Ok() && |values| == Size(env.cfg.domain)
    requires IsPermutation(values, Size(env.cfg.domain)) && 0 in values
    ensures Consistent(env, s) && s.cost == 0 && s.prevOp == NO_OP
    ensures s.state == Domain.Load(env.cfg.domain, values, before.state)
  {
    Init(env, Domain.Load(env.cfg.domain, values, before.state))
  }

  /** SearchState::operator==: hashes equal (a shortcut) and states equal. */
  predicate Eq(a: SearchState, b: SearchState)
  {
    a.hash == b.hash && Same(a.state, b.state)
  }

  /** On consistent search states the comparison is exactly state equality. */
  lemma EqIsStateEquality(env: Env, a: SearchState, b: SearchState)
    requires Consistent(env, a) && Consistent(env, b)
    ensures Eq(a, b) <==> a.state == b.state
  {
    SameIsEquality(env.cfg.domain, a.state, b.state);
  }

  /** SearchState::apply: take the edge op, add its cost, remember op. */
  function Apply(env: Env, s: SearchState, op: int): (r: SearchState)
    requires env.Ok() && Valid(env.cfg.domain, s.state) && LegalOp(s.state, op)
    ensures r.state == Successor(env.cfg.domain, s.state, op)
    ensures r.cost == s.cost + 1 && r.prevOp == op
    ensures Consistent(env, s) ==> Consistent(env, r)
  {
    var a := Domain.Apply(env.cfg.domain, env.table, s.state, s.hash, s.heuristic, op);
    SearchState(a.state, s.cost + a.cost, op, a.heuristic, a.hash)
  }

  /** SearchState::unapply: take the edge reverse(op) and subtract its cost;
      the previous operator becomes reverse(op). */
  function Unapply(env: Env, s: SearchState, op: int): (r: SearchState)
    requires env.Ok() && Valid(env.cfg.domain, s.state) && LegalOp(s.state, Reverse(env.cfg.domain, op))
    ensures r.state == Successor(env.cfg.domain, s.state, Reverse(env.cfg.domain, op))
    ensures r.cost == s.cost - 1 && r.prevOp == Reverse(env.cfg.domain, op)
    ensures Consistent(env, s) ==> Consistent(env, r)
  {
    var a := Domain.Apply(env.cfg.domain, env.table, s.state, s.hash, s.heuristic, Reverse(env.cfg.domain, op));
    SearchState(a.state, s.cost - a.cost, Reverse(env.cfg.domain, op), a.heuristic, a.hash)
  }

  /** apply followed by unapply restores state, cost, hash and heuristic;
      only the previous operator differs. */
  lemma RoundTrip(env: Env, s: SearchState, op: int)
    requires Consistent(env, s) && LegalOp(s.state, op)
    ensures LegalOp(Apply(env, s, op).state, Reverse(env.cfg.domain, op))
    ensures SameNode(Unapply(env, Apply(env, s, op), op), s)
    ensures Unapply(env, Apply(env, s, op), op).prevOp == Reverse(env.cfg.domain, op)
  {
    ReverseUndoes(env.cfg.domain, s.state, op);
  }

  /** findSuccessorOperators: the operators to try from s. */
  function SuccessorOps(env: Env, s: SearchState): (ops: seq<int>)
    requires Consistent(env, s)
    ensures 1 <= |ops|
    ensures forall op :: op in ops ==> LegalOp(s.state, op) && op != NO_OP
    ensures env.cfg.skipReverseOp ==> Reverse(env.cfg.domain, s.prevOp) !in ops
  {
    SuccessorOperators(env.cfg.domain, s.state, env.cfg.skipReverseOp, s.prevOp)
  }

  /** findPredecessorOperators: every domain here has reversible operators,
      so the predecessor list is the successor list. */
  function PredecessorOps(env: Env, s: SearchState): (ops: seq<int>)
    requires Consistent(env, s)
    ensures ops == SuccessorOps(env, s)
  {
    SuccessorOperators(env.cfg.domain, s.state, env.cfg.skipReverseOp, s.prevOp)
  }

  // ---------------------------------------------------------------------------
  // Walks along operator sequences

  /** Every operator of ops is legal where it is applied. */
  predicate LegalPath(env: Env, s: SearchState, ops: seq<int>)
    requires env.Ok() && Valid(env.cfg.domain, s.state)
    decreases |ops|
  {
    |ops| == 0 || (LegalOp(s.state, ops[0]) && LegalPath(env, Apply(env, s, ops[0]), ops[1..]))
  }

  /** The search state reached by applying ops in order. */
  function Walk(env: Env, s: SearchState, ops: seq<int>): (r: SearchState)
    requires env.Ok() && Valid(env.cfg.domain, s.state) && LegalPath(env, s, ops)
    ensures Valid(env.cfg.domain, r.state)
    ensures r.cost == s.cost + |ops|
    ensures Consistent(env, s) ==> Consistent(env, r)
    decreases |ops|
  {
    if |ops| == 0 then s else Walk(env, Apply(env, s, ops[0]), ops[1..])
  }

  /** Extending a legal walk by one legal operator. */
  lemma {:induction false} WalkAppend(env: Env, s: SearchState, ops: seq<int>, op: int)
    requires env.Ok() && Valid(env.cfg.domain, s.state) && LegalPath(env, s, ops)
    requires LegalOp(Walk(env, s, ops).state, op)
    ensures LegalPath(env, s, ops + [op])
    ensures Walk(env, s, ops + [op]) == Apply(env, Walk(env, s, ops), op)
    decreases |ops|
  {
    if |ops| == 0 {
      assert ops + [op] == [op];
      assert [op][1..] == [];
    } else {
      SnocTail(ops, op);
      WalkAppend(env, Apply(env, s, ops[0]), ops[1..], op);
    }
  }

  /** The walk of a single step followed by a walk. */
  lemma WalkCons(env: Env, s: SearchState, op: int, ops: seq<int>)
    requires env.Ok() && Valid(env.cfg.domain, s.state) && LegalOp(s.state, op)
    requires LegalPath(env, Apply(env, s, op), ops)
    ensures LegalPath(env, s, [op] + ops)
    ensures Walk(env, s, [op] + ops) == Walk(env, Apply(env, s, op), ops)
  {
    assert ([op] + ops)[1..] == ops;
  }

  /** Applying an operator ignores the previous operator. */
  lemma ApplyIgnoresPrevOp(env: Env, a: SearchState, b: SearchState, op: int)
    requires env.Ok() && Valid(env.cfg.domain, a.state) && LegalOp(a.state, op)
    requires SameNode(a, b)
    ensures Apply(env, a, op) == Apply(env, b, op)
  {
  }

  // ---------------------------------------------------------------------------
  // randomize

  /** The operator randomize picks from w when rand() returns roll: entry
      (roll mod length) of the predecessor list. */
  function Draw(env: Env, w: SearchState, roll: nat): (op: int)
    requires Consistent(env, w)
    ensures op in PredecessorOps(env, w)
    ensures LegalOp(w.state, op)
  {
    var list := PredecessorOps(env, w);
    list[roll % |list|]
  }

  /** A legal first operator in front of a legal path from its successor. */
  function PathCons(env: Env, s: SearchState, op: int, rest: seq<int>): (ops: seq<int>)
    requires env.Ok() && Valid(env.cfg.domain, s.state) && LegalOp(s.state, op)
    requires LegalPath(env, Apply(env, s, op), rest)
    ensures |ops| == |rest| + 1
    ensures LegalPath(env, s, ops)
  {
    WalkCons(env, s, op, rest);
    [op] + rest
  }

  /** The operators randomize picks when rand() returns the values of rolls. */
  function DrawOps(env: Env, s: SearchState, rolls: seq<nat>): (ops: seq<int>)
    requires Consistent(env, s)
    ensures |ops| == |rolls|
    ensures LegalPath(env, s, ops)
    decreases |rolls|
  {
    if |rolls| == 0 then []
    else
      var op := Draw(env, s, rolls[0]);
      PathCons(env, s, op, DrawOps(env, Apply(env, s, op), rolls[1..]))
  }

  /** The first roll draws the first operator; the rest draw from its successor. */
  lemma DrawOpsUnfold(env: Env, s: SearchState, rolls: seq<nat>)
    requires Consistent(env, s) && 0 < |rolls|
    ensures DrawOps(env, s, rolls) ==
            [Draw(env, s, rolls[0])] + DrawOps(env, Apply(env, s, Draw(env, s, rolls[0])), rolls[1..])
  {
  }

  /** One more roll draws one more operator, from the state the earlier ones reach. */
  lemma {:induction false} DrawOpsSnoc(env: Env, s: SearchState, rolls: seq<nat>, roll: nat)
    requires Consistent(env, s)
    ensures DrawOps(env, s, rolls + [roll]) ==
            DrawOps(env, s, rolls) + [Draw(env, Walk(env, s, DrawOps(env, s, rolls)), roll)]
    decreases |rolls|
  {
    if |rolls| == 0 {
      assert rolls + [roll] == [roll];
      DrawOpsUnfold(env, s, [roll]);
    } else {
      var op := Draw(env, s, rolls[0]);
      var s1 := Apply(env, s, op);
      var tail := DrawOps(env, s1, rolls[1..]);
      SnocTail(rolls, roll);
      DrawOpsUnfold(env, s, rolls + [roll]);
      DrawOpsUnfold(env, s, rolls);
      DrawOpsSnoc(env, s1, rolls[1..], roll);
      WalkCons(env, s, op, tail);
      ConsSnoc(op, tail, Draw(env, Walk(env, s1, tail), roll));
    }
  }

  /** One iteration of randomize extends the walk by the drawn operator. */
  lemma RandomizeStep(env: Env, s: SearchState, rolls: seq<nat>, i: nat)
    requires Consistent(env, s) && i < |rolls|
    ensures var w := Walk(env, s, DrawOps(env, s, rolls[..i]));
            Walk(env, s, DrawOps(env, s, rolls[..i + 1])) == Apply(env, w, Draw(env, w, rolls[i]))
  {
    var ops := DrawOps(env, s, rolls[..i]);
    var w := Walk(env, s, ops);
    var op := Draw(env, w, rolls[i]);
    TakeSnoc(rolls, i);
    DrawOpsSnoc(env, s, rolls[..i], rolls[i]);
    WalkAppend(env, s, ops, op);
  }

  /** SearchState::randomize: numRandOps times (none if negative), apply a
      predecessor operator chosen by the next value of rand(); rolls stands
      for those values. The result is the walk along the drawn operators, so
      by Walk's contract it is consistent and its cost grew by the count. */
  method Randomize(env: Env, s: SearchState, numRandOps: int, rolls: seq<nat>) returns (r: SearchState)
    requires Consistent(env, s) && numRandOps <= |rolls|
    ensures r == Walk(env, s, DrawOps(env, s, rolls[..if numRandOps < 0 then 0 else numRandOps]))
  {
    var n := if numRandOps < 0 then 0 else numRandOps;
    r := s;
    var i := 0;
    assert rolls[..0] == [];
    while i < n
      invariant 0 <= i <= n
      invariant r == Walk(env, s, DrawOps(env, s, rolls[..i]))
    {
      RandomizeStep(env, s, rolls, i);
      r := Apply(env, r, Draw(env, r, rolls[i]));
      i := i + 1;
    }
  }
}
