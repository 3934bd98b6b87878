/** The backward search that fills the perimeter database: a depth-first
    search from the goal under bounds 0, 1, ..., depth-1, storing every
    state it expands together with its distance from the goal. */
module Dfs {
  import opened Config
  import opened Domain
  import opened SearchStates
  import Pdb = PerimeterDb

  /** The slot records a real walk: some legal operator sequence leads from
      root to the slot's state at exactly the slot's cost. */
  ghost predicate Witnessed(env: Env, root: SearchState, e: Pdb.Entry)
    requires env.Ok() && Valid(env.cfg.domain, root.state)
  {
    exists ops :: LegalPath(env, root, ops) && Walk(env, root, ops).state == e.state && Walk(env, root, ops).cost == e.cost
  }

  /** Every filled slot of the database is witnessed by a walk from root. */
  ghost predicate Sound(env: Env, root: SearchState, t: Pdb.Table)
    requires env.Ok() && Valid(env.cfg.domain, root.state)
  {
    forall i :: 0 <= i < |t| && Pdb.Filled(t[i]) ==> Witnessed(env, root, t[i])
  }

  /** A freshly reset database is sound: it has no filled slot. */
  lemma ResetIsSound(env: Env, root: SearchState, junk: Pdb.Entry)
    requires env.Ok() && Valid(env.cfg.domain, root.state)
    ensures Sound(env, root, Pdb.Reset(env.cfg.domain, junk))
  {
  }

  /** Storing a state reached by a walk from root, at the walk's cost, keeps
      the database sound. */
  lemma PruneStateKeepsSound(env: Env, root: SearchState, cfg: Options, t: Pdb.Table, s: SearchState, iteration: int, trail: seq<int>)
    requires env.Ok() && Valid(env.cfg.domain, root.state) && Valid(env.cfg.domain, s.state)
    requires Pdb.Inv(env.cfg.domain, t) && Sound(env, root, t)
    requires LegalPath(env, root, trail) && Walk(env, root, trail).state == s.state && Walk(env, root, trail).cost == s.cost
    ensures Sound(env, root, Pdb.PruneState(cfg, t, s.state, s.hash, s.cost, iteration).table)
  {
    var i := Pdb.CalculateIndex(s.hash);
    var t' := Pdb.PruneState(cfg, t, s.state, s.hash, s.cost, iteration).table;
    var e := t[i];
    if Same(e.state, s.state) {
      if Pdb.Filled(e) {
        SameIsEquality(env.cfg.domain, e.state, s.state);
      } else {
        ValidIsNotZero(env.cfg.domain, s.state);
      }
    }
    if Pdb.Filled(t'[i]) && t'[i] != e {
      assert t'[i].state == s.state && t'[i].cost == s.cost;
      assert Witnessed(env, root, t'[i]);
    }
    forall j | 0 <= j < |t'| && Pdb.Filled(t'[j])
      ensures Witnessed(env, root, t'[j])
    {
      if j != i || t'[j] == e {
        assert t'[j] == t[j];
      }
    }
  }

  /** The payoff: a non-zero perimeter heuristic of a valid state is the
      length of a real walk between root and that state. */
  lemma HeuristicIsWalkLength(env: Env, root: SearchState, t: Pdb.Table, s: SearchState)
    requires env.Ok() && Valid(env.cfg.domain, root.state) && Valid(env.cfg.domain, s.state)
    requires Pdb.Inv(env.cfg.domain, t) && Sound(env, root, t)
    requires Pdb.GetHeuristic(t, s.state, s.hash) != 0
    ensures exists ops :: LegalPath(env, root, ops) && Walk(env, root, ops).state == s.state &&
                          Walk(env, root, ops).cost == Pdb.GetHeuristic(t, s.state, s.hash)
  {
    var e := t[Pdb.CalculateIndex(s.hash)];
    if !Pdb.Filled(e) {
      ValidIsNotZero(env.cfg.domain, s.state);
    }
    SameIsEquality(env.cfg.domain, e.state, s.state);
    assert Witnessed(env, root, e);
  }

  /** DFS::prune: over the bound prunes and leaves the database alone;
      otherwise the perimeter database (when enabled) decides. */
  function DfsPrune(cfg: Options, t: Pdb.Table, s: SearchState, costLimit: int, iteration: int): (r: Pdb.Verdict)
    requires |t| == PERIMETER_DB_SIZE
    ensures |r.table| == PERIMETER_DB_SIZE
    ensures s.cost > costLimit ==> r.prune && r.table == t
    ensures !cfg.usePerimeterDb ==> r.table == t && (r.prune <==> s.cost > costLimit)
    ensures cfg.usePerimeterDb && s.cost <= costLimit ==>
              r.table == Pdb.PruneState(cfg, t, s.state, s.hash, s.cost, iteration).table &&
              (r.prune <==> Same(t[Pdb.CalculateIndex(s.hash)].state, s.state) && t[Pdb.CalculateIndex(s.hash)].cost <= s.cost &&
                            !(cfg.lazyPerimeter && s.cost == t[Pdb.CalculateIndex(s.hash)].cost && iteration != t[Pdb.CalculateIndex(s.hash)].iteration))
  {
    if s.cost > costLimit then Pdb.Verdict(true, t)
    else if cfg.usePerimeterDb then Pdb.PruneState(cfg, t, s.state, s.hash, s.cost, iteration)
    else Pdb.Verdict(false, t)
  }

  /** Every filled slot holds a cost of at most bound. */
  predicate CostsAtMost(t: Pdb.Table, bound: int)
  {
    forall i :: 0 <= i < |t| && Pdb.Filled(t[i]) ==> t[i].cost <= bound
  }

  /** Storing at a cost within the bound keeps every stored cost within it. */
  lemma PruneStateCostsAtMost(cfg: Options, t: Pdb.Table, s: PuzzleState, hash: bv32, cost: int, iteration: int, bound: int)
    requires |t| == PERIMETER_DB_SIZE && CostsAtMost(t, bound) && cost <= bound
    ensures CostsAtMost(Pdb.PruneState(cfg, t, s, hash, cost, iteration).table, bound)
  {
    var i := Pdb.CalculateIndex(hash);
    var t' := Pdb.PruneState(cfg, t, s, hash, cost, iteration).table;
    forall j | 0 <= j < |t'| && Pdb.Filled(t'[j])
      ensures t'[j].cost <= bound
    {
      if j != i {
        assert t'[j] == t[j];
      }
    }
  }

  /** The precondition both recursive methods share: s is reached from
      root along trail, and the database is well-formed and sound. */
  ghost predicate OnTrail(env: Env, root: SearchState, t: Pdb.Table, s: SearchState, trail: seq<int>)
  {
    && Consistent(env, root) && 0 <= root.cost && Consistent(env, s)
    && LegalPath(env, root, trail) && SameNode(Walk(env, root, trail), s)
    && Pdb.Inv(env.cfg.domain, t) && Sound(env, root, t)
  }

  /** DFS::dfsRecursive: unless pruned, expand every predecessor of s under
      the bound. The ghost trail is the walk from root that reached s; it
      shows that everything stored is witnessed. Returns the node after
      (equal to s but for its previous operator) and the database after. */
  method DfsRecursive(env: Env, root: SearchState, t: Pdb.Table, s: SearchState, costLimit: int, iteration: int,
                      ghost trail: seq<int>, ghost bound: int)
    returns (s': SearchState, t': Pdb.Table)
    requires OnTrail(env, root, t, s, trail) && costLimit < MAX_COST
    requires costLimit <= bound && CostsAtMost(t, bound)
    ensures Consistent(env, s') && SameNode(s', s)
    ensures Pdb.Inv(env.cfg.domain, t') && Sound(env, root, t') && CostsAtMost(t', bound)
    ensures Pdb.KeepsFilled(t, t')
    ensures env.cfg.usePerimeterDb && s.cost <= costLimit ==> Pdb.Filled(t'[Pdb.CalculateIndex(s.hash)])
    ensures !env.cfg.usePerimeterDb ==> t' == t
    decreases costLimit - s.cost + 1, 1
  {
    var v := DfsPrune(env.cfg, t, s, costLimit, iteration);
    if env.cfg.usePerimeterDb && s.cost <= costLimit {
      Pdb.PruneStateKeepsInv(env.cfg.domain, env.cfg, t, s.state, s.hash, s.cost, iteration);
      PruneStateKeepsSound(env, root, env.cfg, t, s, iteration, trail);
      PruneStateCostsAtMost(env.cfg, t, s.state, s.hash, s.cost, iteration, bound);
      Pdb.PruneStateFills(env.cfg, t, s.state, s.hash, s.cost, iteration);
    }
    if v.prune {
      return s, v.table;
    }
    t' := v.table;
    var ops := PredecessorOps(env, s);
    s' := s;
    var i := 0;
    while i < |ops|
      invariant 0 <= i <= |ops|
      invariant Consistent(env, s') && SameNode(s', s)
      invariant Pdb.Inv(env.cfg.domain, t') && Sound(env, root, t') && CostsAtMost(t', bound)
      invariant Pdb.KeepsFilled(t, t')
      invariant env.cfg.usePerimeterDb ==> Pdb.Filled(t'[Pdb.CalculateIndex(s.hash)])
      invariant !env.cfg.usePerimeterDb ==> t' == t
    {
      s', t' := ExpandPredecessor(env, root, t', s, s', ops[i], costLimit, iteration, trail, bound);
      i := i + 1;
    }
  }

  /** One turn of dfsRecursive's loop: apply op, recurse, unapply. */
  method ExpandPredecessor(env: Env, root: SearchState, t: Pdb.Table, s: SearchState, cur: SearchState, op: int,
                           costLimit: int, iteration: int, ghost trail: seq<int>, ghost bound: int)
    returns (cur': SearchState, t': Pdb.Table)
    requires OnTrail(env, root, t, s, trail) && costLimit < MAX_COST && s.cost <= costLimit
    requires costLimit <= bound && CostsAtMost(t, bound)
    requires Consistent(env, cur) && SameNode(cur, s) && LegalOp(s.state, op)
    ensures Consistent(env, cur') && SameNode(cur', s)
    ensures Pdb.Inv(env.cfg.domain, t') && Sound(env, root, t') && CostsAtMost(t', bound)
    ensures Pdb.KeepsFilled(t, t')
    ensures !env.cfg.usePerimeterDb ==> t' == t
    decreases costLimit - s.cost + 1, 0
  {
    var child := SearchStates.Apply(env, cur, op);
    WalkAppend(env, root, trail, op);
    ApplyIgnoresPrevOp(env, Walk(env, root, trail), cur, op);
    var back;
    back, t' := DfsRecursive(env, root, t, child, costLimit, iteration, trail + [op], bound);
    ApplyIgnoresPrevOp(env, cur, s, op);
    RoundTrip(env, s, op);
    cur' := Unapply(env, back, op);
  }

  /** DFS::search: fill the database from the goal under the bounds
      0, 1, ..., depth-1, each bound being its own iteration number. The
      database stays well-formed and sound with respect to the goal, and
      nothing is stored at a cost of depth or more. Every slot filled before
      stays filled, and the goal's own slot is filled once a pass reaches
      the goal's cost. */
  method DfsSearch(env: Env, t: Pdb.Table, goal: SearchState, depth: int) returns (t': Pdb.Table)
    requires Consistent(env, goal) && 0 <= goal.cost && depth <= MAX_COST
    requires Pdb.Inv(env.cfg.domain, t) && Sound(env, goal, t) && CostsAtMost(t, depth - 1)
    ensures Pdb.Inv(env.cfg.domain, t') && Sound(env, goal, t') && CostsAtMost(t', depth - 1)
    ensures Pdb.KeepsFilled(t, t')
    ensures env.cfg.usePerimeterDb && goal.cost < depth ==> Pdb.Filled(t'[Pdb.CalculateIndex(goal.hash)])
    ensures !env.cfg.usePerimeterDb ==> t' == t
  {
    t' := t;
    var d := 0;
    while d < depth
      invariant Pdb.Inv(env.cfg.domain, t') && Sound(env, goal, t') && CostsAtMost(t', depth - 1)
      invariant Pdb.KeepsFilled(t, t')
      invariant env.cfg.usePerimeterDb && goal.cost < d ==> Pdb.Filled(t'[Pdb.CalculateIndex(goal.hash)])
      invariant !env.cfg.usePerimeterDb ==> t' == t
    {
      var s';
      s', t' := DfsRecursive(env, goal, t', goal, d, d, [], depth - 1);
      d := d + 1;
    }
  }
}
