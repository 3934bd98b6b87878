/** IDA*: iterative deepening on the cost bound, a depth-first search per
    bound that cuts off nodes whose cost plus heuristic exceeds it. The
    heuristic is the largest of the enabled sources (incremental heuristic,
    perimeter database, cached value); BPMX passes heuristic floors between
    parent and children; the transposition table prunes transpositions. */
module Ida {
  import opened Config
  import opened Domain
  import opened SearchStates
  import TT = TransTable
  import Pdb = PerimeterDb

  /** PruneStatus of the source. */
  datatype PruneStatus = NeedsExpansion | PrunedByCost | PrunedByTT

  /** NodeStatus of the source: the result of one recursive call. */
  datatype NodeStatus = FoundSolution | AllChildrenInTT | NodeInTT | SomeChildrenLeaf

  /** What the IDA object holds across one search besides its
      transposition table: the shared environment, the (read-only) perimeter
      database and the goal. */
  datatype Context = Context(env: Env, pdb: Pdb.Table, goal: SearchState)
  {
    predicate Ok()
    {
      env.Ok() && |pdb| == PERIMETER_DB_SIZE
    }
  }

  /** The result of prune: the verdict and the transposition table after. */
  datatype Pruned = Pruned(status: PruneStatus, table: TT.Table)

  function Max(a: int, b: int): (m: int)
    ensures a <= m && b <= m && (m == a || m == b)
  {
    if a < b then b else a
  }

  /** The BPMX step at the head of idaRecursive: the node's heuristic is
      raised to the inherited floor minus one, and the caller's floor to the
      node's heuristic minus one. Returns (node heuristic, caller floor). */
  function Bpmx(heuristic: int, prevHeur: int): (r: (int, int))
    ensures heuristic <= r.0 && prevHeur - 1 <= r.0
    ensures r.0 == heuristic || r.0 == prevHeur - 1
    ensures prevHeur <= r.1 && r.0 - 1 <= r.1
    ensures r.1 == prevHeur || r.1 == r.0 - 1
  {
    var h := Max(prevHeur - 1, heuristic);
    (h, Max(prevHeur, h - 1))
  }

  /** ops is a legal path from s to a state equal to the goal, within the bound. */
  predicate Reaches(env: Env, s: SearchState, ops: seq<int>, goal: SearchState, costLimit: int)
    requires env.Ok() && Valid(env.cfg.domain, s.state)
  {
    LegalPath(env, s, ops) && Eq(Walk(env, s, ops), goal) && s.cost + |ops| <= costLimit
  }

  /** IDA::getHeuristic: the largest value among the enabled sources, and 0
      when none is enabled. */
  function GetHeuristic(ctx: Context, tt: TT.Table, s: SearchState): (h: int)
    requires ctx.Ok() && Consistent(ctx.env, s) && |tt| == TT_SIZE
    ensures 0 <= h
    ensures ctx.env.cfg.useHeuristic ==> s.heuristic <= h
    ensures ctx.env.cfg.usePerimeterDb ==> Pdb.GetHeuristic(ctx.pdb, s.state, s.hash) <= h
    ensures ctx.env.cfg.useTransTable ==> TT.GetCachedHeuristic(ctx.env.cfg, tt, s.state, s.hash) <= h
    ensures || h == 0
            || (ctx.env.cfg.useHeuristic && h == s.heuristic)
            || (ctx.env.cfg.usePerimeterDb && h == Pdb.GetHeuristic(ctx.pdb, s.state, s.hash))
            || (ctx.env.cfg.useTransTable && h == TT.GetCachedHeuristic(ctx.env.cfg, tt, s.state, s.hash))
  {
    var cfg := ctx.env.cfg;
    var base := if cfg.useHeuristic then s.heuristic else 0;
    var withPdb := if cfg.usePerimeterDb then Max(base, Pdb.GetHeuristic(ctx.pdb, s.state, s.hash)) else base;
    if cfg.useTransTable then Max(withPdb, TT.GetCachedHeuristic(cfg, tt, s.state, s.hash)) else withPdb
  }

  /** IDA::checkHeuristic: with a caching transposition table, raise the
      cached heuristic of s to at least heur; otherwise nothing happens. */
  function CheckHeuristic(cfg: Options, tt: TT.Table, s: SearchState, heur: int): (r: TT.Table)
    requires |tt| == TT_SIZE
    ensures |r| == TT_SIZE
    ensures !(cfg.useTransTable && cfg.ttHeurCaching) ==> r == tt
    ensures forall j :: 0 <= j < TT_SIZE && j != TT.CalculateIndex(s.hash) ==> r[j] == tt[j]
    ensures TT.GetCachedHeuristic(cfg, tt, s.state, s.hash) <= TT.GetCachedHeuristic(cfg, r, s.state, s.hash)
    ensures cfg.useTransTable && cfg.ttHeurCaching && Same(tt[TT.CalculateIndex(s.hash)].state, s.state) ==>
              heur <= TT.GetCachedHeuristic(cfg, r, s.state, s.hash)
  {
    if cfg.useTransTable && cfg.ttHeurCaching then TT.UpdateCachedHeuristic(cfg, tt, s.state, s.hash, heur) else tt
  }

  /** IDA::prune: over the bound is a cost cut-off and leaves the table
      alone; otherwise the transposition table (when enabled) decides. */
  function Prune(cfg: Options, tt: TT.Table, s: SearchState, costLimit: int, heur: int): (r: Pruned)
    requires |tt| == TT_SIZE
    ensures |r.table| == TT_SIZE
    ensures r.status == PrunedByCost <==> s.cost + heur > costLimit
    ensures r.status == PrunedByCost ==> r.table == tt
    ensures !cfg.useTransTable ==> r.table == tt && r.status != PrunedByTT
    ensures r.status == PrunedByTT ==>
              Same(tt[TT.CalculateIndex(s.hash)].state, s.state) && tt[TT.CalculateIndex(s.hash)].cost <= s.cost
    ensures cfg.useTransTable && s.cost + heur <= costLimit ==>
              r.table == TT.PruneState(cfg, tt, s.state, s.hash, heur, s.cost, costLimit).table &&
              (r.status == PrunedByTT <==> TT.PruneState(cfg, tt, s.state, s.hash, heur, s.cost, costLimit).prune)
  {
    if s.cost + heur > costLimit then Pruned(PrunedByCost, tt)
    else if cfg.useTransTable then
      var v := TT.PruneState(cfg, tt, s.state, s.hash, heur, s.cost, costLimit);
      Pruned(if v.prune then PrunedByTT else NeedsExpansion, v.table)
    else Pruned(NeedsExpansion, tt)
  }

  /** One child's contribution to a solution path: the operator in front
      of a path from the child. */
  lemma ExtendSolution(env: Env, s: SearchState, cur: SearchState, op: int, ops: seq<int>, goal: SearchState, costLimit: int)
    requires env.Ok() && Valid(env.cfg.domain, s.state) && LegalOp(s.state, op) && SameNode(cur, s)
    requires Reaches(env, SearchStates.Apply(env, cur, op), ops, goal, costLimit)
    ensures Reaches(env, s, [op] + ops, goal, costLimit)
  {
    ApplyIgnoresPrevOp(env, cur, s, op);
    WalkCons(env, s, op, ops);
  }

  /** Unapplying after the child's call brings the node back: the child
      call returns a node equal to the child but for its previous operator. */
  lemma UnapplyRestores(env: Env, s: SearchState, cur: SearchState, op: int, back: SearchState)
    requires Consistent(env, s) && Consistent(env, cur) && SameNode(cur, s) && LegalOp(s.state, op)
    requires Consistent(env, back) && SameNode(back, SearchStates.Apply(env, cur, op))
    ensures LegalOp(back.state, Reverse(env.cfg.domain, op))
    ensures SameNode(Unapply(env, back, op), s)
  {
    ApplyIgnoresPrevOp(env, cur, s, op);
    RoundTrip(env, s, op);
  }

  /** The head of idaRecursive, up to the pruning decision: the node's
      heuristic, BPMX against the caller's floor, the cache update, and
      prune. Returns the verdict, the node heuristic, the caller's floor
      and the transposition table after. */
  method Examine(ctx: Context, s: SearchState, costLimit: int, prevHeur: int, tt: TT.Table)
    returns (status: PruneStatus, heuristic: int, ph: int, table: TT.Table)
    requires ctx.Ok() && Consistent(ctx.env, s) && |tt| == TT_SIZE
    ensures |table| == TT_SIZE
    ensures GetHeuristic(ctx, tt, s) <= heuristic
    ensures status == PrunedByCost <==> s.cost + heuristic > costLimit
    ensures prevHeur <= ph
    ensures ctx.env.cfg.useBpmx ==> heuristic == Max(prevHeur - 1, GetHeuristic(ctx, tt, s)) && ph == Max(prevHeur, heuristic - 1)
    ensures !ctx.env.cfg.useBpmx ==> heuristic == GetHeuristic(ctx, tt, s) && ph == prevHeur
    ensures !ctx.env.cfg.useTransTable ==> table == tt && status != PrunedByTT
    ensures ctx.env.cfg.useTransTable && s.cost + heuristic <= costLimit ==>
              var cached := CheckHeuristic(ctx.env.cfg, tt, s, heuristic);
              var v := TT.PruneState(ctx.env.cfg, cached, s.state, s.hash, heuristic, s.cost, costLimit);
              table == v.table && (status == PrunedByTT <==> v.prune)
    ensures status == PrunedByTT ==>
              Same(table[TT.CalculateIndex(s.hash)].state, s.state) && table[TT.CalculateIndex(s.hash)].cost <= s.cost
  {
    var cfg := ctx.env.cfg;
    heuristic := GetHeuristic(ctx, tt, s);
    ph := prevHeur;
    if cfg.useBpmx {
      var b := Bpmx(heuristic, ph);
      heuristic, ph := b.0, b.1;
    }
    table := CheckHeuristic(cfg, tt, s, heuristic);
    var pr := Prune(cfg, table, s, costLimit, heuristic);
    status, table := pr.status, pr.table;
  }

  /** IDA::idaRecursive on the node s under the bound costLimit. It returns
      the status, the node after (equal to s but for the previous operator),
      the caller's heuristic floor after BPMX, the transposition table
      after, and, when a solution is found, the operators from s to the goal. */
  method IdaRecursive(ctx: Context, s: SearchState, costLimit: int, prevHeur: int, tt: TT.Table)
    returns (status: NodeStatus, s': SearchState, prevHeur': int, tt': TT.Table, path: seq<int>)
    requires ctx.Ok() && Consistent(ctx.env, s) && |tt| == TT_SIZE
    ensures Consistent(ctx.env, s') && SameNode(s', s)
    ensures |tt'| == TT_SIZE
    ensures prevHeur <= prevHeur'
    ensures ctx.env.cfg.useBpmx ==> GetHeuristic(ctx, tt, s) - 1 <= prevHeur'
    ensures !ctx.env.cfg.useBpmx ==> prevHeur' == prevHeur
    ensures status == FoundSolution ==> Reaches(ctx.env, s, path, ctx.goal, costLimit)
    ensures status == NodeInTT || status == AllChildrenInTT ==> ctx.env.cfg.useTransTable
    ensures !ctx.env.cfg.useTransTable ==> tt' == tt
    decreases costLimit - s.cost + 1, 1
  {
    var cfg := ctx.env.cfg;
    var h0 := GetHeuristic(ctx, tt, s);
    var pruneStatus, heuristic, ph, table := Examine(ctx, s, costLimit, prevHeur, tt);
    if pruneStatus == PrunedByTT {
      return NodeInTT, s, ph, table, [];
    } else if pruneStatus == PrunedByCost {
      return SomeChildrenLeaf, s, ph, table, [];
    }

    if Eq(s, ctx.goal) {
      return FoundSolution, s, ph, table, [];
    }

    var childrenStatus := AllChildrenInTT;
    var ops := SuccessorOps(ctx.env, s);
    var cur := s;
    var i := 0;
    while i < |ops|
      invariant 0 <= i <= |ops|
      invariant Consistent(ctx.env, cur) && SameNode(cur, s)
      invariant |table| == TT_SIZE
      invariant prevHeur <= ph && (cfg.useBpmx ==> h0 - 1 <= ph) && (!cfg.useBpmx ==> ph == prevHeur)
      invariant childrenStatus == AllChildrenInTT || childrenStatus == SomeChildrenLeaf
      invariant !cfg.useTransTable ==> table == tt && (0 < i ==> childrenStatus == SomeChildrenLeaf)
    {
      var st, p;
      st, cur, heuristic, table, p := ExpandChild(ctx, s, cur, ops[i], costLimit, heuristic, table);
      if st == FoundSolution {
        return FoundSolution, cur, ph, table, p;
      } else if st == SomeChildrenLeaf {
        childrenStatus := SomeChildrenLeaf;
      }
      table := CheckHeuristic(cfg, table, cur, heuristic);
      if cfg.useBpmx && cur.cost + heuristic > costLimit {
        ph := Max(ph, heuristic - 1);
        return SomeChildrenLeaf, cur, ph, table, [];
      }
      i := i + 1;
    }
    return childrenStatus, cur, ph, table, [];
  }

  /** One turn of idaRecursive's loop up to the status test: apply op to
      the node, recurse with the node's heuristic as the child's floor, and
      unapply. The path returned on success starts with op. */
  method ExpandChild(ctx: Context, s: SearchState, cur: SearchState, op: int, costLimit: int, heuristic: int, tt: TT.Table)
    returns (status: NodeStatus, cur': SearchState, heuristic': int, tt': TT.Table, path: seq<int>)
    requires ctx.Ok() && Consistent(ctx.env, s) && Consistent(ctx.env, cur) && SameNode(cur, s)
    requires LegalOp(s.state, op) && s.cost <= costLimit && |tt| == TT_SIZE
    ensures Consistent(ctx.env, cur') && SameNode(cur', s)
    ensures |tt'| == TT_SIZE
    ensures heuristic <= heuristic'
    ensures !ctx.env.cfg.useBpmx ==> heuristic' == heuristic
    ensures status == FoundSolution ==> Reaches(ctx.env, s, path, ctx.goal, costLimit)
    ensures status == NodeInTT || status == AllChildrenInTT ==> ctx.env.cfg.useTransTable
    ensures !ctx.env.cfg.useTransTable ==> tt' == tt
    decreases costLimit - s.cost + 1, 0
  {
    var child := SearchStates.Apply(ctx.env, cur, op);
    var back, p;
    status, back, heuristic', tt', p := IdaRecursive(ctx, child, costLimit, heuristic, tt);
    UnapplyRestores(ctx.env, s, cur, op, back);
    cur' := Unapply(ctx.env, back, op);
    path := [];
    if status == FoundSolution {
      ExtendSolution(ctx.env, s, cur, op, p, ctx.goal, costLimit);
      path := [op] + p;
    }
  }

  /** IDA::search: raise the bound 1, 2, ... up to MAX_COST, searching from
      start each time, until the goal is found. Returns the bound the goal
      was found under and the path found, or -1. The transposition table is
      reset once (lazy) or before every iteration (not lazy); junk stands for
      the uninitialised fields of a reset slot. Without a transposition
      table tt0 is carried along unread. */
  method Search(env: Env, pdb: Pdb.Table, start: SearchState, goal: SearchState, tt0: TT.Table, junk: TT.Entry)
    returns (depth: int, path: seq<int>)
    requires env.Ok() && |pdb| == PERIMETER_DB_SIZE && Consistent(env, start) && |tt0| == TT_SIZE
    ensures depth == -1 || (1 <= depth <= MAX_COST && Reaches(env, start, path, goal, depth))
  {
    var ctx := Context(env, pdb, goal);
    depth := 0;
    path := [];
    var status := SomeChildrenLeaf;
    var tt := if env.cfg.useTransTable then TT.Reset(env.cfg.lazyTransTable, junk) else tt0;
    while status != FoundSolution && depth < MAX_COST
      invariant 0 <= depth <= MAX_COST && |tt| == TT_SIZE
      invariant status == FoundSolution ==> 1 <= depth && Reaches(env, start, path, goal, depth)
    {
      depth := depth + 1;
      if env.cfg.useTransTable && !env.cfg.lazyTransTable {
        tt := TT.Reset(env.cfg.lazyTransTable, junk);
      }
      var s', h';
      status, s', h', tt, path := IdaRecursive(ctx, start, depth, 0, tt);
    }
    if status != FoundSolution {
      depth := -1;
    }
  }
}
