/** The transposition table: a fixed array of TT_SIZE slots indexed by
    hash mod TT_SIZE, one state per slot. A slot whose cost is MAX_COST is
    empty. It prunes re-expansions of a state already reached at no greater
    cost, caches the best heuristic seen per state, and on a collision keeps
    the resident unless prioritisation lets the newcomer displace it. */
module TransTable {
  import opened Config
  import opened Domain
  import Priority

  /** One slot: the state, its best known cost, its cached heuristic, the
      cost limit of the iteration that last stored it, and its priority. */
  datatype Entry = Entry(state: PuzzleState, cost: int, heuristic: int, costLimit: int, priority: nat)

  type Table = seq<Entry>

  /** The outcome of updateEntry: whether the node must be expanded, and the slot after. */
  datatype Updated = Updated(expand: bool, entry: Entry)

  /** The outcome of pruneState: whether to prune, and the table after. */
  datatype Verdict = Verdict(prune: bool, table: Table)

  predicate Filled(e: Entry)
  {
    e.cost != MAX_COST
  }

  /** TransTable::calculateIndex. */
  function CalculateIndex(hash: bv32): (i: nat)
    ensures i < TT_SIZE
    ensures (hash as int - i) % TT_SIZE == 0
    ensures hash as int < TT_SIZE ==> i == hash as int
  {
    (hash as int) % TT_SIZE
  }

  /** TransTable::reset: every slot becomes a copy of a default entry: cost
      MAX_COST and, when lazy, cost limit -1; its other fields are left
      uninitialised, which `junk` stands for. */
  function Reset(lazy: bool, junk: Entry): (t: Table)
    ensures |t| == TT_SIZE
    ensures forall i :: 0 <= i < TT_SIZE ==> !Filled(t[i]) && (lazy ==> t[i].costLimit == -1)
  {
    seq(TT_SIZE, _ => Entry(junk.state, MAX_COST, junk.heuristic, if lazy then -1 else junk.costLimit, junk.priority))
  }

  /** TransTableEntry::updateEntry. Lazy: a higher cost prunes; an equal cost
      prunes only if stored in this iteration (same cost limit), otherwise
      the limit is refreshed; a lower cost is stored with the limit. Not lazy:
      a cost that is not lower prunes, a lower one is stored. */
  function UpdateEntry(lazy: bool, e: Entry, cost: int, costLimit: int): (r: Updated)
    ensures r.expand <==> cost < e.cost || (lazy && cost == e.cost && costLimit != e.costLimit)
    ensures r.entry.cost == if cost < e.cost then cost else e.cost
    ensures r.entry.state == e.state && r.entry.heuristic == e.heuristic && r.entry.priority == e.priority
    ensures lazy && r.expand ==> r.entry.costLimit == costLimit
    ensures !lazy ==> r.entry.costLimit == e.costLimit
    ensures !r.expand ==> r.entry == e
  {
    if lazy then
      if cost > e.cost then Updated(false, e)
      else if cost == e.cost then
        if costLimit == e.costLimit then Updated(false, e)
        else Updated(true, e.(costLimit := costLimit))
      else Updated(true, e.(cost := cost, costLimit := costLimit))
    else
      if cost >= e.cost then Updated(false, e)
      else Updated(true, e.(cost := cost))
  }

  /** A second identical update always prunes: within one iteration a state
      is expanded at most once per cost. */
  lemma UpdateEntryTwicePrunes(lazy: bool, e: Entry, cost: int, costLimit: int)
    ensures !UpdateEntry(lazy, UpdateEntry(lazy, e, cost, costLimit).entry, cost, costLimit).expand
  {
  }

  /** TransTable::pruneState. On a match: raise the cached heuristic (when
      caching) and let updateEntry decide. On an empty slot: store the state
      and expand. On a collision: displace the resident if prioritisation is
      on and the newcomer's priority is higher, and expand either way. */
  function PruneState(cfg: Options, t: Table, s: PuzzleState, hash: bv32, heur: int, cost: int, costLimit: int): (v: Verdict)
    requires |t| == TT_SIZE
    ensures |v.table| == TT_SIZE
    ensures forall j :: 0 <= j < TT_SIZE && j != CalculateIndex(hash) ==> v.table[j] == t[j]
    ensures var e := t[CalculateIndex(hash)];
            v.prune <==> Same(e.state, s) && !(cost < e.cost || (cfg.lazyTransTable && cost == e.cost && costLimit != e.costLimit))
    ensures var e := t[CalculateIndex(hash)]; var e' := v.table[CalculateIndex(hash)];
            Same(e.state, s) ==>
              e'.state == e.state && e'.cost == (if cost < e.cost then cost else e.cost) &&
              e'.heuristic == (if cfg.ttHeurCaching && e.heuristic < heur then heur else e.heuristic) &&
              e'.costLimit == (if cfg.lazyTransTable && !v.prune then costLimit else e.costLimit) &&
              e'.priority == e.priority
    ensures var e := t[CalculateIndex(hash)]; var e' := v.table[CalculateIndex(hash)];
            !Same(e.state, s) && !Filled(e) ==>
              e'.state == s && e'.cost == cost && e'.heuristic == e.heuristic &&
              e'.costLimit == (if cfg.lazyTransTable then costLimit else e.costLimit) &&
              e'.priority == (if cfg.ttPriority then Priority.StatePriority(hash) else e.priority)
    ensures var e := t[CalculateIndex(hash)]; var e' := v.table[CalculateIndex(hash)];
            !Same(e.state, s) && Filled(e) ==>
              if cfg.ttPriority && Priority.StatePriority(hash) > e.priority
              then e'.state == s && e'.cost == cost && e'.heuristic == e.heuristic &&
                   e'.costLimit == (if cfg.lazyTransTable then costLimit else e.costLimit) &&
                   e'.priority == Priority.StatePriority(hash)
              else e' == e
  {
    var i := CalculateIndex(hash);
    var e := t[i];
    var priority := Priority.StatePriority(hash);
    if Same(e.state, s) then
      var e1 := if cfg.ttHeurCaching && e.heuristic < heur then e.(heuristic := heur) else e;
      var u := UpdateEntry(cfg.lazyTransTable, e1, cost, costLimit);
      Verdict(!u.expand, t[i := u.entry])
    else if e.cost == MAX_COST then
      var limit := if cfg.lazyTransTable then costLimit else e.costLimit;
      var p := if cfg.ttPriority then priority else e.priority;
      Verdict(false, t[i := Entry(s, cost, e.heuristic, limit, p)])
    else if cfg.ttPriority && priority > e.priority then
      var limit := if cfg.lazyTransTable then costLimit else e.costLimit;
      Verdict(false, t[i := Entry(s, cost, e.heuristic, limit, priority)])
    else
      Verdict(false, t)
  }

  /** The transposition is caught: once pruneState has left the state in
      its slot, the same call again prunes. */
  lemma PruneStateTwicePrunes(cfg: Options, t: Table, s: PuzzleState, hash: bv32, heur: int, cost: int, costLimit: int)
    requires |t| == TT_SIZE
    requires Same(PruneState(cfg, t, s, hash, heur, cost, costLimit).table[CalculateIndex(hash)].state, s)
    ensures PruneState(cfg, PruneState(cfg, t, s, hash, heur, cost, costLimit).table, s, hash, heur, cost, costLimit).prune
  {
    var i := CalculateIndex(hash);
    var e := t[i];
    if Same(e.state, s) {
      var e1 := if cfg.ttHeurCaching && e.heuristic < heur then e.(heuristic := heur) else e;
      UpdateEntryTwicePrunes(cfg.lazyTransTable, e1, cost, costLimit);
    }
  }

  /** TransTable::getCachedHeuristic: the cached value if the slot holds the
      state and caching is on, else 0. */
  function GetCachedHeuristic(cfg: Options, t: Table, s: PuzzleState, hash: bv32): (h: int)
    requires |t| == TT_SIZE
    ensures h != 0 ==> cfg.ttHeurCaching && Same(t[CalculateIndex(hash)].state, s)
    ensures cfg.ttHeurCaching && Same(t[CalculateIndex(hash)].state, s) ==> h == t[CalculateIndex(hash)].heuristic
  {
    var e := t[CalculateIndex(hash)];
    if cfg.ttHeurCaching && Same(e.state, s) then e.heuristic else 0
  }

  /** TransTable::updateCachedHeuristic: on a match (and with caching on)
      the cached heuristic becomes the larger of the two; nothing else changes. */
  function UpdateCachedHeuristic(cfg: Options, t: Table, s: PuzzleState, hash: bv32, heur: int): (r: Table)
    requires |t| == TT_SIZE
    ensures |r| == TT_SIZE
    ensures forall j :: 0 <= j < TT_SIZE && j != CalculateIndex(hash) ==> r[j] == t[j]
    ensures var e := t[CalculateIndex(hash)]; var e' := r[CalculateIndex(hash)];
            e'.state == e.state && e'.cost == e.cost && e'.costLimit == e.costLimit && e'.priority == e.priority
    ensures var e := t[CalculateIndex(hash)]; var e' := r[CalculateIndex(hash)];
            e'.heuristic == if cfg.ttHeurCaching && Same(e.state, s) && e.heuristic < heur then heur else e.heuristic
  {
    var i := CalculateIndex(hash);
    var e := t[i];
    if cfg.ttHeurCaching && Same(e.state, s) then t[i := e.(heuristic := if e.heuristic < heur then heur else e.heuristic)]
    else t
  }

  /** After updating the cache with heur, a lookup of the same state returns at least heur. */
  lemma CachedHeuristicAfterUpdate(cfg: Options, t: Table, s: PuzzleState, hash: bv32, heur: int)
    requires |t| == TT_SIZE
    requires cfg.ttHeurCaching && Same(t[CalculateIndex(hash)].state, s)
    ensures GetCachedHeuristic(cfg, UpdateCachedHeuristic(cfg, t, s, hash, heur), s, hash) >= heur
    ensures GetCachedHeuristic(cfg, UpdateCachedHeuristic(cfg, t, s, hash, heur), s, hash) >= GetCachedHeuristic(cfg, t, s, hash)
  {
  }

  // ---------------------------------------------------------------------------
  // numEntries

  /** Number of filled slots, counted from the end. */
  function CountFilled(t: Table): (n: nat)
    ensures n <= |t|
  {
    if |t| == 0 then 0 else CountFilled(t[..|t| - 1]) + (if Filled(t[|t| - 1]) then 1 else 0)
  }

  /** Replacing one slot changes the count by that slot's contribution only. */
  lemma {:induction false} CountFilledUpdate(t: Table, i: nat, e: Entry)
    requires i < |t|
    ensures CountFilled(t[i := e]) == CountFilled(t) - (if Filled(t[i]) then 1 else 0) + (if Filled(e) then 1 else 0)
  {
    var n := |t|;
    if i == n - 1 {
      assert t[i := e][..n - 1] == t[..n - 1];
    } else {
      assert t[i := e][..n - 1] == t[..n - 1][i := e];
      CountFilledUpdate(t[..n - 1], i, e);
    }
  }

  /** A reset table is empty. */
  lemma {:induction false} CountFilledNone(t: Table)
    requires forall i :: 0 <= i < |t| ==> !Filled(t[i])
    ensures CountFilled(t) == 0
  {
    if |t| > 0 {
      CountFilledNone(t[..|t| - 1]);
    }
  }

  lemma ResetIsEmpty(lazy: bool, junk: Entry)
    ensures CountFilled(Reset(lazy, junk)) == 0
  {
    CountFilledNone(Reset(lazy, junk));
  }

  /** pruneState fills at most one more slot, and empties none when the
      stored cost is a real one (below MAX_COST). */
  lemma PruneStateCount(cfg: Options, t: Table, s: PuzzleState, hash: bv32, heur: int, cost: int, costLimit: int)
    requires |t| == TT_SIZE
    ensures CountFilled(PruneState(cfg, t, s, hash, heur, cost, costLimit).table) <= CountFilled(t) + 1
    ensures cost < MAX_COST ==> CountFilled(PruneState(cfg, t, s, hash, heur, cost, costLimit).table) >= CountFilled(t)
  {
    var i := CalculateIndex(hash);
    var v := PruneState(cfg, t, s, hash, heur, cost, costLimit);
    assert v.table == t[i := v.table[i]];
    CountFilledUpdate(t, i, v.table[i]);
  }

  /** TransTable::numEntries: count the slots whose cost is not MAX_COST. */
  method NumEntries(t: Table) returns (fill: nat)
    ensures fill == CountFilled(t)
    ensures fill <= |t|
  {
    fill := 0;
    var i := 0;
    while i < |t|
      invariant 0 <= i <= |t|
      invariant fill == CountFilled(t[..i])
    {
      assert t[..i + 1][..i] == t[..i];
      if t[i].cost != MAX_COST {
        fill := fill + 1;
      }
      i := i + 1;
    }
    assert t[..|t|] == t;
  }
}
