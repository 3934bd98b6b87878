/** The perimeter database: a table of PERIMETER_DB_SIZE slots, indexed by
    hash mod PERIMETER_DB_SIZE, filled by a backward search from the goal.
    A filled slot holds a state and its distance to the goal; the forward
    search reads that distance back as a heuristic. A slot whose cost is
    MAX_COST is empty and holds the value-initialised (all-zero) state. */
module PerimeterDb {
  import opened Config
  import opened Domain
  import Priority

  /** One slot: the state, its cost to the goal, the search iteration that
      last stored it, and its priority. */
  datatype Entry = Entry(state: PuzzleState, cost: int, iteration: int, priority: nat)

  type Table = seq<Entry>

  /** The outcome of updateEntry: whether the node must be expanded, and the slot after. */
  datatype Updated = Updated(expand: bool, entry: Entry)

  /** The outcome of pruneState: whether to prune, and the table after. */
  datatype Verdict = Verdict(prune: bool, table: Table)

  /** What getState hands back: nothing for an empty slot, else the slot. */
  datatype Lookup = Absent | Present(entry: Entry)

  predicate Filled(e: Entry)
  {
    e.cost != MAX_COST
  }

  /** PerimeterDb::calculateIndex. */
  function CalculateIndex(hash: bv32): (i: nat)
    ensures i < PERIMETER_DB_SIZE
    ensures (hash as int - i) % PERIMETER_DB_SIZE == 0
    ensures hash as int < PERIMETER_DB_SIZE ==> i == hash as int
  {
    (hash as int) % PERIMETER_DB_SIZE
  }

  /** The well-formedness every reachable table keeps: an empty slot holds
      the zero state; a filled one holds a valid state at a cost in
      [0, MAX_COST). */
  predicate Inv(kind: DomainKind, t: Table)
  {
    |t| == PERIMETER_DB_SIZE &&
    forall i :: 0 <= i < |t| ==>
      (!Filled(t[i]) ==> t[i].state == ZeroState(kind)) &&
      (Filled(t[i]) ==> Valid(kind, t[i].state) && 0 <= t[i].cost < MAX_COST)
  }

  /** PerimeterDb::reset: every slot becomes a default entry: the zero state
      at cost MAX_COST; iteration and priority are left uninitialised, which
      `junk` stands for. */
  function Reset(kind: DomainKind, junk: Entry): (t: Table)
    ensures Inv(kind, t)
    ensures forall i :: 0 <= i < |t| ==> !Filled(t[i])
  {
    seq(PERIMETER_DB_SIZE, _ => Entry(ZeroState(kind), MAX_COST, junk.iteration, junk.priority))
  }

  /** PerimeterDbEntry::updateEntry: the transposition-table rule with the
      iteration number in place of the cost limit. */
  function UpdateEntry(lazy: bool, e: Entry, cost: int, iteration: int): (r: Updated)
    ensures r.expand <==> cost < e.cost || (lazy && cost == e.cost && iteration != e.iteration)
    ensures r.entry.cost == if cost < e.cost then cost else e.cost
    ensures r.entry.state == e.state && r.entry.priority == e.priority
    ensures lazy && r.expand ==> r.entry.iteration == iteration
    ensures !lazy ==> r.entry.iteration == e.iteration
    ensures !r.expand ==> r.entry == e
  {
    if lazy then
      if cost > e.cost then Updated(false, e)
      else if cost == e.cost then
        if iteration == e.iteration then Updated(false, e)
        else Updated(true, e.(iteration := iteration))
      else Updated(true, e.(cost := cost, iteration := iteration))
    else
      if cost >= e.cost then Updated(false, e)
      else Updated(true, e.(cost := cost))
  }

  /** PerimeterDb::pruneState: prune a state already stored at no greater
      cost (in this iteration, when lazy); store it in an empty slot; on a
      collision displace the resident if prioritisation is on and the
      newcomer's priority is higher, and expand either way. */
  function PruneState(cfg: Options, t: Table, s: PuzzleState, hash: bv32, cost: int, iteration: int): (v: Verdict)
    requires |t| == PERIMETER_DB_SIZE
    ensures |v.table| == PERIMETER_DB_SIZE
    ensures forall j :: 0 <= j < PERIMETER_DB_SIZE && j != CalculateIndex(hash) ==> v.table[j] == t[j]
    ensures var e := t[CalculateIndex(hash)];
            v.prune <==> Same(e.state, s) && !(cost < e.cost || (cfg.lazyPerimeter && cost == e.cost && iteration != e.iteration))
    ensures var e := t[CalculateIndex(hash)]; var e' := v.table[CalculateIndex(hash)];
            Same(e.state, s) ==>
              e'.state == e.state && e'.cost == (if cost < e.cost then cost else e.cost) &&
              e'.iteration == (if cfg.lazyPerimeter && !v.prune then iteration else e.iteration) &&
              e'.priority == e.priority
    ensures var e := t[CalculateIndex(hash)]; var e' := v.table[CalculateIndex(hash)];
            !Same(e.state, s) && !Filled(e) ==>
              e'.state == s && e'.cost == cost &&
              e'.iteration == (if cfg.lazyPerimeter then iteration else e.iteration) &&
              e'.priority == (if cfg.perimeterPriority then Priority.StatePriority(hash) else e.priority)
    ensures var e := t[CalculateIndex(hash)]; var e' := v.table[CalculateIndex(hash)];
            !Same(e.state, s) && Filled(e) ==>
              if cfg.perimeterPriority && Priority.StatePriority(hash) > e.priority
              then e'.state == s && e'.cost == cost &&
                   e'.iteration == (if cfg.lazyPerimeter then iteration else e.iteration) &&
                   e'.priority == Priority.StatePriority(hash)
              else e' == e
  {
    var i := CalculateIndex(hash);
    var e := t[i];
    var priority := Priority.StatePriority(hash);
    if Same(e.state, s) then
      var u := UpdateEntry(cfg.lazyPerimeter, e, cost, iteration);
      Verdict(!u.expand, t[i := u.entry])
    else if e.cost == MAX_COST then
      var it := if cfg.lazyPerimeter then iteration else e.iteration;
      var p := if cfg.perimeterPriority then priority else e.priority;
      Verdict(false, t[i := Entry(s, cost, it, p)])
    else if cfg.perimeterPriority && priority > e.priority then
      var it := if cfg.lazyPerimeter then iteration else e.iteration;
      Verdict(false, t[i := Entry(s, cost, it, priority)])
    else
      Verdict(false, t)
  }

  /** Storing a valid state at a real cost keeps the table well-formed. */
  lemma PruneStateKeepsInv(kind: DomainKind, cfg: Options, t: Table, s: PuzzleState, hash: bv32, cost: int, iteration: int)
    requires Inv(kind, t) && Valid(kind, s) && 0 <= cost < MAX_COST
    ensures Inv(kind, PruneState(cfg, t, s, hash, cost, iteration).table)
  {
    var i := CalculateIndex(hash);
    var v := PruneState(cfg, t, s, hash, cost, iteration);
    if !Filled(t[i]) {
      ValidIsNotZero(kind, s);
    }
    assert Filled(v.table[i]) && Valid(kind, v.table[i].state) && 0 <= v.table[i].cost < MAX_COST;
  }

  /** No slot filled before is empty after. */
  predicate KeepsFilled(t: Table, t': Table)
  {
    |t'| == |t| && forall i :: 0 <= i < |t| && Filled(t[i]) ==> Filled(t'[i])
  }

  /** pruneState at a real cost fills the state's slot, whatever it held,
      and never empties a filled one: a match lowers the cost at most to the
      offered one, and a new or displacing state is stored at that cost. */
  lemma PruneStateFills(cfg: Options, t: Table, s: PuzzleState, hash: bv32, cost: int, iteration: int)
    requires |t| == PERIMETER_DB_SIZE && cost < MAX_COST
    ensures KeepsFilled(t, PruneState(cfg, t, s, hash, cost, iteration).table)
    ensures Filled(PruneState(cfg, t, s, hash, cost, iteration).table[CalculateIndex(hash)])
  {
    var i := CalculateIndex(hash);
    var t' := PruneState(cfg, t, s, hash, cost, iteration).table;
    forall j | 0 <= j < |t| && Filled(t[j])
      ensures Filled(t'[j])
    {
      if j != i {
        assert t'[j] == t[j];
      }
    }
  }

  /** The transposition is caught: once pruneState has left the state in
      its slot, the same call again prunes. */
  lemma PruneStateTwicePrunes(cfg: Options, t: Table, s: PuzzleState, hash: bv32, cost: int, iteration: int)
    requires |t| == PERIMETER_DB_SIZE
    requires Same(PruneState(cfg, t, s, hash, cost, iteration).table[CalculateIndex(hash)].state, s)
    ensures PruneState(cfg, PruneState(cfg, t, s, hash, cost, iteration).table, s, hash, cost, iteration).prune
  {
  }

  /** With prioritisation on, the priority held in a filled slot never drops:
      a resident is displaced only by a higher-priority state. */
  lemma PruneStatePriorityMonotone(cfg: Options, t: Table, s: PuzzleState, hash: bv32, cost: int, iteration: int)
    requires |t| == PERIMETER_DB_SIZE && cfg.perimeterPriority
    requires Filled(t[CalculateIndex(hash)])
    ensures PruneState(cfg, t, s, hash, cost, iteration).table[CalculateIndex(hash)].priority >= t[CalculateIndex(hash)].priority
  {
  }

  /** PerimeterDb::getHeuristic: the stored cost if the slot holds the
      state, else 0. */
  function GetHeuristic(t: Table, s: PuzzleState, hash: bv32): (h: int)
    requires |t| == PERIMETER_DB_SIZE
    ensures Same(t[CalculateIndex(hash)].state, s) ==> h == t[CalculateIndex(hash)].cost
    ensures !Same(t[CalculateIndex(hash)].state, s) ==> h == 0
  {
    var e := t[CalculateIndex(hash)];
    if Same(e.state, s) then e.cost else 0
  }

  /** For a valid state in a well-formed table the heuristic lies in
      [0, MAX_COST): the empty slots' zero state never matches. */
  lemma GetHeuristicBounds(kind: DomainKind, t: Table, s: PuzzleState, hash: bv32)
    requires Inv(kind, t) && Valid(kind, s)
    ensures 0 <= GetHeuristic(t, s, hash) < MAX_COST
  {
    var e := t[CalculateIndex(hash)];
    if !Filled(e) {
      ValidIsNotZero(kind, s);
    }
  }

  /** A state the database has just stored (or confirmed) reads back with
      a heuristic no larger than the cost it was offered at. */
  lemma GetHeuristicAfterPrune(cfg: Options, t: Table, s: PuzzleState, hash: bv32, cost: int, iteration: int)
    requires |t| == PERIMETER_DB_SIZE
    requires Same(PruneState(cfg, t, s, hash, cost, iteration).table[CalculateIndex(hash)].state, s)
    ensures GetHeuristic(PruneState(cfg, t, s, hash, cost, iteration).table, s, hash) <= cost
  {
  }

  /** PerimeterDb::getState: the slot at an index if it is filled. */
  function GetState(t: Table, index: nat): (r: Lookup)
    requires index < |t|
    ensures r.Present? <==> Filled(t[index])
    ensures r.Present? ==> r.entry == t[index]
  {
    if t[index].cost != MAX_COST then Present(t[index]) else Absent
  }

  /** Every filled slot of a well-formed table hands back a valid state
      with its distance to the goal. */
  lemma GetStateValid(kind: DomainKind, t: Table, index: nat)
    requires Inv(kind, t) && index < |t|
    ensures GetState(t, index).Present? ==>
              Valid(kind, GetState(t, index).entry.state) && 0 <= GetState(t, index).entry.cost < MAX_COST
  {
  }
}
