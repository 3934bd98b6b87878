/** The puzzle the solver is compiled for, seen through the interface the
    search uses: a state, its validity, the operator lists, apply and
    reverse, the hash and the heuristic. The source picks one domain at
    compile time; here both live in one sum type and every operation
    dispatches on the tag. */
module Domain {
  import opened Config
  import opened Seqs
  import Tile = SlidingTile
  import Cakes = Pancake

  datatype PuzzleState = TileState(board: Tile.Board) | PancakeState(stack: Cakes.Stack)

  /** hashTable[item][position]: the random words of the XOR hash. */
  type HashTable = seq<seq<bv32>>

  const NO_OP: int := 0

  function KindOf(s: PuzzleState): DomainKind
  {
    match s
    case TileState(_) => SlidingTile
    case PancakeState(_) => KPancake
  }

  /** Number of positions (and of distinct items) in a state of this kind. */
  function Size(kind: DomainKind): nat
  {
    match kind
    case SlidingTile => Tile.NUM_TILES
    case KPancake => Cakes.NUM_PANCAKES
  }

  predicate TableOk(kind: DomainKind, table: HashTable)
  {
    match kind
    case SlidingTile => Tile.HashTableOk(table)
    case KPancake => Cakes.HashTableOk(table)
  }

  predicate Valid(kind: DomainKind, s: PuzzleState)
  {
    match s
    case TileState(b) => kind == SlidingTile && Tile.Valid(b)
    case PancakeState(p) => kind == KPancake && Cakes.Valid(p)
  }

  /** State::init. */
  function Goal(kind: DomainKind): (s: PuzzleState)
    ensures Valid(kind, s)
  {
    match kind
    case SlidingTile => TileState(Tile.Goal())
    case KPancake => PancakeState(Cakes.Goal())
  }

  /** The value-initialised state a perimeter-database slot holds after
      reset: every position 0 (and, for tiles, the blank in cell 0). */
  function ZeroState(kind: DomainKind): (s: PuzzleState)
    ensures KindOf(s) == kind
    ensures !Valid(kind, s)
  {
    match kind
    case SlidingTile =>
      var z := Tile.Board(seq(Tile.NUM_TILES, _ => 0), 0);
      assert z.tiles[0] == z.tiles[1];
      TileState(z)
    case KPancake =>
      var z := Cakes.Stack(seq(Cakes.NUM_PANCAKES, _ => 0));
      assert z.cakes[0] == z.cakes[1];
      PancakeState(z)
  }

  /** State::load from the integers of one input line; a tile board keeps
      its previous blank if no 0 is read. */
  function Load(kind: DomainKind, values: seq<nat>, before: PuzzleState): (s: PuzzleState)
    requires |values| == Size(kind)
    ensures KindOf(s) == kind
    ensures IsPermutation(values, Size(kind)) && 0 in values ==> Valid(kind, s)
  {
    match kind
    case SlidingTile =>
      var blank := if before.TileState? then before.board.blank else 0;
      TileState(Tile.Load(values, blank))
    case KPancake => PancakeState(Cakes.Stack(values))
  }

  /** State::operator==: tiles (not the blank) or pancakes; states of
      different kinds never meet in one build. */
  predicate Same(a: PuzzleState, b: PuzzleState)
  {
    match a
    case TileState(x) => b.TileState? && Tile.Same(x, b.board)
    case PancakeState(x) => b.PancakeState? && Cakes.Same(x, b.stack)
  }

  lemma SameIsEquality(kind: DomainKind, a: PuzzleState, b: PuzzleState)
    requires Valid(kind, a) && Valid(kind, b)
    ensures Same(a, b) <==> a == b
  {
    if a.TileState? {
      Tile.SameIsEquality(a.board, b.board);
    }
  }

  /** A valid state never matches the zero state of an emptied slot. */
  lemma ValidIsNotZero(kind: DomainKind, s: PuzzleState)
    requires Valid(kind, s)
    ensures !Same(ZeroState(kind), s)
  {
    if kind == SlidingTile {
      assert s.board.tiles[0] != s.board.tiles[1];
    } else {
      assert s.stack.cakes[0] != s.stack.cakes[1];
    }
  }

  /** Range of a previous-operator value the operator lookup table has a row for. */
  predicate OpInRange(kind: DomainKind, op: int)
  {
    match kind
    case SlidingTile => 0 <= op < Tile.NUM_OPERATORS
    case KPancake => 0 <= op <= Cakes.MAX_NUM_OPS
  }

  /** The free function reverse of the compiled domain. */
  function Reverse(kind: DomainKind, op: int): (r: int)
    ensures OpInRange(kind, op) ==> OpInRange(kind, r)
  {
    match kind
    case SlidingTile => Tile.Reverse(op)
    case KPancake => Cakes.Reverse(op)
  }

  lemma ReverseInvolution(kind: DomainKind, op: int)
    requires OpInRange(kind, op)
    ensures Reverse(kind, Reverse(kind, op)) == op
  {
    if kind == SlidingTile {
      Tile.ReverseInvolution(op);
    }
  }

  /** Operators State::apply handles on this state. */
  predicate LegalOp(s: PuzzleState, op: int)
  {
    match s
    case TileState(b) => Tile.LegalOp(b.blank, op)
    case PancakeState(_) => Cakes.LegalOp(op)
  }

  /** State::findSuccessorOperators (and findPredecessorOperators, which is
      the same list): the lookup-table row for the previous operator, or for
      NO_OP when reverse-move skipping is off. */
  function SuccessorOperators(kind: DomainKind, s: PuzzleState, skipReverse: bool, prevOp: int): (ops: seq<int>)
    requires Valid(kind, s) && OpInRange(kind, prevOp)
    ensures forall op :: op in ops ==> LegalOp(s, op) && OpInRange(kind, op) && op != NO_OP
    ensures skipReverse ==> Reverse(kind, prevOp) !in ops
    ensures 1 <= |ops|
  {
    var p := if skipReverse then prevOp else NO_OP;
    match s
    case TileState(b) =>
      Tile.ValidOperatorsNonEmpty(b.blank, p);
      Tile.GetValidOperators(b.blank, p)
    case PancakeState(_) => Cakes.GetValidOperators(p)
  }

  /** Every operator a state could legally take is listed, except the
      reverse of the previous one when skipping is on, and NO_OP. */
  lemma SuccessorOperatorsComplete(kind: DomainKind, s: PuzzleState, skipReverse: bool, prevOp: int, op: int)
    requires Valid(kind, s) && OpInRange(kind, prevOp)
    requires LegalOp(s, op) && op != NO_OP && (skipReverse ==> op != Reverse(kind, prevOp))
    ensures op in SuccessorOperators(kind, s, skipReverse, prevOp)
  {
  }

  /** The pure state change of State::apply. */
  function Successor(kind: DomainKind, s: PuzzleState, op: int): (r: PuzzleState)
    requires Valid(kind, s) && LegalOp(s, op)
    ensures Valid(kind, r)
  {
    match s
    case TileState(b) => TileState(Tile.Move(b, op))
    case PancakeState(p) =>
      Cakes.FlipPreservesPermutation(p.cakes, op);
      PancakeState(Cakes.Stack(Cakes.Flip(p.cakes, op)))
  }

  /** reverse(op) is legal after op and undoes it. */
  lemma ReverseUndoes(kind: DomainKind, s: PuzzleState, op: int)
    requires Valid(kind, s) && LegalOp(s, op)
    ensures LegalOp(Successor(kind, s, op), Reverse(kind, op))
    ensures Successor(kind, Successor(kind, s, op), Reverse(kind, op)) == s
  {
    match s
    case TileState(b) => Tile.MoveThenReverse(b, op);
    case PancakeState(p) => Cakes.FlipInvolution(p.cakes, op);
  }

  /** Hash::calculateHash, from scratch. */
  function Hash(kind: DomainKind, table: HashTable, s: PuzzleState): bv32
    requires TableOk(kind, table) && Valid(kind, s)
  {
    match s
    case TileState(b) => Tile.CalculateHash(table, b)
    case PancakeState(p) => Cakes.CalculateHash(table, p.cakes)
  }

  /** The all-zero table of kind `kind`. */
  function ZeroTable(kind: DomainKind): (table: HashTable)
    ensures TableOk(kind, table)
  {
    seq(Size(kind), _ => seq(Size(kind), _ => 0 as bv32))
  }

  /** Nothing keeps a state's hash away from 0: under the all-zero table
      every state hashes to 0, the value getPriority divides by. */
  lemma ZeroHashReachable(kind: DomainKind, s: PuzzleState)
    requires Valid(kind, s)
    ensures Hash(kind, ZeroTable(kind), s) == 0
  {
    var table := ZeroTable(kind);
    match s
    case TileState(b) =>
      var terms := Tile.HashTerms(table, b.tiles);
      assert forall i :: 0 <= i < |terms| ==> terms[i] == 0;
      XorOfZeros(terms);
    case PancakeState(p) =>
      var terms := Cakes.HashTerms(table, p.cakes);
      assert forall i :: 0 <= i < |terms| ==> terms[i] == 0;
      XorOfZeros(terms);
  }

  /** The heuristic a search state maintains, from scratch: Manhattan
      distance for tiles; for pancakes the corrected gap count, which moves
      calculateHeuristic's plate term from the top of the stack to the
      fixed end. */
  function Heuristic(s: PuzzleState): (h: int)
    ensures 0 <= h
  {
    match s
    case TileState(b) => Tile.CalculateHeuristic(b)
    case PancakeState(p) => if |p.cakes| == 0 then 0 else Cakes.StackGaps(p.cakes)
  }

  /** How the maintained heuristic relates to Heuristic::calculateHeuristic:
      equal for tiles; for pancakes the plate term at the top of the stack
      is replaced by one at the fixed end. */
  lemma HeuristicVersusCalculated(kind: DomainKind, s: PuzzleState)
    requires Valid(kind, s)
    ensures s.TileState? ==> Heuristic(s) == Tile.CalculateHeuristic(s.board)
    ensures s.PancakeState? ==>
              Heuristic(s) == Cakes.CalculateHeuristic(s.stack.cakes) - Cakes.Gap(Cakes.NUM_PANCAKES, s.stack.cakes[0])
                              + Cakes.Gap(s.stack.cakes[Cakes.NUM_PANCAKES - 1], Cakes.PLATE)
  {
  }

  /** The goal has heuristic 0. */
  lemma GoalHeuristicZero(kind: DomainKind)
    ensures Heuristic(Goal(kind)) == 0
  {
    if kind == SlidingTile {
      Tile.GoalHeuristicZero();
    } else {
      Cakes.StackGapsGoalZero();
    }
  }

  /** A move changes the heuristic by at most its cost. */
  lemma HeuristicConsistent(kind: DomainKind, s: PuzzleState, op: int)
    requires Valid(kind, s) && LegalOp(s, op)
    ensures -1 <= Heuristic(Successor(kind, s, op)) - Heuristic(s) <= 1
  {
    match s
    case TileState(b) =>
      if op != NO_OP {
        Tile.ManhattanConsistent(b, op);
      } else {
        assert Tile.Move(b, op).tiles == b.tiles;
      }
    case PancakeState(p) => Cakes.StackGapsConsistent(p.cakes, op);
  }

  datatype Applied = Applied(state: PuzzleState, hash: bv32, heuristic: int, cost: int)

  /** State::apply: the new state, the incremental hash and heuristic, and
      the cost of the move. */
  function Apply(kind: DomainKind, table: HashTable, s: PuzzleState, hash: bv32, heuristic: int, op: int): (r: Applied)
    requires TableOk(kind, table) && Valid(kind, s) && LegalOp(s, op)
    ensures r.state == Successor(kind, s, op) && r.cost == 1
    ensures hash == Hash(kind, table, s) ==> r.hash == Hash(kind, table, r.state)
    ensures heuristic == Heuristic(s) ==> r.heuristic == Heuristic(r.state)
  {
    match s
    case TileState(b) =>
      var a := Tile.Apply(table, b, hash, heuristic, op);
      Applied(TileState(a.board), a.hash, a.heuristic, a.cost)
    case PancakeState(p) =>
      var a := Cakes.Apply(table, p, hash, heuristic, op);
      Applied(PancakeState(a.stack), a.hash, a.heuristic, a.cost)
  }
}
