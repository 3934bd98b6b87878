/** The 3x3 sliding-tile puzzle: a board of nine cells holding tiles 0..8,
    tile 0 being the blank. A move slides the blank one cell right, left, up
    or down; the hash is an XOR of per-(tile, cell) random words and the
    heuristic is the Manhattan distance summed over the non-blank tiles. */
module SlidingTile {
  import opened Seqs

  const WIDTH: nat := 3
  const HEIGHT: nat := 3
  const NUM_TILES: nat := 9
  /** Capacity of an operator list: at most four moves exist from any cell. */
  const MAX_NUM_OPS: nat := 4
  /** Number of operator codes, NO_OP included; the second dimension of the
      operator lookup table. */
  const NUM_OPERATORS: nat := 5

  const NO_OP: int := 0
  const OP_RIGHT: int := 1
  const OP_LEFT: int := 2
  const OP_UP: int := 3
  const OP_DOWN: int := 4

  /** tiles[cell] is the tile in that cell; blank is the cell holding 0. */
  datatype Board = Board(tiles: seq<nat>, blank: nat)

  predicate Valid(b: Board)
  {
    IsPermutation(b.tiles, NUM_TILES) && b.blank < NUM_TILES && b.tiles[b.blank] == 0
  }

  /** State::init: the goal, tile i in cell i, so the blank is in cell 0. */
  function Goal(): (b: Board)
    ensures Valid(b)
    ensures b.blank == 0
  {
    Board(seq(NUM_TILES, i => i), 0)
  }

  /** The scan State::load performs: the blank ends at the LAST cell read as 0;
      with no 0 read, the blank keeps its previous value. */
  function BlankAfterScan(values: seq<nat>, i: nat, blank: nat): (r: nat)
    requires i <= |values|
    ensures (exists k :: i <= k < |values| && values[k] == 0) ==>
              i <= r < |values| && values[r] == 0 &&
              forall k :: r < k < |values| ==> values[k] != 0
    ensures (forall k :: i <= k < |values| ==> values[k] != 0) ==> r == blank
    decreases |values| - i
  {
    if i == |values| then blank
    else BlankAfterScan(values, i + 1, if values[i] == 0 then i else blank)
  }

  /** State::load from the integers of one input line. */
  function Load(values: seq<nat>, blankBefore: nat): (b: Board)
    requires |values| == NUM_TILES
    ensures b.tiles == values
    ensures 0 in values ==> b.blank < NUM_TILES && values[b.blank] == 0
    ensures 0 !in values ==> b.blank == blankBefore
    ensures IsPermutation(values, NUM_TILES) && 0 in values ==> Valid(b)
  {
    Board(values, BlankAfterScan(values, 0, blankBefore))
  }

  /** State::operator== compares the tiles only, not the blank location. */
  predicate Same(a: Board, b: Board)
  {
    a.tiles == b.tiles
  }

  /** On valid boards comparing tiles alone is full equality: the blank is
      the one cell holding 0. */
  lemma SameIsEquality(a: Board, b: Board)
    requires Valid(a) && Valid(b)
    ensures Same(a, b) <==> a == b
  {
    if Same(a, b) {
      PermutationInjective(a.tiles, NUM_TILES, a.blank, b.blank);
    }
  }

  /** reverse: RIGHT and LEFT swap, UP and DOWN swap, anything else is NO_OP. */
  function Reverse(op: int): (r: int)
    ensures 0 <= r < NUM_OPERATORS
    ensures op == NO_OP ==> r == NO_OP
  {
    if op == OP_RIGHT then OP_LEFT
    else if op == OP_LEFT then OP_RIGHT
    else if op == OP_UP then OP_DOWN
    else if op == OP_DOWN then OP_UP
    else NO_OP
  }

  lemma ReverseInvolution(op: int)
    requires 0 <= op < NUM_OPERATORS
    ensures Reverse(Reverse(op)) == op
  {
  }

  /** The blank in cell `blank` can move in direction op without leaving the board. */
  predicate CanMove(blank: int, op: int)
  {
    if op == OP_RIGHT then (blank + 1) % WIDTH != 0
    else if op == OP_LEFT then blank % WIDTH != 0
    else if op == OP_UP then blank / WIDTH != 0
    else if op == OP_DOWN then blank / WIDTH != HEIGHT - 1
    else false
  }

  /** Operators apply() handles without leaving the board: real moves and NO_OP. */
  predicate LegalOp(blank: int, op: int)
  {
    op == NO_OP || CanMove(blank, op)
  }

  /** State::getNewBlankLoc. */
  function NewBlankLoc(blank: int, op: int): int
  {
    if op == OP_RIGHT then blank + 1
    else if op == OP_LEFT then blank - 1
    else if op == OP_UP then blank - WIDTH
    else if op == OP_DOWN then blank + WIDTH
    else blank
  }

  lemma NewBlankInRange(blank: nat, op: int)
    requires blank < NUM_TILES && LegalOp(blank, op)
    ensures 0 <= NewBlankLoc(blank, op) < NUM_TILES
    ensures op != NO_OP ==> NewBlankLoc(blank, op) != blank
  {
  }

  /** The board change of State::apply: the tile in the blank's new cell
      slides into the old one and the new cell becomes the blank. */
  function Move(b: Board, op: int): (r: Board)
    requires Valid(b) && LegalOp(b.blank, op)
    ensures Valid(r)
    ensures r.blank == NewBlankLoc(b.blank, op)
    ensures r.tiles[b.blank] == b.tiles[r.blank] && r.tiles[r.blank] == 0
    ensures forall k :: 0 <= k < NUM_TILES && k != b.blank && k != r.blank ==> r.tiles[k] == b.tiles[k]
    ensures r.tiles == Swap(b.tiles, b.blank, r.blank)
  {
    NewBlankInRange(b.blank, op);
    var nb := NewBlankLoc(b.blank, op) as nat;
    var t := b.tiles[b.blank := b.tiles[nb]][nb := 0];
    assert t == Swap(b.tiles, b.blank, nb);
    SwapPreservesPermutation(b.tiles, NUM_TILES, b.blank, nb);
    Board(t, nb)
  }

  /** A move followed by its reverse is legal and restores the board. */
  lemma MoveThenReverse(b: Board, op: int)
    requires Valid(b) && LegalOp(b.blank, op)
    ensures LegalOp(Move(b, op).blank, Reverse(op))
    ensures Move(Move(b, op), Reverse(op)) == b
  {
    var m := Move(b, op);
    assert LegalOp(m.blank, Reverse(op));
    var r := Move(m, Reverse(op));
    assert r.blank == b.blank;
    assert r.tiles == b.tiles;
  }

  /** OpLookupTable::_getValidOperators: the moves that stay on the board, in
      the order RIGHT, LEFT, UP, DOWN, leaving out reverse(prevOp). */
  function ValidOperators(blank: nat, prevOp: int): (ops: seq<int>)
    ensures |ops| <= MAX_NUM_OPS
    ensures forall i, j :: 0 <= i < j < |ops| ==> ops[i] < ops[j]
    ensures forall op :: op in ops <==> CanMove(blank, op) && op != Reverse(prevOp)
  {
    var trans := Reverse(prevOp);
    (if trans != OP_RIGHT && (blank + 1) % WIDTH != 0 then [OP_RIGHT] else [])
    + (if trans != OP_LEFT && blank % WIDTH != 0 then [OP_LEFT] else [])
    + (if trans != OP_UP && blank / WIDTH != 0 then [OP_UP] else [])
    + (if trans != OP_DOWN && blank / WIDTH != HEIGHT - 1 then [OP_DOWN] else [])
  }

  /** Every cell of the 3x3 board has at least two moves, so excluding one
      reverse move always leaves at least one. */
  lemma ValidOperatorsNonEmpty(blank: nat, prevOp: int)
    requires blank < NUM_TILES
    ensures |ValidOperators(blank, prevOp)| >= 1
  {
    var trans := Reverse(prevOp);
    if (blank + 1) % WIDTH != 0 && trans != OP_RIGHT {
      assert OP_RIGHT in ValidOperators(blank, prevOp);
    } else if blank % WIDTH != 0 && trans != OP_LEFT {
      assert OP_LEFT in ValidOperators(blank, prevOp);
    } else if blank / WIDTH != 0 && trans != OP_UP {
      assert OP_UP in ValidOperators(blank, prevOp);
    } else {
      assert OP_DOWN in ValidOperators(blank, prevOp);
    }
  }

  /** The operator lookup table OpLookupTable builds once: one list per
      (blank cell, previous operator) pair, previous operator in 0..4. */
  function OpTable(): (t: seq<seq<seq<int>>>)
    ensures |t| == NUM_TILES
    ensures forall b :: 0 <= b < NUM_TILES ==> |t[b]| == NUM_OPERATORS
  {
    seq(NUM_TILES, b requires 0 <= b => seq(NUM_OPERATORS, p => ValidOperators(b, p)))
  }

  /** OpLookupTable::getValidOperators: the table lookup gives what
      _getValidOperators computes directly. */
  function GetValidOperators(blank: nat, prevOp: int): (ops: seq<int>)
    requires blank < NUM_TILES && 0 <= prevOp < NUM_OPERATORS
    ensures ops == ValidOperators(blank, prevOp)
  {
    OpTable()[blank][prevOp]
  }

  // ---------------------------------------------------------------------------
  // Manhattan-distance heuristic

  function Abs(x: int): nat
  {
    if x < 0 then -x else x
  }

  /** Grid distance between the goal cell of `tile` and cell `loc`. */
  function ManhattanDistance(tile: nat, loc: nat): nat
  {
    Abs(loc % WIDTH - tile % WIDTH) + Abs(loc / WIDTH - tile / WIDTH)
  }

  /** Heuristic::initTable: mdTable[tile][loc] for every tile and cell. */
  function MdTable(): (t: seq<seq<nat>>)
    ensures |t| == NUM_TILES
    ensures forall i :: 0 <= i < NUM_TILES ==> |t[i]| == NUM_TILES
    ensures forall i, j :: 0 <= i < NUM_TILES && 0 <= j < NUM_TILES ==> t[i][j] == ManhattanDistance(i, j)
    ensures forall i, j :: 0 <= i < NUM_TILES && 0 <= j < NUM_TILES ==> t[i][j] == t[j][i]
    ensures forall i :: 0 <= i < NUM_TILES ==> t[i][i] == 0
  {
    seq(NUM_TILES, i requires 0 <= i => seq(NUM_TILES, j requires 0 <= j => ManhattanDistance(i, j)))
  }

  /** Contribution of each cell to the heuristic: nothing for the blank. */
  function HeuristicTerms(tiles: seq<nat>): seq<int>
  {
    seq(|tiles|, i requires 0 <= i < |tiles| => if tiles[i] == 0 then 0 else ManhattanDistance(tiles[i], i))
  }

  /** Heuristic::calculateHeuristic, from scratch. */
  function CalculateHeuristic(b: Board): (h: int)
    ensures h >= 0
  {
    SumNonNegative(HeuristicTerms(b.tiles));
    Sum(HeuristicTerms(b.tiles))
  }

  /** Heuristic::calculateHeuristic as the source computes it: mdTable
      looked up at (tile, cell) for every non-blank cell, and summed. It is
      the Manhattan sum above. */
  function TableHeuristic(b: Board): (h: int)
    requires InRange(b.tiles)
    ensures h == CalculateHeuristic(b)
  {
    var md := MdTable();
    var terms := seq(NUM_TILES, i requires 0 <= i < NUM_TILES => if b.tiles[i] == 0 then 0 else md[b.tiles[i]][i]);
    assert terms == HeuristicTerms(b.tiles);
    Sum(terms)
  }

  /** Heuristic::incrementHeuristic as the source computes it, through
      mdTable. It is the update below. */
  function TableIncrementHeuristic(after: Board, newTileLoc: nat, value: int): (h: int)
    requires InRange(after.tiles) && after.blank < NUM_TILES && newTileLoc < NUM_TILES
    ensures h == IncrementHeuristic(after, newTileLoc, value)
  {
    var md := MdTable();
    var tile := after.tiles[newTileLoc];
    value - md[tile][after.blank] + md[tile][newTileLoc]
  }

  /** Heuristic::incrementHeuristic, called on the board after the move with
      the blank's old cell, which is where the moved tile now sits. */
  function IncrementHeuristic(after: Board, newTileLoc: nat, value: int): int
    requires newTileLoc < |after.tiles|
  {
    var tile := after.tiles[newTileLoc];
    value - ManhattanDistance(tile, after.blank) + ManhattanDistance(tile, newTileLoc)
  }

  /** The goal is at distance 0. */
  lemma GoalHeuristicZero()
    ensures CalculateHeuristic(Goal()) == 0
  {
    var terms := HeuristicTerms(Goal().tiles);
    assert forall i :: 0 <= i < |terms| ==> terms[i] == 0;
    SumOfZeros(terms);
  }

  /** After a move the incremental heuristic equals the from-scratch one. */
  lemma IncrementHeuristicExact(b: Board, op: int)
    requires Valid(b) && LegalOp(b.blank, op)
    ensures IncrementHeuristic(Move(b, op), b.blank, CalculateHeuristic(b)) == CalculateHeuristic(Move(b, op))
  {
    var r := Move(b, op);
    if r.blank != b.blank {
      var tile := b.tiles[r.blank];
      var terms := HeuristicTerms(b.tiles);
      var t1 := terms[b.blank := ManhattanDistance(tile, b.blank)];
      var t2 := t1[r.blank := 0];
      assert tile != 0;
      assert HeuristicTerms(r.tiles) == t2;
      SumUpdate(terms, b.blank, ManhattanDistance(tile, b.blank));
      SumUpdate(t1, r.blank, 0);
    } else {
      assert r == b;
    }
  }

  /** Neighbouring cells are at grid distance one from each other, so their
      distances to any goal cell differ by exactly one. */
  lemma NeighbourDistance(tile: nat, blank: nat, op: int)
    requires tile < NUM_TILES && blank < NUM_TILES && CanMove(blank, op)
    ensures Abs(ManhattanDistance(tile, NewBlankLoc(blank, op) as nat) - ManhattanDistance(tile, blank)) == 1
  {
    var nb := NewBlankLoc(blank, op);
    if op == OP_RIGHT || op == OP_LEFT {
      assert nb / WIDTH == blank / WIDTH;
      assert Abs(nb % WIDTH - blank % WIDTH) == 1;
    } else {
      assert nb % WIDTH == blank % WIDTH;
      assert Abs(nb / WIDTH - blank / WIDTH) == 1;
    }
  }

  /** Every slide changes the Manhattan heuristic by exactly one, the move's
      cost: the heuristic is consistent. */
  lemma ManhattanConsistent(b: Board, op: int)
    requires Valid(b) && CanMove(b.blank, op)
    ensures Abs(CalculateHeuristic(Move(b, op)) - CalculateHeuristic(b)) == 1
  {
    IncrementHeuristicExact(b, op);
    NeighbourDistance(b.tiles[Move(b, op).blank], b.blank, op);
  }

  // ---------------------------------------------------------------------------
  // XOR-Zobrist hash

  /** The random table hashTable[tile][cell] has one word per (tile, cell). */
  predicate HashTableOk(table: seq<seq<bv32>>)
  {
    |table| == NUM_TILES && forall i :: 0 <= i < NUM_TILES ==> |table[i]| == NUM_TILES
  }

  predicate InRange(tiles: seq<nat>)
  {
    |tiles| == NUM_TILES && forall i :: 0 <= i < NUM_TILES ==> tiles[i] < NUM_TILES
  }

  /** Contribution of each cell to the hash: nothing for the blank. */
  function HashTerms(table: seq<seq<bv32>>, tiles: seq<nat>): seq<bv32>
    requires HashTableOk(table) && InRange(tiles)
  {
    seq(NUM_TILES, i requires 0 <= i < NUM_TILES => if tiles[i] == 0 then 0 else table[tiles[i]][i])
  }

  /** Hash::calculateHash, from scratch. */
  function CalculateHash(table: seq<seq<bv32>>, b: Board): bv32
    requires HashTableOk(table) && InRange(b.tiles)
  {
    Xor(HashTerms(table, b.tiles))
  }

  /** Hash::incrementHash, called on the board after the move with the
      blank's old cell: XOR the moved tile out of its old cell and into its new one. */
  function IncrementHash(table: seq<seq<bv32>>, after: Board, oldBlankLoc: nat, value: bv32): bv32
    requires HashTableOk(table) && InRange(after.tiles)
    requires after.blank < NUM_TILES && oldBlankLoc < NUM_TILES
  {
    var tile := after.tiles[oldBlankLoc];
    value ^ table[tile][after.blank] ^ table[tile][oldBlankLoc]
  }

  /** After a move the incremental hash equals the from-scratch one. */
  lemma IncrementHashExact(table: seq<seq<bv32>>, b: Board, op: int)
    requires HashTableOk(table) && Valid(b) && LegalOp(b.blank, op)
    ensures IncrementHash(table, Move(b, op), b.blank, CalculateHash(table, b)) == CalculateHash(table, Move(b, op))
  {
    var r := Move(b, op);
    var tile := b.tiles[r.blank];
    if r.blank != b.blank {
      var terms := HashTerms(table, b.tiles);
      var t1 := terms[b.blank := table[tile][b.blank]];
      var t2 := t1[r.blank := 0];
      assert tile != 0;
      assert HashTerms(table, r.tiles) == t2;
      XorUpdate(terms, b.blank, table[tile][b.blank]);
      XorUpdate(t1, r.blank, 0);
    } else {
      assert r == b;
    }
  }

  /** What State::apply returns: the new board, the updated hash and
      heuristic, and the move's cost. */
  datatype Applied = Applied(board: Board, hash: bv32, heuristic: int, cost: int)

  /** State::apply: move, update hash and heuristic incrementally, cost 1. */
  function Apply(table: seq<seq<bv32>>, b: Board, hash: bv32, heuristic: int, op: int): (r: Applied)
    requires HashTableOk(table) && Valid(b) && LegalOp(b.blank, op)
    ensures r.board == Move(b, op) && r.cost == 1
    ensures hash == CalculateHash(table, b) ==> r.hash == CalculateHash(table, r.board)
    ensures heuristic == CalculateHeuristic(b) ==> r.heuristic == CalculateHeuristic(r.board)
  {
    var m := Move(b, op);
    IncrementHashExact(table, b, op);
    IncrementHeuristicExact(b, op);
    Applied(m, IncrementHash(table, m, b.blank, hash), TableIncrementHeuristic(m, b.blank, heuristic), 1)
  }
}
