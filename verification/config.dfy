/** The solver's compile-time switches and size constants, gathered into one
    immutable configuration record. Each flag keeps the name of the switch it
    stands for and the effect that switch has on the search. */
module Config {

  /** Largest path cost; also the "empty slot" cost of both caching tables. */
  const MAX_COST: int := 150
  /** Capacity of the transposition table (a prime, as the source advises). */
  const TT_SIZE: nat := 107
  /** Capacity of the perimeter database. */
  const PERIMETER_DB_SIZE: nat := 100
  /** Depth to which the backward search fills the perimeter database. */
  const PERIMETER_DEPTH: nat := 8

  /** Which puzzle the solver is built for (the source's DOMAIN switch). */
  datatype DomainKind = SlidingTile | KPancake

  datatype Options = Options(
    /** DOMAIN: 1 = sliding tile, 2 = pancake. */
    domain: DomainKind,
    /** USE_HEURISTIC: consult the incremental Manhattan/gap heuristic. */
    useHeuristic: bool,
    /** USE_BPMX: propagate heuristic floors between parent and siblings. */
    useBpmx: bool,
    /** USE_SKIP_TRANS_OP: never generate the reverse of the previous move. */
    skipReverseOp: bool,
    /** USE_PERIMETER_DB: build and consult the perimeter database. */
    usePerimeterDb: bool,
    /** USE_LAZY_PERIMETER: four-way cost/iteration update rule in the database. */
    lazyPerimeter: bool,
    /** USE_PERIMETER_STATE_PRIORITIZATION: displace residents of lower priority. */
    perimeterPriority: bool,
    /** USE_TRANS_TABLE: prune re-expansions through the transposition table. */
    useTransTable: bool,
    /** USE_TRANS_TABLE_HEUR_CACHING: keep the best heuristic seen per state. */
    ttHeurCaching: bool,
    /** USE_LAZY_TRANS_TABLE: four-way cost/bound update rule, reset once per search. */
    lazyTransTable: bool,
    /** USE_TRANS_TABLE_STATE_PRIORITIZATION: displace residents of lower priority. */
    ttPriority: bool
  )

  /** The configuration the source ships with: sliding tile, heuristic off,
      BPMX on, reverse-move skipping on, a lazy prioritised perimeter database
      and a lazy heuristic-caching transposition table without priorities. */
  const DEFAULT: Options := Options(
    domain := SlidingTile,
    useHeuristic := false,
    useBpmx := true,
    skipReverseOp := true,
    usePerimeterDb := true,
    lazyPerimeter := true,
    perimeterPriority := true,
    useTransTable := true,
    ttHeurCaching := true,
    lazyTransTable := true,
    ttPriority := false
  )
}
