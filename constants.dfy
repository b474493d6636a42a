/** Cell identifiers and the pass-cost table shared by the map editor and the searches. */
module Constants {

  const EMPTY_CELL_ID: int := 0
  const WALL_ID: int := 1
  const PLAYER_ID: int := 2
  const KID1_ID: int := 3
  const KID2_ID: int := 4
  const WIFEY_ID: int := 5
  const LAVA_ID: int := 6
  const MOUNTAIN_ID: int := 7
  const HIDRA_ID: int := 8

  /** The cost of stepping onto a cell; `Infinite` stands for an impassable cell. */
  datatype Cost = Finite(n: nat) | Infinite

  /** The cost table is keyed by integer cell ids and by one name, the dead hydra. */
  datatype CostKey = IdKey(id: int) | NameKey(name: string)

  const DEAD_HIDRA_ID: CostKey := NameKey("dead_hidra")

  const CELL_COSTS: map<CostKey, Cost> := map[
    IdKey(EMPTY_CELL_ID) := Finite(1),
    IdKey(WALL_ID) := Infinite,
    IdKey(LAVA_ID) := Infinite,
    IdKey(HIDRA_ID) := Infinite,
    IdKey(MOUNTAIN_ID) := Finite(10),
    IdKey(PLAYER_ID) := Finite(1),
    IdKey(WIFEY_ID) := Finite(1),
    DEAD_HIDRA_ID := Finite(1)
  ]

  /** Table lookup with the default cost 1 for a key the table does not list. */
  function CostLookup(key: CostKey): (c: Cost)
    ensures c.Finite? ==> c.n >= 1
  {
    if key in CELL_COSTS then CELL_COSTS[key] else Finite(1)
  }

  /** The cost of a grid cell holding the given id. */
  function CellCost(id: int): (c: Cost)
    ensures c.Infinite? <==> id == WALL_ID || id == LAVA_ID || id == HIDRA_ID
  {
    CostLookup(IdKey(id))
  }

  /** The nine cell ids are 0 .. 8 in declaration order, hence pairwise distinct. */
  lemma CellIdsAreDistinct()
    ensures [EMPTY_CELL_ID, WALL_ID, PLAYER_ID, KID1_ID, KID2_ID, WIFEY_ID, LAVA_ID, MOUNTAIN_ID, HIDRA_ID]
            == seq(9, i => i)
  {
  }

  /** The whole cost function on cell ids: three impassable kinds, mountains at 10, everything else 1. */
  lemma CellCostTable(id: int)
    ensures CellCost(id).Infinite? <==> id == WALL_ID || id == LAVA_ID || id == HIDRA_ID
    ensures id == MOUNTAIN_ID ==> CellCost(id) == Finite(10)
    ensures id != WALL_ID && id != LAVA_ID && id != HIDRA_ID && id != MOUNTAIN_ID ==> CellCost(id) == Finite(1)
  {
  }

  /** Kids have no entry of their own; they fall through to the default cost. */
  lemma KidsUseDefaultCost()
    ensures IdKey(KID1_ID) !in CELL_COSTS && IdKey(KID2_ID) !in CELL_COSTS
    ensures CellCost(KID1_ID) == Finite(1) && CellCost(KID2_ID) == Finite(1)
  {
  }

  /** The dead hydra, keyed by name, costs 1 like an empty cell; any other name gets the default. */
  lemma NamedKeysCostOne(name: string)
    ensures CostLookup(NameKey(name)) == Finite(1)
    ensures NameKey(name) == DEAD_HIDRA_ID ==> NameKey(name) in CELL_COSTS
  {
  }
}
