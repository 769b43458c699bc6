/** The static design table: the discrete-choice rows of the persona blocks,
    and the structural invariants the table's header promises of them. */
module PersonaBlocks {

  import opened JsArray

  /** One alternative of one choice set of one persona block. `cost` is a
      decimal amount (0.5 occurs), the other attributes are integers. */
  datatype DesignRow = DesignRow(
    blockId: int,
    choiceSet: int,
    alt: int,
    cost: real,
    walk: int,
    co2Save: int,
    reliability: int,
    resched: int,
    noise: int,
    modeFlag: int)
  {
    /** The (BlockID, Set, Alt) triple that identifies the row. */
    function Id(): (int, int, int) {
      (blockId, choiceSet, alt)
    }
  }

  const BlockCount: int := 6
  const SetsPerBlock: int := 6
  const AltsPerSet: int := 3

  /** The rows present in the table, in table order: choice sets 1 and 2 of
      block 1. Sets 3 to 6 of block 1 and all of blocks 2 to 6 are absent. */
  const Table: seq<DesignRow> := [
    DesignRow(1, 1, 1, 0.0, 0, 0, 75, 2, 0, 0),
    DesignRow(1, 1, 2, 1.0, 150, 40, 90, 2, 30, 1),
    DesignRow(1, 1, 3, 0.0, 200, 55, 95, 0, 50, 2),
    DesignRow(1, 2, 1, 0.0, 0, 0, 75, 2, 0, 0),
    DesignRow(1, 2, 2, 0.5, 100, 40, 90, 2, 30, 1),
    DesignRow(1, 2, 3, 1.0, 250, 55, 95, 0, 50, 2)
  ]

  // ---------------------------------------------------------------------------
  // Invariants of a single row

  /** BlockID in 1..6, Set in 1..6, Alt in 1..3. */
  predicate IdInRange(r: DesignRow) {
    && 1 <= r.blockId <= BlockCount
    && 1 <= r.choiceSet <= SetsPerBlock
    && 1 <= r.alt <= AltsPerSet
  }

  /** Amounts are non-negative and reliability is a percentage. */
  predicate AttributesInRange(r: DesignRow) {
    && r.cost >= 0.0
    && r.walk >= 0
    && r.co2Save >= 0
    && r.resched >= 0
    && r.noise >= 0
    && 0 <= r.reliability <= 100
  }

  /** The first alternative of a set is the status-quo baseline. */
  predicate IsBaseline(r: DesignRow) {
    r.cost == 0.0 && r.walk == 0 && r.co2Save == 0 && r.noise == 0 && r.modeFlag == 0
  }

  // ---------------------------------------------------------------------------
  // Invariants of a table

  /** No two rows share a (BlockID, Set, Alt) triple. */
  predicate UniqueIds(t: seq<DesignRow>) {
    forall i, j :: 0 <= i < j < |t| ==> t[i].Id() != t[j].Id()
  }

  /** Whether a row belongs to the given choice set of the given block. */
  function InSet(block: int, choiceSet: int): DesignRow -> bool {
    (r: DesignRow) => r.blockId == block && r.choiceSet == choiceSet
  }

  /** The rows of one choice set of one block, in table order. */
  function SetRows(t: seq<DesignRow>, block: int, choiceSet: int): seq<DesignRow> {
    Filter(t, InSet(block, choiceSet))
  }

  /** The Alt values of a sequence of rows, in order. */
  function Alts(rows: seq<DesignRow>): (alts: seq<int>)
    ensures |alts| == |rows|
    ensures forall k :: 0 <= k < |rows| ==> alts[k] == rows[k].alt
  {
    if rows == [] then [] else [rows[0].alt] + Alts(rows[1..])
  }

  /** Every choice set present holds exactly three rows, Alt 1, 2, 3 in that
      order. */
  predicate CompleteSets(t: seq<DesignRow>) {
    forall i :: 0 <= i < |t| ==> Alts(SetRows(t, t[i].blockId, t[i].choiceSet)) == [1, 2, 3]
  }

  /** All the structural invariants of the design table. */
  predicate WellFormedTable(t: seq<DesignRow>) {
    && (forall r :: r in t ==> IdInRange(r) && AttributesInRange(r))
    && (forall r :: r in t && r.alt == 1 ==> IsBaseline(r))
    && UniqueIds(t)
    && CompleteSets(t)
  }

  // ---------------------------------------------------------------------------
  // How many rows a block can hold

  /** The position of a row's (Set, Alt) pair among the 18 slots of a block. */
  function Slot(r: DesignRow): (k: int)
    requires IdInRange(r)
    ensures 0 <= k < SetsPerBlock * AltsPerSet
  {
    (r.choiceSet - 1) * AltsPerSet + (r.alt - 1)
  }

  /** The elements of a sequence, as a set. */
  function Elements(s: seq<int>): set<int> {
    set x | x in s
  }

  /** A sequence without repetitions has as many elements as entries. */
  lemma {:induction false} DistinctElements(s: seq<int>)
    requires forall i, j :: 0 <= i < j < |s| ==> s[i] != s[j]
    ensures |Elements(s)| == |s|
  {
    if s != [] {
      assert Elements(s) == {s[0]} + Elements(s[1..]);
      assert s[0] !in Elements(s[1..]);
      DistinctElements(s[1..]);
    }
  }

  /** The integers 0 .. n-1, as a set. */
  function Below(n: nat): (b: set<int>)
    ensures forall x :: x in b <==> 0 <= x < n
  {
    if n == 0 then {} else Below(n - 1) + {n - 1}
  }

  lemma {:induction false} BelowSize(n: nat)
    ensures |Below(n)| == n
  {
    if n > 0 {
      BelowSize(n - 1);
    }
  }

  /** Pigeonhole: distinct values drawn from 0 .. n-1 number at most n. */
  lemma DistinctBelow(s: seq<int>, n: nat)
    requires forall i :: 0 <= i < |s| ==> 0 <= s[i] < n
    requires forall i, j :: 0 <= i < j < |s| ==> s[i] != s[j]
    ensures |s| <= n
  {
    DistinctElements(s);
    BelowSize(n);
    var e, b := Elements(s), Below(n);
    assert e <= b;
    assert e * b == e;
    assert |b - e| >= 0;
  }

  /** Rows of one block with pairwise distinct ids number at most 18: one
      per (Set, Alt) slot. */
  lemma OneBlockAtMost18(t: seq<DesignRow>, block: int)
    requires forall r :: r in t ==> IdInRange(r) && r.blockId == block
    requires UniqueIds(t)
    ensures |t| <= SetsPerBlock * AltsPerSet
  {
    var slots := seq(|t|, i requires 0 <= i < |t| => Slot(t[i]));
    forall i, j | 0 <= i < j < |t|
      ensures slots[i] != slots[j]
    {
      assert t[i] in t && t[j] in t;
      assert t[i].Id() != t[j].Id();
    }
    DistinctBelow(slots, SetsPerBlock * AltsPerSet);
  }

  // ---------------------------------------------------------------------------
  // The table as shipped

  lemma TableIdsInRange()
    ensures forall r :: r in Table ==> IdInRange(r)
  {
  }

  lemma TableAttributesInRange()
    ensures forall r :: r in Table ==> AttributesInRange(r)
  {
  }

  lemma TableBaselines()
    ensures forall r :: r in Table && r.alt == 1 ==> IsBaseline(r)
  {
  }

  /** In the rows shown, the mode flag counts the alternatives after the
      baseline. */
  lemma TableModeFlagIsAltMinusOne()
    ensures forall r :: r in Table ==> r.modeFlag == r.alt - 1
  {
  }

  lemma TableUniqueIds()
    ensures UniqueIds(Table)
  {
  }

  /** The first three rows are set 1 of block 1, the last three set 2. */
  lemma TableLayout()
    ensures forall i :: 0 <= i < |Table| ==> Table[i].blockId == 1 && Table[i].choiceSet == (if i < 3 then 1 else 2)
  {
  }

  /** Set 1 of block 1 is the first three rows. */
  lemma TableSetOne()
    ensures SetRows(Table, 1, 1) == Table[..3]
  {
    var first, second := Table[..3], Table[3..];
    assert Table == first + second;
    FilterAllKept(first, InSet(1, 1));
    FilterNoneKept(second, InSet(1, 1));
    FilterAppend(first, second, InSet(1, 1));
  }

  /** Set 2 of block 1 is the last three rows. */
  lemma TableSetTwo()
    ensures SetRows(Table, 1, 2) == Table[3..]
  {
    var first, second := Table[..3], Table[3..];
    assert Table == first + second;
    FilterNoneKept(first, InSet(1, 2));
    FilterAllKept(second, InSet(1, 2));
    FilterAppend(first, second, InSet(1, 2));
  }

  /** Both sets list their alternatives 1, 2, 3 in order. */
  lemma TableSetAlts()
    ensures Alts(Table[..3]) == [1, 2, 3]
    ensures Alts(Table[3..]) == [1, 2, 3]
  {
  }

  lemma TableCompleteSets()
    ensures CompleteSets(Table)
  {
    TableLayout();
    TableSetOne();
    TableSetTwo();
    TableSetAlts();
  }

  /** Only block 1 is present. */
  lemma TableOnlyBlockOne()
    ensures forall r :: r in Table ==> r.blockId == 1
  {
  }

  /** The shipped rows satisfy every structural invariant. */
  lemma TableWellFormed()
    ensures WellFormedTable(Table)
  {
    TableIdsInRange();
    TableAttributesInRange();
    TableBaselines();
    TableUniqueIds();
    TableCompleteSets();
  }
}
