/** The persona chooser: from the stored preferences it builds a key string,
    hashes it Java-style into a signed 32-bit integer, turns the hash into a
    block id, and selects that block's rows from the design table. */
module Chooser {

  import opened JsNumber
  import opened JsArray
  import opened PersonaBlocks

  // ---------------------------------------------------------------------------
  // Preferences and the key string

  /** One stored preference field: missing from the stored object, or a
      non-negative integral Number. */
  datatype PrefValue = Absent | Num(n: SafeNat)

  /** The stored preference object. */
  datatype Prefs = Prefs(
    maxFee: PrefValue,
    maxWalk: PrefValue,
    minCO2: PrefValue,
    maxDay: PrefValue,
    mode: PrefValue)

  /** What an empty store yields: the object `{}`. */
  const NoPrefs: Prefs := Prefs(Absent, Absent, Absent, Absent, Absent)

  /** The defaults of the `||` template (0, and 3 for `mode`) written out
      explicitly. */
  const ExplicitDefaults: Prefs := Prefs(Num(0), Num(0), Num(0), Num(0), Num(3))

  const DefaultMode: nat := 3

  /** JavaScript falsiness: `undefined` and `0` are falsy. */
  predicate Falsy(v: PrefValue) {
    v.Absent? || v.n == 0
  }

  /** `v || d`. */
  function Or(v: PrefValue, d: nat): (r: nat)
    ensures r == d || (v.Num? && r == v.n)
    ensures r == 0 ==> d == 0
  {
    if Falsy(v) then d else v.n
  }

  /** One `${v || d}` segment of the key template. */
  function Segment(v: PrefValue, d: nat): (s: string)
    ensures IsCanonicalDecimal(s) && DecimalValue(s) == Or(v, d)
  {
    NatToDecimal(Or(v, d))
  }

  /** The key template: the five segments, no separators. */
  function Key(p: Prefs): (k: string)
    ensures |k| >= 5
    ensures forall i :: 0 <= i < |k| ==> IsDigit(k[i])
  {
    Segment(p.maxFee, 0) + Segment(p.maxWalk, 0) + Segment(p.minCO2, 0)
      + Segment(p.maxDay, 0) + Segment(p.mode, DefaultMode)
  }

  /** Each segment reads back as the field's value when truthy and as its
      default otherwise. */
  lemma SegmentValue(v: PrefValue, d: nat)
    ensures IsCanonicalDecimal(Segment(v, d))
    ensures Falsy(v) ==> DecimalValue(Segment(v, d)) == d
    ensures !Falsy(v) ==> DecimalValue(Segment(v, d)) == v.n
  {
  }

  /** Preferences whose fields are all falsy give the key "00003". */
  lemma KeyOfFalsyPrefs(p: Prefs)
    requires Falsy(p.maxFee) && Falsy(p.maxWalk) && Falsy(p.minCO2) && Falsy(p.maxDay) && Falsy(p.mode)
    ensures Key(p) == "00003"
  {
    assert NatToDecimal(0) == "0";
    assert NatToDecimal(3) == "3";
  }

  /** The key is five canonical numerals in template order, each reading back
      as its field's value or, for a falsy field, the template's default. */
  lemma KeyParts(p: Prefs)
    ensures exists a, b, c, d, e ::
      && Key(p) == a + b + c + d + e
      && IsCanonicalDecimal(a) && DecimalValue(a) == Or(p.maxFee, 0)
      && IsCanonicalDecimal(b) && DecimalValue(b) == Or(p.maxWalk, 0)
      && IsCanonicalDecimal(c) && DecimalValue(c) == Or(p.minCO2, 0)
      && IsCanonicalDecimal(d) && DecimalValue(d) == Or(p.maxDay, 0)
      && IsCanonicalDecimal(e) && DecimalValue(e) == Or(p.mode, DefaultMode)
  {
    var a, b, c := Segment(p.maxFee, 0), Segment(p.maxWalk, 0), Segment(p.minCO2, 0);
    var d, e := Segment(p.maxDay, 0), Segment(p.mode, DefaultMode);
    assert Key(p) == a + b + c + d + e;
  }

  /** A mode of 0 is falsy, so it renders like a missing mode: as "3". */
  lemma ModeZeroIsMissingMode(p: Prefs)
    ensures Key(p.(mode := Num(0))) == Key(p.(mode := Absent)) == Key(p.(mode := Num(3)))
  {
  }

  /** The template has no separators, so distinct preferences can share a
      key: a fee of 1 with a walk of 23, and a fee of 12 with a walk of 3. */
  lemma KeyCollision()
    ensures var p, q := Prefs(Num(1), Num(23), Absent, Absent, Absent), Prefs(Num(12), Num(3), Absent, Absent, Absent);
      p != q && Key(p) == Key(q) == "123003"
  {
    assert NatToDecimal(1) == "1";
    assert NatToDecimal(12) == "12";
    assert NatToDecimal(23) == "23";
  }

  // ---------------------------------------------------------------------------
  // The hash

  /** One reduce step: `a = ((a<<5)-a)+c; return a&a`. The intermediate sum
      stays below 2^33 in magnitude, so the Number arithmetic is exact. */
  function HashStep(a: int, c: char): (r: int)
    ensures IsInt32(r)
  {
    var t := ShiftLeft(a, 5) - a + c as int;
    BitAnd(t, t)
  }

  /** `s.split("").reduce(step, acc)`: a fold from the left. */
  function HashFold(acc: int, s: string): (r: int)
    ensures IsInt32(acc) || s != [] ==> IsInt32(r)
    decreases |s|
  {
    if s == [] then acc else HashFold(HashStep(acc, s[0]), s[1..])
  }

  /** `hashCode(s)`: the fold started from 0. */
  function HashCode(s: string): (h: int)
    ensures IsInt32(h)
    ensures s == [] ==> h == 0
  {
    HashFold(0, s)
  }

  /** Java's String.hashCode before truncation: the characters as the digits
      of a number in base 31. */
  function Polynomial(s: string): int {
    if s == [] then 0 else Polynomial(s[..|s| - 1]) * 31 + s[|s| - 1] as int
  }

  /** A step is `a*31 + c` wrapped to a signed 32-bit integer. */
  lemma HashStepIsMulAdd(a: int, c: char)
    ensures HashStep(a, c) == ToInt32(a * 31 + c as int)
  {
    var t := ShiftLeft(a, 5) - a + c as int;
    assert ToUint32(5) % 32 == 5;
    assert Pow2(5) == 32;
    CongruentAdd(ShiftLeft(a, 5), a * 32, c as int - a);
    assert t - (a * 31 + c as int) == ShiftLeft(a, 5) + (c as int - a) - (a * 32 + (c as int - a));
    BitAndSelf(t);
    ToInt32Congruent(t, a * 31 + c as int);
  }

  /** Appending a character applies one more step: the hash is a left fold. */
  lemma {:induction false} HashFoldSnoc(acc: int, s: string, c: char)
    ensures HashFold(acc, s + [c]) == HashStep(HashFold(acc, s), c)
    decreases |s|
  {
    if s == [] {
      assert s + [c] == [c];
      assert [c][1..] == [];
    } else {
      assert (s + [c])[0] == s[0];
      assert (s + [c])[1..] == s[1..] + [c];
      HashFoldSnoc(HashStep(acc, s[0]), s[1..], c);
    }
  }

  lemma HashCodeSnoc(s: string, c: char)
    ensures HashCode(s + [c]) == HashStep(HashCode(s), c)
  {
    HashFoldSnoc(0, s, c);
  }

  /** The hash is Java's polynomial hash wrapped to a signed 32-bit integer:
      wrapping after every step gives what wrapping once at the end would. */
  lemma {:induction false} HashCodeIsPolynomial(s: string)
    ensures HashCode(s) == ToInt32(Polynomial(s))
  {
    if s != [] {
      var p, c := s[..|s| - 1], s[|s| - 1];
      assert s == p + [c];
      HashCodeIsPolynomial(p);
      HashCodeSnoc(p, c);
      HashStepIsMulAdd(HashCode(p), c);
      var h, q := HashCode(p), Polynomial(p);
      CongruentSymmetric(q, h);
      CongruentMul(h, q, 31);
      CongruentAdd(h * 31, q * 31, c as int);
      ToInt32Congruent(h * 31 + c as int, q * 31 + c as int);
    }
  }

  /** The reduce written as a loop over the characters. */
  method ComputeHash(s: string) returns (h: int)
    ensures h == HashCode(s)
    ensures h == ToInt32(Polynomial(s))
  {
    h := 0;
    var i := 0;
    while i < |s|
      invariant 0 <= i <= |s|
      invariant h == HashCode(s[..i])
    {
      assert s[..i + 1] == s[..i] + [s[i]];
      HashCodeSnoc(s[..i], s[i]);
      h := HashStep(h, s[i]);
      i := i + 1;
    }
    assert s[..i] == s;
    HashCodeIsPolynomial(s);
  }

  // ---------------------------------------------------------------------------
  // The block id

  /** `(hashCode(key) % 6) + 1` as written, with the truncating `%`. */
  function BlockIdOf(hash: int): (b: int)
    ensures -4 <= b <= BlockCount
    ensures hash >= 0 ==> 1 <= b
    ensures (hash - (b - 1)) % BlockCount == 0
  {
    TruncRem(hash, BlockCount) + 1
  }

  /** The block id lies in 1..6, the range the code's comment claims, exactly
      when the hash is non-negative or a multiple of 6. */
  lemma BlockIdInRangeIff(hash: int)
    ensures 1 <= BlockIdOf(hash) <= BlockCount <==> hash >= 0 || hash % BlockCount == 0
  {
    TruncRemVersusEuclidean(hash, BlockCount);
  }

  /** The smallest witness: a hash of -1 gives block 0. */
  lemma BlockIdOfMinusOne()
    ensures BlockIdOf(-1) == 0
  {
  }

  /** A block id in 1..6 whatever the sign of the hash, through the usual
      `((h % 6) + 6) % 6 + 1` idiom on the truncating `%`. */
  function CorrectedBlockId(hash: int): (b: int)
    ensures 1 <= b <= BlockCount
    ensures (hash - (b - 1)) % BlockCount == 0
    ensures b == hash % BlockCount + 1
    ensures hash >= 0 || hash % BlockCount == 0 ==> b == BlockIdOf(hash)
  {
    var r := TruncRem(hash, BlockCount);
    TruncRemVersusEuclidean(hash, BlockCount);
    TruncRemVersusEuclidean(r + BlockCount, BlockCount);
    TruncRem(r + BlockCount, BlockCount) + 1
  }

  // ---------------------------------------------------------------------------
  // Selecting the block's rows

  /** Whether a row belongs to the given block: `r => r.BlockID === blockID`. */
  function InBlock(block: int): DesignRow -> bool {
    (r: DesignRow) => r.blockId == block
  }

  /** `PERSONA_BLOCKS.filter(r => r.BlockID === blockID)`. */
  function BlockRows(table: seq<DesignRow>, block: int): (rows: seq<DesignRow>)
    ensures forall r :: r in rows <==> r in table && r.blockId == block
  {
    Filter(table, InBlock(block))
  }

  /** The block's rows are exactly the table's rows of that block, each as
      often as in the table, in table order. */
  lemma BlockRowsExact(table: seq<DesignRow>, block: int)
    ensures IsSubsequence(BlockRows(table, block), table)
    ensures forall r :: multiset(BlockRows(table, block))[r] == if r.blockId == block then multiset(table)[r] else 0
  {
    FilterIsSubsequence(table, InBlock(block));
    forall r {
      FilterMultiplicity(table, InBlock(block), r);
    }
  }

  /** A table without rows for a block yields no rows, not an error. */
  lemma BlockRowsOfMissingBlock(table: seq<DesignRow>, block: int)
    requires forall r :: r in table ==> r.blockId != block
    ensures BlockRows(table, block) == []
  {
    FilterNoneKept(table, InBlock(block));
  }

  /** The shipped table: block 1 is the whole table, any other block is
      empty. */
  lemma ShippedBlockRows(block: int)
    ensures block == 1 ==> BlockRows(Table, block) == Table
    ensures block != 1 ==> BlockRows(Table, block) == []
  {
    TableOnlyBlockOne();
    if block == 1 {
      FilterAllKept(Table, InBlock(block));
    } else {
      FilterNoneKept(Table, InBlock(block));
    }
  }

  /** No two rows of a block share an id when none in the table do. */
  lemma {:induction false} BlockRowsUnique(table: seq<DesignRow>, block: int)
    requires UniqueIds(table)
    ensures UniqueIds(BlockRows(table, block))
  {
    if table != [] {
      var rest := BlockRows(table[1..], block);
      assert UniqueIds(table[1..]) by {
        forall i, j | 0 <= i < j < |table[1..]|
          ensures table[1..][i].Id() != table[1..][j].Id()
        {
          assert table[1..][i] == table[i + 1] && table[1..][j] == table[j + 1];
        }
      }
      BlockRowsUnique(table[1..], block);
      if table[0].blockId == block {
        var rows := [table[0]] + rest;
        assert BlockRows(table, block) == rows;
        forall i, j | 0 <= i < j < |rows|
          ensures rows[i].Id() != rows[j].Id()
        {
          if i == 0 {
            assert rows[j] == rest[j - 1];
            assert rest[j - 1] in table[1..];
            var k :| 0 <= k < |table[1..]| && table[1..][k] == rest[j - 1];
            assert table[k + 1] == rows[j];
          } else {
            assert rows[i] == rest[i - 1] && rows[j] == rest[j - 1];
          }
        }
      } else {
        assert BlockRows(table, block) == rest;
      }
    }
  }

  /** The rows handed out for a block keep every structural invariant of a
      well-formed table. */
  lemma BlockRowsWellFormed(table: seq<DesignRow>, block: int)
    requires WellFormedTable(table)
    ensures WellFormedTable(BlockRows(table, block))
  {
    var rows := BlockRows(table, block);
    BlockRowsUnique(table, block);
    forall i | 0 <= i < |rows|
      ensures Alts(SetRows(rows, rows[i].blockId, rows[i].choiceSet)) == [1, 2, 3]
    {
      var r := rows[i];
      assert r in table;
      var j :| 0 <= j < |table| && table[j] == r;
      FilterNarrowing(table, InBlock(block), InSet(block, r.choiceSet));
      assert Alts(SetRows(table, table[j].blockId, table[j].choiceSet)) == [1, 2, 3];
    }
  }

  /** A block of a table whose ids are in range and never repeated holds at
      most 18 rows, one per (Set, Alt) slot, so no block can hold 36. */
  lemma BlockAtMost18(table: seq<DesignRow>, block: int)
    requires forall r :: r in table ==> IdInRange(r)
    requires UniqueIds(table)
    ensures |BlockRows(table, block)| <= SetsPerBlock * AltsPerSet
  {
    BlockRowsUnique(table, block);
    OneBlockAtMost18(BlockRows(table, block), block);
  }

  // ---------------------------------------------------------------------------
  // The assignment

  /** The chosen block id and its rows (`window.currentBlock`). */
  datatype Assignment = Assignment(blockId: int, rows: seq<DesignRow>)

  /** The chooser as written: key, hash, truncating `%`, filter. */
  function Assign(p: Prefs, table: seq<DesignRow>): (a: Assignment)
    ensures -4 <= a.blockId <= BlockCount
    ensures (HashCode(Key(p)) - (a.blockId - 1)) % BlockCount == 0
    ensures forall r :: r in a.rows <==> r in table && r.blockId == a.blockId
  {
    var b := BlockIdOf(HashCode(Key(p)));
    Assignment(b, BlockRows(table, b))
  }

  /** The chooser with the block id confined to 1..6 as its comment intends. */
  function AssignCorrected(p: Prefs, table: seq<DesignRow>): (a: Assignment)
    ensures 1 <= a.blockId <= BlockCount
    ensures (HashCode(Key(p)) - (a.blockId - 1)) % BlockCount == 0
    ensures forall r :: r in a.rows <==> r in table && r.blockId == a.blockId
  {
    var b := CorrectedBlockId(HashCode(Key(p)));
    Assignment(b, BlockRows(table, b))
  }

  /** The two agree exactly when the as-written block id is in range. */
  lemma AssignCorrectedAgrees(p: Prefs, table: seq<DesignRow>)
    ensures AssignCorrected(p, table) == Assign(p, table) <==> 1 <= Assign(p, table).blockId <= BlockCount
  {
    var h := HashCode(Key(p));
    BlockIdInRangeIff(h);
  }

  /** Missing preferences and the `||` template's defaults written out choose
      the same block and rows. */
  lemma DefaultsAreImplicit(table: seq<DesignRow>)
    ensures Assign(NoPrefs, table) == Assign(ExplicitDefaults, table)
    ensures AssignCorrected(NoPrefs, table) == AssignCorrected(ExplicitDefaults, table)
  {
    KeyOfFalsyPrefs(NoPrefs);
    assert NatToDecimal(0) == "0";
    assert NatToDecimal(3) == "3";
  }

  /** Java's polynomial of "00003", prefix by prefix. */
  lemma DefaultKeyPolynomial()
    ensures Polynomial("00003") == 45806643
  {
    var s := "00003";
    assert s[..1][..0] == "";
    assert Polynomial(s[..1]) == 48;
    assert s[..2][..1] == s[..1];
    assert Polynomial(s[..2]) == 1536;
    assert s[..3][..2] == s[..2];
    assert Polynomial(s[..3]) == 47664;
    assert s[..4][..3] == s[..3];
    assert Polynomial(s[..4]) == 1477632;
    assert s[..4] == s[..|s| - 1];
  }

  /** "00003" hashes to 45806643: no wrap-around happens on the way. */
  lemma DefaultKeyHash()
    ensures HashCode("00003") == 45806643
  {
    DefaultKeyPolynomial();
    HashCodeIsPolynomial("00003");
    ToInt32OfInt32(45806643);
  }

  /** With no stored preferences the chooser picks block 4, which the shipped
      table does not hold, and hands out no rows. */
  lemma EmptyStoreAssignment()
    ensures Assign(NoPrefs, Table) == Assignment(4, [])
    ensures AssignCorrected(NoPrefs, Table) == Assignment(4, [])
  {
    KeyOfFalsyPrefs(NoPrefs);
    DefaultKeyHash();
    assert BlockIdOf(45806643) == 4;
    ShippedBlockRows(4);
  }

  /** Preferences {maxFee: 2, maxWalk: 100, mode: 1}. */
  const NegativeHashPrefs: Prefs := Prefs(Num(2), Num(100), Absent, Absent, Num(1))

  /** Their key is "2100001". */
  lemma NegativeHashPrefsKey()
    ensures Key(NegativeHashPrefs) == "2100001"
  {
    assert NatToDecimal(2) == "2";
    assert NatToDecimal(1) == "1";
    assert NatToDecimal(100) == "100";
  }

  /** Java's polynomial of "2100001", prefix by prefix. */
  lemma NegativeHashPolynomial()
    ensures Polynomial("2100001") == 45823819090
  {
    var s := "2100001";
    assert s[..1][..0] == "";
    assert Polynomial(s[..1]) == 50;
    assert s[..2][..1] == s[..1];
    assert Polynomial(s[..2]) == 1599;
    assert s[..3][..2] == s[..2];
    assert Polynomial(s[..3]) == 49617;
    assert s[..4][..3] == s[..3];
    assert Polynomial(s[..4]) == 1538175;
    assert s[..5][..4] == s[..4];
    assert Polynomial(s[..5]) == 47683473;
    assert s[..6][..5] == s[..5];
    assert Polynomial(s[..6]) == 1478187711;
    assert s[..6] == s[..|s| - 1];
  }

  /** "2100001" hashes to -1420821166. */
  lemma NegativeHashKey()
    ensures HashCode("2100001") == -1420821166
  {
    NegativeHashPolynomial();
    HashCodeIsPolynomial("2100001");
    NegativeHashWraps();
  }

  /** The polynomial of "2100001" exceeds 2^31 and wraps to a negative
      value. */
  lemma NegativeHashWraps()
    ensures ToInt32(45823819090) == -1420821166
  {
  }

  /** These preferences hash to -1420821166. */
  lemma NegativeHashPrefsHash()
    ensures HashCode(Key(NegativeHashPrefs)) == -1420821166
  {
    NegativeHashPrefsKey();
    NegativeHashKey();
  }

  /** As written, these preferences are assigned block -3, outside 1..6,
      and no rows. */
  lemma NegativeHashAssignment()
    ensures Assign(NegativeHashPrefs, Table) == Assignment(-3, [])
  {
    NegativeHashBlockId();
    ShippedBlockRows(-3);
  }

  lemma NegativeHashBlockId()
    ensures Assign(NegativeHashPrefs, Table) == Assignment(-3, BlockRows(Table, -3))
  {
    NegativeHashPrefsHash();
    NegativeHashRemainder();
  }

  /** -1420821166 truncated-mod 6 is -4. */
  lemma NegativeHashRemainder()
    ensures BlockIdOf(-1420821166) == -3
  {
  }

  /** The corrected chooser assigns them block 3. */
  lemma NegativeHashCorrectedAssignment()
    ensures AssignCorrected(NegativeHashPrefs, Table) == Assignment(3, [])
  {
    NegativeHashPrefsHash();
    assert CorrectedBlockId(-1420821166) == 3;
    ShippedBlockRows(3);
  }
}
