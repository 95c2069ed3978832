/** The brick grid and its persistent state: a 9 x 12 table of bricks whose two
    flags are packed two bits per cell, four cells per byte, into the byte array
    of the save state (breakout.c get_brick, set_brick, reset_bricks, init). */
module Grid {

  const BricksPerRow: nat := 9
  const BrickRows: nat := 12
  const CellCount: nat := BricksPerRow * BrickRows

  /** Length of brick_save as the source declares it: BRICK_ROWS * BRICKS_PER_ROW / 8 * 2,
      that is 108 / 8 * 2 == 26 in integer arithmetic. */
  const DeclaredLen: nat := BrickRows * BricksPerRow / 8 * 2

  /** Bytes the two-bit addressing actually reaches: four cells per byte, rounded up (27).
      The model stores this many bytes. */
  const PackedLen: nat := (CellCount + 3) / 4

  /** Bytes that reset_bricks zeroes: BRICK_ROWS * BRICKS_PER_ROW / 4 == 27. */
  const ResetLen: nat := BrickRows * BricksPerRow / 4

  /** size_t is 32 bits wide on the wasm32 target; its counters wrap modulo this. */
  const SizeModulus: nat := 0x1_0000_0000

  /** size_t subtraction and multiplication, wrapping modulo 2^32. */
  function SizeSub(a: nat, b: nat): (r: nat)
    ensures r < SizeModulus
    ensures b <= a < SizeModulus ==> r == a - b
  {
    (a - b) % SizeModulus
  }

  function SizeMul(a: nat, b: nat): (r: nat)
    ensures r < SizeModulus
  {
    (a * b) % SizeModulus
  }

  lemma MulMonotone(a: nat, b: nat, c: nat)
    requires a <= b
    ensures a * c <= b * c
  {
  }

  /** Number of entries of brick_color_functions. */
  const ColorFuncCount: nat := 5

  datatype Brick = Brick(destroyed: bool, needsErasing: bool)

  const Fresh: Brick := Brick(false, false)

  /** What a cell reads as after set_brick ORs `b` into `a`. */
  function Merge(a: Brick, b: Brick): Brick {
    Brick(a.destroyed || b.destroyed, a.needsErasing || b.needsErasing)
  }

  /** Trailing padding of the struct on wasm32: 12 header bytes and the array round up to a
      multiple of four. save and load copy it along with the rest. */
  const PaddingLen: nat := 1

  /** SaveState: three size_t counters, the packed brick bytes and the struct's padding. */
  datatype SaveState = SaveState(bricksCount: nat, gameCount: nat, colorFunc: nat, packed: seq<bv8>, padding: seq<bv8>)

  predicate WellFormed(s: SaveState) {
    && |s.packed| == PackedLen
    && |s.padding| == PaddingLen
    && s.bricksCount < SizeModulus
    && s.gameCount < SizeModulus
    && s.colorFunc < SizeModulus
  }

  predicate InGrid(x: nat, y: nat) {
    x < BricksPerRow && y < BrickRows
  }

  /** Row-major cell index `x + y * BRICKS_PER_ROW`; column and row are recovered from it. */
  function CellIndex(x: nat, y: nat): (idx: nat)
    requires InGrid(x, y)
    ensures idx < CellCount
    ensures idx % BricksPerRow == x && idx / BricksPerRow == y
  {
    x + y * BricksPerRow
  }

  /** The byte of brick_save that holds a cell's two bits. Every cell lands inside the
      PackedLen bytes, but exactly the cells from 4 * DeclaredLen == 104 on fall outside
      the array as declared. */
  function ByteIndex(idx: nat): (b: nat)
    requires idx < CellCount
    ensures b < PackedLen
    ensures b < DeclaredLen <==> idx < 4 * DeclaredLen
  {
    idx / 4
  }

  /** The bit of that byte holding `destroyed`; `needsErasing` is the next one up. */
  function BitIndex(idx: nat): (k: nat)
    ensures k < 7 && k % 2 == 0
  {
    (idx % 4) * 2
  }

  function Bit(k: nat): bv8
    requires k < 8
  {
    (1 as bv8) << k
  }

  /** get_brick: decode the two flags of cell `idx`. */
  function GetCell(s: SaveState, idx: nat): Brick
    requires WellFormed(s) && idx < CellCount
  {
    var byte := s.packed[ByteIndex(idx)];
    var k := BitIndex(idx);
    Brick(byte & Bit(k) != 0, byte & Bit(k + 1) != 0)
  }

  function GetBrick(s: SaveState, x: nat, y: nat): Brick
    requires WellFormed(s) && InGrid(x, y)
  {
    GetCell(s, CellIndex(x, y))
  }

  /** The two flag bits of one cell, `destroyed` in the low one. */
  function CellBits(b: Brick): bv8 {
    (if b.destroyed then 1 else 0) | (if b.needsErasing then 2 else 0)
  }

  /** Four consecutive cells in one byte, the m-th in bits 2m and 2m + 1. */
  function PackByte(a: Brick, b: Brick, c: Brick, d: Brick): bv8 {
    CellBits(a) | (CellBits(b) << 2) | (CellBits(c) << 4) | (CellBits(d) << 6)
  }

  /** Reference encoding of a whole grid, written independently of the per-cell accessors:
      byte i holds cells 4i .. 4i + 3. The 108 cells fill the 27 bytes exactly. */
  function Pack(cells: seq<Brick>): (bytes: seq<bv8>)
    requires |cells| == CellCount
    ensures |bytes| == PackedLen
  {
    seq(PackedLen, i requires 0 <= i < PackedLen =>
      PackByte(cells[4 * i], cells[4 * i + 1], cells[4 * i + 2], cells[4 * i + 3]))
  }

  /** The grid as get_brick reads it, in cell order. */
  function Unpack(s: SaveState): (cells: seq<Brick>)
    requires WellFormed(s)
    ensures |cells| == CellCount
  {
    seq(CellCount, idx requires 0 <= idx < CellCount => GetCell(s, idx))
  }

  lemma PackByteDecodes(a: Brick, b: Brick, c: Brick, d: Brick)
    ensures var byte := PackByte(a, b, c, d);
            && Brick(byte & Bit(0) != 0, byte & Bit(1) != 0) == a
            && Brick(byte & Bit(2) != 0, byte & Bit(3) != 0) == b
            && Brick(byte & Bit(4) != 0, byte & Bit(5) != 0) == c
            && Brick(byte & Bit(6) != 0, byte & Bit(7) != 0) == d
  {
    BitValues();
  }

  lemma ByteIsPackOfItsPairs(byte: bv8)
    ensures PackByte(Brick(byte & Bit(0) != 0, byte & Bit(1) != 0), Brick(byte & Bit(2) != 0, byte & Bit(3) != 0),
                     Brick(byte & Bit(4) != 0, byte & Bit(5) != 0), Brick(byte & Bit(6) != 0, byte & Bit(7) != 0))
            == byte
  {
    BitValues();
  }

  lemma BitValues()
    ensures Bit(0) == 1 && Bit(1) == 2 && Bit(2) == 4 && Bit(3) == 8
    ensures Bit(4) == 16 && Bit(5) == 32 && Bit(6) == 64 && Bit(7) == 128
  {
  }

  /** get_brick reads back every cell of a packed grid. */
  lemma UnpackPack(s: SaveState, cells: seq<Brick>)
    requires WellFormed(s) && |cells| == CellCount && s.packed == Pack(cells)
    ensures Unpack(s) == cells
  {
    forall idx | 0 <= idx < CellCount
      ensures GetCell(s, idx) == cells[idx]
    {
      PackedCellDecodes(s, cells, idx);
    }
  }

  /** One cell of a packed grid reads back. */
  lemma PackedCellDecodes(s: SaveState, cells: seq<Brick>, idx: nat)
    requires WellFormed(s) && |cells| == CellCount && s.packed == Pack(cells) && idx < CellCount
    ensures GetCell(s, idx) == cells[idx]
  {
    var i := idx / 4;
    PackByteDecodes(cells[4 * i], cells[4 * i + 1], cells[4 * i + 2], cells[4 * i + 3]);
    assert s.packed[ByteIndex(idx)] == PackByte(cells[4 * i], cells[4 * i + 1], cells[4 * i + 2], cells[4 * i + 3]);
    assert idx == 4 * i + idx % 4;
  }

  /** Every byte array is the packing of the grid get_brick reads from it: no bit of the
      27 bytes lies outside some cell. */
  lemma PackUnpack(s: SaveState)
    requires WellFormed(s)
    ensures Pack(Unpack(s)) == s.packed
  {
    forall i | 0 <= i < PackedLen
      ensures Pack(Unpack(s))[i] == s.packed[i]
    {
      UnpackedByteRepacks(s, i);
    }
  }

  lemma UnpackedByteRepacks(s: SaveState, i: nat)
    requires WellFormed(s) && i < PackedLen
    ensures Pack(Unpack(s))[i] == s.packed[i]
  {
    var cells := Unpack(s);
    assert Pack(cells)[i] == PackByte(cells[4 * i], cells[4 * i + 1], cells[4 * i + 2], cells[4 * i + 3]);
    assert cells[4 * i] == GetCell(s, 4 * i) && cells[4 * i + 1] == GetCell(s, 4 * i + 1);
    assert cells[4 * i + 2] == GetCell(s, 4 * i + 2) && cells[4 * i + 3] == GetCell(s, 4 * i + 3);
    PackedByteRoundTrip(s, i);
  }

  /** One byte is the packing of the four cells it holds. */
  lemma PackedByteRoundTrip(s: SaveState, i: nat)
    requires WellFormed(s) && i < PackedLen
    ensures PackByte(GetCell(s, 4 * i), GetCell(s, 4 * i + 1), GetCell(s, 4 * i + 2), GetCell(s, 4 * i + 3)) == s.packed[i]
  {
    var byte := s.packed[i];
    assert ByteIndex(4 * i) == i && BitIndex(4 * i) == 0;
    assert ByteIndex(4 * i + 1) == i && BitIndex(4 * i + 1) == 2;
    assert ByteIndex(4 * i + 2) == i && BitIndex(4 * i + 2) == 4;
    assert ByteIndex(4 * i + 3) == i && BitIndex(4 * i + 3) == 6;
    ByteIsPackOfItsPairs(byte);
  }

  /** set_brick: OR the brick's flags into the cell's two bits. Nothing is ever cleared. */
  function SetCell(s: SaveState, idx: nat, b: Brick): (r: SaveState)
    requires WellFormed(s) && idx < CellCount
    ensures WellFormed(r)
    ensures r.bricksCount == s.bricksCount && r.gameCount == s.gameCount && r.colorFunc == s.colorFunc
  {
    var i := ByteIndex(idx);
    var k := BitIndex(idx);
    var withDestroyed := s.packed[i] | (if b.destroyed then Bit(k) else 0);
    var withBoth := withDestroyed | (if b.needsErasing then Bit(k + 1) else 0);
    s.(packed := s.packed[i := withBoth])
  }

  /** set_brick by column and row: the cell reads as its old flags OR b's, every other
      cell as before. */
  function SetBrick(s: SaveState, x: nat, y: nat, b: Brick): (r: SaveState)
    requires WellFormed(s) && InGrid(x, y)
    ensures WellFormed(r)
    ensures GetBrick(r, x, y) == Merge(GetBrick(s, x, y), b)
    ensures forall x': nat, y': nat | InGrid(x', y') && (x', y') != (x, y) :: GetBrick(r, x', y') == GetBrick(s, x', y')
  {
    SetGet(s, CellIndex(x, y), b);
    SetCell(s, CellIndex(x, y), b)
  }

  /** Two cells in the same byte use disjoint bit pairs; OR-ing one pair leaves the other. */
  lemma OrKeepsOtherPair(byte: bv8, k: nat, j: nat, d: bool, e: bool)
    requires k < 7 && j < 7 && k % 2 == 0 && j % 2 == 0 && k != j
    ensures ((byte | (if d then Bit(k) else 0)) | (if e then Bit(k + 1) else 0)) & Bit(j)
            == byte & Bit(j)
    ensures ((byte | (if d then Bit(k) else 0)) | (if e then Bit(k + 1) else 0)) & Bit(j + 1)
            == byte & Bit(j + 1)
  {
  }

  /** OR-ing a bit pair makes each flag read as the old flag OR the new one. */
  lemma OrSetsOwnPair(byte: bv8, k: nat, d: bool, e: bool)
    requires k < 7 && k % 2 == 0
    ensures (((byte | (if d then Bit(k) else 0)) | (if e then Bit(k + 1) else 0)) & Bit(k) != 0)
            == (byte & Bit(k) != 0 || d)
    ensures (((byte | (if d then Bit(k) else 0)) | (if e then Bit(k + 1) else 0)) & Bit(k + 1) != 0)
            == (byte & Bit(k + 1) != 0 || e)
  {
  }

  /** Distinct cells sharing a byte have distinct bit positions. */
  lemma DistinctCellsDistinctBits(idx: nat, j: nat)
    requires idx < CellCount && j < CellCount
    requires idx != j && ByteIndex(idx) == ByteIndex(j)
    ensures BitIndex(idx) != BitIndex(j)
  {
  }

  /** set_brick(idx, b) leaves a different cell `j` reading as before. */
  lemma SetGetOther(s: SaveState, idx: nat, b: Brick, j: nat)
    requires WellFormed(s) && idx < CellCount && j < CellCount && j != idx
    ensures GetCell(SetCell(s, idx, b), j) == GetCell(s, j)
  {
    var i := ByteIndex(idx);
    if ByteIndex(j) == i {
      DistinctCellsDistinctBits(idx, j);
      OrKeepsOtherPair(s.packed[i], BitIndex(idx), BitIndex(j), b.destroyed, b.needsErasing);
    }
  }

  lemma SetGetOwn(s: SaveState, idx: nat, b: Brick)
    requires WellFormed(s) && idx < CellCount
    ensures GetCell(SetCell(s, idx, b), idx) == Merge(GetCell(s, idx), b)
  {
    OrSetsOwnPair(s.packed[ByteIndex(idx)], BitIndex(idx), b.destroyed, b.needsErasing);
  }

  /** After set_brick(idx, b) the cell reads as its old flags OR b's, and every other
      cell reads as before. */
  lemma SetGet(s: SaveState, idx: nat, b: Brick)
    requires WellFormed(s) && idx < CellCount
    ensures GetCell(SetCell(s, idx, b), idx) == Merge(GetCell(s, idx), b)
    ensures forall j: nat | j < CellCount && j != idx :: GetCell(SetCell(s, idx, b), j) == GetCell(s, j)
  {
    SetGetOwn(s, idx, b);
    forall j: nat | j < CellCount && j != idx
      ensures GetCell(SetCell(s, idx, b), j) == GetCell(s, j)
    {
      SetGetOther(s, idx, b, j);
    }
  }

  /** set_brick never clears a flag. */
  lemma SetNeverClears(s: SaveState, idx: nat, b: Brick, j: nat)
    requires WellFormed(s) && idx < CellCount && j < CellCount
    ensures GetCell(s, j).destroyed ==> GetCell(SetCell(s, idx, b), j).destroyed
    ensures GetCell(s, j).needsErasing ==> GetCell(SetCell(s, idx, b), j).needsErasing
  {
    SetGet(s, idx, b);
  }

  /** Setting {false, false} changes nothing at all. */
  lemma SetFreshIsNoop(s: SaveState, idx: nat)
    requires WellFormed(s) && idx < CellCount
    ensures SetCell(s, idx, Fresh) == s
  {
    var i := ByteIndex(idx);
    assert s.packed[i] | 0 | 0 == s.packed[i];
    assert s.packed[i := s.packed[i]] == s.packed;
  }

  /** Write-back of a cleared needs_erasing bit (AND with the complement of its mask). The
      save-aware source has no such write; the grid-array variant of the program performs it. */
  function ClearErasing(s: SaveState, idx: nat): (r: SaveState)
    requires WellFormed(s) && idx < CellCount
    ensures WellFormed(r)
    ensures r.bricksCount == s.bricksCount && r.gameCount == s.gameCount && r.colorFunc == s.colorFunc
  {
    var i := ByteIndex(idx);
    s.(packed := s.packed[i := s.packed[i] & !Bit(BitIndex(idx) + 1)])
  }

  /** AND-ing out one cell's erase bit leaves the other pairs of the byte. */
  lemma AndNotKeepsOtherPair(byte: bv8, k: nat, j: nat)
    requires k < 7 && j < 7 && k % 2 == 0 && j % 2 == 0 && k != j
    ensures (byte & !Bit(k + 1)) & Bit(j) == byte & Bit(j)
    ensures (byte & !Bit(k + 1)) & Bit(j + 1) == byte & Bit(j + 1)
  {
  }

  /** ... and of its own pair keeps the `destroyed` bit while clearing the erase bit. */
  lemma AndNotClearsOwnPair(byte: bv8, k: nat)
    requires k < 7 && k % 2 == 0
    ensures (byte & !Bit(k + 1)) & Bit(k) == byte & Bit(k)
    ensures (byte & !Bit(k + 1)) & Bit(k + 1) == 0
  {
  }

  lemma ClearGetOther(s: SaveState, idx: nat, j: nat)
    requires WellFormed(s) && idx < CellCount && j < CellCount && j != idx
    ensures GetCell(ClearErasing(s, idx), j) == GetCell(s, j)
  {
    var i := ByteIndex(idx);
    if ByteIndex(j) == i {
      DistinctCellsDistinctBits(idx, j);
      AndNotKeepsOtherPair(s.packed[i], BitIndex(idx), BitIndex(j));
    }
  }

  /** Clearing the erase flag keeps `destroyed` and touches no other cell. */
  lemma ClearGet(s: SaveState, idx: nat)
    requires WellFormed(s) && idx < CellCount
    ensures GetCell(ClearErasing(s, idx), idx) == Brick(GetCell(s, idx).destroyed, false)
    ensures forall j: nat | j < CellCount && j != idx :: GetCell(ClearErasing(s, idx), j) == GetCell(s, j)
  {
    AndNotClearsOwnPair(s.packed[ByteIndex(idx)], BitIndex(idx));
    forall j: nat | j < CellCount && j != idx
      ensures GetCell(ClearErasing(s, idx), j) == GetCell(s, j)
    {
      ClearGetOther(s, idx, j);
    }
  }

  /** Number of cells below `n` that are not destroyed. */
  function LiveBelow(s: SaveState, n: nat): (c: nat)
    requires WellFormed(s) && n <= CellCount
    ensures c <= n
  {
    if n == 0 then 0
    else LiveBelow(s, n - 1) + (if GetCell(s, n - 1).destroyed then 0 else 1)
  }

  function LiveCount(s: SaveState): nat
    requires WellFormed(s)
  {
    LiveBelow(s, CellCount)
  }

  /** The live count depends only on the `destroyed` flags. */
  lemma {:induction false} LiveBelowFrame(s: SaveState, t: SaveState, n: nat)
    requires WellFormed(s) && WellFormed(t) && n <= CellCount
    requires forall j: nat | j < n :: GetCell(s, j).destroyed == GetCell(t, j).destroyed
    ensures LiveBelow(s, n) == LiveBelow(t, n)
  {
    if n > 0 {
      LiveBelowFrame(s, t, n - 1);
    }
  }

  /** Destroying one live cell, and changing no other cell's `destroyed`, lowers the
      live count by exactly one. */
  lemma {:induction false} LiveBelowDestroy(s: SaveState, t: SaveState, idx: nat, n: nat)
    requires WellFormed(s) && WellFormed(t) && idx < CellCount && n <= CellCount
    requires !GetCell(s, idx).destroyed && GetCell(t, idx).destroyed
    requires forall j: nat | j < CellCount && j != idx :: GetCell(s, j).destroyed == GetCell(t, j).destroyed
    ensures LiveBelow(t, n) + (if idx < n then 1 else 0) == LiveBelow(s, n)
  {
    if n > 0 {
      LiveBelowDestroy(s, t, idx, n - 1);
    }
  }

  /** A grid with no live cell below `n` has every such cell destroyed. */
  lemma {:induction false} NoLiveAllDestroyed(s: SaveState, n: nat)
    requires WellFormed(s) && n <= CellCount && LiveBelow(s, n) == 0
    ensures forall j: nat | j < n :: GetCell(s, j).destroyed
  {
    if n > 0 {
      NoLiveAllDestroyed(s, n - 1);
    }
  }

  /** A grid of fresh cells has all of them live. */
  lemma {:induction false} AllFreshAllLive(s: SaveState, n: nat)
    requires WellFormed(s) && n <= CellCount
    requires forall j: nat | j < n :: GetCell(s, j) == Fresh
    ensures LiveBelow(s, n) == n
  {
    if n > 0 {
      AllFreshAllLive(s, n - 1);
    }
  }

  /** The per-cell loop of reset_bricks, cells k.. in row-major order: it sets every
      cell to {false, false}, which leaves the state exactly as it found it. */
  function ResetLoop(s: SaveState, k: nat): (r: SaveState)
    requires WellFormed(s) && k <= CellCount
    ensures r == s
    decreases CellCount - k
  {
    if k == CellCount then s
    else
      SetFreshIsNoop(s, k);
      ResetLoop(SetCell(s, k, Fresh), k + 1)
  }

  lemma ZeroByteReadsFresh(s: SaveState, idx: nat)
    requires WellFormed(s) && idx < CellCount && s.packed[ByteIndex(idx)] == 0
    ensures GetCell(s, idx) == Fresh
  {
  }

  /** reset_bricks: zero ResetLen bytes, then run the per-cell loop. Every cell reads
      fresh afterwards, so all CellCount cells are live; the counters are untouched. */
  function ResetBricks(s: SaveState): (r: SaveState)
    requires WellFormed(s)
    ensures WellFormed(r)
    ensures r.bricksCount == s.bricksCount && r.gameCount == s.gameCount && r.colorFunc == s.colorFunc
    ensures forall idx: nat | idx < CellCount :: GetCell(r, idx) == Fresh
    ensures LiveCount(r) == CellCount
  {
    var zeroed := s.(packed := seq(ResetLen, _ => 0 as bv8));
    assert forall idx: nat | idx < CellCount :: GetCell(zeroed, idx) == Fresh by {
      forall idx: nat | idx < CellCount
        ensures GetCell(zeroed, idx) == Fresh
      {
        ZeroByteReadsFresh(zeroed, idx);
      }
    }
    AllFreshAllLive(zeroed, CellCount);
    ResetLoop(zeroed, 0)
  }

  /** The state invariant: the counter equals the number of live cells, the colour index
      is a valid table index, and only destroyed cells are flagged for erasing. */
  predicate Consistent(s: SaveState) {
    && WellFormed(s)
    && s.bricksCount == LiveCount(s)
    && s.colorFunc < ColorFuncCount
    && forall idx: nat | idx < CellCount :: GetCell(s, idx).needsErasing ==> GetCell(s, idx).destroyed
  }

  /** init, state part: counters set to a full grid, colour 0, game 0, then the bricks
      reset. `garbage` is whatever malloc returned for the struct. */
  function Init(garbage: SaveState): (r: SaveState)
    requires WellFormed(garbage)
    ensures Consistent(r)
    ensures r.bricksCount == CellCount && r.gameCount == 0 && r.colorFunc == 0
    ensures forall idx: nat | idx < CellCount :: GetCell(r, idx) == Fresh
  {
    ResetBricks(garbage.(bricksCount := CellCount, gameCount := 0, colorFunc := 0))
  }

  /** As declared, brick_save is one byte short: reset_bricks zeroes one byte past its end,
      and the last four cells of the bottom row all address that byte. */
  lemma DeclaredArrayTooShort()
    ensures ResetLen == DeclaredLen + 1 && PackedLen == ResetLen
    ensures ByteIndex(CellIndex(4, BrickRows - 1)) < DeclaredLen
    ensures ByteIndex(CellIndex(5, BrickRows - 1)) == DeclaredLen
    ensures ByteIndex(CellIndex(8, BrickRows - 1)) == DeclaredLen
  {
  }
}
