/**
  The vector registers in the XSAVE buffer and their flat copy (src/regManip.h, src/regManip.cpp).

  VecRegsState is one array of bytes: the XSave structure, whose members are byte arrays and
  leave no gaps, then the `zmm` array.  The locations are computed twice: as the source
  computes them, and row by row as the drawing in the source means them.
 */
module VectorState {
  import opened Bits
  import opened Options

  const XMM_BYTES := 16
  const YMM_HI_BYTES := 16
  const YMM_BYTES := 32
  const ZMM_HI_BYTES := 32
  const ZMM_BYTES := 64
  const NUM_ZMM_REGS := 32

  // Members of XSave, by the offset of their first byte.
  const XMM_0TO15 := 160
  const LEGACY_RESERVED := 416
  const YMM_HI128_0TO15 := 576
  const OPMASK_0TO7 := 832
  const ZMM_HI256_0TO15 := 896
  const ZMM_FULL_16TO31 := 1408
  const XSAVE_SIZE := 2432

  // The zmm array follows the XSave structure.
  const ZMM_CELLS := 2048
  const IMAGE_SIZE := 4480

  type Image = s: seq<Byte> | |s| == IMAGE_SIZE witness seq(IMAGE_SIZE, i => 0)

  datatype Layout = AsWritten | RowExact

  /** The byte of a register; None is the fatal error of a register or byte out of bounds. */
  function ZmmOffset(layout: Layout, reg: nat, byte: nat): Option<nat> {
    match layout
    case AsWritten =>
      if reg <= 15 then
        if byte <= XMM_BYTES then Some(XMM_0TO15 + XMM_BYTES * reg + byte)
        else if byte <= YMM_BYTES then Some(YMM_HI128_0TO15 + YMM_HI_BYTES * reg + (byte - YMM_HI_BYTES))
        else if byte <= ZMM_BYTES then Some(ZMM_HI256_0TO15 + ZMM_HI_BYTES * reg + (byte - ZMM_HI_BYTES))
        else None
      else if reg <= 31 then Some(ZMM_FULL_16TO31 + ZMM_BYTES * reg + byte)
      else None
    case RowExact =>
      if reg >= 32 || byte >= ZMM_BYTES then None
      else if reg >= 16 then Some(ZMM_FULL_16TO31 + ZMM_BYTES * (reg - 16) + byte)
      else if byte < XMM_BYTES then Some(XMM_0TO15 + XMM_BYTES * reg + byte)
      else if byte < YMM_BYTES then Some(YMM_HI128_0TO15 + YMM_HI_BYTES * reg + (byte - XMM_BYTES))
      else Some(ZMM_HI256_0TO15 + ZMM_HI_BYTES * reg + (byte - YMM_BYTES))
  }

  /** The location of cell `k` of the flat array, which is byte k % 64 of register k / 64. */
  function Off(layout: Layout, k: nat): (x: nat)
    requires k < ZMM_CELLS
    ensures x < IMAGE_SIZE
  {
    ZmmOffset(layout, k / ZMM_BYTES, k % ZMM_BYTES).value
  }

  /** Cell `k` of the flat array. */
  function Cell(mem: Image, k: nat): Byte
    requires k < ZMM_CELLS
  {
    mem[XSAVE_SIZE + k]
  }

  predicate InVectorArea(x: nat) {
    XMM_0TO15 <= x < LEGACY_RESERVED || YMM_HI128_0TO15 <= x < OPMASK_0TO7 || ZMM_HI256_0TO15 <= x < XSAVE_SIZE
  }

  // ---------------------------------------------------------------- the copies

  function ImportUpTo(layout: Layout, mem: Image, n: nat): Image
    requires n <= ZMM_CELLS
  {
    if n == 0 then mem else
    var m := ImportUpTo(layout, mem, n - 1);
    m[XSAVE_SIZE + n - 1 := m[Off(layout, n - 1)]]
  }

  function ExportUpTo(layout: Layout, mem: Image, n: nat): Image
    requires n <= ZMM_CELLS
  {
    if n == 0 then mem else
    var m := ExportUpTo(layout, mem, n - 1);
    m[Off(layout, n - 1) := m[XSAVE_SIZE + n - 1]]
  }

  function Import(layout: Layout, mem: Image): Image {
    ImportUpTo(layout, mem, ZMM_CELLS)
  }

  function Export(layout: Layout, mem: Image): Image {
    ExportUpTo(layout, mem, ZMM_CELLS)
  }

  class VecRegsState {
    const mem: array<Byte>

    ghost predicate Valid() {
      mem.Length == IMAGE_SIZE
    }

    constructor ()
      ensures Valid() && fresh(mem)
      ensures mem[..] == seq(IMAGE_SIZE, i => 0)
    {
      mem := new Byte[IMAGE_SIZE](i => 0);
    }

    method ImportData()
      requires Valid()
      modifies mem
      ensures mem[..] == Import(AsWritten, old(mem[..]))
    {
      hide Off, ZmmOffset;
      for reg := 0 to NUM_ZMM_REGS
        invariant mem[..] == ImportUpTo(AsWritten, old(mem[..]), ZMM_BYTES * reg)
      {
        for byte := 0 to ZMM_BYTES
          invariant mem[..] == ImportUpTo(AsWritten, old(mem[..]), ZMM_BYTES * reg + byte)
        {
          var k := ZMM_BYTES * reg + byte;
          CellIndex(reg, byte);
          mem[XSAVE_SIZE + k] := mem[ZmmOffset(AsWritten, reg, byte).value];
        }
      }
    }

    method ExportData()
      requires Valid()
      modifies mem
      ensures mem[..] == Export(AsWritten, old(mem[..]))
    {
      hide Off, ZmmOffset;
      for reg := 0 to NUM_ZMM_REGS
        invariant mem[..] == ExportUpTo(AsWritten, old(mem[..]), ZMM_BYTES * reg)
      {
        for byte := 0 to ZMM_BYTES
          invariant mem[..] == ExportUpTo(AsWritten, old(mem[..]), ZMM_BYTES * reg + byte)
        {
          var k := ZMM_BYTES * reg + byte;
          CellIndex(reg, byte);
          mem[ZmmOffset(AsWritten, reg, byte).value] := mem[XSAVE_SIZE + k];
        }
      }
    }
  }

  lemma CellIndex(reg: nat, byte: nat)
    requires reg < NUM_ZMM_REGS && byte < ZMM_BYTES
    ensures (ZMM_BYTES * reg + byte) / ZMM_BYTES == reg && (ZMM_BYTES * reg + byte) % ZMM_BYTES == byte
    ensures ZMM_BYTES * reg + byte < ZMM_CELLS
    ensures forall layout :: ZmmOffset(layout, reg, byte).Some?
    ensures forall layout :: Off(layout, ZMM_BYTES * reg + byte) == ZmmOffset(layout, reg, byte).value
  {
  }

  // ---------------------------------------------------------------- locations

  /** As written, registers 16 to 31 lie past the buffer, in rows 0 to 15 of the flat array. */
  lemma OffRange(layout: Layout, k: nat)
    requires k < ZMM_CELLS
    ensures k < 1024 || layout.RowExact? ==> Off(layout, k) < XSAVE_SIZE
    ensures k >= 1024 && layout.AsWritten? ==> Off(layout, k) == XSAVE_SIZE + k - 1024
    ensures layout.RowExact? ==> InVectorArea(Off(layout, k))
  {
  }

  /** The row-exact cell that lies at a location of the vector area. */
  function CellAt(x: nat): (k: nat)
    requires InVectorArea(x)
    ensures k < ZMM_CELLS
  {
    if x < LEGACY_RESERVED then ZMM_BYTES * ((x - XMM_0TO15) / XMM_BYTES) + (x - XMM_0TO15) % XMM_BYTES
    else if x < OPMASK_0TO7 then
      ZMM_BYTES * ((x - YMM_HI128_0TO15) / YMM_HI_BYTES) + (x - YMM_HI128_0TO15) % YMM_HI_BYTES + XMM_BYTES
    else if x < ZMM_FULL_16TO31 then
      ZMM_BYTES * ((x - ZMM_HI256_0TO15) / ZMM_HI_BYTES) + (x - ZMM_HI256_0TO15) % ZMM_HI_BYTES + YMM_BYTES
    else x - ZMM_FULL_16TO31 + 1024
  }

  /** Row-exact locations map the 2048 cells one to one onto the vector area. */
  lemma RowExactInjective(k: nat)
    requires k < ZMM_CELLS
    ensures InVectorArea(Off(RowExact, k)) && CellAt(Off(RowExact, k)) == k
  {
    OffRange(RowExact, k);
    var r, b := k / 64, k % 64;
    assert k == 64 * r + b;
    CellIndex(r, b);
    if r < 16 {
      if b < 16 { RowAndByte(r, b, 16); }
      else if b < 32 { RowAndByte(r, b - 16, 16); }
      else { RowAndByte(r, b - 32, 32); }
    }
  }

  lemma RowAndByte(r: nat, b: nat, n: nat)
    requires b < n && (n == 16 || n == 32)
    ensures (n * r + b) / n == r && (n * r + b) % n == b
  {
    if n == 16 { assert (16 * r + b) / 16 == r; } else { assert (32 * r + b) / 32 == r; }
  }

  lemma RowExactOnto(x: nat)
    requires InVectorArea(x)
    ensures Off(RowExact, CellAt(x)) == x
  {
    if x < LEGACY_RESERVED { CellIndex((x - XMM_0TO15) / 16, (x - XMM_0TO15) % 16); }
    else if x < OPMASK_0TO7 { CellIndex((x - YMM_HI128_0TO15) / 16, (x - YMM_HI128_0TO15) % 16 + XMM_BYTES); }
    else if x < ZMM_FULL_16TO31 { CellIndex((x - ZMM_HI256_0TO15) / 32, (x - ZMM_HI256_0TO15) % 32 + YMM_BYTES); }
    else {
      CellIndex((x - ZMM_FULL_16TO31) / 64 + 16, (x - ZMM_FULL_16TO31) % 64);
      assert CellAt(x) == 64 * ((x - ZMM_FULL_16TO31) / 64 + 16) + (x - ZMM_FULL_16TO31) % 64;
    }
  }

  /** The row-exact location of a byte of a register, in bits, as the drawing of the XSAVE area gives it. */
  lemma RowExactDrawing(reg: nat, byte: nat)
    requires reg < 32 && byte < 64
    ensures 8 * Off(RowExact, 64 * reg + byte) ==
            if reg >= 16 then 11264 + 512 * (reg - 16) + 8 * byte
            else if byte < 16 then 1280 + 128 * reg + 8 * byte
            else if byte < 32 then 4608 + 128 * reg + 8 * (byte - 16)
            else 7168 + 256 * reg + 8 * (byte - 32)
  {
    CellIndex(reg, byte);
  }

  /** As written, bytes 16 and 32 of registers 0 to 15 are misplaced, and all bytes of the others by 1024. */
  lemma LayoutsAgreeIff(k: nat)
    requires k < ZMM_CELLS
    ensures k < 1024 ==> (Off(AsWritten, k) == Off(RowExact, k) <==> k % 64 != 16 && k % 64 != 32)
    ensures k >= 1024 ==> Off(AsWritten, k) == Off(RowExact, k) + 1024
    ensures k < 960 && k % 64 == 16 ==> Off(AsWritten, k) == Off(RowExact, k + 64 - 16)
    ensures k < 960 && k % 64 == 32 ==> Off(AsWritten, k) == Off(RowExact, k + 64 - 16)
  {
    var reg, byte := k / 64, k % 64;
    assert k == 64 * reg + byte;
    CellIndex(reg, byte);
    if reg < 15 { CellIndex(reg + 1, if byte >= 16 then byte - 16 else 0); }
  }

  /** The only cells that share a location as written: byte 16 of a row and byte 0 of the next. */
  lemma AsWrittenSharing(j: nat, k: nat)
    requires j < k < ZMM_CELLS
    ensures Off(AsWritten, j) == Off(AsWritten, k) <==> j % 64 == 16 && j / 64 < 15 && k == j + 48
  {
    var rj, bj, rk, bk := j / 64, j % 64, k / 64, k % 64;
    assert j == 64 * rj + bj && k == 64 * rk + bk;
  }

  // ---------------------------------------------------------------- what the copies leave

  /** The last of the first `n` cells that is exported to location `x`. */
  function LastWriter(layout: Layout, n: nat, x: nat): (r: Option<nat>)
    requires n <= ZMM_CELLS
    ensures r.Some? ==> r.value < n && Off(layout, r.value) == x
    ensures forall k :: (if r.Some? then r.value + 1 else 0) <= k < n ==> Off(layout, k) != x
  {
    if n == 0 then None else if Off(layout, n - 1) == x then Some(n - 1) else LastWriter(layout, n - 1, x)
  }

  /** Each location ends with the value its last writer had at the start. */
  lemma {:induction false} ExportAt(layout: Layout, mem: Image, n: nat, x: nat)
    requires n <= ZMM_CELLS && x < IMAGE_SIZE
    ensures ExportUpTo(layout, mem, n)[x] ==
            var w := LastWriter(layout, n, x);
            if w.Some? then Cell(mem, w.value) else mem[x]
    decreases n
  {
    hide Off;
    if n > 0 {
      var cell := XSAVE_SIZE + n - 1;
      ExportAt(layout, mem, n - 1, x);
      ExportAt(layout, mem, n - 1, cell);
      var w := LastWriter(layout, n - 1, cell);
      if w.Some? { OffRange(layout, w.value); }
      var m := ExportUpTo(layout, mem, n - 1);
      assert m[cell] == Cell(mem, n - 1);
      assert ExportUpTo(layout, mem, n) == m[Off(layout, n - 1) := m[cell]];
    }
  }

  /** Import reads each cell from where it lies; a cell that lies in the flat array itself is a copy of another cell. */
  lemma {:induction false} ImportAt(layout: Layout, mem: Image, n: nat, x: nat)
    requires n <= ZMM_CELLS && x < IMAGE_SIZE
    ensures ImportUpTo(layout, mem, n)[x] ==
            if XSAVE_SIZE <= x < XSAVE_SIZE + n then ImportSource(layout, mem, x - XSAVE_SIZE) else mem[x]
    decreases n
  {
    hide Off;
    if n > 0 {
      ImportAt(layout, mem, n - 1, x);
      ImportAt(layout, mem, n - 1, Off(layout, n - 1));
      OffRange(layout, n - 1);
      if n - 1 >= 1024 { OffRange(layout, n - 1 - 1024); }
    }
  }

  /** The byte that cell `k` is filled with. */
  function ImportSource(layout: Layout, mem: Image, k: nat): Byte
    requires k < ZMM_CELLS
  {
    OffRange(layout, k);
    if Off(layout, k) < XSAVE_SIZE then mem[Off(layout, k)]
    else OffRange(layout, k - 1024); mem[Off(layout, k - 1024)]
  }

  ghost predicate SameCells(a: Image, b: Image) {
    forall k :: 0 <= k < ZMM_CELLS ==> Cell(a, k) == Cell(b, k)
  }

  /** Exporting what was just imported changes nothing at all, in either layout. */
  lemma ExportAfterImport(layout: Layout, mem: Image)
    ensures Export(layout, Import(layout, mem)) == Import(layout, mem)
    ensures forall x :: 0 <= x < XSAVE_SIZE ==> Export(layout, Import(layout, mem))[x] == mem[x]
  {
    var m := Import(layout, mem);
    forall x | 0 <= x < IMAGE_SIZE
      ensures Export(layout, m)[x] == m[x] && (x < XSAVE_SIZE ==> m[x] == mem[x])
    {
      ExportAt(layout, m, ZMM_CELLS, x);
      ImportAt(layout, mem, ZMM_CELLS, x);
      var w := LastWriter(layout, ZMM_CELLS, x);
      if w.Some? {
        ImportAt(layout, mem, ZMM_CELLS, XSAVE_SIZE + w.value);
        OffRange(layout, w.value);
        if x >= XSAVE_SIZE { OffRange(layout, w.value - 1024); }
      }
    }
  }

  /** Row by row, import undoes export for every flat array, and export stays within the vector area. */
  lemma ImportAfterExportRowExact(mem: Image)
    ensures SameCells(Import(RowExact, Export(RowExact, mem)), mem)
    ensures forall x :: 0 <= x < IMAGE_SIZE && !InVectorArea(x) ==> Export(RowExact, mem)[x] == mem[x]
    ensures forall x :: 0 <= x < XSAVE_SIZE && InVectorArea(x) ==>
              Export(RowExact, mem)[x] == Cell(mem, CellAt(x))
  {
    var e := Export(RowExact, mem);
    forall x | 0 <= x < IMAGE_SIZE
      ensures !InVectorArea(x) ==> e[x] == mem[x]
      ensures InVectorArea(x) ==> e[x] == Cell(mem, CellAt(x))
    {
      ExportAt(RowExact, mem, ZMM_CELLS, x);
      var w := LastWriter(RowExact, ZMM_CELLS, x);
      if w.Some? { RowExactInjective(w.value); }
      if InVectorArea(x) { RowExactOnto(x); }
    }
    forall k | 0 <= k < ZMM_CELLS ensures Cell(Import(RowExact, e), k) == Cell(mem, k) {
      ImportAt(RowExact, e, ZMM_CELLS, XSAVE_SIZE + k);
      RowExactInjective(k);
      OffRange(RowExact, k);
    }
  }

  // ---------------------------------------------------------------- as written

  /** Byte 16 of rows 0 to 14 repeats byte 0 of the next row, and rows 16 to 31 repeat rows 0 to 15. */
  ghost predicate Redundant(mem: Image) {
    && (forall k :: 0 <= k < 1024 && k % 64 == 16 && k / 64 < 15 ==>
          Cell(mem, k) == Cell(mem, k + 48))
    && (forall k :: 1024 <= k < ZMM_CELLS ==> Cell(mem, k) == Cell(mem, k - 1024))
  }

  /** The cell whose value location Off(k) holds after an export. */
  function Winner(k: nat): (w: nat)
    requires k < 1024
    ensures w < 1024
  {
    if k % 64 == 16 && k / 64 < 15 then k + 48 else k
  }

  lemma LastWriterAsWritten(k: nat)
    requires k < ZMM_CELLS
    ensures k < 1024 ==> LastWriter(AsWritten, ZMM_CELLS, Off(AsWritten, k)) == Some(Winner(k))
    ensures k >= 1024 ==> LastWriter(AsWritten, ZMM_CELLS, Off(AsWritten, k)) == Some(k)
  {
    var x := Off(AsWritten, k);
    var w := LastWriter(AsWritten, ZMM_CELLS, x).value;
    if w != k { AsWrittenSharing(k, w); }
    if k < 1024 && Winner(k) != k { AsWrittenSharing(k, k + 48); }
  }

  /** What the round trip as written leaves in a cell. */
  lemma RoundTripAsWritten(mem: Image, k: nat)
    requires k < ZMM_CELLS
    ensures Cell(Import(AsWritten, Export(AsWritten, mem)), k) == Cell(mem, Winner(if k < 1024 then k else k - 1024))
  {
    var e := Export(AsWritten, mem);
    var j := if k < 1024 then k else k - 1024;
    ImportAt(AsWritten, e, ZMM_CELLS, XSAVE_SIZE + k);
    OffRange(AsWritten, k);
    OffRange(AsWritten, j);
    ExportAt(AsWritten, mem, ZMM_CELLS, Off(AsWritten, j));
    LastWriterAsWritten(j);
  }

  /** As written, import undoes export exactly for the redundant flat arrays. */
  lemma ImportAfterExportAsWrittenIff(mem: Image)
    ensures SameCells(Import(AsWritten, Export(AsWritten, mem)), mem) <==> Redundant(mem)
  {
    var m := Import(AsWritten, Export(AsWritten, mem));
    forall k | 0 <= k < ZMM_CELLS
      ensures Cell(m, k) == Cell(mem, Winner(if k < 1024 then k else k - 1024))
    {
      RoundTripAsWritten(mem, k);
    }
    if SameCells(m, mem) {
      forall k | 0 <= k < 1024 && k % 64 == 16 && k / 64 < 15
        ensures Cell(mem, k) == Cell(mem, k + 48)
      {
        assert Winner(k) == k + 48 && Cell(m, k) == Cell(mem, k);
      }
      forall k | 1024 <= k < ZMM_CELLS ensures Cell(mem, k) == Cell(mem, k - 1024) {
        assert Cell(m, k) == Cell(mem, k) && Cell(m, k - 1024) == Cell(mem, k - 1024);
      }
    }
  }

  /** As written, export also overwrites the first reserved byte and the first opmask byte, from register 15. */
  lemma ExportSpillsAsWritten(mem: Image, x: nat)
    requires x < XSAVE_SIZE && !InVectorArea(x)
    ensures Export(AsWritten, mem)[x] ==
            if x == LEGACY_RESERVED then Cell(mem, 64 * 15 + 16)
            else if x == OPMASK_0TO7 then Cell(mem, 64 * 15 + 32)
            else mem[x]
  {
    ExportAt(AsWritten, mem, ZMM_CELLS, x);
    var w := LastWriter(AsWritten, ZMM_CELLS, x);
    assert Off(AsWritten, 976) == LEGACY_RESERVED && Off(AsWritten, 992) == OPMASK_0TO7;
    if w.Some? {
      OffRange(AsWritten, w.value);
      SpillingCells(w.value);
    }
  }

  lemma SpillingCells(k: nat)
    requires k < 1024 && !InVectorArea(Off(AsWritten, k))
    ensures (k == 976 && Off(AsWritten, k) == LEGACY_RESERVED) || (k == 992 && Off(AsWritten, k) == OPMASK_0TO7)
  {
    var r, b := k / 64, k % 64;
    assert k == 64 * r + b;
  }
}
