/** The KS0108 display driver: drawing a bitmap through two page-organised controllers
    (mcucpp/drivers/KS0108.h). */
module KS0108 {
  import opened Bits8

  /** The bits of an output mode: the operations it asks for. */
  datatype Mode = Mode(opAnd: bool, opXor: bool, opCopy: bool, opInvert: bool) {
    /** A mode a page write can see: one of three operations, with or without inversion. */
    predicate IsWriteMode()
    {
      if opAnd then !opXor && !opCopy else opXor != opCopy
    }

    /** The five modes a client can select: there is no inverted exclusive or. */
    predicate IsOutputMode() { IsWriteMode() && !(opXor && opInvert) }

    function Toggle(): Mode { this.(opInvert := !opInvert) }
  }

  const WriteMode := Mode(false, false, true, false)
  const XorMode := Mode(false, true, false, false)
  const AndMode := Mode(true, false, false, false)
  const AndNotMode := Mode(true, false, false, true)
  const InvertMode := Mode(false, false, true, true)

  /** What a mode does to one pixel. */
  function Combine(mode: Mode, dot: bool, src: bool): bool
  {
    var s := src != (mode.opInvert);
    if mode.opCopy then s
    else if mode.opXor then dot != s
    else dot && s
  }

  /** The five output modes, and no others. */
  lemma OutputModes(mode: Mode, dot: bool, src: bool)
    ensures mode.IsOutputMode() <==> mode in {WriteMode, XorMode, AndMode, AndNotMode, InvertMode}
    ensures Combine(WriteMode, dot, src) == src
    ensures Combine(XorMode, dot, src) == (dot != src)
    ensures Combine(AndMode, dot, src) == (dot && src)
    ensures Combine(AndNotMode, dot, src) == (dot && !src)
    ensures Combine(InvertMode, dot, src) == !src
  {
  }

  /** The byte that a page write stores, given the byte that it read back. */
  function MergeByte(mode: Mode, dest: bv8, data: bv8, mask: bv8): bv8
  {
    if mask != 0 || mode.opXor || mode.opAnd then
      Blend(mode, dest, if mode.opInvert then data ^ !mask else data, mask)
    else if mode.opInvert then data ^ 0xFF
    else data
  }

  function Blend(mode: Mode, dest: bv8, d: bv8, mask: bv8): bv8
  {
    if mode.opCopy then (dest & mask) | d
    else
      var x := if mode.opXor then d ^ dest else d;
      if mode.opAnd then (x | mask) & dest else x
  }

  /** Bits under the mask survive, the others are combined with the data. */
  lemma MergeBit(mode: Mode, dest: bv8, data: bv8, mask: bv8, i: nat)
    requires mode.IsWriteMode() && i < 8
    requires Bit(mask, i) ==> !Bit(data, i)
    ensures Bit(MergeByte(mode, dest, data, mask), i)
         == if Bit(mask, i) then Bit(dest, i) else Combine(mode, Bit(dest, i), Bit(data, i))
  {
    if mode.opCopy {
      MergeCopy(mode, dest, data, mask, i);
    } else if mode.opXor {
      MergeXor(mode, dest, data, mask, i);
    } else {
      MergeAnd(mode, dest, data, mask, i);
    }
  }

  lemma InvertBit(data: bv8, mask: bv8, i: nat)
    requires i < 8
    ensures Bit(data ^ !mask, i) == (Bit(data, i) != !Bit(mask, i))
  {
    BitNot(mask, i);
    BitXor(data, !mask, i);
  }

  lemma MergeCopy(mode: Mode, dest: bv8, data: bv8, mask: bv8, i: nat)
    requires i < 8 && (Bit(mask, i) ==> !Bit(data, i))
    requires mode.IsWriteMode() && mode.opCopy
    ensures Bit(MergeByte(mode, dest, data, mask), i)
         == if Bit(mask, i) then Bit(dest, i) else Bit(data, i) != mode.opInvert
  {
    hide Bit;
    var d := if mode.opInvert then data ^ !mask else data;
    if mask == 0 {
      BitConst(i);
      BitXor(data, 0xFF, i);
    } else {
      InvertBit(data, mask, i);
      BitAnd(dest, mask, i);
      BitOr(dest & mask, d, i);
    }
  }

  lemma MergeXor(mode: Mode, dest: bv8, data: bv8, mask: bv8, i: nat)
    requires i < 8 && (Bit(mask, i) ==> !Bit(data, i))
    requires mode.IsWriteMode() && mode.opXor
    ensures Bit(MergeByte(mode, dest, data, mask), i)
         == if Bit(mask, i) then Bit(dest, i) else Bit(dest, i) != (Bit(data, i) != mode.opInvert)
  {
    hide Bit;
    var d := if mode.opInvert then data ^ !mask else data;
    InvertBit(data, mask, i);
    BitXor(d, dest, i);
  }

  lemma MergeAnd(mode: Mode, dest: bv8, data: bv8, mask: bv8, i: nat)
    requires i < 8 && (Bit(mask, i) ==> !Bit(data, i))
    requires mode.IsWriteMode() && mode.opAnd
    ensures Bit(MergeByte(mode, dest, data, mask), i)
         == if Bit(mask, i) then Bit(dest, i) else Bit(dest, i) && Bit(data, i) != mode.opInvert
  {
    hide Bit;
    var d := if mode.opInvert then data ^ !mask else data;
    assert MergeByte(mode, dest, data, mask) == (d | mask) & dest;
    InvertBit(data, mask, i);
    OrAndBit(d, mask, dest, i);
  }

  lemma OrAndBit(d: bv8, mask: bv8, dest: bv8, i: nat)
    requires i < 8
    ensures Bit((d | mask) & dest, i) <==> (Bit(d, i) || Bit(mask, i)) && Bit(dest, i)
  {
    BitOr(d, mask, i);
    BitAnd(d | mask, dest, i);
  }

  /** The bits of a page that lie outside rows `pageStart .. pageEnd`. */
  function PageMask(pageStart: nat, pageEnd: nat): bv8
    requires 0 < pageEnd
  {
    ((1 << (pageStart % 8)) - 1) | (0xFE << ((pageEnd - 1) % 8))
  }

  lemma PageMaskBit(pageStart: nat, pageEnd: nat, i: nat)
    requires pageStart < pageEnd <= pageStart / 8 * 8 + 8 && i < 8
    ensures Bit(PageMask(pageStart, pageEnd), i) <==> !(pageStart % 8 <= i <= (pageEnd - 1) % 8)
  {
  }

  /** A controller: its page and column registers, its output register and 8 pages of 64 bytes. */
  datatype Chip = Chip(page: nat, column: nat, output: bv8, ram: seq<bv8>) {
    predicate Valid() { page < 8 && column < 64 && |ram| == 512 }

    /** The byte the registers point at. */
    function Address(): nat { page * 64 + column }

    function Advance(): Chip { this.(column := if column == 63 then 0 else column + 1) }

    /** A falling edge of E: a command, a data write or a data read, as the control lines say. */
    function Clock(di: bool, rw: bool, bus: bv8): (c: Chip)
      requires Valid()
      ensures c.Valid()
    {
      if di && rw then Advance().(output := ram[Address()])
      else if di then Advance().(ram := ram[Address() := bus])
      else if rw then this
      else Command(bus)
    }

    function Command(cmd: bv8): (c: Chip)
      requires Valid()
      ensures c.Valid()
    {
      if cmd & 0xC0 == 0x40 then CommandRange(cmd); this.(column := (cmd & 0x3F) as nat)
      else if cmd & 0xF8 == 0xB8 then this.(page := (cmd & 0x07) as nat)
      else this
    }
  }

  lemma CommandRange(cmd: bv8)
    ensures cmd & 0x3F < 64
  {
  }

  lemma CommandBits(cmd: bv8)
    ensures cmd & 0xC0 == 0x40 <==> 0x40 <= cmd <= 0x7F
    ensures cmd & 0xF8 == 0xB8 <==> 0xB8 <= cmd <= 0xBF
    ensures 0x40 <= cmd <= 0x7F ==> cmd & 0x3F == cmd - 0x40
    ensures 0xB8 <= cmd <= 0xBF ==> cmd & 0x07 == cmd - 0xB8
  {
  }

  /** What an edge changes: data accesses step the column cyclically, two ranges of commands set a register, and
      nothing else has an effect. */
  lemma ClockEffects(c: Chip, di: bool, rw: bool, bus: bv8)
    requires c.Valid()
    ensures var r := c.Clock(di, rw, bus);
            && (di ==> r.page == c.page && r.column == (c.column + 1) % 64)
            && (di && rw ==> r.ram == c.ram && r.output == c.ram[c.page * 64 + c.column])
            && (di && !rw ==> r.output == c.output && r.ram == c.ram[c.page * 64 + c.column := bus])
            && (!di && rw ==> r == c)
            && (!di && !rw ==> r == if 0x40 <= bus <= 0x7F then c.(column := (bus - 0x40) as nat)
                                    else if 0xB8 <= bus <= 0xBF then c.(page := (bus - 0xB8) as nat)
                                    else c)
  {
    CommandBits(bus);
  }

  lemma ByteRoundTrip(x: nat)
    requires x < 64
    ensures (x as bv8) as nat == x && (x as bv8) & 0x3F == (x as bv8)
  {
    ByteValue(x);
    ByteMask(x);
  }

  lemma ByteValue(x: nat)
    requires x < 64
    ensures (x as bv8) as nat == x
  {
  }

  lemma ByteMask(x: nat)
    requires x < 64
    ensures (x as bv8) & 0x3F == (x as bv8)
  {
  }

  lemma SetAddressByte(b: bv8)
    requires b & 0x3F == b
    ensures (0x40 | b) & 0xC0 == 0x40 && (0x40 | b) & 0x3F == b
  {
  }

  lemma AddressCommand(c: Chip, x: nat)
    requires c.Valid() && x < 64
    ensures c.Clock(false, false, 0x40 | (x as bv8)) == c.(column := x)
  {
    ByteRoundTrip(x);
    SetAddressByte(x as bv8);
  }

  lemma SetPageByte(page: nat)
    requires page < 8
    ensures (0xB8 | (page as bv8)) & 0xF8 == 0xB8 && ((0xB8 | (page as bv8)) & 0x07) as nat == page
    ensures (0xB8 | (page as bv8)) & 0xC0 != 0x40
  {
  }

  lemma PageCommand(c: Chip, page: nat)
    requires c.Valid() && page < 8
    ensures c.Clock(false, false, 0xB8 | (page as bv8)) == c.(page := page)
  {
    SetPageByte(page);
  }

  /** A controller after a merged write to the byte its registers point at. */
  function Stored(c: Chip, mode: Mode, data: bv8, mask: bv8): (c': Chip)
    requires c.Valid()
    ensures c'.Valid()
  {
    c.Advance().(ram := c.ram[c.Address() := MergeByte(mode, c.ram[c.Address()], data, mask)])
  }

  /** A picture with `width * height` dots; only dots inside it may be asked for. */
  datatype Bitmap = Bitmap(width: nat, height: nat, dot: (int, int) --> bool) {
    ghost predicate Valid()
    {
      forall dx, dy :: 0 <= dx < width && 0 <= dy < height ==> dot.requires(dx, dy)
    }
  }

  /** The pixel at column `px`, row `py` of two 64-column memories side by side. */
  predicate Pixel(left: seq<bv8>, right: seq<bv8>, px: nat, py: nat)
    requires |left| == 512 && |right| == 512 && px < 128 && py < 64
  {
    if px < 64 then ChipPixel(left, px, py) else ChipPixel(right, px - 64, py)
  }

  function Min(a: int, b: int): int { if a > b then b else a }

  function Max(a: int, b: int): int { if a > b then a else b }

  /** The mode in force while a bitmap is drawn. */
  function DrawingMode(mode: Mode, foreground: bool): Mode
  {
    if foreground then mode else mode.Toggle()
  }

  /** Drawing in the background colour is drawing the complemented source in the client's mode. */
  lemma BackgroundComplements(mode: Mode, foreground: bool, dot: bool, src: bool)
    ensures Combine(DrawingMode(mode, foreground), dot, src) == Combine(mode, dot, src == foreground)
  {
  }

  /** The display went from memories `l0, r0` to `l, r` by combining the pixels of columns `x0 .. x1` and rows
      `y0 .. y1` with the bitmap at `(x, y)`, and nothing else. */
  ghost predicate Drawn(l0: seq<bv8>, r0: seq<bv8>, l: seq<bv8>, r: seq<bv8>, bitmap: Bitmap, x: int, y: int,
                        mode: Mode, x0: int, x1: int, y0: int, y1: int)
  {
    && |l0| == |r0| == |l| == |r| == 512 && bitmap.Valid()
    && x <= x0 && x1 <= x + bitmap.width && y <= y0 && y1 <= y + bitmap.height
    && forall px: nat, py: nat :: px < 128 && py < 64 ==>
      Pixel(l, r, px, py) == if x0 <= px < x1 && y0 <= py < y1
                             then Combine(mode, Pixel(l0, r0, px, py), bitmap.dot(px - x, py - y))
                             else Pixel(l0, r0, px, py)
  }

  /** A whole drawing, in terms of the client's mode and colour and clipped by nothing but the display. */
  lemma DrawnPixels(l0: seq<bv8>, r0: seq<bv8>, l: seq<bv8>, r: seq<bv8>, bitmap: Bitmap, x: int, y: int, mode: Mode,
                    foreground: bool)
    requires Drawn(l0, r0, l, r, bitmap, x, y, DrawingMode(mode, foreground), Max(0, x), Min(bitmap.width + x, 128),
                 Max(0, y), Min(y + bitmap.height, 64))
    ensures forall px: nat, py: nat :: px < 128 && py < 64 ==>
              Pixel(l, r, px, py) == if x <= px < x + bitmap.width && y <= py < y + bitmap.height
                                     then Combine(mode, Pixel(l0, r0, px, py), bitmap.dot(px - x, py - y) == foreground)
                                     else Pixel(l0, r0, px, py)
  {
    hide ChipPixel, Pixel, Combine, DrawingMode;
    forall px: nat, py: nat | px < 128 && py < 64 && x <= px < x + bitmap.width && y <= py < y + bitmap.height
      ensures Pixel(l, r, px, py) == Combine(mode, Pixel(l0, r0, px, py), bitmap.dot(px - x, py - y) == foreground)
    {
      BackgroundComplements(mode, foreground, Pixel(l0, r0, px, py), bitmap.dot(px - x, py - y));
    }
  }

  /** Bits `lo .. hi` of `data` are the dots of column `dx` from row `dy` on; the other bits are clear. */
  ghost predicate IsColumn(bitmap: Bitmap, dx: int, dy: int, data: bv8, lo: nat, hi: nat)
  {
    bitmap.Valid() && 0 <= dx < bitmap.width && lo <= hi <= 8 && 0 <= dy && dy + hi - lo <= bitmap.height &&
    forall k: nat :: k < 8 ==> Bit(data, k) == (lo <= k < hi && bitmap.dot(dx, k - lo + dy))
  }

  lemma NoDots(bitmap: Bitmap, dx: int, dy: int)
    requires bitmap.Valid() && 0 <= dx < bitmap.width && 0 <= dy <= bitmap.height
    ensures IsColumn(bitmap, dx, dy, 0, 8, 8)
  {
    forall k: nat | k < 8
      ensures !Bit(0, k)
    {
      BitConst(k);
    }
  }

  /** A dot shifted in from above, as the column is collected. */
  lemma ShiftIn(bitmap: Bitmap, dx: int, dy: int, before: bv8, after: bv8, i: nat)
    requires i < 8 && dy + i < bitmap.height && IsColumn(bitmap, dx, dy, before, 8 - i, 8)
    requires after == if bitmap.dot(dx, i + dy) then (before >> 1) | 0x80 else before >> 1
    ensures IsColumn(bitmap, dx, dy, after, 7 - i, 8)
  {
    hide Bit;
    forall k: nat | k < 8
      ensures Bit(after, k) == (7 - i <= k && bitmap.dot(dx, k - (7 - i) + dy))
    {
      BitShiftRight(before, 1, k);
      BitOr(before >> 1, 0x80, k);
      BitConst(k);
    }
  }

  lemma ShiftDown(bitmap: Bitmap, dx: int, dy: int, data: bv8, shift: nat, lo: nat)
    requires shift <= lo <= 8 && shift < 8 && IsColumn(bitmap, dx, dy, data, lo, 8)
    ensures IsColumn(bitmap, dx, dy, data >> shift, lo - shift, 8 - shift)
  {
    hide Bit;
    var placed := data >> shift;
    forall k: nat | k < 8
      ensures Bit(placed, k) == (lo - shift <= k < 8 - shift && bitmap.dot(dx, k - (lo - shift) + dy))
    {
      BitShiftRight(data, shift, k);
    }
  }

  /** One page write draws one column of the page. */
  lemma DrawnColumn(l0: seq<bv8>, r0: seq<bv8>, l: Chip, r: Chip, l': seq<bv8>, r': seq<bv8>,
                    bitmap: Bitmap, x: int, y: int, mode: Mode, data: bv8, x0: int, j: nat, y0: nat, y1: nat)
    requires l.Valid() && r.Valid() && mode.IsWriteMode()
    requires y0 < y1 <= y0 / 8 * 8 + 8 && y1 <= 64 && x0 <= j < 128 && j + 1 <= x + bitmap.width
    requires Drawn(l0, r0, l.ram, r.ram, bitmap, x, y, mode, x0, j, y0, y1)
    requires l.page == r.page == y0 / 8
    requires IsColumn(bitmap, j - x, y0 - y, data, y0 % 8, (y1 - 1) % 8 + 1)
    requires j < 64 ==> l.column == j && r' == r.ram && l' == Stored(l, mode, data, PageMask(y0, y1)).ram
    requires j >= 64 ==> r.column == j - 64 && l' == l.ram && r' == Stored(r, mode, data, PageMask(y0, y1)).ram
    ensures Drawn(l0, r0, l', r', bitmap, x, y, mode, x0, j + 1, y0, y1)
  {
    hide Bit, PageMask, MergeByte, Combine, ChipPixel, IsColumn, Stored;
    forall px: nat, py: nat | px < 128 && py < 64
      ensures Pixel(l', r', px, py) == if x0 <= px < j + 1 && y0 <= py < y1
                                       then Combine(mode, Pixel(l0, r0, px, py), bitmap.dot(px - x, py - y))
                                       else Pixel(l0, r0, px, py)
    {
      assert Pixel(l.ram, r.ram, px, py) == if x0 <= px < j && y0 <= py < y1
                                            then Combine(mode, Pixel(l0, r0, px, py), bitmap.dot(px - x, py - y))
                                            else Pixel(l0, r0, px, py);
      if j < 64 && px < 64 {
        ColumnPixel(l, mode, data, bitmap, j - x, y, y0, y1, px, py);
      } else if j >= 64 && px >= 64 {
        ColumnPixel(r, mode, data, bitmap, j - x, y, y0, y1, px - 64, py);
      }
    }
  }

  /** A pixel of the controller after a page write. */
  lemma ColumnPixel(c: Chip, mode: Mode, data: bv8, bitmap: Bitmap, dx: int, y: int, y0: nat, y1: nat, column: nat,
                    py: nat)
    requires c.Valid() && mode.IsWriteMode() && column < 64 && py < 64
    requires y0 < y1 <= y0 / 8 * 8 + 8 && c.page == y0 / 8
    requires IsColumn(bitmap, dx, y0 - y, data, y0 % 8, (y1 - 1) % 8 + 1)
    ensures bitmap.Valid() && 0 <= dx < bitmap.width && y <= y0 && y1 <= y + bitmap.height
    ensures ChipPixel(Stored(c, mode, data, PageMask(y0, y1)).ram, column, py)
         == if column == c.column && y0 <= py < y1
            then Combine(mode, ChipPixel(c.ram, column, py), bitmap.dot(dx, py - y))
            else ChipPixel(c.ram, column, py)
  {
    hide Bit, PageMask, MergeByte, Combine, ChipPixel, Stored;
    StoredPixel(c, mode, data, y0, y1, column, py);
    if y0 <= py < y1 {
      assert Bit(data, py % 8) == bitmap.dot(dx, py % 8 - y0 % 8 + (y0 - y));
    }
  }

  /** A pixel of one controller's own memory. */
  predicate ChipPixel(ram: seq<bv8>, column: nat, py: nat)
    requires |ram| == 512 && column < 64 && py < 64
  {
    Bit(ram[py / 8 * 64 + column], py % 8)
  }

  lemma AddressIs(c: Chip, page: nat, column: nat)
    requires c.Valid() && page < 8 && column < 64
    ensures page * 64 + column < 512
    ensures c.Address() == page * 64 + column <==> c.page == page && c.column == column
  {
  }

  /** A merged write changes only the masked-in pixels of the byte addressed. */
  lemma StoredPixel(c: Chip, mode: Mode, data: bv8, y0: nat, y1: nat, column: nat, py: nat)
    requires c.Valid() && mode.IsWriteMode() && column < 64 && py < 64
    requires y0 < y1 <= y0 / 8 * 8 + 8 && c.page == y0 / 8
    requires forall k :: 0 <= k < 8 && Bit(data, k) ==> y0 % 8 <= k <= (y1 - 1) % 8
    ensures ChipPixel(Stored(c, mode, data, PageMask(y0, y1)).ram, column, py)
         == if column == c.column && y0 <= py < y1
            then Combine(mode, ChipPixel(c.ram, column, py), Bit(data, py % 8))
            else ChipPixel(c.ram, column, py)
  {
    hide Bit, PageMask, MergeByte, Combine;
    AddressIs(c, py / 8, column);
    if column == c.column && py / 8 == c.page {
      PageMaskBit(y0, y1, py % 8);
      MergeBit(mode, c.ram[c.Address()], data, PageMask(y0, y1), py % 8);
    }
  }

  lemma DrawnNothing(l: seq<bv8>, r: seq<bv8>, bitmap: Bitmap, x: int, y: int, mode: Mode, x0: int, x1: int, y0: int,
      y1: int)
    requires |l| == |r| == 512 && bitmap.Valid()
    requires x <= x0 && x1 <= x + bitmap.width && y <= y0 && y1 <= y + bitmap.height
    requires x1 <= x0 || y1 <= y0
    ensures Drawn(l, r, l, r, bitmap, x, y, mode, x0, x1, y0, y1)
  {
  }

  /** Pages drawn one after another add up, since their rows are disjoint. */
  lemma DrawnPage(l0: seq<bv8>, r0: seq<bv8>, l1: seq<bv8>, r1: seq<bv8>, l2: seq<bv8>, r2: seq<bv8>,
                  bitmap: Bitmap, x: int, y: int, mode: Mode, x0: int, x1: int, y0: int, y1: int, y2: int)
    requires y0 <= y1 <= y2
    requires Drawn(l0, r0, l1, r1, bitmap, x, y, mode, x0, x1, y0, y1)
    requires Drawn(l1, r1, l2, r2, bitmap, x, y, mode, x0, x1, y1, y2)
    ensures Drawn(l0, r0, l2, r2, bitmap, x, y, mode, x0, x1, y0, y2)
  {
    forall px: nat, py: nat | px < 128 && py < 64
      ensures Pixel(l2, r2, px, py) == if x0 <= px < x1 && y0 <= py < y2
                                       then Combine(mode, Pixel(l0, r0, px, py), bitmap.dot(px - x, py - y))
                                       else Pixel(l0, r0, px, py)
    {
      assert Pixel(l1, r1, px, py) == if x0 <= px < x1 && y0 <= py < y1
                                       then Combine(mode, Pixel(l0, r0, px, py), bitmap.dot(px - x, py - y))
                                       else Pixel(l0, r0, px, py);
    }
  }

  class Display {
    var mode: Mode
    var cs1: bool
    var cs2: bool
    var rw: bool
    var di: bool
    var left: Chip
    var right: Chip

    ghost predicate Valid()
      reads this
    {
      left.Valid() && right.Valid() && mode.IsOutputMode()
    }

    constructor (left: Chip, right: Chip)
      requires left.page < 8 && left.column < 64 && |left.ram| == 512
      requires right.page < 8 && right.column < 64 && |right.ram| == 512
      ensures Valid() && mode == WriteMode && this.left == left && this.right == right
    {
      mode := WriteMode;
      cs1, cs2, rw, di := false, false, false, false;
      this.left, this.right := left, right;
    }

    method SetOutputMode(newMode: Mode)
      requires Valid() && newMode.IsOutputMode()
      modifies this`mode
      ensures Valid() && mode == newMode
    {
      mode := newMode;
    }

    /** A pulse on E clocks every selected controller. */
    method PulseE(bus: bv8)
      requires left.Valid() && right.Valid()
      modifies this`left, this`right
      ensures left.Valid() && right.Valid()
      ensures left == (if cs1 then old(left).Clock(di, rw, bus) else old(left))
      ensures right == (if cs2 then old(right).Clock(di, rw, bus) else old(right))
    {
      if cs1 {
        left := left.Clock(di, rw, bus);
      }
      if cs2 {
        right := right.Clock(di, rw, bus);
      }
    }

    method Write(data: bv8)
      requires left.Valid() && right.Valid()
      modifies this`left, this`right
      ensures left.Valid() && right.Valid()
      ensures left == (if cs1 then old(left).Clock(di, rw, data) else old(left))
      ensures right == (if cs2 then old(right).Clock(di, rw, data) else old(right))
    {
      PulseE(data);
    }

    /** The command that sets the column of every selected controller. */
    method SetAddress(x: nat)
      requires left.Valid() && right.Valid() && x < 64 && !rw && !di
      modifies this`left, this`right
      ensures left == (if cs1 then old(left).(column := x) else old(left))
      ensures right == (if cs2 then old(right).(column := x) else old(right))
    {
      AddressCommand(left, x);
      AddressCommand(right, x);
      Write(0x40 | (x as bv8));
    }

    /** Point both controllers at `page`, and at column `x` of the 128 columns; the right one starts at its
        first column when `x` lies on the left one. */
    method SetPage(page: nat, x: nat)
      requires left.Valid() && right.Valid() && page < 8 && x < 128
      modifies this`cs1, this`cs2, this`rw, this`di, this`left, this`right
      ensures !rw
      ensures left == old(left).(page := page, column := if x < 64 then x else old(left).column)
      ensures right == old(right).(page := page, column := if x < 64 then 0 else x - 64)
    {
      cs1, cs2, rw, di := true, true, false, false;
      PageCommand(left, page);
      PageCommand(right, page);
      Write(0xB8 | (page as bv8));
      var cs2addr := 0;
      if x > 63 {
        cs2addr := x - 64;
      } else {
        cs2 := false;
        SetAddress(x);
      }
      cs1 := false;
      cs2 := true;
      SetAddress(cs2addr);
    }

    /** Read the addressed byte of the one selected controller: a dummy read fills its output register,
        a second one puts that register on the bus. */
    method ReadBack() returns (dest: bv8)
      requires left.Valid() && right.Valid() && cs1 != cs2 && di
      modifies this`rw, this`left, this`right
      ensures rw && left.Valid() && right.Valid()
      ensures cs1 ==> left.column == (old(left).column + 2) % 64
      ensures cs2 ==> right.column == (old(right).column + 2) % 64
      ensures cs1 ==> right == old(right) && left.ram == old(left.ram) && left.page == old(left.page)
                      && dest == left.ram[old(left).Address()]
      ensures cs2 ==> left == old(left) && right.ram == old(right.ram) && right.page == old(right.page)
                      && dest == right.ram[old(right).Address()]
    {
      rw := true;
      PulseE(0);
      dest := if cs2 then right.output else left.output;
      PulseE(0);
    }

    /** A data write stores the byte and steps the column register of the selected controller. */
    method WriteData(data: bv8)
      requires left.Valid() && right.Valid() && cs1 != cs2 && di && !rw
      modifies this`left, this`right
      ensures left == if cs1 then old(left).Advance().(ram := old(left).ram[old(left).Address() := data]) else old(left)
      ensures right ==
              if cs2 then old(right).Advance().(ram := old(right).ram[old(right).Address() := data]) else old(right)
    {
      Write(data);
    }

    /** Merge data into the byte read back, operator by operator. */
    method Merge(dest: bv8, data: bv8, mask: bv8) returns (byte: bv8)
      requires mode.IsWriteMode() && (mask != 0 || mode.opXor || mode.opAnd)
      ensures byte == MergeByte(mode, dest, data, mask)
    {
      byte := data;
      if mode.opInvert {
        byte := byte ^ !mask;
      }
      if mode.opCopy {
        return (dest & mask) | byte;
      }
      if mode.opXor {
        byte := byte ^ dest;
      }
      if mode.opAnd {
        byte := (byte | mask) & dest;
      }
    }

    /** Store one byte of a page, merged with what the controller holds; the column register ends one further. */
    method WritePage(data: bv8, mask: bv8, cx: nat)
      requires left.Valid() && right.Valid() && mode.IsWriteMode() && !rw && cx < 128
      requires cx < 64 ==> left.column == cx
      requires cx >= 64 ==> right.column == cx - 64
      modifies this`cs1, this`cs2, this`rw, this`di, this`left, this`right
      ensures !rw
      ensures cx < 64 ==> right == old(right) && left == Stored(old(left), mode, data, mask).(output := left.output)
      ensures cx >= 64 ==> left == old(left) && right == Stored(old(right), mode, data, mask).(output := right.output)
    {
      var column := cx;
      if cx > 63 {
        cs2 := true;
        cs1 := false;
        column := cx - 64;
      } else {
        cs2 := false;
        cs1 := true;
      }
      var byte := data;
      di := true;
      if mask != 0 || mode.opXor || mode.opAnd {
        var dest := ReadBack();
        byte := Merge(dest, data, mask);
        rw := false;
        di := false;
        SetAddress(column);
        di := true;
      } else if mode.opInvert {
        byte := byte ^ 0xFF;
      }
      WriteData(byte);
    }

    /** Collect one column of a page: dots `dy .. dy + pagePixels` of bitmap column `dx`, shifted into place. */
    method ColumnBits(bitmap: Bitmap, dx: int, dy: int, pageStart: nat, pageEnd: nat) returns (data: bv8)
      requires bitmap.Valid() && 0 <= dx < bitmap.width
      requires pageStart < pageEnd <= pageStart / 8 * 8 + 8
      requires 0 <= dy && dy + pageEnd - pageStart <= bitmap.height
      ensures IsColumn(bitmap, dx, dy, data, pageStart % 8, (pageEnd - 1) % 8 + 1)
    {
      hide IsColumn;
      var pagePixels := pageEnd - pageStart;
      var dataShift := 7 - (pageEnd - 1) % 8;
      data := 0;
      NoDots(bitmap, dx, dy);
      for i := 0 to pagePixels
        invariant IsColumn(bitmap, dx, dy, data, 8 - i, 8)
      {
        ghost var before := data;
        data := data >> 1;
        if bitmap.dot(dx, i + dy) {
          data := data | 0x80;
        }
        ShiftIn(bitmap, dx, dy, before, data, i);
      }
      ShiftDown(bitmap, dx, dy, data, dataShift, 8 - pagePixels);
      data := data >> dataShift;
    }

    /** The inner loop: the rows `pageStart .. pageEnd` of one page, column after column. */
    method DrawPage(bitmap: Bitmap, x: int, y: int, minX: nat, maxX: int, pageStart: nat, pageEnd: nat)
      requires left.Valid() && right.Valid() && mode.IsWriteMode() && bitmap.Valid()
      requires x <= minX <= maxX <= x + bitmap.width && minX < 128 && maxX <= 128
      requires y <= pageStart < pageEnd <= y + bitmap.height && pageEnd <= 64 && pageEnd <= pageStart / 8 * 8 + 8
      modifies this`cs1, this`cs2, this`rw, this`di, this`left, this`right
      ensures left.Valid() && right.Valid()
      ensures Drawn(old(left.ram), old(right.ram), left.ram, right.ram, bitmap, x, y, mode, minX, maxX, pageStart,
          pageEnd)
    {
      hide Drawn, PageMask, Pixel, IsColumn;
      SetPage(pageStart / 8, minX);
      var mask := PageMask(pageStart, pageEnd);
      DrawnNothing(left.ram, right.ram, bitmap, x, y, mode, minX, minX, pageStart, pageEnd);
      for j := minX to maxX
        invariant left.Valid() && right.Valid() && !rw
        invariant left.page == right.page == pageStart / 8
        invariant j < 64 ==> left.column == j && right.column == 0
        invariant 64 <= j < 128 ==> right.column == j - 64
        invariant Drawn(old(left.ram), old(right.ram), left.ram, right.ram, bitmap, x, y, mode, minX, j, pageStart,
            pageEnd)
      {
        ghost var l, r := left, right;
        var data := ColumnBits(bitmap, j - x, pageStart - y, pageStart, pageEnd);
        WritePage(data, mask, j);
        DrawnColumn(old(left.ram), old(right.ram), l, r, left.ram, right.ram, bitmap, x, y, mode, data, minX, j,
            pageStart, pageEnd);
      }
    }

    /** The outer loop: page after page, from the first row of the bitmap on the display to the last. */
    method DrawPages(bitmap: Bitmap, x: int, y: int)
      requires left.Valid() && right.Valid() && mode.IsWriteMode() && bitmap.Valid()
      requires -(bitmap.width as int) <= x < 128 && -(bitmap.height as int) <= y < 64
      modifies this`cs1, this`cs2, this`rw, this`di, this`left, this`right
      ensures left.Valid() && right.Valid()
      ensures Drawn(old(left.ram), old(right.ram), left.ram, right.ram, bitmap, x, y, mode, Max(0, x),
          Min(bitmap.width + x, 128), Max(0, y), Min(y + bitmap.height, 64))
    {
      hide Drawn, Pixel;
      ghost var l0, r0 := left.ram, right.ram;
      var pageStart := Max(0, y);
      var pageEnd := (pageStart + 8) / 8 * 8;
      var maxY := Min(y + bitmap.height, 64);
      var maxX := Min(bitmap.width + x, 128);
      var minX := Max(0, x);
      if pageEnd > maxY {
        pageEnd := maxY;
      }
      ghost var y0 := pageStart;
      DrawnNothing(l0, r0, bitmap, x, y, mode, minX, maxX, y0, Min(y0, maxY));
      while pageEnd <= maxY && pageStart < maxY
        invariant left.Valid() && right.Valid()
        invariant y0 <= pageStart && (pageStart <= maxY || pageStart == y0)
        invariant pageEnd == Min(pageStart / 8 * 8 + 8, maxY)
        invariant Drawn(l0, r0, left.ram, right.ram, bitmap, x, y, mode, minX, maxX, y0, Min(pageStart, maxY))
        decreases maxY - pageStart
      {
        ghost var l, r := left.ram, right.ram;
        DrawPage(bitmap, x, y, minX, maxX, pageStart, pageEnd);
        DrawnPage(l0, r0, l, r, left.ram, right.ram, bitmap, x, y, mode, minX, maxX, y0, pageStart, pageEnd);
        pageStart := pageEnd;
        pageEnd := pageEnd + 8;
        if pageEnd > maxY {
          pageEnd := maxY;
        }
      }
    }

    /** Draw `bitmap` with its upper left corner at `(x, y)`, clipped to the display. */
    method DrawBitmap(bitmap: Bitmap, x: int, y: int, foreground: bool)
      requires Valid() && bitmap.Valid()
      modifies this
      ensures Valid() && mode == old(mode)
      ensures forall px: nat, py: nat :: px < 128 && py < 64 ==>
                Pixel(left.ram, right.ram, px, py) ==
                if x <= px < x + bitmap.width && y <= py < y + bitmap.height
                then Combine(mode, Pixel(old(left.ram), old(right.ram), px, py),
                             bitmap.dot(px - x, py - y) == foreground)
                else Pixel(old(left.ram), old(right.ram), px, py)
    {
      hide Drawn, Pixel, Combine;
      if y >= 64 || x >= 128 {
        return;
      }
      if x < -(bitmap.width as int) || y < -(bitmap.height as int) {
        return;
      }
      ghost var l0, r0 := left.ram, right.ram;
      var oldMode := mode;
      if !foreground {
        mode := mode.Toggle();
      }
      DrawPages(bitmap, x, y);
      mode := oldMode;
      DrawnPixels(l0, r0, left.ram, right.ram, bitmap, x, y, mode, foreground);
    }
  }
}
