/** Chunked EEPROM transfers over I2C (common/cmd_eeprom.c, without the FRAM, SPI and X40430 variants).
    The device's address counter wraps inside a page while it is written, and inside a 256-byte
    block while it is read. */
module Eeprom {
  import opened Common

  // ----- the device ----------------------------------------------------------------------------

  lemma {:induction false} Pow2Product(a: nat, b: nat)
    ensures Pow2(a + b) == Pow2(a) * Pow2(b)
  {
    if a > 0 {
      Pow2Product(a - 1, b);
      assert a + b - 1 == (a - 1) + b;
      Associate(Pow2(a - 1), Pow2(b));
    }
  }

  lemma {:induction false} Associate(x: nat, y: nat)
    ensures 2 * x * y == 2 * (x * y)
  {
  }

  lemma {:induction false} Pow2Byte()
    ensures Pow2(8) == 256 && Pow2(16) == 65536
  {
    assert Pow2(2) == 4;
    Pow2Product(2, 2);
    Pow2Product(4, 4);
    Pow2Product(8, 8);
  }

  /** Write page of 2^pageBits bytes (256 where the board defines none), `addrLen` address bytes, and the
      most bytes in one I2C transfer (I2C_RXTX_LEN, 128 in include/i2c.h). */
  datatype Config = Config(pageBits: nat, addrLen: nat, rxtx: nat) {
    predicate Valid() {
      1 <= addrLen <= 2 && rxtx >= 1 && pageBits <= 8 * addrLen
    }

    function Page(): nat {
      Pow2(pageBits)
    }

    /** How many bytes the address bytes alone can tell apart. */
    function Window(): nat {
      if addrLen == 1 then 256 else 65536
    }
  }

  function Byte(x: nat): bv8 {
    (x % 256) as bv8
  }

  function Number(b: bv8): (n: nat)
    ensures n < 256
  {
    b as nat
  }

  /** The chip address: the block number or-ed into the device address, one byte. */
  function Chip(c: Config, dev: bv8, offset: nat): bv8 {
    Byte(offset / c.Window()) | dev
  }

  /** The byte that the transmitted address bytes of an offset select. */
  function Cell(c: Config, dev: bv8, offset: nat): (a: nat)
    ensures a < 256 * c.Window()
  {
    Number(Chip(c, dev, offset)) * c.Window() + offset % c.Window()
  }

  /** With one address byte the chip address carries bits 8 to 15 of the offset, with two bits 16 to 23. */
  lemma {:induction false} AddressSent(c: Config, dev: bv8, offset: nat)
    ensures c.addrLen == 1 ==>
      Cell(c, dev, offset) == ((((offset / 256 % 256) as bv8) | dev) as nat) * 256 + offset % 256
    ensures c.addrLen == 2 ==>
      Cell(c, dev, offset) ==
        ((((offset / 65536 % 256) as bv8) | dev) as nat) * 65536 + offset / 256 % 256 * 256 + offset % 256
  {
    TwoBytesOf(offset);
  }

  lemma {:induction false} TwoBytesOf(offset: nat)
    ensures offset % 65536 == offset / 256 % 256 * 256 + offset % 256
  {
    var h, l := offset / 256, offset % 256;
    var q, r := h / 256, h % 256;
    assert h == q * 256 + r && offset == h * 256 + l;
    assert offset == q * 65536 + (r * 256 + l);
    DivisionIs(offset, 65536, q, r * 256 + l);
  }

  function ByteCell(c: Config, dev: bv8, offset: nat, i: nat): (a: nat)
    ensures a < 256 * c.Window()
  {
    Cell(c, dev, offset + i)
  }

  /** The i-th byte of a transfer that starts at `offset`, with the counter wrapping inside `page` bytes. */
  function Wrapped(c: Config, dev: bv8, offset: nat, page: nat, i: nat): (a: nat)
    requires page > 0
    ensures a < 256 * c.Window()
  {
    Cell(c, dev, offset - offset % page + (offset % page + i) % page)
  }

  predicate InPage(offset: nat, len: nat, page: nat)
    requires page > 0
  {
    offset % page + len <= page
  }

  function Burst(mem: seq<bv8>, c: Config, dev: bv8, offset: nat, page: nat, data: seq<bv8>): (m: seq<bv8>)
    requires |mem| == 256 * c.Window() && page > 0
    ensures |m| == |mem|
  {
    if data == [] then mem
    else
      var n := |data| - 1;
      Burst(mem, c, dev, offset, page, data[..n])[Wrapped(c, dev, offset, page, n) := data[n]]
  }

  function BurstGet(mem: seq<bv8>, c: Config, dev: bv8, offset: nat, page: nat, n: nat): (d: seq<bv8>)
    requires |mem| == 256 * c.Window() && page > 0
    ensures |d| == n
  {
    seq(n, i requires 0 <= i < n => mem[Wrapped(c, dev, offset, page, i)])
  }

  // ----- the linear view -----------------------------------------------------------------------

  /** All bytes one after the other, each at its own offset. */
  function Linear(mem: seq<bv8>, c: Config, dev: bv8, offset: nat, data: seq<bv8>): (m: seq<bv8>)
    requires |mem| == 256 * c.Window()
    ensures |m| == |mem|
  {
    if data == [] then mem
    else
      var n := |data| - 1;
      Linear(mem, c, dev, offset, data[..n])[ByteCell(c, dev, offset, n) := data[n]]
  }

  function LinearGet(mem: seq<bv8>, c: Config, dev: bv8, offset: nat, n: nat): (d: seq<bv8>)
    requires |mem| == 256 * c.Window()
    ensures |d| == n
  {
    seq(n, i requires 0 <= i < n => mem[ByteCell(c, dev, offset, i)])
  }

  lemma {:induction false} WrappedInPage(c: Config, dev: bv8, offset: nat, page: nat, len: nat, i: nat)
    requires page > 0 && InPage(offset, len, page) && i < len
    ensures Wrapped(c, dev, offset, page, i) == ByteCell(c, dev, offset, i)
  {
    hide Cell;
    ModSmall(offset % page + i, page);
  }

  lemma {:induction false} BurstIsLinear(mem: seq<bv8>, c: Config, dev: bv8, offset: nat, page: nat, data: seq<bv8>)
    requires |mem| == 256 * c.Window() && page > 0 && InPage(offset, |data|, page)
    ensures Burst(mem, c, dev, offset, page, data) == Linear(mem, c, dev, offset, data)
  {
    hide Cell, Wrapped;
    if data != [] {
      BurstIsLinear(mem, c, dev, offset, page, data[..|data| - 1]);
      WrappedInPage(c, dev, offset, page, |data|, |data| - 1);
    }
  }

  lemma {:induction false} BurstGetIsLinear(mem: seq<bv8>, c: Config, dev: bv8, offset: nat, page: nat, n: nat)
    requires |mem| == 256 * c.Window() && page > 0 && InPage(offset, n, page)
    ensures BurstGet(mem, c, dev, offset, page, n) == LinearGet(mem, c, dev, offset, n)
  {
    hide Cell, Wrapped;
    forall i | 0 <= i < n
      ensures BurstGet(mem, c, dev, offset, page, n)[i] == LinearGet(mem, c, dev, offset, n)[i]
    {
      WrappedInPage(c, dev, offset, page, n, i);
    }
  }

  lemma {:induction false} LinearConcat(mem: seq<bv8>, c: Config, dev: bv8, offset: nat, d: seq<bv8>, e: seq<bv8>)
    requires |mem| == 256 * c.Window()
    ensures Linear(mem, c, dev, offset, d + e) == Linear(Linear(mem, c, dev, offset, d), c, dev, offset + |d|, e)
  {
    hide Cell;
    if e == [] {
      assert d + e == d;
    } else {
      var n := |e| - 1;
      LinearConcat(mem, c, dev, offset, d, e[..n]);
      assert (d + e)[..|d + e| - 1] == d + e[..n];
    }
  }

  // ----- the chunks ----------------------------------------------------------------------------

  /** The low byte of the offset is all the write loop looks at. */
  function WriteLen(c: Config, offset: nat, left: nat): (len: nat)
    requires c.Valid()
    ensures left > 0 ==> 0 < len <= left && len <= c.rxtx
  {
    var blkOff := offset % 256;
    ModSmall(blkOff, c.Page());
    Min(left, Min(c.rxtx, c.Page() - blkOff % c.Page()))
  }

  function ReadLen(c: Config, offset: nat, left: nat): (len: nat)
    requires c.Valid()
    ensures left > 0 ==> 0 < len <= left && len <= c.rxtx
    ensures InPage(offset, len, 256)
  {
    Min(left, Min(c.rxtx, 256 - offset % 256))
  }

  lemma {:induction false} ModOfMod(x: nat, m: nat, q: nat)
    requires m > 0 && q > 0
    ensures m * q > 0 && (x % (m * q)) % m == x % m
  {
    var t := m * q;
    MulPos(m, q);
    var y, k := x % t, x / t;
    assert x == t * k + y;
    assert t * k == q * k * m;
    ModPlus(q * k, m, y);
  }

  lemma {:induction false} MulPos(m: nat, q: nat)
    requires m > 0 && q > 0
    ensures m * q > 0
  {
  }

  /** With pages of at most 256 bytes, or single-byte transfers, no write chunk crosses a page. */
  lemma {:induction false} WriteStaysInPage(c: Config, offset: nat, left: nat)
    requires c.Valid() && (c.pageBits <= 8 || c.rxtx == 1)
    ensures InPage(offset, WriteLen(c, offset, left), c.Page())
  {
    hide Pow2;
    var page := c.Page();
    ModSmall(offset, page);
    if c.pageBits <= 8 {
      Pow2Product(c.pageBits, 8 - c.pageBits);
      Pow2Byte();
      ModOfMod(offset, page, Pow2(8 - c.pageBits));
    }
  }

  /** With larger pages the last byte of a page and the one after it are written in one transfer. */
  lemma {:induction false} WriteCrossesLargePage(c: Config)
    requires c.Valid() && c.pageBits > 8 && c.rxtx > 1
    ensures WriteLen(c, c.Page() - 1, 2) == 2 && !InPage(c.Page() - 1, 2, c.Page())
  {
    hide Pow2;
    var page := c.Page();
    Pow2Product(8, c.pageBits - 8);
    Pow2Byte();
    var q := Pow2(c.pageBits - 8);
    assert page == 256 * q;
    assert q >= 2 by {
      Pow2Two(c.pageBits - 8);
    }
    ModSmall(page - 1, page);
    assert page - 1 == 256 * (q - 1) + 255;
    DivisionIs(page - 1, 256, q - 1, 255);
    ModSmall(255, page);
  }

  lemma {:induction false} Pow2Two(n: nat)
    requires n > 0
    ensures Pow2(n) >= 2
  {
  }

  /** No write chunk ever crosses a page exactly if the page has at most 256 bytes or transfers are single bytes. */
  lemma {:induction false} ChunksFitPages(c: Config)
    requires c.Valid()
    ensures (forall offset: nat, left: nat :: InPage(offset, WriteLen(c, offset, left), c.Page()))
      <==> c.pageBits <= 8 || c.rxtx == 1
  {
    hide WriteLen, InPage;
    if c.pageBits <= 8 || c.rxtx == 1 {
      forall offset: nat, left: nat
        ensures InPage(offset, WriteLen(c, offset, left), c.Page())
      {
        WriteStaysInPage(c, offset, left);
      }
    } else {
      WriteCrossesLargePage(c);
    }
  }

  /** Chunk by chunk; a chunk whose offset is in `nack` is refused by the device. */
  function Chunked(mem: seq<bv8>, c: Config, dev: bv8, offset: nat, data: seq<bv8>, nack: set<nat>): (m: seq<bv8>)
    requires c.Valid() && |mem| == 256 * c.Window()
    ensures |m| == |mem|
    decreases |data|
  {
    if data == [] then mem
    else
      var len := WriteLen(c, offset, |data|);
      var m := if offset in nack then mem else Burst(mem, c, dev, offset, c.Page(), data[..len]);
      Chunked(m, c, dev, offset + len, data[len..], nack)
  }

  predicate WriteRefused(c: Config, offset: nat, left: nat, nack: set<nat>)
    requires c.Valid()
    decreases left
  {
    left > 0 && (offset in nack || WriteRefused(c, offset + WriteLen(c, offset, left), left - WriteLen(c, offset, left), nack))
  }

  function ChunkedGet(mem: seq<bv8>, c: Config, dev: bv8, offset: nat, buf: seq<bv8>, nack: set<nat>): (d: seq<bv8>)
    requires c.Valid() && |mem| == 256 * c.Window()
    ensures |d| == |buf|
    decreases |buf|
  {
    if buf == [] then []
    else
      var len := ReadLen(c, offset, |buf|);
      var d := if offset in nack then buf[..len] else BurstGet(mem, c, dev, offset, 256, len);
      d + ChunkedGet(mem, c, dev, offset + len, buf[len..], nack)
  }

  predicate ReadRefused(c: Config, offset: nat, left: nat, nack: set<nat>)
    requires c.Valid()
    decreases left
  {
    left > 0 && (offset in nack || ReadRefused(c, offset + ReadLen(c, offset, left), left - ReadLen(c, offset, left), nack))
  }

  /** The chunked write is one linear write. */
  lemma {:induction false} ChunkedIsLinear(mem: seq<bv8>, c: Config, dev: bv8, offset: nat, data: seq<bv8>, nack: set<nat>)
    requires c.Valid() && |mem| == 256 * c.Window() && (c.pageBits <= 8 || c.rxtx == 1)
    requires !WriteRefused(c, offset, |data|, nack)
    ensures Chunked(mem, c, dev, offset, data, nack) == Linear(mem, c, dev, offset, data)
    decreases |data|
  {
    hide Chunked, Linear, WriteRefused;
    NothingChunked(mem, c, dev, offset, nack);
    if data != [] {
      var len := FirstChunkIsLinear(mem, c, dev, offset, data, nack);
      ChunkedIsLinear(Linear(mem, c, dev, offset, data[..len]), c, dev, offset + len, data[len..], nack);
      LinearCut(mem, c, dev, offset, data, len);
    }
  }

  lemma {:induction false} NothingChunked(mem: seq<bv8>, c: Config, dev: bv8, offset: nat, nack: set<nat>)
    requires c.Valid() && |mem| == 256 * c.Window()
    ensures Chunked(mem, c, dev, offset, [], nack) == mem == Linear(mem, c, dev, offset, [])
    ensures !WriteRefused(c, offset, 0, nack)
  {
  }

  lemma {:induction false} LinearCut(mem: seq<bv8>, c: Config, dev: bv8, offset: nat, data: seq<bv8>, len: nat)
    requires |mem| == 256 * c.Window() && len <= |data|
    ensures Linear(mem, c, dev, offset, data)
      == Linear(Linear(mem, c, dev, offset, data[..len]), c, dev, offset + len, data[len..])
  {
    hide Linear, Config.Window;
    assert data == data[..len] + data[len..];
    LinearConcat(mem, c, dev, offset, data[..len], data[len..]);
  }

  lemma {:induction false} FirstChunkIsLinear(mem: seq<bv8>, c: Config, dev: bv8, offset: nat, data: seq<bv8>, nack: set<nat>)
    returns (len: nat)
    requires c.Valid() && |mem| == 256 * c.Window() && (c.pageBits <= 8 || c.rxtx == 1)
    requires data != [] && !WriteRefused(c, offset, |data|, nack)
    ensures 0 < len <= |data| && !WriteRefused(c, offset + len, |data| - len, nack)
    ensures Chunked(mem, c, dev, offset, data, nack)
      == Chunked(Linear(mem, c, dev, offset, data[..len]), c, dev, offset + len, data[len..], nack)
  {
    hide WriteLen, Burst, Linear, Pow2, InPage;
    len := WriteLen(c, offset, |data|);
    WriteStaysInPage(c, offset, |data|);
    BurstIsLinear(mem, c, dev, offset, c.Page(), data[..len]);
  }

  /** The chunked read is one linear read, whatever the page size. */
  lemma {:induction false} ChunkedGetIsLinear(mem: seq<bv8>, c: Config, dev: bv8, offset: nat, buf: seq<bv8>, nack: set<nat>)
    requires c.Valid() && |mem| == 256 * c.Window() && !ReadRefused(c, offset, |buf|, nack)
    ensures ChunkedGet(mem, c, dev, offset, buf, nack) == LinearGet(mem, c, dev, offset, |buf|)
    decreases |buf|
  {
    hide ReadLen, BurstGet, InPage, Cell;
    if buf != [] {
      var len := ReadLen(c, offset, |buf|);
      BurstGetIsLinear(mem, c, dev, offset, 256, len);
      ChunkedGetIsLinear(mem, c, dev, offset + len, buf[len..], nack);
    }
  }

  /** With larger pages the second of two bytes across a page boundary lands at the start of the page. */
  lemma {:induction false} LargePageMisplaces(mem: seq<bv8>, c: Config, dev: bv8, a: bv8, b: bv8)
    requires c.Valid() && |mem| == 256 * c.Window() && c.pageBits > 8 && c.rxtx > 1
    ensures Chunked(mem, c, dev, c.Page() - 1, [a, b], {}) == mem[Cell(c, dev, c.Page() - 1) := a][Cell(c, dev, 0) := b]
  {
    hide WriteLen, Pow2, Cell;
    var page := c.Page();
    WriteCrossesLargePage(c);
    ModSmall(page - 1, page);
    DivisionIs(page, page, 1, 0);
    assert Wrapped(c, dev, page - 1, page, 0) == Cell(c, dev, page - 1);
    assert Wrapped(c, dev, page - 1, page, 1) == Cell(c, dev, 0);
    assert [a, b][..2] == [a, b] && [a, b][2..] == [] && [a, b][..1] == [a] && [a][..0] == [];
    assert Burst(mem, c, dev, page - 1, page, [a]) == mem[Cell(c, dev, page - 1) := a];
  }

  // ----- reading back --------------------------------------------------------------------------

  /** The bytes of a range are all different cells of the device. */
  ghost predicate CellsDiffer(c: Config, dev: bv8, offset: nat, n: nat) {
    forall i, j :: 0 <= i < j < n ==> ByteCell(c, dev, offset, i) != ByteCell(c, dev, offset, j)
  }

  lemma {:induction false} LinearAt(mem: seq<bv8>, c: Config, dev: bv8, offset: nat, data: seq<bv8>, i: nat)
    requires |mem| == 256 * c.Window() && i < |data|
    requires forall j :: i < j < |data| ==> ByteCell(c, dev, offset, i) != ByteCell(c, dev, offset, j)
    ensures Linear(mem, c, dev, offset, data)[ByteCell(c, dev, offset, i)] == data[i]
    decreases |data|
  {
    hide ByteCell;
    var n := |data| - 1;
    if i < n {
      LinearAt(mem, c, dev, offset, data[..n], i);
    }
  }

  /** The last byte written to a cell is what it holds. */
  lemma {:induction false} LastWins(mem: seq<bv8>, c: Config, dev: bv8, offset: nat, n: nat)
    requires |mem| == 256 * c.Window() && !CellsDiffer(c, dev, offset, n)
    ensures exists data: seq<bv8> ::
      |data| == n && LinearGet(Linear(mem, c, dev, offset, data), c, dev, offset, n) != data
  {
    hide ByteCell, Linear;
    var i, j :| 0 <= i < j < n && ByteCell(c, dev, offset, i) == ByteCell(c, dev, offset, j);
    var data: seq<bv8> := seq(n, k => if k == i then 0 else 1);
    var last := LastAlias(c, dev, offset, n, j);
    LinearAt(mem, c, dev, offset, data, last);
    var got := LinearGet(Linear(mem, c, dev, offset, data), c, dev, offset, n);
    assert got[i] == 1 && data[i] == 0;
  }

  lemma {:induction false} LastAlias(c: Config, dev: bv8, offset: nat, n: nat, j: nat) returns (k: nat)
    requires j < n
    ensures j <= k < n && ByteCell(c, dev, offset, k) == ByteCell(c, dev, offset, j)
    ensures forall l :: k < l < n ==> ByteCell(c, dev, offset, k) != ByteCell(c, dev, offset, l)
    decreases n - j
  {
    hide ByteCell;
    if l :| j < l < n && ByteCell(c, dev, offset, l) == ByteCell(c, dev, offset, j) {
      k := LastAlias(c, dev, offset, n, l);
    } else {
      k := j;
    }
  }

  /** Every data written linearly is read back exactly if the range selects different cells. */
  lemma {:induction false} ReadsBackIffCellsDiffer(mem: seq<bv8>, c: Config, dev: bv8, offset: nat, n: nat)
    requires |mem| == 256 * c.Window()
    ensures CellsDiffer(c, dev, offset, n) <==> forall data: seq<bv8> ::
      |data| == n ==> LinearGet(Linear(mem, c, dev, offset, data), c, dev, offset, n) == data
  {
    hide ByteCell, Linear;
    if CellsDiffer(c, dev, offset, n) {
      forall data: seq<bv8> | |data| == n
        ensures LinearGet(Linear(mem, c, dev, offset, data), c, dev, offset, n) == data
      {
        forall i | 0 <= i < n
          ensures LinearGet(Linear(mem, c, dev, offset, data), c, dev, offset, n)[i] == data[i]
        {
          LinearAt(mem, c, dev, offset, data, i);
        }
      }
    } else {
      LastWins(mem, c, dev, offset, n);
    }
  }

  /** So it is where the range ends within the 256 block numbers and none of these shares a bit with the
      device address. */
  lemma {:induction false} BlockBitsDiffer(c: Config, dev: bv8, offset: nat, n: nat)
    requires forall a :: offset <= a < offset + n ==> BlockFits(c, dev, a)
    ensures CellsDiffer(c, dev, offset, n)
  {
    hide BlockFits, Cell;
    forall i, j | 0 <= i < j < n
      ensures ByteCell(c, dev, offset, i) != ByteCell(c, dev, offset, j)
    {
      assert BlockFits(c, dev, offset + i) && BlockFits(c, dev, offset + j);
      if ByteCell(c, dev, offset, i) == ByteCell(c, dev, offset, j) {
        SameCell(c, dev, offset + i, offset + j);
        assert false;
      }
    }
  }

  /** What eeprom_write stored chunk by chunk, eeprom_read returns chunk by chunk. */
  lemma {:induction false} WrittenIsRead(mem: seq<bv8>, c: Config, dev: bv8, offset: nat, data: seq<bv8>, buf: seq<bv8>,
                                         nack: set<nat>)
    requires c.Valid() && |mem| == 256 * c.Window() && (c.pageBits <= 8 || c.rxtx == 1) && |buf| == |data|
    requires !WriteRefused(c, offset, |data|, nack) && !ReadRefused(c, offset, |data|, nack)
    requires CellsDiffer(c, dev, offset, |data|)
    ensures ChunkedGet(Chunked(mem, c, dev, offset, data, nack), c, dev, offset, buf, nack) == data
  {
    hide CellsDiffer, Linear, Chunked, ChunkedGet, LinearGet, Pow2;
    ChunkedIsLinear(mem, c, dev, offset, data, nack);
    ChunkedGetIsLinear(Chunked(mem, c, dev, offset, data, nack), c, dev, offset, buf, nack);
    ReadsBackIffCellsDiffer(mem, c, dev, offset, |data|);
  }

  predicate BlockFits(c: Config, dev: bv8, offset: nat) {
    var block := offset / c.Window();
    block < 256 && Byte(block) & dev == 0
  }

  lemma {:induction false} SameCell(c: Config, dev: bv8, a: nat, b: nat)
    requires BlockFits(c, dev, a) && BlockFits(c, dev, b) && Cell(c, dev, a) == Cell(c, dev, b)
    ensures a == b
  {
    hide Chip, BlockFits, Cell;
    CellParts(c, dev, a);
    CellParts(c, dev, b);
    SameNat(Chip(c, dev, a), Chip(c, dev, b));
    SameBlock(c, dev, a, b);
    SameNumber(c.Window(), a, b);
  }

  lemma {:induction false} CellParts(c: Config, dev: bv8, a: nat)
    ensures Cell(c, dev, a) / c.Window() == Number(Chip(c, dev, a))
    ensures Cell(c, dev, a) % c.Window() == a % c.Window()
  {
    hide Chip;
    var w := c.Window();
    ModSmall(a, w);
    DivisionIs(Cell(c, dev, a), w, Number(Chip(c, dev, a)), a % w);
  }

  lemma {:induction false} SameNumber(w: nat, a: nat, b: nat)
    requires w > 0 && a / w == b / w && a % w == b % w
    ensures a == b
  {
    assert a == w * (a / w) + a % w && b == w * (b / w) + b % w;
  }

  lemma {:induction false} SameNat(p: bv8, q: bv8)
    ensures Number(p) == Number(q) ==> p == q
  {
    assert (p as nat) as bv8 == p && (q as nat) as bv8 == q;
  }

  lemma {:induction false} ByteNumber(x: nat)
    requires x < 256
    ensures Number(Byte(x)) == x
  {
    ModSmall(x, 256);
    var b := x as bv8;
    assert b as nat == x;
  }

  lemma {:induction false} SameByte(x: nat, y: nat)
    requires x < 256 && y < 256 && Byte(x) == Byte(y)
    ensures x == y
  {
    hide Byte, Number;
    ByteNumber(x);
    ByteNumber(y);
  }

  lemma {:induction false} SameBlock(c: Config, dev: bv8, a: nat, b: nat)
    requires BlockFits(c, dev, a) && BlockFits(c, dev, b) && Chip(c, dev, a) == Chip(c, dev, b)
    ensures a / c.Window() == b / c.Window()
  {
    hide Byte;
    var x, y := a / c.Window(), b / c.Window();
    OrInjective(Byte(x), Byte(y), dev);
    SameByte(x, y);
  }

  lemma {:induction false} OrInjective(x: bv8, y: bv8, d: bv8)
    requires x & d == 0 && y & d == 0 && x | d == y | d
    ensures x == y
  {
  }

  // ----- the functions themselves --------------------------------------------------------------

  /** The number of bytes a request covers: none when offset + cnt wraps around 2^32. */
  function Effective(offset: nat, cnt: nat): nat {
    if offset + cnt < LIMIT then cnt else 0
  }

  /** The first chunk of what is left, and the rest. */
  lemma {:induction false} ChunkStep(mem: seq<bv8>, c: Config, dev: bv8, off: nat, buffer: seq<bv8>, at: nat, total: nat,
                                     nack: set<nat>)
    requires c.Valid() && |mem| == 256 * c.Window() && at < total <= |buffer|
    ensures var len := WriteLen(c, off, total - at);
      && 0 < len <= total - at
      && Chunked(mem, c, dev, off, buffer[at..total], nack)
         == Chunked(if off in nack then mem else Burst(mem, c, dev, off, c.Page(), buffer[at..at + len]),
                    c, dev, off + len, buffer[at + len..total], nack)
      && (WriteRefused(c, off, total - at, nack) <==> off in nack || WriteRefused(c, off + len, total - at - len, nack))
  {
    hide WriteLen, Burst;
    var len := WriteLen(c, off, total - at);
    assert buffer[at..total][..len] == buffer[at..at + len];
    assert buffer[at..total][len..] == buffer[at + len..total];
  }

  class Device {
    const c: Config
    const nack: set<nat>
    const mem: array<bv8>

    constructor (c: Config, nack: set<nat>)
      requires c.Valid()
      ensures this.c == c && this.nack == nack && Valid() && fresh(mem)
    {
      this.c, this.nack := c, nack;
      mem := new bv8[256 * c.Window()];
    }

    ghost predicate Valid() {
      c.Valid() && mem.Length == 256 * c.Window()
    }

    method I2cWrite(dev: bv8, offset: nat, data: seq<bv8>) returns (failed: bool)
      requires Valid()
      modifies mem
      ensures failed <==> offset in nack
      ensures mem[..] == if failed then old(mem[..]) else Burst(old(mem[..]), c, dev, offset, c.Page(), data)
    {
      hide Wrapped;
      if offset in nack {
        return true;
      }
      assert data[..0] == [];
      for i := 0 to |data|
        invariant mem[..] == Burst(old(mem[..]), c, dev, offset, c.Page(), data[..i])
      {
        assert data[..i + 1][..i] == data[..i];
        mem[Wrapped(c, dev, offset, c.Page(), i)] := data[i];
      }
      assert data[..|data|] == data;
      return false;
    }

    method EepromWrite(dev: bv8, offset: nat, buffer: seq<bv8>, cnt: nat) returns (rcode: int)
      requires Valid() && offset < LIMIT && cnt < LIMIT && cnt <= |buffer|
      modifies mem
      ensures mem[..] == Chunked(old(mem[..]), c, dev, offset, buffer[..Effective(offset, cnt)], nack)
      ensures rcode == if WriteRefused(c, offset, Effective(offset, cnt), nack) then 1 else 0
    {
      hide WriteLen, Burst, Chunked, WriteRefused;
      var end := (offset + cnt) % LIMIT;
      EndIs(offset, cnt);
      ghost var total := Effective(offset, cnt);
      var off, at := offset, 0;
      rcode := 0;
      while off < end
        invariant total > 0 ==> off == offset + at && at <= total && end == offset + total
        invariant total == 0 ==> off >= end && at == 0
        invariant rcode == 0 || rcode == 1
        invariant Chunked(mem[..], c, dev, off, buffer[at..total], nack)
          == Chunked(old(mem[..]), c, dev, offset, buffer[..total], nack)
        invariant rcode == 1 || WriteRefused(c, off, total - at, nack) <==> WriteRefused(c, offset, total, nack)
        decreases end - off
      {
        var len := WriteLen(c, off, end - off);
        ChunkStep(mem[..], c, dev, off, buffer, at, total, nack);
        var failed := I2cWrite(dev, off, buffer[at..at + len]);
        if failed {
          rcode := 1;
        }
        at, off := at + len, off + len;
      }
      NothingChunked(mem[..], c, dev, off, nack);
      assert buffer[total..total] == [];
    }

    method I2cRead(dev: bv8, offset: nat, n: nat) returns (failed: bool, data: seq<bv8>)
      requires Valid()
      ensures failed <==> offset in nack
      ensures !failed ==> data == BurstGet(mem[..], c, dev, offset, 256, n)
    {
      failed, data := offset in nack, [];
      if !failed {
        data := BurstGet(mem[..], c, dev, offset, 256, n);
      }
    }

    /** i2c_read into the buffer; a refused transfer leaves its part of the buffer alone. */
    method ReadChunk(dev: bv8, offset: nat, buffer: array<bv8>, at: nat, len: nat) returns (failed: bool)
      requires Valid() && at + len <= buffer.Length && buffer != mem
      modifies buffer
      ensures failed <==> offset in nack
      ensures buffer[..] == if failed then old(buffer[..])
        else Splice(old(buffer[..]), at, BurstGet(mem[..], c, dev, offset, 256, len))
    {
      var data;
      failed, data := I2cRead(dev, offset, len);
      if !failed {
        CopyIn(buffer, at, data);
      }
    }

    /** A refused transfer leaves its part of the buffer alone. */
    method EepromRead(dev: bv8, offset: nat, buffer: array<bv8>, cnt: nat) returns (rcode: int)
      requires Valid() && offset < LIMIT && cnt < LIMIT && cnt <= buffer.Length && buffer != mem
      modifies buffer
      ensures
        var n := Effective(offset, cnt);
        && buffer[..n] == ChunkedGet(mem[..], c, dev, offset, old(buffer[..n]), nack)
        && buffer[n..] == old(buffer[n..])
      ensures rcode == if ReadRefused(c, offset, Effective(offset, cnt), nack) then 1 else 0
    {
      hide ReadLen, BurstGet, ChunkedGet, ReadRefused, Effective, Splice, GotSoFar, Pow2;
      var end := (offset + cnt) % LIMIT;
      EffectiveIs(offset, cnt);
      ghost var total, all, m := Effective(offset, cnt), buffer[..], mem[..];
      var off, at := offset, 0;
      rcode := 0;
      NothingGot(m, c, dev, offset, nack, all, total);
      while off < end
        invariant off == offset + at && at <= total
        invariant if total == 0 then end <= off else end - off == total - at
        invariant (rcode == 0 || rcode == 1) && mem[..] == m
        invariant GotSoFar(m, c, dev, offset, nack, all, total, at, buffer[..])
        invariant rcode == 1 || ReadRefused(c, off, total - at, nack) <==> ReadRefused(c, offset, total, nack)
        decreases end - off
      {
        var len := ReadLen(c, off, end - off);
        RefusedStep(c, off, end - off, nack);
        ghost var before := buffer[..];
        var failed := ReadChunk(dev, off, buffer, at, len);
        GotMore(m, c, dev, offset, nack, all, total, at, before, buffer[..]);
        if failed {
          rcode := 1;
        }
        at, off := at + len, off + len;
      }
      RefusedEnd(c, off, nack);
      GotAll(m, c, dev, offset, nack, all, total, buffer[..]);
    }
  }

  /** The first `at` bytes of the buffer have been dealt with. */
  predicate GotSoFar(m: seq<bv8>, c: Config, dev: bv8, offset: nat, nack: set<nat>,
                     all: seq<bv8>, total: nat, at: nat, now: seq<bv8>)
    requires c.Valid() && |m| == 256 * c.Window()
  {
    && at <= total <= |all| == |now| && now[at..] == all[at..]
    && now[..at] + ChunkedGet(m, c, dev, offset + at, all[at..total], nack)
       == ChunkedGet(m, c, dev, offset, all[..total], nack)
  }

  lemma {:induction false} NothingGot(m: seq<bv8>, c: Config, dev: bv8, offset: nat, nack: set<nat>,
                                      all: seq<bv8>, total: nat)
    requires c.Valid() && |m| == 256 * c.Window() && total <= |all|
    ensures GotSoFar(m, c, dev, offset, nack, all, total, 0, all)
  {
  }

  lemma {:induction false} GotAll(m: seq<bv8>, c: Config, dev: bv8, offset: nat, nack: set<nat>,
                                  all: seq<bv8>, total: nat, now: seq<bv8>)
    requires c.Valid() && |m| == 256 * c.Window() && GotSoFar(m, c, dev, offset, nack, all, total, total, now)
    ensures total <= |all| == |now|
    ensures now[..total] == ChunkedGet(m, c, dev, offset, all[..total], nack) && now[total..] == all[total..]
  {
  }

  lemma {:induction false} GotMore(m: seq<bv8>, c: Config, dev: bv8, offset: nat, nack: set<nat>,
                                   all: seq<bv8>, total: nat, at: nat, before: seq<bv8>, now: seq<bv8>)
    requires c.Valid() && |m| == 256 * c.Window() && at < total <= |before|
    requires GotSoFar(m, c, dev, offset, nack, all, total, at, before)
    requires
      var len := ReadLen(c, offset + at, total - at);
      now == if offset + at in nack then before
             else Splice(before, at, BurstGet(m, c, dev, offset + at, 256, len))
    ensures GotSoFar(m, c, dev, offset, nack, all, total, at + ReadLen(c, offset + at, total - at), now)
  {
    hide ReadLen, BurstGet, ChunkedGet, Pow2;
    var left, len := all[at..total], ReadLen(c, offset + at, total - at);
    GetStep(m, c, dev, offset + at, left, nack);
    var piece := if offset + at in nack then left[..len] else BurstGet(m, c, dev, offset + at, 256, len);
    SpliceParts(all, total, at, before, piece, now);
    Regroup(before[..at], piece, ChunkedGet(m, c, dev, offset + at + len, left[len..], nack));
  }

  lemma {:induction false} SpliceParts(all: seq<bv8>, total: nat, at: nat, before: seq<bv8>, piece: seq<bv8>,
                                       now: seq<bv8>)
    requires at + |piece| <= total <= |all| == |before| && before[at..] == all[at..]
    requires now == Splice(before, at, piece) || (piece == all[at..total][..|piece|] && now == before)
    ensures |now| == |all| && now[..at + |piece|] == before[..at] + piece
    ensures now[at + |piece|..] == all[at + |piece|..]
    ensures all[at..total][|piece|..] == all[at + |piece|..total]
  {
    var len := |piece|;
    assert before[at + len..] == before[at..][len..];
    if now == before {
      assert before[at..at + len] == before[at..][..len];
      assert all[at..total][..len] == all[at..][..len];
    }
  }

  lemma {:induction false} RefusedStep(c: Config, offset: nat, left: nat, nack: set<nat>)
    requires c.Valid() && left > 0
    ensures ReadRefused(c, offset, left, nack) <==>
      offset in nack || ReadRefused(c, offset + ReadLen(c, offset, left), left - ReadLen(c, offset, left), nack)
  {
  }

  lemma {:induction false} RefusedEnd(c: Config, offset: nat, nack: set<nat>)
    requires c.Valid()
    ensures !ReadRefused(c, offset, 0, nack)
  {
  }

  lemma {:induction false} Regroup(a: seq<bv8>, b: seq<bv8>, c: seq<bv8>)
    ensures a + (b + c) == a + b + c
  {
  }

  lemma {:induction false} GetStep(mem: seq<bv8>, c: Config, dev: bv8, offset: nat, buf: seq<bv8>, nack: set<nat>)
    requires c.Valid() && |mem| == 256 * c.Window() && buf != []
    ensures
      var len := ReadLen(c, offset, |buf|);
      var d := if offset in nack then buf[..len] else BurstGet(mem, c, dev, offset, 256, len);
      && len > 0
      && ChunkedGet(mem, c, dev, offset, buf, nack) == d + ChunkedGet(mem, c, dev, offset + len, buf[len..], nack)
  {
    hide BurstGet;
  }

  /** `s` with the bytes from `at` on replaced. */
  function Splice(s: seq<bv8>, at: nat, piece: seq<bv8>): (t: seq<bv8>)
    requires at + |piece| <= |s|
    ensures |t| == |s|
  {
    s[..at] + piece + s[at + |piece|..]
  }

  method CopyIn(buffer: array<bv8>, at: nat, data: seq<bv8>)
    requires at + |data| <= buffer.Length
    modifies buffer
    ensures buffer[..] == Splice(old(buffer[..]), at, data)
  {
    forall i | 0 <= i < |data| {
      buffer[at + i] := data[i];
    }
  }

  lemma {:induction false} EffectiveIs(offset: nat, cnt: nat)
    requires offset < LIMIT && cnt < LIMIT
    ensures
      var end, n := (offset + cnt) % LIMIT, Effective(offset, cnt);
      n <= cnt && if n == 0 then end <= offset else end - offset == n
  {
    EndIs(offset, cnt);
  }

  lemma {:induction false} EndIs(offset: nat, cnt: nat)
    requires offset < LIMIT && cnt < LIMIT
    ensures (offset + cnt) % LIMIT
      == if offset + cnt < LIMIT then offset + cnt else offset + cnt - LIMIT
  {
  }
}