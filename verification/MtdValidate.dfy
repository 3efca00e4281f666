/** Which partitions common/cmd_mtdparts.c accepts: part_validate and part_validate_eraseblock.
    Offsets and sizes are 32-bit numbers and sums of them wrap. */
module MtdValidate {
  import opened Common

  const SIZE_REMAINING: nat := 0xFFFF_FFFF

  /** `numblocks` erase blocks of `erasesize` bytes from `offset` on. */
  datatype Region = Region(offset: u32, erasesize: u32, numblocks: nat)

  /** What the flash driver knows of a device; no regions means uniform blocks of `erasesize`. */
  datatype Mtd = Mtd(erasesize: u32, regions: seq<Region>)

  /** Address of block `j` of a region; `j == numblocks` is the end of the region. */
  function Start(r: Region, j: nat): nat {
    r.offset + j * r.erasesize
  }

  // ----- what the loops find ------------------------------------------------------------------

  ghost predicate IsBlockStart(rs: seq<Region>, x: u32) {
    exists i, j: nat {:trigger Start(rs[i], j)} :: 0 <= i < |rs| && j < rs[i].numblocks && Wrap(Start(rs[i], j)) == x
  }

  ghost predicate EndsAtBlock(rs: seq<Region>, x: u32)
    requires rs != []
  {
    IsBlockStart(rs, x) || Wrap(Start(rs[|rs| - 1], rs[|rs| - 1].numblocks)) == x
  }

  /** One scan over all block starts: whether `x` is one, and the value `start` ends with. */
  method Scan(rs: seq<Region>, x: u32) returns (found: bool, start: u32)
    requires rs != []
    ensures found <==> IsBlockStart(rs, x)
    ensures !found ==> start == Wrap(Start(rs[|rs| - 1], rs[|rs| - 1].numblocks))
  {
    var i := 0;
    start := 0;
    while i < |rs|
      invariant 0 <= i <= |rs|
      invariant forall a, b: nat {:trigger Start(rs[a], b)} ::
        0 <= a < i && b < rs[a].numblocks ==> Wrap(Start(rs[a], b)) != x
      invariant i > 0 ==> start == Wrap(Start(rs[i - 1], rs[i - 1].numblocks))
    {
      start := rs[i].offset;
      var j: nat := 0;
      while j < rs[i].numblocks
        invariant j <= rs[i].numblocks && start == Wrap(Start(rs[i], j))
        invariant forall b: nat {:trigger Start(rs[i], b)} :: b < j ==> Wrap(Start(rs[i], b)) != x
      {
        if x == start {
          return true, start;
        }
        NextStart(rs[i], j);
        start := Wrap(start + rs[i].erasesize);
        j := j + 1;
      }
      i := i + 1;
    }
    return false, start;
  }

  lemma {:induction false} NextStart(r: Region, j: nat)
    ensures Start(r, j + 1) == Start(r, j) + r.erasesize
    ensures Wrap(Wrap(Start(r, j)) + r.erasesize) == Wrap(Start(r, j + 1))
  {
    Distribute(j, 1, r.erasesize);
    hide Wrap;
    WrapTwice(Start(r, j), r.erasesize);
  }

  ghost predicate Aligned(mtd: Mtd, offset: u32, size: u32) {
    if mtd.regions == [] then
      mtd.erasesize > 0 && offset % mtd.erasesize == 0 && size % mtd.erasesize == 0
    else IsBlockStart(mtd.regions, offset) && EndsAtBlock(mtd.regions, Wrap(offset + size))
  }

  /** part_validate_eraseblock; a uniform device has a positive erase size. */
  method PartValidateEraseblock(device: Option<Mtd>, offset: u32, size: u32) returns (rc: int)
    requires device.Some? && device.value.regions == [] ==> device.value.erasesize > 0
    ensures rc == 0 || rc == 1
    ensures rc == 0 <==> device.Some? && Aligned(device.value, offset, size)
  {
    if device.None? {
      return 1;
    }
    var mtd := device.value;
    if |mtd.regions| == 0 {
      if offset % mtd.erasesize != 0 {
        return 1;
      }
      if size % mtd.erasesize != 0 {
        return 1;
      }
      return 0;
    }
    var found, start := Scan(mtd.regions, offset);
    if !found {
      return 1;
    }
    found, start := Scan(mtd.regions, Wrap(offset + size));
    if found || Wrap(offset + size) == start {
      return 0;
    }
    return 1;
  }

  /** The size a partition gets: all the remaining space on request. */
  function FinalSize(devSize: u32, offset: u32, size: u32): u32 {
    if size == SIZE_REMAINING then Wrap(devSize - offset) else size
  }

  ghost predicate Accepts(device: Option<Mtd>, devSize: u32, offset: u32, size: u32) {
    var s := FinalSize(devSize, offset, size);
    && offset <= devSize && Wrap(offset + s) > offset && Wrap(offset + s) <= devSize
    && device.Some? && Aligned(device.value, offset, s)
  }

  /** part_validate: the return code and the size the partition then has. */
  method PartValidate(device: Option<Mtd>, devSize: u32, offset: u32, size: u32) returns (rc: int, newSize: u32)
    requires device.Some? && device.value.regions == [] ==> device.value.erasesize > 0
    ensures newSize == FinalSize(devSize, offset, size)
    ensures rc == 0 || rc == 1
    ensures rc == 0 <==> Accepts(device, devSize, offset, size)
  {
    newSize := size;
    if newSize == SIZE_REMAINING {
      newSize := Wrap(devSize - offset);
    }
    if offset > devSize {
      return 1, newSize;
    }
    if Wrap(offset + newSize) <= offset {
      return 1, newSize;
    }
    if Wrap(offset + newSize) > devSize {
      return 1, newSize;
    }
    rc := PartValidateEraseblock(device, offset, newSize);
  }

  // ----- what it means ------------------------------------------------------------------------

  /** Without any wrap: a non-empty range inside the device. */
  ghost predicate InRange(devSize: u32, offset: u32, size: u32) {
    size > 0 && offset + size <= devSize
  }

  /** The range and the block [from, to) do not cut each other. */
  predicate Whole(offset: nat, size: nat, from: nat, to: nat) {
    (offset <= from && to <= offset + size) || to <= offset || offset + size <= from
  }

  ghost predicate WholeUniform(erasesize: nat, offset: nat, size: nat) {
    forall k: nat {:trigger k * erasesize} :: Whole(offset, size, k * erasesize, (k + 1) * erasesize)
  }

  ghost predicate WholeRegions(rs: seq<Region>, offset: nat, size: nat) {
    forall i, j: nat {:trigger Start(rs[i], j)} ::
      0 <= i < |rs| && j < rs[i].numblocks ==> Whole(offset, size, Start(rs[i], j), Start(rs[i], j + 1))
  }

  /** The regions follow each other without a gap from 0 to the end of the device. */
  ghost predicate Contiguous(rs: seq<Region>, devSize: u32) {
    && rs != [] && rs[0].offset == 0
    && (forall i | 0 <= i < |rs| :: rs[i].erasesize > 0 && rs[i].numblocks > 0)
    && (forall i | 0 < i < |rs| :: rs[i].offset == Start(rs[i - 1], rs[i - 1].numblocks))
    && devSize == Start(rs[|rs| - 1], rs[|rs| - 1].numblocks)
  }

  /** Block `j` of region `i` ends at or before block `b` of region `a` begins when it comes first. */
  lemma {:induction false} BlockOrder(rs: seq<Region>, devSize: u32, i: nat, j: nat, a: nat, b: nat)
    requires Contiguous(rs, devSize) && i <= a < |rs| && j < rs[i].numblocks && b <= rs[a].numblocks
    requires i < a || j < b
    ensures Start(rs[i], j + 1) <= Start(rs[a], b) <= devSize
    decreases a - i
  {
    Monotone(rs[i], j + 1, rs[i].numblocks);
    Monotone(rs[a], 0, b);
    Monotone(rs[a], b, rs[a].numblocks);
    RegionsEndInside(rs, devSize, a);
    if i < a {
      if i + 1 < a {
        BlockOrder(rs, devSize, i, j, a - 1, rs[a - 1].numblocks);
      }
    } else {
      Monotone(rs[i], j + 1, b);
    }
  }

  lemma {:induction false} Monotone(r: Region, j: nat, k: nat)
    requires j <= k
    ensures Start(r, j) <= Start(r, k)
    ensures j < k && r.erasesize > 0 ==> Start(r, j) < Start(r, k)
    decreases k - j
  {
    if j < k {
      Monotone(r, j, k - 1);
      NextStart(r, k - 1);
    }
  }

  lemma {:induction false} RegionsEndInside(rs: seq<Region>, devSize: u32, i: nat)
    requires Contiguous(rs, devSize) && i < |rs|
    ensures Start(rs[i], rs[i].numblocks) <= devSize
    decreases |rs| - i
  {
    if i + 1 < |rs| {
      Monotone(rs[i + 1], 0, rs[i + 1].numblocks);
      RegionsEndInside(rs, devSize, i + 1);
    }
  }

  /** Every address inside the device lies in some block. */
  lemma {:induction false} BlockOf(rs: seq<Region>, devSize: u32, x: nat) returns (i: nat, j: nat)
    requires Contiguous(rs, devSize) && x < devSize
    ensures i < |rs| && j < rs[i].numblocks && Start(rs[i], j) <= x < Start(rs[i], j + 1)
  {
    i := 0;
    while x >= Start(rs[i], rs[i].numblocks)
      invariant i < |rs| && rs[i].offset <= x
      decreases |rs| - i
    {
      i := i + 1;
    }
    j := 0;
    while x >= Start(rs[i], j + 1)
      invariant j < rs[i].numblocks && Start(rs[i], j) <= x
      decreases rs[i].numblocks - j
    {
      j := j + 1;
    }
  }

  /** A partition is accepted on a device with several contiguous regions exactly when it is a
      non-empty range inside the device that cuts no erase block. */
  lemma {:induction false} AcceptsExactlyWholeBlocks(rs: seq<Region>, es: u32, devSize: u32, offset: u32, size: u32)
    requires Contiguous(rs, devSize) && size != SIZE_REMAINING
    ensures Accepts(Some(Mtd(es, rs)), devSize, offset, size) <==>
      InRange(devSize, offset, size) && WholeRegions(rs, offset, size)
  {
    AcceptsRegions(rs, es, devSize, offset, size);
    hide Accepts, Contiguous, WholeRegions, IsBlockStart, EndsAtBlock;
    if Accepts(Some(Mtd(es, rs)), devSize, offset, size) {
      StartIsWhole(rs, devSize, offset, size);
    }
    if InRange(devSize, offset, size) && WholeRegions(rs, offset, size) {
      WholeIsStart(rs, devSize, offset, size);
    }
  }

  lemma {:induction false} AcceptsRegions(rs: seq<Region>, es: u32, devSize: u32, offset: u32, size: u32)
    requires Contiguous(rs, devSize) && size != SIZE_REMAINING
    ensures Accepts(Some(Mtd(es, rs)), devSize, offset, size) <==>
      InRange(devSize, offset, size) && IsBlockStart(rs, offset) && EndsAtBlock(rs, offset + size)
  {
    assert rs != [];
    hide Contiguous, IsBlockStart, EndsAtBlock, InRange, Wrap;
    WrapInRange(devSize, offset, size);
  }

  /** The three range tests modulo 2^32. */
  lemma {:induction false} WrapInRange(devSize: u32, offset: u32, size: u32)
    ensures offset <= devSize && Wrap(offset + size) > offset && Wrap(offset + size) <= devSize <==>
      InRange(devSize, offset, size)
    ensures InRange(devSize, offset, size) ==> Wrap(offset + size) == offset + size
  {
    if offset + size >= LIMIT {
      assert Wrap(offset + size) == offset + size - LIMIT;
    }
  }

  lemma {:induction false} WholeIsStart(rs: seq<Region>, devSize: u32, offset: u32, size: u32)
    requires Contiguous(rs, devSize) && InRange(devSize, offset, size) && WholeRegions(rs, offset, size)
    ensures IsBlockStart(rs, offset) && EndsAtBlock(rs, offset + size)
  {
    hide Contiguous, Start, Wrap;
    var i, j := BlockOf(rs, devSize, offset);
    WholeAt(rs, offset, size, i, j);
    StartHere(rs, offset, i, j);
    var a, b := BlockOf(rs, devSize, offset + size - 1);
    WholeAt(rs, offset, size, a, b);
    EndHere(rs, devSize, offset + size, a, b);
  }

  lemma {:induction false} WholeAt(rs: seq<Region>, offset: u32, size: u32, i: nat, j: nat)
    requires WholeRegions(rs, offset, size) && i < |rs| && j < rs[i].numblocks
    ensures Whole(offset, size, Start(rs[i], j), Start(rs[i], j + 1))
  {
    hide Start, Whole;
  }

  lemma {:induction false} StartHere(rs: seq<Region>, x: u32, i: nat, j: nat)
    requires i < |rs| && j < rs[i].numblocks && Start(rs[i], j) == x
    ensures IsBlockStart(rs, x)
  {
    hide Start;
    assert Wrap(Start(rs[i], j)) == x;
  }

  /** The end of a block starts the next one, that of the next region, or it is the end of the device. */
  lemma {:induction false} EndHere(rs: seq<Region>, devSize: u32, end: u32, i: nat, j: nat)
    requires Contiguous(rs, devSize) && i < |rs| && j < rs[i].numblocks && Start(rs[i], j + 1) == end
    ensures EndsAtBlock(rs, end)
  {
    hide IsBlockStart;
    if j + 1 < rs[i].numblocks {
      StartHere(rs, end, i, j + 1);
    } else if i + 1 < |rs| {
      StartHere(rs, end, i + 1, 0);
    }
  }

  lemma {:induction false} StartIsWhole(rs: seq<Region>, devSize: u32, offset: u32, size: u32)
    requires Contiguous(rs, devSize) && offset + size <= devSize && size > 0
    requires IsBlockStart(rs, offset) && EndsAtBlock(rs, offset + size)
    ensures WholeRegions(rs, offset, size)
  {
    hide Contiguous, Start;
    var n := |rs| - 1;
    var i, j: nat :| 0 <= i < |rs| && j < rs[i].numblocks && Wrap(Start(rs[i], j)) == offset;
    BlockEndsInside(rs, devSize, i, j);
    RegionsEndInside(rs, devSize, n);
    var a, b := n, rs[n].numblocks;
    if IsBlockStart(rs, offset + size) {
      a, b :| 0 <= a < |rs| && 0 <= b < rs[a].numblocks && Wrap(Start(rs[a], b)) == offset + size;
      BlockEndsInside(rs, devSize, a, b);
    }
    forall k, l: nat | 0 <= k < |rs| && l < rs[k].numblocks
      ensures Whole(offset, size, Start(rs[k], l), Start(rs[k], l + 1))
    {
      Sides(rs, devSize, k, l, i, j);
      Sides(rs, devSize, k, l, a, b);
    }
  }

  lemma {:induction false} BlockEndsInside(rs: seq<Region>, devSize: u32, i: nat, j: nat)
    requires Contiguous(rs, devSize) && i < |rs| && j < rs[i].numblocks
    ensures Start(rs[i], j) < Start(rs[i], j + 1) <= devSize
  {
    Monotone(rs[i], j, j + 1);
    Monotone(rs[i], j + 1, rs[i].numblocks);
    RegionsEndInside(rs, devSize, i);
  }

  /** A block lies on one side of any block boundary. */
  lemma {:induction false} Sides(rs: seq<Region>, devSize: u32, k: nat, l: nat, a: nat, b: nat)
    requires Contiguous(rs, devSize) && k < |rs| && l < rs[k].numblocks && a < |rs| && b <= rs[a].numblocks
    ensures Start(rs[k], l + 1) <= Start(rs[a], b) || Start(rs[a], b) <= Start(rs[k], l)
  {
    if k < a || (k == a && l < b) {
      BlockOrder(rs, devSize, k, l, a, b);
    } else if k == a {
      Monotone(rs[k], b, l);
    } else {
      Monotone(rs[a], b, rs[a].numblocks);
      Monotone(rs[k], 0, l);
      if a + 1 < k {
        BlockOrder(rs, devSize, a, rs[a].numblocks - 1, k, 0);
      }
    }
  }

  /** The same for a device with uniform blocks. */
  lemma {:induction false} AcceptsExactlyWholeUniform(es: u32, devSize: u32, offset: u32, size: u32)
    requires es > 0 && size != SIZE_REMAINING
    ensures Accepts(Some(Mtd(es, [])), devSize, offset, size) <==>
      InRange(devSize, offset, size) && WholeUniform(es, offset, size)
  {
    hide WholeUniform;
    if offset % es == 0 && size % es == 0 {
      MultiplesAreWhole(es, offset, size);
    }
    if InRange(devSize, offset, size) && WholeUniform(es, offset, size) {
      WholeAreMultiples(es, offset, size);
    }
  }

  lemma {:induction false} MultiplesAreWhole(es: nat, offset: nat, size: nat)
    requires es > 0 && offset % es == 0 && size % es == 0
    ensures WholeUniform(es, offset, size)
  {
    var p, q := offset / es, size / es;
    assert offset == p * es && size == q * es;
    forall k: nat
      ensures Whole(p * es, q * es, k * es, (k + 1) * es)
    {
      MultipleIsWhole(es, p, q, k);
    }
  }

  lemma {:induction false} WholeEnds(es: nat, offset: nat, size: nat) returns (p: nat, q: nat)
    requires es > 0 && size > 0 && WholeUniform(es, offset, size)
    ensures offset == p * es && offset + size == q * es
  {
    p, q := DivMod(offset, es), DivMod(offset + size, es);
    assert Whole(offset, size, p * es, (p + 1) * es);
    assert Whole(offset, size, q * es, (q + 1) * es);
    hide WholeUniform;
    Distribute(p, 1, es);
    Distribute(q, 1, es);
  }

  lemma {:induction false} WholeAreMultiples(es: nat, offset: nat, size: nat)
    requires es > 0 && size > 0 && WholeUniform(es, offset, size)
    ensures offset % es == 0 && size % es == 0
  {
    hide WholeUniform;
    var p, q := WholeEnds(es, offset, size);
    Distribute(q, -p, es);
    assert size == (q - p) * es;
    MultipleMod(p, es);
    MultipleMod(q - p, es);
  }

  /** x / m, and where x lies between multiples. */
  function DivMod(x: nat, m: nat): (q: nat)
    requires m > 0
    ensures q * m <= x < q * m + m
  {
    x / m
  }

  lemma {:induction false} MultipleIsWhole(es: nat, p: nat, q: nat, k: nat)
    requires es > 0
    ensures Whole(p * es, q * es, k * es, (k + 1) * es)
  {
    Distribute(p, q, es);
    if k < p {
      Multiples(k + 1, p, es);
    } else if k >= p + q {
      Multiples(p + q, k, es);
    } else {
      Multiples(p, k, es);
      Multiples(k + 1, p + q, es);
    }
  }

  /** Asking for the remaining space is refused exactly behind the end of the device, at its end, or
      when the rest of the device cuts an erase block. */
  lemma {:induction false} RemainingSpace(device: Option<Mtd>, devSize: u32, offset: u32)
    ensures Accepts(device, devSize, offset, SIZE_REMAINING) <==>
      offset < devSize && device.Some? && Aligned(device.value, offset, devSize - offset)
  {
  }
}
