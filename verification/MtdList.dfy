/** The lists of common/cmd_mtdparts.c: the partitions of a device, sorted by offset, the list of
    devices, and the "current" partition that an index into the list stands for. */
module MtdList {
  import opened Common

  type u16 = x: int | 0 <= x < 0x1_0000
  type u8 = x: int | 0 <= x < 0x100

  /** A partition, once it has been validated. */
  class PartInfo {
    const offset: u32
    const size: u32
    var dev: MtdDevice?

    constructor (o: u32, s: u32)
      ensures offset == o && size == s && dev == null
    {
      offset, size, dev := o, s, null;
    }
  }

  class MtdDevice {
    var parts: seq<PartInfo>
    var numParts: u16

    constructor ()
      ensures parts == [] && numParts == 0
    {
      parts, numParts := [], 0;
    }

    ghost predicate Valid()
      reads this
    {
      numParts == |parts| % 0x1_0000 && Sorted(parts) && Distinct(parts)
    }
  }

  predicate Sorted(parts: seq<PartInfo>) {
    forall i, j | 0 <= i < j < |parts| :: parts[i].offset <= parts[j].offset
  }

  /** The partition with number `n` if that is below num_parts. */
  function Entry(parts: seq<PartInfo>, numParts: nat, n: nat): PartInfo? {
    if n < numParts && n < |parts| then parts[n] else null
  }

  /** Adding a partition as entry `i` of `size` wraps the current number `n` or num_parts. */
  predicate Wraps(size: nat, n: u8, i: nat) {
    (size + 1) % 0x1_0000 == 0 || (n == 255 && i <= 255)
  }

  /** No partition is linked twice. */
  predicate Distinct(parts: seq<PartInfo>) {
    forall i, j | 0 <= i < j < |parts| :: parts[i] != parts[j]
  }

  predicate OneAtZero(parts: seq<PartInfo>) {
    forall i, j | 0 <= i < j < |parts| :: !(parts[i].offset == 0 && parts[j].offset == 0)
  }

  /** Where a partition at `offset` goes: in front of the first that does not start before it. */
  function Place(parts: seq<PartInfo>, offset: u32): (i: nat)
    ensures i <= |parts|
    ensures forall j | 0 <= j < i :: parts[j].offset < offset
    ensures i < |parts| ==> offset <= parts[i].offset
  {
    if parts == [] || offset <= parts[0].offset then 0 else 1 + Place(parts[1..], offset)
  }

  function Insert(parts: seq<PartInfo>, i: nat, part: PartInfo): seq<PartInfo>
    requires i <= |parts|
  {
    parts[..i] + [part] + parts[i..]
  }

  function Delete<T>(s: seq<T>, k: nat): seq<T>
    requires k < |s|
  {
    s[..k] + s[k + 1..]
  }

  /** The number of the current partition `curr` once another one is in front of entry `i`. */
  function Up(parts: seq<PartInfo>, i: nat, curr: PartInfo?, n: u8): u8 {
    if i < |parts| && curr != null && parts[i].offset <= curr.offset then (n + 1) % 0x100 else n
  }

  /** The number of the current partition `curr` once `part` is deleted from its device. */
  function Down(part: PartInfo, curr: PartInfo?, n: u8): u8 {
    if curr == null then n
    else if curr == part then 0
    else if part.offset <= curr.offset then (n - 1) % 0x100
    else n
  }

  lemma {:induction false} InsertAt(parts: seq<PartInfo>, i: nat, part: PartInfo)
    requires i <= |parts|
    ensures |Insert(parts, i, part)| == |parts| + 1
    ensures forall j | 0 <= j <= |parts| ::
      Insert(parts, i, part)[j] == if j < i then parts[j] else if j == i then part else parts[j - 1]
  {
  }

  lemma {:induction false} InsertKeepsOrder(parts: seq<PartInfo>, part: PartInfo)
    requires Sorted(parts) && Distinct(parts) && part !in parts
    ensures var r := Insert(parts, Place(parts, part.offset), part);
      && Sorted(r) && Distinct(r)
      && (OneAtZero(parts) && !(part.offset == 0 && parts != [] && parts[0].offset == 0) ==> OneAtZero(r))
  {
    hide Insert, Place;
    var i := Place(parts, part.offset);
    var r := Insert(parts, i, part);
    InsertAt(parts, i, part);
    forall a, b | 0 <= a < b < |r|
      ensures r[a].offset <= r[b].offset && r[a] != r[b]
      ensures r[a].offset == 0 == r[b].offset ==>
        !OneAtZero(parts) || (part.offset == 0 && parts != [] && parts[0].offset == 0)
    {
      InsertPair(parts, i, part, r, a, b);
    }
  }

  lemma {:induction false} InsertPair(parts: seq<PartInfo>, i: nat, part: PartInfo, r: seq<PartInfo>, a: nat, b: nat)
    requires Sorted(parts) && Distinct(parts) && part !in parts && i <= |parts| && a < b < |r| == |parts| + 1
    requires forall j | 0 <= j < i :: parts[j].offset < part.offset
    requires i < |parts| ==> part.offset <= parts[i].offset
    requires r[a] == if a < i then parts[a] else if a == i then part else parts[a - 1]
    requires r[b] == if b < i then parts[b] else if b == i then part else parts[b - 1]
    ensures r[a].offset <= r[b].offset && r[a] != r[b]
    ensures r[a].offset == 0 == r[b].offset ==>
      !OneAtZero(parts) || (part.offset == 0 && parts != [] && parts[0].offset == 0)
  {
    if a < i {
      assert parts[a] in parts;
    } else if a == i {
      assert parts[b - 1] in parts;
    }
  }

  lemma {:induction false} PlaceIs(parts: seq<PartInfo>, offset: u32, i: nat)
    requires i <= |parts| && (forall j | 0 <= j < i :: parts[j].offset < offset)
    requires i < |parts| ==> offset <= parts[i].offset
    ensures Place(parts, offset) == i
  {
  }

  /** The entry with number `n` is found again behind an insertion, and the comparison of the offsets
      tells whether it has moved. */
  lemma {:induction false} NumberAfterInsert(parts: seq<PartInfo>, i: nat, part: PartInfo, n: nat)
    requires Sorted(parts) && i <= |parts| && n < |parts|
    requires forall j | 0 <= j < i :: parts[j].offset < part.offset
    requires i < |parts| ==> part.offset <= parts[i].offset
    ensures Insert(parts, i, part)[if n < i then n else n + 1] == parts[n]
    ensures i < |parts| ==> (parts[i].offset <= parts[n].offset <==> i <= n)
  {
  }

  /** The number that follows an insertion finds the same entry unless it wraps. */
  lemma {:induction false} Following(parts: seq<PartInfo>, i: nat, part: PartInfo, n: u8)
    requires Sorted(parts) && Distinct(parts) && part !in parts && i == Place(parts, part.offset)
    requires Entry(parts, |parts| % 0x1_0000, n) != null
    ensures var r, curr := Insert(parts, i, part), Entry(parts, |parts| % 0x1_0000, n);
      |r| == |parts| + 1 && (Entry(r, |r| % 0x1_0000, Up(parts, i, curr, n)) == curr <==> !Wraps(|parts|, n, i))
  {
    hide Place, Sorted, Distinct, Insert;
    NumberAfterInsert(parts, i, part, n);
    InsertLength(parts, i, part);
    if n == 255 && i <= 255 {
      NumberZero(parts, i, part, n);
    }
  }

  lemma {:induction false} InsertLength(parts: seq<PartInfo>, i: nat, part: PartInfo)
    requires i <= |parts|
    ensures |Insert(parts, i, part)| == |parts| + 1
  {
  }

  lemma {:induction false} NumberZero(parts: seq<PartInfo>, i: nat, part: PartInfo, n: nat)
    requires Distinct(parts) && part !in parts && i <= n < |parts| && n > 0
    ensures |Insert(parts, i, part)| == |parts| + 1 && Insert(parts, i, part)[0] != parts[n]
  {
    assert Insert(parts, i, part)[0] == if i == 0 then part else parts[0];
    assert parts[0] != parts[n] && parts[n] in parts;
  }

  lemma {:induction false} DeleteAt(parts: seq<PartInfo>, k: nat)
    requires k < |parts|
    ensures var r := Delete(parts, k);
      |r| == |parts| - 1 && forall j | 0 <= j < |r| :: r[j] == parts[if j < k then j else j + 1]
  {
  }

  lemma {:induction false} DeleteKeepsOrder(parts: seq<PartInfo>, k: nat)
    requires k < |parts| && Sorted(parts) && Distinct(parts)
    ensures var r := Delete(parts, k);
      |r| == |parts| - 1 && Sorted(r) && Distinct(r) && (OneAtZero(parts) ==> OneAtZero(r))
  {
    DeleteAt(parts, k);
  }

  /** Going one down as the offsets suggest finds the entry with number `n` again behind a deletion at
      `k`, except for an equal offset in front of `k`. */
  lemma {:induction false} NumberAfterDelete(parts: seq<PartInfo>, k: nat, n: u8)
    requires Sorted(parts) && Distinct(parts) && k < |parts| && n < |parts| && n != k
    ensures parts[n] != parts[k]
    ensures var r, m := Delete(parts, k), if parts[k].offset <= parts[n].offset then (n - 1) % 0x100 else n;
      m < |r| && r[m] == parts[n] <==> !(n < k && parts[n].offset == parts[k].offset)
  {
    DeleteAt(parts, k);
  }

  /** The same with the count that bounds the number. */
  lemma {:induction false} Surviving(parts: seq<PartInfo>, k: nat, n: u8)
    requires Sorted(parts) && Distinct(parts) && k < |parts| && |parts| % 0x1_0000 != 1
    requires Entry(parts, |parts| % 0x1_0000, n) != null
    ensures Entry(parts, |parts| % 0x1_0000, n) == parts[k] <==> n == k
    ensures var r, curr := Delete(parts, k), Entry(parts, |parts| % 0x1_0000, n);
      |r| % 0x1_0000 == |parts| % 0x1_0000 - 1
      && (n != k ==> (Entry(r, |r| % 0x1_0000, Down(parts[k], curr, n)) == curr <==>
        !(n < k && (curr.offset == parts[k].offset || n + 1 == |parts| % 0x1_0000))))
  {
    if n != k {
      NumberAfterDelete(parts, k, n);
    }
    if parts[k].offset <= parts[n].offset {
      assert k <= n || parts[n].offset == parts[k].offset;
    }
  }

  predicate DistinctDevices(devices: seq<MtdDevice>) {
    forall i, j | 0 <= i < j < |devices| :: devices[i] != devices[j]
  }

  lemma {:induction false} DeviceDeleted(devices: seq<MtdDevice>, k: nat)
    requires DistinctDevices(devices) && k < |devices|
    ensures var r := Delete(devices, k);
      && DistinctDevices(r) && devices[k] !in r
      && forall d :: d in r <==> d in devices && d != devices[k]
    ensures forall j | 0 <= j < |devices| && devices[j] == devices[k] :: j == k
  {
    var r := Delete(devices, k);
    assert forall j | 0 <= j < |r| :: r[j] == devices[if j < k then j else j + 1];
    assert forall j | 0 <= j < |devices| && j != k :: devices[j] == r[if j < k then j else j - 1];
  }

  /** list_del: the list without that entry, wherever it is. */
  function Unlink(parts: seq<PartInfo>, part: PartInfo, ghost k: nat): (r: seq<PartInfo>)
    requires k < |parts| && parts[k] == part && Distinct(parts)
    ensures r == Delete(parts, k)
  {
    if parts[0] == part then parts[1..]
    else
      assert Delete(parts, k) == [parts[0]] + Delete(parts[1..], k - 1);
      [parts[0]] + Unlink(parts[1..], part, k - 1)
  }

  class Table {
    var devices: seq<MtdDevice>
    var currentDev: MtdDevice?   // current_mtd_dev
    var currentNum: u8           // current_mtd_partnum

    constructor ()
      ensures devices == [] && currentDev == null
    {
      devices, currentDev, currentNum := [], null, 0;
    }

    /** The partition that mtd_part_info finds for the current device and number. */
    ghost function Current(): PartInfo?
      reads this, currentDev
    {
      if currentDev != null then Entry(currentDev.parts, currentDev.numParts, currentNum) else null
    }

    /** mtd_part_info */
    method MtdPartInfo(dev: MtdDevice?, partNum: nat) returns (part: PartInfo?)
      ensures part == if dev != null then Entry(dev.parts, dev.numParts, partNum) else null
    {
      if dev == null {
        return null;
      }
      if partNum >= dev.numParts {
        return null;
      }
      var num := 0;
      while num < |dev.parts|
        invariant num <= |dev.parts| && num <= partNum
      {
        if partNum == num {
          return dev.parts[num];
        }
        num := num + 1;
      }
      return null;
    }

    /** Links `part` in front of entry `i` and lets the current number follow. */
    method Link(dev: MtdDevice, part: PartInfo, i: nat, curr: PartInfo?)
      requires dev.Valid() && part !in dev.parts && i == Place(dev.parts, part.offset)
      requires !(part.offset == 0 && dev.parts != [] && dev.parts[0].offset == 0)
      requires curr == if dev == currentDev then Current() else null
      modifies this`currentNum, dev
      ensures dev.Valid() && dev.parts == Insert(old(dev.parts), i, part)
      ensures currentNum == Up(old(dev.parts), i, curr, old(currentNum))
      ensures old(OneAtZero(dev.parts)) ==> OneAtZero(dev.parts)
      ensures old(Current()) != null ==>
        (Current() == old(Current()) <==> !(dev == currentDev && Wraps(|old(dev.parts)|, old(currentNum), i)))
    {
      hide Insert, Place, Sorted, Distinct, OneAtZero, Wraps, Entry;
      ghost var parts, n := dev.parts, currentNum;
      InsertKeepsOrder(parts, part);
      assert |Insert(parts, i, part)| == |parts| + 1 by { InsertAt(parts, i, part); }
      if Entry(parts, dev.numParts, n) != null {
        Following(parts, i, part, n);
      }
      if i < |dev.parts| && curr != null && dev.parts[i].offset <= curr.offset {
        currentNum := (currentNum + 1) % 0x100;
      }
      dev.parts, dev.numParts := Insert(dev.parts, i, part), (dev.numParts + 1) % 0x1_0000;
    }

    /** part_sort_add.  The list stays sorted with at most one partition at offset 0, num_parts is its
        length modulo 2^16, and the current partition stays the same one except where the eight-bit
        number or num_parts wraps. */
    method PartSortAdd(dev: MtdDevice, part: PartInfo) returns (rc: int)
      requires dev.Valid() && part !in dev.parts
      modifies this`currentNum, dev, part`dev
      ensures dev.Valid() && part.dev == dev
      ensures rc == if part.offset == 0 && old(dev.parts) != [] && old(dev.parts)[0].offset == 0 then 1 else 0
      ensures dev.parts == if rc == 0 then Insert(old(dev.parts), Place(old(dev.parts), part.offset), part)
                           else old(dev.parts)
      ensures currentNum ==
        if rc == 0 && dev == currentDev
        then Up(old(dev.parts), Place(old(dev.parts), part.offset), old(Current()), old(currentNum))
        else old(currentNum)
      ensures old(OneAtZero(dev.parts)) ==> OneAtZero(dev.parts)
      ensures old(Current()) != null ==>
        (Current() == old(Current()) <==>
          !(rc == 0 && dev == currentDev
            && Wraps(|old(dev.parts)|, old(currentNum), Place(old(dev.parts), part.offset))))
    {
      hide Insert, Place, OneAtZero, Sorted, Distinct, Wraps, Entry;
      part.dev := dev;
      var curr: PartInfo? := null;
      if dev == currentDev {
        curr := MtdPartInfo(currentDev, currentNum);
      }
      var i := 0;
      while i < |dev.parts|
        invariant i <= |dev.parts|
        invariant forall j | 0 <= j < i :: dev.parts[j].offset < part.offset
      {
        if part.offset == dev.parts[i].offset == 0 {
          return 1;
        }
        if part.offset <= dev.parts[i].offset {
          break;
        }
        i := i + 1;
      }
      PlaceIs(dev.parts, part.offset, i);
      Link(dev, part, i, curr);
      return 0;
    }

    /** device_del */
    method DeviceDel(dev: MtdDevice)
      requires dev in devices && DistinctDevices(devices)
      modifies this
      ensures dev !in devices && DistinctDevices(devices)
      ensures forall k | 0 <= k < |old(devices)| && old(devices)[k] == dev :: devices == Delete(old(devices), k)
      ensures forall d :: d in devices <==> d in old(devices) && d != dev
      ensures dev != old(currentDev) ==> currentDev == old(currentDev) && currentNum == old(currentNum)
      ensures dev == old(currentDev) ==>
        if devices == [] then currentDev == null else currentDev == devices[0] && currentNum == 0
    {
      hide DistinctDevices, Delete;
      var k := 0;
      while devices[k] != dev
        invariant k < |devices| && forall j | 0 <= j < k :: devices[j] != dev
        decreases |devices| - k
      {
        k := k + 1;
      }
      DeviceDeleted(devices, k);
      devices := Delete(devices, k);
      if dev == currentDev {
        if |devices| == 0 {
          currentDev := null;
        } else {
          currentDev, currentNum := devices[0], 0;
        }
      }
    }

    /** device_add */
    method DeviceAdd(dev: MtdDevice)
      requires DistinctDevices(devices) && dev !in devices
      modifies this
      ensures devices == old(devices) + [dev] && DistinctDevices(devices)
      ensures if old(devices) == [] then currentDev == dev && currentNum == 0
              else currentDev == old(currentDev) && currentNum == old(currentNum)
    {
      if |devices| == 0 {
        currentDev, currentNum := dev, 0;
      }
      devices := devices + [dev];
    }

    /** part_del of the partition that is entry `k`.  Deleting the current one resets the number to 0;
        otherwise the number still stands for the same partition exactly when the current one is not
        in front of the deleted one at the same offset.  (Nor may it be the last one counted; in front
        of another one that is only where num_parts has wrapped.) */
    method PartDel(dev: MtdDevice, part: PartInfo, ghost k: nat)
      requires dev in devices && DistinctDevices(devices)
      requires dev.Valid() && k < |dev.parts| && dev.parts[k] == part
      modifies this, dev
      ensures DistinctDevices(devices)
      ensures old(dev.numParts) == 1 ==> dev !in devices
      ensures old(dev.numParts) != 1 ==>
        && dev.Valid() && dev.parts == Delete(old(dev.parts), k)
        && devices == old(devices) && currentDev == old(currentDev)
        && (old(OneAtZero(dev.parts)) ==> OneAtZero(dev.parts))
      ensures old(dev.numParts) != 1 ==>
        && (dev == currentDev && old(Current()) == part ==> currentNum == 0)
        && (dev == currentDev && old(Current()) != null && old(Current()) != part ==>
              currentNum == if part.offset <= old(Current()).offset then (old(currentNum) + 255) % 256 else old(currentNum))
        && (dev != currentDev || old(Current()) == null ==> currentNum == old(currentNum))
      ensures old(dev.numParts) != 1 && old(Current()) != part && old(Current()) != null ==>
        var curr := old(Current());
        Current() == curr <==>
          !(dev == currentDev && old(currentNum) < k
            && (curr.offset == part.offset || old(currentNum) + 1 == old(dev.numParts)))
    {
      if dev.numParts == 1 {
        DeviceDel(dev);
        return;
      }
      hide Delete, Sorted, OneAtZero, Distinct, Entry, Down;
      Remove(dev, part, k);
    }

    /** Unlinks entry `k` of a list of several and lets the current number follow. */
    method Remove(dev: MtdDevice, part: PartInfo, ghost k: nat)
      requires dev.Valid() && k < |dev.parts| && dev.parts[k] == part && dev.numParts != 1
      modifies `currentNum, dev
      ensures dev.Valid() && dev.parts == Delete(old(dev.parts), k)
      ensures old(OneAtZero(dev.parts)) ==> OneAtZero(dev.parts)
      ensures
        && (dev == currentDev && old(Current()) == part ==> currentNum == 0)
        && (dev == currentDev && old(Current()) != null && old(Current()) != part ==>
              currentNum == if part.offset <= old(Current()).offset then (old(currentNum) + 255) % 256 else old(currentNum))
        && (dev != currentDev || old(Current()) == null ==> currentNum == old(currentNum))
      ensures old(Current()) != part && old(Current()) != null ==>
        var curr := old(Current());
        Current() == curr <==>
          !(dev == currentDev && old(currentNum) < k
            && (curr.offset == part.offset || old(currentNum) + 1 == old(dev.numParts)))
    {
      hide Delete, Sorted, OneAtZero, Distinct, Entry;
      ghost var parts, n := dev.parts, currentNum;
      DeleteKeepsOrder(parts, k);
      if Entry(parts, dev.numParts, n) != null {
        Surviving(parts, k, n);
      }
      Renumber(dev, part);
      dev.parts, dev.numParts := Unlink(dev.parts, part, k), (dev.numParts - 1) % 0x1_0000;
    }

    /** Adjusts the current number to a deletion in `dev`. */
    method Renumber(dev: MtdDevice, part: PartInfo)
      modifies `currentNum
      ensures
        && (dev == currentDev && old(Current()) == part ==> currentNum == 0)
        && (dev == currentDev && old(Current()) != null && old(Current()) != part ==>
              currentNum == if part.offset <= old(Current()).offset then (old(currentNum) + 255) % 256 else old(currentNum))
        && (dev != currentDev || old(Current()) == null ==> currentNum == old(currentNum))
    {
      if dev == currentDev {
        var curr := MtdPartInfo(currentDev, currentNum);
        if curr != null {
          if curr == part {
            currentNum := 0;
          } else if part.offset <= curr.offset {
            currentNum := (currentNum - 1) % 0x100;
          }
        }
      }
    }
  }

  /** Two partitions at one offset, the first of them current: once the second is deleted, the first is
      still listed, but no partition is current. */
  method CurrentIsLost() returns (dev: MtdDevice, first: PartInfo, before: PartInfo?, after: PartInfo?)
    ensures dev.parts == [first] && before == first && after == null
  {
    hide Sorted, Distinct, OneAtZero, Wraps, Insert, Delete, Place;
    var table := new Table();
    dev := new MtdDevice();
    assert dev.Valid() by { EmptyIsSorted(); }
    table.DeviceAdd(dev);
    first := new PartInfo(0x2_0000, 0x1_0000);
    var second := new PartInfo(0x2_0000, 0x1_0000);
    var rc := table.PartSortAdd(dev, second);
    TwoInserted(first, second);
    rc := table.PartSortAdd(dev, first);
    table.currentNum := 0;
    before := table.MtdPartInfo(table.currentDev, table.currentNum);
    table.PartDel(dev, second, 1);
    after := table.MtdPartInfo(table.currentDev, table.currentNum);
  }

  /** A table with one device that has `count` partitions, none at offset 0. */
  method Filled(count: u16) returns (table: Table, dev: MtdDevice)
    ensures fresh(table) && fresh(dev) && table.currentDev == dev && dev.Valid() && |dev.parts| == count
    ensures forall p <- dev.parts :: p.offset > 0
  {
    hide Sorted, Distinct, OneAtZero, Wraps, Place;
    table := new Table();
    dev := new MtdDevice();
    assert dev.Valid() by { EmptyIsSorted(); }
    table.DeviceAdd(dev);
    var n := 0;
    while n < count
      invariant n <= count && |dev.parts| == n && dev.Valid() && table.currentDev == dev
      invariant forall p <- dev.parts :: 0 < p.offset <= n && allocated(p)
    {
      n := n + 1;
      var part := new PartInfo(n, 1);
      PlaceIs(dev.parts, n, n - 1);
      InsertAt(dev.parts, n - 1, part);
      var rc := table.PartSortAdd(dev, part);
    }
  }

  /** With 256 partitions and the last one current, adding one at offset 0 makes that one current. */
  method NumberWraps() returns (dev: MtdDevice, before: PartInfo?, added: PartInfo, after: PartInfo?)
    ensures |dev.parts| == 257 && before == dev.parts[256] && after == added == dev.parts[0]
  {
    hide Distinct, OneAtZero, Place;
    var table;
    table, dev := Filled(256);
    table.currentNum := 255;
    before := table.MtdPartInfo(table.currentDev, table.currentNum);
    added := new PartInfo(0, 1);
    PlaceIs(dev.parts, 0, 0);
    InsertAt(dev.parts, 0, added);
    ghost var parts := dev.parts;
    assert before == parts[255] && parts[0].offset > 0 && Up(parts, 0, before, 255) == 0;
    var rc := table.PartSortAdd(dev, added);
    after := table.MtdPartInfo(table.currentDev, table.currentNum);
  }

  lemma {:induction false} EmptyIsSorted()
    ensures Sorted([]) && Distinct([])
  {
  }

  lemma {:induction false} TwoInserted(first: PartInfo, second: PartInfo)
    requires first.offset == second.offset
    ensures Place([], second.offset) == Place([second], first.offset) == 0
    ensures Insert([], 0, second) == [second] && Insert([second], 0, first) == [first, second]
    ensures Delete([first, second], 1) == [first]
  {
  }
}
