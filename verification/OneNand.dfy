/** Block reads and writes that step over bad blocks (common/cmd_onenand.c). Consecutive writes are
    chained by two static variables: where the last request ended, and how far its data was displaced. */
module OneNand {
  import opened Common

  type Block = seq<bv8>

  // ----- the k-th good block -------------------------------------------------------------------

  /** How many of the blocks from..n-1 are good. */
  function Room(good: set<nat>, n: nat, from: nat): nat
    decreases n - from
  {
    if from >= n then 0 else (if from in good then 1 else 0) + Room(good, n, from + 1)
  }

  /** The first `k` good blocks at or after `from`. */
  function Places(good: set<nat>, n: nat, from: nat, k: nat): (at: seq<nat>)
    requires k <= Room(good, n, from)
    ensures |at| == k && forall i :: 0 <= i < k ==> from <= at[i] < n
    decreases n - from
  {
    if k == 0 then []
    else if from in good then [from] + Places(good, n, from + 1, k - 1)
    else Places(good, n, from + 1, k)
  }

  /** The block after them. */
  function After(good: set<nat>, n: nat, from: nat, k: nat): (b: nat)
    requires k <= Room(good, n, from)
    ensures b >= from + k
    decreases n - from
  {
    if k == 0 then from
    else if from in good then After(good, n, from + 1, k - 1)
    else After(good, n, from + 1, k)
  }

  lemma {:induction false} PlacesAscend(good: set<nat>, n: nat, from: nat, k: nat, i: nat, j: nat)
    requires i < j < k <= Room(good, n, from)
    ensures Places(good, n, from, k)[i] < Places(good, n, from, k)[j]
    decreases n - from
  {
    if from in good {
      if i > 0 {
        PlacesAscend(good, n, from + 1, k - 1, i - 1, j - 1);
      }
    } else {
      PlacesAscend(good, n, from + 1, k, i, j);
    }
  }

  lemma {:induction false} PlacesMembers(good: set<nat>, n: nat, from: nat, k: nat, b: nat)
    requires k <= Room(good, n, from)
    ensures b in Places(good, n, from, k) <==> from <= b < After(good, n, from, k) && b in good
    decreases n - from
  {
    if k > 0 {
      var more := if from in good then k - 1 else k;
      PlacesMembers(good, n, from + 1, more, b);
      if from in good {
        var rest := Places(good, n, from + 1, more);
        assert b in [from] + rest <==> b == from || b in rest;
      }
    }
  }

  /** They are in order, and are all the good blocks from `from` up to the last of them. */
  lemma {:induction false} PlacesAreTheFirst(good: set<nat>, n: nat, from: nat, k: nat)
    requires k <= Room(good, n, from)
    ensures
      var at, end := Places(good, n, from, k), After(good, n, from, k);
      && (forall i, j :: 0 <= i < j < k ==> at[i] < at[j])
      && (forall b :: b in at <==> from <= b < end && b in good)
      && (k > 0 ==> at[k - 1] == end - 1)
  {
    hide Places, After, Room;
    var at := Places(good, n, from, k);
    forall i, j | 0 <= i < j < k
      ensures at[i] < at[j]
    {
      PlacesAscend(good, n, from, k, i, j);
    }
    forall b: nat
      ensures b in at <==> from <= b < After(good, n, from, k) && b in good
    {
      PlacesMembers(good, n, from, k, b);
    }
    if k > 0 {
      LastPlace(good, n, from, k);
    }
  }

  lemma {:induction false} LastPlace(good: set<nat>, n: nat, from: nat, k: nat)
    requires 0 < k <= Room(good, n, from)
    ensures Places(good, n, from, k)[k - 1] == After(good, n, from, k) - 1
    decreases n - from
  {
    if from !in good {
      LastPlace(good, n, from + 1, k);
    } else if k > 1 {
      LastPlace(good, n, from + 1, k - 1);
    }
  }

  lemma {:induction false} RoomAfter(good: set<nat>, n: nat, from: nat, j: nat)
    requires j <= Room(good, n, from)
    ensures Room(good, n, After(good, n, from, j)) == Room(good, n, from) - j
    decreases n - from
  {
    if j > 0 {
      RoomAfter(good, n, from + 1, if from in good then j - 1 else j);
    }
  }

  lemma {:induction false} RoomStep(good: set<nat>, n: nat, from: nat, k: nat)
    requires 0 < k <= Room(good, n, from)
    ensures from < n
    ensures from in good ==>
      && k - 1 <= Room(good, n, from + 1)
      && After(good, n, from, k) == After(good, n, from + 1, k - 1)
    ensures from !in good ==>
      && k <= Room(good, n, from + 1)
      && After(good, n, from, k) == After(good, n, from + 1, k)
      && Places(good, n, from, k) == Places(good, n, from + 1, k)
  {
  }

  lemma {:induction false} PlacesStep(good: set<nat>, n: nat, from: nat, k: nat)
    requires 0 < k <= Room(good, n, from)
    ensures from in good ==>
      && k - 1 <= Room(good, n, from + 1)
      && Places(good, n, from, k) == [from] + Places(good, n, from + 1, k - 1)
  {
  }

  lemma {:induction false} PlacesSplit(good: set<nat>, n: nat, from: nat, j: nat, k: nat)
    requires j + k <= Room(good, n, from)
    ensures k <= Room(good, n, After(good, n, from, j))
    ensures Places(good, n, from, j + k)
      == Places(good, n, from, j) + Places(good, n, After(good, n, from, j), k)
    ensures After(good, n, from, j + k) == After(good, n, After(good, n, from, j), k)
    decreases n - from
  {
    hide Places, After, Room;
    RoomAfter(good, n, from, j);
    NoPlaces(good, n, from);
    if j > 0 {
      RoomStep(good, n, from, j);
      RoomStep(good, n, from, j + k);
      PlacesSplit(good, n, from + 1, if from in good then j - 1 else j, k);
      if from in good {
        PlacesStep(good, n, from, j);
        PlacesStep(good, n, from, j + k);
      }
    }
  }

  lemma {:induction false} NoPlaces(good: set<nat>, n: nat, from: nat)
    ensures Places(good, n, from, 0) == [] && After(good, n, from, 0) == from
  {
  }

  /** Reading from `a` on goes to the blocks that writing from `b` on went to. */
  predicate SameBlocks(readable: set<nat>, writable: set<nat>, n: nat, a: nat, b: nat, k: nat)
    requires k <= Room(writable, n, b)
  {
    k <= Room(readable, n, a) && Places(readable, n, a, k) == Places(writable, n, b, k)
  }

  /** From `a` up to the last block written, exactly the written blocks can be read. */
  predicate OnlyTheWritten(readable: set<nat>, writable: set<nat>, n: nat, a: nat, b: nat, k: nat)
    requires k <= Room(writable, n, b)
  {
    forall c :: a <= c < After(writable, n, b, k) ==> (c in readable <==> c >= b && c in writable)
  }

  lemma {:induction false} SameStart(readable: set<nat>, writable: set<nat>, n: nat, a: nat, k: nat)
    requires k <= Room(writable, n, a)
    ensures SameBlocks(readable, writable, n, a, a, k) <==> OnlyTheWritten(readable, writable, n, a, a, k)
    decreases n - a
  {
    if k > 0 {
      PlacesStart(writable, n, a, k);
      if a in readable <==> a in writable {
        SameStart(readable, writable, n, a + 1, if a in writable then k - 1 else k);
        if a in readable && k <= Room(readable, n, a) {
          SameTail(a, Places(readable, n, a + 1, k - 1), Places(writable, n, a + 1, k - 1));
        }
      } else if k <= Room(readable, n, a) {
        PlacesStart(readable, n, a, k);
      }
    }
  }

  lemma {:induction false} SameTail(a: nat, x: seq<nat>, y: seq<nat>)
    ensures [a] + x == [a] + y <==> x == y
  {
    assert ([a] + x)[1..] == x && ([a] + y)[1..] == y;
  }

  lemma {:induction false} PlacesStart(good: set<nat>, n: nat, a: nat, k: nat)
    requires 0 < k <= Room(good, n, a)
    ensures a < After(good, n, a, k)
    ensures Places(good, n, a, k)[0] == a <==> a in good
  {
  }

  /** Two starting points, for reading and for writing, lead to the same blocks exactly if no other
      block on the way can be read and every written one can. */
  lemma {:induction false} SamePlaces(readable: set<nat>, writable: set<nat>, n: nat, a: nat, b: nat, k: nat)
    requires a <= b && 0 < k <= Room(writable, n, b)
    ensures SameBlocks(readable, writable, n, a, b, k) <==> OnlyTheWritten(readable, writable, n, a, b, k)
    decreases b - a
  {
    if a == b {
      SameStart(readable, writable, n, a, k);
    } else {
      SamePlaces(readable, writable, n, a + 1, b, k);
      if a in readable && k <= Room(readable, n, a) {
        PlacesStart(readable, n, a, k);
        assert Places(writable, n, b, k)[0] >= b;
      }
    }
  }

  // ----- what is on the chip -------------------------------------------------------------------

  function Put(chip: seq<Block>, at: seq<nat>, data: seq<Block>): (c: seq<Block>)
    requires |at| == |data| && forall i :: 0 <= i < |at| ==> at[i] < |chip|
    ensures |c| == |chip|
    decreases |at|
  {
    if at == [] then chip else Put(chip[at[0] := data[0]], at[1..], data[1..])
  }

  function Get(chip: seq<Block>, at: seq<nat>): (d: seq<Block>)
    requires forall i :: 0 <= i < |at| ==> at[i] < |chip|
    ensures |d| == |at| && forall i :: 0 <= i < |at| ==> d[i] == chip[at[i]]
  {
    seq(|at|, i requires 0 <= i < |at| => chip[at[i]])
  }

  predicate Distinct(at: seq<nat>) {
    forall i, j :: 0 <= i < j < |at| ==> at[i] != at[j]
  }

  lemma {:induction false} PutElsewhere(chip: seq<Block>, at: seq<nat>, data: seq<Block>, b: nat)
    requires |at| == |data| && (forall i :: 0 <= i < |at| ==> at[i] < |chip|)
    requires b < |chip| && b !in at
    ensures Put(chip, at, data)[b] == chip[b]
    decreases |at|
  {
    if at != [] {
      assert at[0] in at && (b in at[1..] ==> b in at);
      PutElsewhere(chip[at[0] := data[0]], at[1..], data[1..], b);
    }
  }

  lemma {:induction false} PutAt(chip: seq<Block>, at: seq<nat>, data: seq<Block>, i: nat)
    requires |at| == |data| && (forall j :: 0 <= j < |at| ==> at[j] < |chip|) && Distinct(at) && i < |at|
    ensures Put(chip, at, data)[at[i]] == data[i]
    decreases |at|
  {
    var c := chip[at[0] := data[0]];
    assert Distinct(at[1..]);
    if i == 0 {
      PutElsewhere(c, at[1..], data[1..], at[0]);
    } else {
      PutAt(c, at[1..], data[1..], i - 1);
    }
  }

  lemma {:induction false} GetPut(chip: seq<Block>, at: seq<nat>, data: seq<Block>)
    requires |at| == |data| && (forall j :: 0 <= j < |at| ==> at[j] < |chip|) && Distinct(at)
    ensures Get(Put(chip, at, data), at) == data
  {
    forall i | 0 <= i < |at|
      ensures Put(chip, at, data)[at[i]] == data[i]
    {
      PutAt(chip, at, data, i);
    }
  }

  lemma {:induction false} PutSplit(chip: seq<Block>, at: seq<nat>, bt: seq<nat>, d: seq<Block>, e: seq<Block>)
    requires |at| == |d| && |bt| == |e|
    requires forall i :: 0 <= i < |at| ==> at[i] < |chip|
    requires forall i :: 0 <= i < |bt| ==> bt[i] < |chip|
    ensures forall i :: 0 <= i < |at + bt| ==> (at + bt)[i] < |chip|
    ensures Put(chip, at + bt, d + e) == Put(Put(chip, at, d), bt, e)
    decreases |at|
  {
    if at == [] {
      assert at + bt == bt && d + e == e;
    } else {
      PutSplit(chip[at[0] := d[0]], at[1..], bt, d[1..], e);
      assert (at + bt)[1..] == at[1..] + bt && (d + e)[1..] == d[1..] + e;
    }
  }

  // ----- one write request ---------------------------------------------------------------------

  /** Block size in bytes, the number of blocks, and the blocks that can be used. */
  datatype Geometry = Geometry(size: nat, n: nat, good: set<nat>)

  /** The chip and the two static variables. */
  datatype Store = Store(chip: seq<Block>, next: nat, skip: nat)

  predicate Sound(g: Geometry, s: Store) {
    g.size > 0 && |s.chip| == g.n && s.skip % g.size == 0
  }

  function Bytes(g: Geometry, blocks: nat): nat {
    g.size * blocks
  }

  /** The displacement carried over from the last request. */
  function Carried(s: Store, to: nat): nat {
    if to == s.next then s.skip else 0
  }

  /** The block at which a request starts looking. */
  function Start(g: Geometry, s: Store, to: nat): nat
    requires g.size > 0
  {
    (to + Carried(s, to)) / g.size
  }

  function Write(g: Geometry, s: Store, to: nat, len: nat, data: seq<Block>): (r: Store)
    requires Sound(g, s) && |data| == len / g.size && |data| <= Room(g.good, g.n, Start(g, s, to))
    ensures |r.chip| == g.n
  {
    var from := Start(g, s, to);
    Store(Put(s.chip, Places(g.good, g.n, from, |data|), data),
          to + len,
          Carried(s, to) + Bytes(g, After(g.good, g.n, from, |data|) - from - |data|))
  }

  function Read(g: Geometry, chip: seq<Block>, from: nat, k: nat): seq<Block>
    requires g.size > 0 && |chip| == g.n && k <= Room(g.good, g.n, from / g.size)
  {
    Get(chip, Places(g.good, g.n, from / g.size, k))
  }

  predicate Aligned(g: Geometry, ofs: nat)
    requires g.size > 0
  {
    ofs % g.size == 0
  }

  lemma {:induction false} BlockAt(g: Geometry, b: nat)
    requires g.size > 0
    ensures Bytes(g, b) / g.size == b && Aligned(g, Bytes(g, b))
  {
    MultipleMod(b, g.size);
  }

  lemma {:induction false} BytesAdd(g: Geometry, a: nat, b: nat)
    ensures Bytes(g, a + b) == Bytes(g, a) + Bytes(g, b)
  {
  }

  lemma {:induction false} AlignedIsBytes(g: Geometry, ofs: nat)
    requires g.size > 0 && Aligned(g, ofs)
    ensures ofs == Bytes(g, ofs / g.size)
  {
  }

  /** An aligned request starts the carried displacement after its offset, in whole blocks. */
  lemma {:induction false} StartInBlocks(g: Geometry, s: Store, to: nat)
    requires Sound(g, s) && Aligned(g, to)
    ensures to + Carried(s, to) == Bytes(g, Start(g, s, to))
    ensures Start(g, s, to) >= to / g.size
  {
    hide Bytes;
    var t, c := to / g.size, Carried(s, to) / g.size;
    ZeroBytes(g);
    BlockAt(g, 0);
    AlignedIsBytes(g, to);
    AlignedIsBytes(g, Carried(s, to));
    BytesAdd(g, t, c);
    BlockAt(g, t + c);
  }

  lemma {:induction false} ZeroBytes(g: Geometry)
    ensures Bytes(g, 0) == 0
  {
  }

  lemma {:induction false} WriteStatics(g: Geometry, s: Store, to: nat, data: seq<Block>)
    requires Sound(g, s) && Aligned(g, to) && |data| == Bytes(g, |data|) / g.size
    requires |data| <= Room(g.good, g.n, Start(g, s, to))
    ensures
      var w, from := Write(g, s, to, Bytes(g, |data|), data), Start(g, s, to);
      && w.next == to + Bytes(g, |data|)
      && w.skip == Carried(s, to) + Bytes(g, After(g.good, g.n, from, |data|) - from - |data|)
      && |w.chip| == |s.chip|
  {
    hide Bytes, Start, Places, After, Room, Put;
  }

  /** The next request at the end of this one starts right after the last block used. */
  lemma {:induction false} ChainedStart(g: Geometry, s: Store, to: nat, data: seq<Block>)
    requires Sound(g, s) && Aligned(g, to) && |data| == Bytes(g, |data|) / g.size
    requires |data| <= Room(g.good, g.n, Start(g, s, to))
    ensures
      var w := Write(g, s, to, Bytes(g, |data|), data);
      && Sound(g, w) && Aligned(g, w.next)
      && Start(g, w, w.next) == After(g.good, g.n, Start(g, s, to), |data|)
  {
    hide Bytes, Start, Places, After, Room, Write;
    var from, k := Start(g, s, to), |data|;
    var end := After(g.good, g.n, from, k);
    var w := Write(g, s, to, Bytes(g, k), data);
    WriteStatics(g, s, to, data);
    StartInBlocks(g, s, to);
    BytesAdd(g, from, end - from);
    BytesAdd(g, k, end - from - k);
    assert w.next + w.skip == Bytes(g, end);
    AlignedSum(g, to, k);
    CarriedAligned(g, s, to);
    AlignedSum(g, Carried(s, to), end - from - k);
    StartIs(g, w, w.next, end);
  }

  lemma {:induction false} CarriedAligned(g: Geometry, s: Store, to: nat)
    requires Sound(g, s)
    ensures Aligned(g, Carried(s, to))
  {
    BlockAt(g, 0);
    ZeroBytes(g);
  }

  lemma {:induction false} StartIs(g: Geometry, s: Store, to: nat, b: nat)
    requires g.size > 0 && to == s.next && to + s.skip == Bytes(g, b)
    ensures Start(g, s, to) == b
  {
    hide Bytes;
    BlockAt(g, b);
  }

  lemma {:induction false} AlignedSum(g: Geometry, ofs: nat, k: nat)
    requires g.size > 0 && ofs % g.size == 0
    ensures (ofs + Bytes(g, k)) % g.size == 0
  {
    hide Bytes;
    AlignedIsBytes(g, ofs);
    BytesAdd(g, ofs / g.size, k);
    BlockAt(g, ofs / g.size + k);
  }

  /** Two block-multiple writes, the second starting where the first ended, equal one write of both. */
  lemma {:induction false} TwoAsOne(g: Geometry, s: Store, to: nat, d: seq<Block>, e: seq<Block>)
    requires Sound(g, s) && Aligned(g, to)
    requires |d + e| <= Room(g.good, g.n, Start(g, s, to))
    ensures |d| == Bytes(g, |d|) / g.size && |e| == Bytes(g, |e|) / g.size
    ensures |d + e| == Bytes(g, |d + e|) / g.size
    ensures
      var w := Write(g, s, to, Bytes(g, |d|), d);
      && Sound(g, w) && Aligned(g, w.next) && |e| <= Room(g.good, g.n, Start(g, w, w.next))
      && Write(g, w, w.next, Bytes(g, |e|), e) == Write(g, s, to, Bytes(g, |d + e|), d + e)
  {
    hide Bytes, Start, Places, After, Room, Put;
    BlockAt(g, |d|);
    BlockAt(g, |e|);
    BlockAt(g, |d + e|);
    ChainedStart(g, s, to, d);
    var from := Start(g, s, to);
    PlacesSplit(g.good, g.n, from, |d|, |e|);
    var mid := After(g.good, g.n, from, |d|);
    PutSplit(s.chip, Places(g.good, g.n, from, |d|), Places(g.good, g.n, mid, |e|), d, e);
    BytesAdd(g, |d|, |e|);
    var end := After(g.good, g.n, mid, |e|);
    BytesAdd(g, mid - from - |d|, end - mid - |e|);
  }

  function Concat(ds: seq<seq<Block>>): seq<Block> {
    if ds == [] then [] else Concat(ds[..|ds| - 1]) + ds[|ds| - 1]
  }

  /** Write requests for one piece after the other, each where the last ended; the first is at `to`. */
  ghost predicate Appended(g: Geometry, s: Store, to: nat, ds: seq<seq<Block>>, r: Store)
    requires Sound(g, s)
    decreases |ds|
  {
    if |ds| == 0 then r == s
    else
      var d := ds[|ds| - 1];
      exists m: Store ::
        && Sound(g, m) && Appended(g, s, to, ds[..|ds| - 1], m)
        && (var at := if |ds| == 1 then to else m.next;
            && |d| == Bytes(g, |d|) / g.size && |d| <= Room(g.good, g.n, Start(g, m, at))
            && r == Write(g, m, at, Bytes(g, |d|), d))
  }

  /** However a run of data is cut into whole-block requests, it is laid out as by a single one. */
  lemma {:induction false} ManyAsOne(g: Geometry, s: Store, to: nat, ds: seq<seq<Block>>, r: Store)
    requires Sound(g, s) && Aligned(g, to) && ds != [] && Appended(g, s, to, ds, r)
    requires |Concat(ds)| <= Room(g.good, g.n, Start(g, s, to))
    ensures |Concat(ds)| == Bytes(g, |Concat(ds)|) / g.size
    ensures r == Write(g, s, to, Bytes(g, |Concat(ds)|), Concat(ds))
    decreases |ds|
  {
    hide Bytes, Start, Room, Write;
    var n := |ds| - 1;
    var front, d := ds[..n], ds[n];
    BlockAt(g, |Concat(ds)|);
    if n == 0 {
      assert Concat(front) == [] && Concat(ds) == d;
    } else {
      var m: Store :| Sound(g, m) && Appended(g, s, to, front, m) && |d| == Bytes(g, |d|) / g.size
        && |d| <= Room(g.good, g.n, Start(g, m, m.next)) && r == Write(g, m, m.next, Bytes(g, |d|), d);
      ManyAsOne(g, s, to, front, m);
      TwoAsOne(g, s, to, Concat(front), d);
    }
  }

  // ----- reading back --------------------------------------------------------------------------

  /** From where `k` blocks were requested to be written up to the last block used, exactly the blocks
      used can be read: none of them fails, none is readable in the displacement carried into the
      request, and none refused the write but is readable. */
  predicate ReadsBack(w: Geometry, r: Geometry, s: Store, to: nat, k: nat)
    requires w.size > 0 && k <= Room(w.good, w.n, Start(w, s, to))
  {
    OnlyTheWritten(r.good, w.good, w.n, to / w.size, Start(w, s, to), k)
  }

  /** A read where a write was requested goes to the blocks the write used, and so returns the data,
      under exactly that condition. */
  lemma {:induction false} ReadAfterWrite(w: Geometry, r: Geometry, s: Store, to: nat, data: seq<Block>)
    requires Sound(w, s) && Aligned(w, to) && data != [] && r.size == w.size && r.n == w.n
    requires |data| <= Room(w.good, w.n, Start(w, s, to))
    ensures |data| == Bytes(w, |data|) / w.size
    ensures SameBlocks(r.good, w.good, w.n, to / w.size, Start(w, s, to), |data|) <==> ReadsBack(w, r, s, to, |data|)
    ensures ReadsBack(w, r, s, to, |data|) ==>
      && |data| <= Room(r.good, r.n, to / r.size)
      && Read(r, Write(w, s, to, Bytes(w, |data|), data).chip, to, |data|) == data
  {
    hide Bytes, Start, Places, Room, Put, OnlyTheWritten;
    BlockAt(w, |data|);
    StartInBlocks(w, s, to);
    var from := Start(w, s, to);
    SamePlaces(r.good, w.good, w.n, to / w.size, from, |data|);
    PlacesAreTheFirst(w.good, w.n, from, |data|);
    GetPut(s.chip, Places(w.good, w.n, from, |data|), data);
  }

  /** What a read returns; none if it does not end. */
  function TryRead(g: Geometry, chip: seq<Block>, from: nat, k: nat): Option<seq<Block>>
    requires g.size > 0 && |chip| == g.n
  {
    if k <= Room(g.good, g.n, from / g.size) then Some(Read(g, chip, from, k)) else None
  }

  /** What it returns where `d` has been requested to be written. */
  function Back(w: Geometry, r: Geometry, s: Store, to: nat, len: nat, d: seq<Block>): Option<seq<Block>>
    requires Sound(w, s) && r.size == w.size && r.n == w.n
    requires |d| == len / w.size && |d| <= Room(w.good, w.n, Start(w, s, to))
  {
    TryRead(r, Write(w, s, to, len, d).chip, to, |d|)
  }

  /** Whatever is written with a length of `len` bytes, a read where it was requested returns it. */
  ghost predicate ComesBack(w: Geometry, r: Geometry, s: Store, to: nat, len: nat)
    requires Sound(w, s) && r.size == w.size && r.n == w.n
    requires len / w.size <= Room(w.good, w.n, Start(w, s, to))
  {
    forall d: seq<Block> | |d| == len / w.size :: Back(w, r, s, to, len, d) == Some(d)
  }

  lemma {:induction false} ComesBackIff(w: Geometry, r: Geometry, s: Store, to: nat, len: nat)
    requires Sound(w, s) && Aligned(w, to) && len / w.size > 0 && r.size == w.size && r.n == w.n
    requires len / w.size <= Room(w.good, w.n, Start(w, s, to))
    ensures ComesBack(w, r, s, to, len) <==> ReadsBack(w, r, s, to, len / w.size)
  {
    hide Bytes, Start, Places, Room, Put, OnlyTheWritten;
    var k := len / w.size;
    var some: seq<Block> := seq(k, _ => []);
    ReadAfterWrite(w, r, s, to, some);
    if ReadsBack(w, r, s, to, k) {
      forall d: seq<Block> | |d| == k
        ensures Back(w, r, s, to, len, d) == Some(d)
      {
        ReadAfterWrite(w, r, s, to, d);
      }
    } else if k <= Room(r.good, r.n, to / r.size) {
      var at, bt := Places(w.good, w.n, Start(w, s, to), k), Places(r.good, r.n, to / r.size, k);
      var i :| 0 <= i < k && at[i] != bt[i];
      PlacesAreTheFirst(w.good, w.n, Start(w, s, to), k);
      var d := Telltale(s.chip, at, bt, i);
      assert Back(w, r, s, to, len, d).value[i] != d[i];
    } else {
      assert Back(w, r, s, to, len, some) == None;
    }
  }

  /** Data that shows that block `i` is read from somewhere else. */
  lemma {:induction false} Telltale(chip: seq<Block>, at: seq<nat>, bt: seq<nat>, i: nat) returns (d: seq<Block>)
    requires i < |at| == |bt| && at[i] != bt[i] && Distinct(at)
    requires forall j :: 0 <= j < |at| ==> at[j] < |chip| && bt[j] < |chip|
    ensures |d| == |at| && Put(chip, at, d)[bt[i]] != d[i]
  {
    var b := chip[bt[i]];
    d := seq(|at|, j requires 0 <= j < |at| => if j == i then b + [0] else b);
    if bt[i] in at {
      var j :| 0 <= j < |at| && at[j] == bt[i];
      PutAt(chip, at, d, j);
    } else {
      PutElsewhere(chip, at, d, bt[i]);
    }
  }

  /** Data appended piece by piece is read back whole from where the first piece was requested. */
  lemma {:induction false} ReadBackWhole(w: Geometry, r: Geometry, s: Store, to: nat, ds: seq<seq<Block>>, e: Store)
    requires Sound(w, s) && Aligned(w, to) && ds != [] && Appended(w, s, to, ds, e) && r.size == w.size && r.n == w.n
    requires |Concat(ds)| <= Room(w.good, w.n, Start(w, s, to)) && Concat(ds) != []
    requires ReadsBack(w, r, s, to, |Concat(ds)|)
    ensures |Concat(ds)| <= Room(r.good, r.n, to / r.size) && |e.chip| == r.n
    ensures Read(r, e.chip, to, |Concat(ds)|) == Concat(ds)
  {
    hide Bytes, Start, Places, Room, Put, Appended, Concat, ReadsBack;
    ManyAsOne(w, s, to, ds, e);
    ReadAfterWrite(w, r, s, to, Concat(ds));
  }

  /** With block 0 bad, a piece appended at block 1 goes to block 2, but a read there finds the first piece. */
  lemma {:induction false} AppendedPieceMisread(d: Block, e: Block)
    requires d != e
    ensures
      var g := Geometry(1, 3, {1, 2});
      var w := Write(g, Store([[], [], []], 0, 0), 0, 1, [d]);
      var x := Write(g, w, 1, 1, [e]);
      x.chip == [[], d, e] && Read(g, x.chip, 1, 1) == [d] && !ReadsBack(g, g, w, 1, 1)
  {
    hide Bytes, Put, Start, Room, Places, After;
    var g := Geometry(1, 3, {1, 2});
    var s := Store([[], [], []], 0, 0);
    ExamplePlaces();
    ExampleStart(s);
    var w := Write(g, s, 0, 1, [d]);
    PutOne(s.chip, 1, d);
    assert w.chip == [[], d, []] && w.next == 1 && w.skip == Bytes(g, 1);
    ExampleStart(w);
    PutOne(w.chip, 2, e);
    var x := Write(g, w, 1, 1, [e]);
    assert x.chip == [[], d, e];
    assert Get(x.chip, [1]) == [d];
  }

  /** With block 1 refusing writes but not reads, the second of two blocks is not read back. */
  lemma {:induction false} RefusedBlockMisread(d: Block, e: Block)
    ensures
      var w, r := Geometry(1, 3, {0, 2}), Geometry(1, 3, {0, 1, 2});
      var s := Store([[], [], []], 0, 0);
      && Start(w, s, 0) == 0 && Room(w.good, 3, 0) == 2 && Room(r.good, 3, 0) == 3
      && var x := Write(w, s, 0, 2, [d, e]);
      x.chip == [d, [], e] && Read(r, x.chip, 0, 2) == [d, []] && !ReadsBack(w, r, s, 0, 2)
  {
    hide Put, Room, Places, After;
    var w, r := Geometry(1, 3, {0, 2}), Geometry(1, 3, {0, 1, 2});
    var s := Store([[], [], []], 0, 0);
    RefusedPlaces();
    var at: seq<nat>, data: seq<Block> := [0, 2], [d, e];
    assert at == [0] + [2] && data == [d] + [e];
    PutSplit(s.chip, [0], [2], [d], [e]);
    PutOne(s.chip, 0, d);
    assert s.chip[0 := d] == [d, [], []];
    PutOne([d, [], []], 2, e);
    assert [d, [], []][2 := e] == [d, [], e];
    assert Put(s.chip, at, data) == [d, [], e];
    assert Get([d, [], e], [0, 1]) == [d, []];
    assert Start(w, s, 0) == 0 && 1 in r.good && 1 !in w.good;
    assert Write(w, s, 0, 2, data).chip == [d, [], e];
    assert !OnlyTheWritten(r.good, w.good, 3, 0, 0, 2);
  }

  lemma {:induction false} RefusedPlaces()
    ensures
      var w, r: set<nat> := {0, 2}, {0, 1, 2};
      && Room(w, 3, 0) == 2 && Room(r, 3, 0) == 3
      && Places(w, 3, 0, 2) == [0, 2] && After(w, 3, 0, 2) == 3 && Places(r, 3, 0, 2) == [0, 1]
  {
    var w, r: set<nat> := {0, 2}, {0, 1, 2};
    assert Room(w, 3, 3) == Room(r, 3, 3) == 0;
    assert Room(w, 3, 2) == Room(r, 3, 2) == 1;
    assert Room(w, 3, 1) == 1 && Room(r, 3, 1) == 2;
    assert Places(w, 3, 3, 0) == [] && Places(r, 3, 2, 0) == [] && After(w, 3, 3, 0) == 3;
    assert Places(w, 3, 2, 1) == [2] && After(w, 3, 2, 1) == 3;
    assert Places(w, 3, 1, 1) == [2] && After(w, 3, 1, 1) == 3;
    assert Places(r, 3, 1, 1) == [1];
  }

  lemma {:induction false} PutOne(chip: seq<Block>, b: nat, d: Block)
    requires b < |chip|
    ensures Put(chip, [b], [d]) == chip[b := d]
  {
    var at: seq<nat>, data: seq<Block> := [b], [d];
    assert at[1..] == [] && data[1..] == [];
    assert Put(chip[b := d], [], []) == chip[b := d];
  }

  lemma {:induction false} ExampleStart(s: Store)
    ensures var g := Geometry(1, 3, {1, 2});
      Start(g, s, 0) == Carried(s, 0) && Start(g, s, 1) == 1 + Carried(s, 1) && Bytes(g, 1) == 1
  {
  }

  lemma {:induction false} ExamplePlaces()
    ensures
      var good := {1, 2};
      && Room(good, 3, 2) == 1 && Room(good, 3, 1) == 2 && Room(good, 3, 0) == 2
      && Places(good, 3, 0, 1) == Places(good, 3, 1, 1) == [1] && Places(good, 3, 2, 1) == [2]
      && After(good, 3, 0, 1) == After(good, 3, 1, 1) == 2 && After(good, 3, 2, 1) == 3
  {
    var good: set<nat> := {1, 2};
    assert Room(good, 3, 3) == 0;
    assert Room(good, 3, 2) == 1;
    assert Room(good, 3, 1) == 2;
    assert Places(good, 3, 2, 0) == [] && Places(good, 3, 3, 0) == [];
    assert After(good, 3, 2, 0) == 2 && After(good, 3, 3, 0) == 3;
    assert Places(good, 3, 1, 1) == [1];
    assert After(good, 3, 1, 1) == 2;
  }

  // ----- the functions themselves --------------------------------------------------------------

  function Usable(n: nat, excluded: set<nat>): set<nat> {
    set b: nat | 0 <= b < n && b !in excluded
  }

  /** The chip as the driver shows it: bad blocks, blocks that refuse to be written or read, and the
      contents, one buffer of `size` bytes a block. */
  class OneNand {
    const size: nat
    const n: nat
    const bad: set<nat>
    const unwritable: set<nat>
    const unreadable: set<nat>
    const chip: array<Block>
    var nextOfs: nat
    var skipOfs: nat

    constructor (size: nat, n: nat, bad: set<nat>, unwritable: set<nat>, unreadable: set<nat>)
      requires size > 0
      ensures Valid() && fresh(chip) && nextOfs == skipOfs == 0
      ensures this.size == size && this.n == n && this.bad == bad
      ensures this.unwritable == unwritable && this.unreadable == unreadable
    {
      this.size, this.n, this.bad := size, n, bad;
      this.unwritable, this.unreadable := unwritable, unreadable;
      chip := new Block[n];
      nextOfs, skipOfs := 0, 0;
    }

    ghost predicate Valid()
      reads this
    {
      size > 0 && chip.Length == n && skipOfs % size == 0
    }

    ghost function Contents(): Store
      reads this, chip
    {
      Store(chip[..], nextOfs, skipOfs)
    }

    function ForWriting(): (g: Geometry)
      ensures g.size == size && g.n == n && forall b: nat :: b in g.good <==> b < n && b !in bad && b !in unwritable
    {
      Geometry(size, n, Usable(n, bad + unwritable))
    }

    function ForReading(): (g: Geometry)
      ensures g.size == size && g.n == n && forall b: nat :: b in g.good <==> b < n && b !in bad && b !in unreadable
    {
      Geometry(size, n, Usable(n, bad + unreadable))
    }

    method BlockIsBad(ofs: nat) returns (r: bool)
      requires size > 0
      ensures r <==> ofs / size >= n || ofs / size in bad
    {
      r := ofs / size >= n || ofs / size in bad;
    }

    /** mtd->write of one whole block. */
    method MtdWrite(ofs: nat, data: Block) returns (failed: bool)
      requires size > 0 && ofs / size < chip.Length
      modifies chip
      ensures failed <==> ofs / size in unwritable
      ensures chip[..] == if failed then old(chip[..]) else old(chip[..])[ofs / size := data]
    {
      if ofs / size in unwritable {
        return true;
      }
      chip[ofs / size] := data;
      return false;
    }

    /** onenand_block_write.  Behind the end of the chip every block counts as bad, so the loop goes on
        for ever if there are not enough usable blocks: `endless`, once all of those are written. */
    method OnenandBlockWrite(to: nat, len: nat, buf: seq<Block>) returns (endless: bool, retlen: nat)
      requires Valid() && to % size == 0 && len / size <= |buf|
      modifies this`nextOfs, this`skipOfs, chip
      ensures Valid()
      ensures
        var g := ForWriting();
        var from := Start(g, old(Contents()), to);
        var k := Min(len / size, Room(g.good, n, from));
        && (endless <==> k < len / size)
        && chip[..] == Put(old(chip[..]), Places(g.good, n, from, k), buf[..k]) && retlen == Bytes(g, k)
        && (!endless ==> Contents() == Write(g, old(Contents()), to, len, buf[..k]))
    {
      hide Places, After, Room, Put, Start, Bytes, Usable, Write, WriteSoFar;
      ghost var g, was := ForWriting(), Contents();
      ghost var idx := WriteStarts(g, was, to, len, buf);
      var blocks: nat := len / size;
      var ofs: nat := to;
      if to == nextOfs {
        nextOfs := to + len;
        ofs := ofs + skipOfs;
      } else {
        nextOfs := to + len;
        skipOfs := 0;
      }
      var next: nat := 0;
      endless, retlen := false, 0;
      while blocks > 0
        invariant blocks + next == len / size
        invariant WriteSoFar(g, was, to, len, buf, Contents(), idx, next, ofs, retlen)
        decreases n - idx
      {
        BlockOf(g, was, to, len, buf, Contents(), idx, next, ofs, retlen);
        if ofs / size >= n {
          WriteEnds(g, was, to, len, buf, Contents(), idx, next, ofs, retlen);
          return true, retlen;
        }
        UsableIs(n, bad + unwritable, idx);
        ghost var before := Contents();
        var r := BlockIsBad(ofs);
        if !r {
          r := MtdWrite(ofs, buf[next]);
        }
        if r {
          WritePasses(g, was, to, len, buf, before, idx, next, ofs, retlen);
          skipOfs := skipOfs + size;
        } else {
          WriteStores(g, was, to, len, buf, before, idx, next, ofs, retlen);
          next, blocks := next + 1, blocks - 1;
          retlen := retlen + size;
        }
        ofs := ofs + size;
        idx := idx + 1;
      }
      WriteEnds(g, was, to, len, buf, Contents(), idx, next, ofs, retlen);
    }

    /** onenand_block_read, which does not end either if there are not enough readable blocks. */
    method OnenandBlockRead(from: nat, len: nat) returns (endless: bool, retlen: nat, buf: seq<Block>)
      requires Valid() && from % size == 0
      ensures
        var g := ForReading();
        var k := Min(len / size, Room(g.good, n, from / size));
        && (endless <==> k < len / size)
        && buf == Read(g, chip[..], from, k) && retlen == Bytes(g, k)
    {
      hide Places, Room, Bytes, Usable, Read, ReadSoFar;
      ghost var g := ForReading();
      var blocks: nat := len / size;
      var ofs: nat := from;
      endless, retlen, buf := false, 0, [];
      ghost var idx := from / size;
      ReadStarts(g, chip[..], from, len);
      while blocks > 0
        invariant blocks + |buf| == len / size
        invariant ReadSoFar(g, chip[..], from, len, buf, idx, ofs, retlen)
        decreases n - idx
      {
        BlockRead(g, chip[..], from, len, buf, idx, ofs, retlen);
        if ofs / size >= n {
          ReadEnds(g, chip[..], from, len, buf, idx, ofs, retlen);
          return true, retlen, buf;
        }
        UsableIs(n, bad + unreadable, idx);
        var ret := BlockIsBad(ofs);
        if ret {
          ofs := ofs + size;
          idx := idx + 1;
          continue;
        }
        ret := ofs / size in unreadable;
        if ret {
          ofs := ofs + size;
          idx := idx + 1;
          continue;
        }
        buf := buf + [chip[ofs / size]];
        ofs := ofs + size;
        idx := idx + 1;
        blocks := blocks - 1;
        retlen := retlen + size;
      }
      ReadEnds(g, chip[..], from, len, buf, idx, ofs, retlen);
    }
  }

  /** How many of the requested blocks can be written. */
  function Possible(g: Geometry, s: Store, to: nat, len: nat): (k: nat)
    requires g.size > 0
    ensures k <= len / g.size && k <= Room(g.good, g.n, Start(g, s, to))
  {
    Min(len / g.size, Room(g.good, g.n, Start(g, s, to)))
  }

  /** The write loop at block `idx`, with `next` blocks written. */
  ghost predicate WriteSoFar(g: Geometry, was: Store, to: nat, len: nat, buf: seq<Block>, now: Store,
                             idx: nat, next: nat, ofs: nat, retlen: nat)
  {
    && Sound(g, was) && Sound(g, now) && Aligned(g, to) && len / g.size <= |buf|
    && var from, total := Start(g, was, to), Possible(g, was, to, len);
    && next <= total && idx >= from + next && ofs == Bytes(g, idx) && retlen == Bytes(g, next)
    && total - next <= Room(g.good, g.n, idx)
    && (total < len / g.size ==> total - next == Room(g.good, g.n, idx))
    && now.next == to + len && now.skip == Carried(was, to) + Bytes(g, idx - from - next)
    && (next < total ==> After(g.good, g.n, idx, total - next) == After(g.good, g.n, from, total))
    && (next == len / g.size ==> idx == After(g.good, g.n, from, total))
    && Put(now.chip, Places(g.good, g.n, idx, total - next), buf[next..total])
       == Put(was.chip, Places(g.good, g.n, from, total), buf[..total])
  }

  lemma {:induction false} WriteStarts(g: Geometry, was: Store, to: nat, len: nat, buf: seq<Block>) returns (idx: nat)
    requires Sound(g, was) && Aligned(g, to) && len / g.size <= |buf|
    ensures WriteSoFar(g, was, to, len, buf, Store(was.chip, to + len, Carried(was, to)), idx, 0, to + Carried(was, to), 0)
  {
    hide Places, After, Room, Put, Start, Bytes;
    idx := Start(g, was, to);
    StartInBlocks(g, was, to);
    ZeroBytes(g);
    CarriedAligned(g, was, to);
    if len / g.size == 0 {
      NoneLeft(was.chip, g.good, g.n, idx, []);
    }
  }

  lemma {:induction false} BlockOf(g: Geometry, was: Store, to: nat, len: nat, buf: seq<Block>, now: Store,
                                   idx: nat, next: nat, ofs: nat, retlen: nat)
    requires WriteSoFar(g, was, to, len, buf, now, idx, next, ofs, retlen)
    ensures g.size > 0 && ofs / g.size == idx
  {
    BlockAt(g, idx);
  }

  lemma {:induction false} WritePasses(g: Geometry, was: Store, to: nat, len: nat, buf: seq<Block>, now: Store,
                                       idx: nat, next: nat, ofs: nat, retlen: nat)
    requires WriteSoFar(g, was, to, len, buf, now, idx, next, ofs, retlen)
    requires idx < g.n && idx !in g.good && next < len / g.size
    ensures WriteSoFar(g, was, to, len, buf, now.(skip := now.skip + g.size), idx + 1, next, ofs + g.size, retlen)
  {
    hide Places, After, Room, Put, Start, Bytes;
    var from, total := Start(g, was, to), Possible(g, was, to, len);
    OneMore(g, idx);
    OneMore(g, idx - from - next);
    AlignedSum(g, now.skip, 1);
    RoomAt(g.good, g.n, idx);
    Skipped(g.good, g.n, idx, total - next);
  }

  lemma {:induction false} WriteStores(g: Geometry, was: Store, to: nat, len: nat, buf: seq<Block>, now: Store,
                                       idx: nat, next: nat, ofs: nat, retlen: nat)
    requires WriteSoFar(g, was, to, len, buf, now, idx, next, ofs, retlen)
    requires idx < g.n && idx in g.good && next < len / g.size
    ensures WriteSoFar(g, was, to, len, buf, now.(chip := now.chip[idx := buf[next]]), idx + 1, next + 1,
                       ofs + g.size, retlen + g.size)
  {
    hide Places, After, Room, Put, Start, Bytes;
    var total := Possible(g, was, to, len);
    OneMore(g, idx);
    OneMore(g, next);
    RoomAt(g.good, g.n, idx);
    RoomStep(g.good, g.n, idx, total - next);
    PutStep(now.chip, g.good, g.n, idx, total - next, buf[next..total]);
    assert buf[next..total][1..] == buf[next + 1..total];
    if next + 1 == len / g.size {
      NoneLeft(now.chip, g.good, g.n, idx + 1, []);
    }
  }

  lemma {:induction false} WriteEnds(g: Geometry, was: Store, to: nat, len: nat, buf: seq<Block>, now: Store,
                                     idx: nat, next: nat, ofs: nat, retlen: nat)
    requires WriteSoFar(g, was, to, len, buf, now, idx, next, ofs, retlen)
    requires next == len / g.size || idx >= g.n
    ensures var from, k := Start(g, was, to), Possible(g, was, to, len);
      && Sound(g, now) && next == k && retlen == Bytes(g, k)
      && now.chip == Put(was.chip, Places(g.good, g.n, from, k), buf[..k])
      && (k == len / g.size ==> now == Write(g, was, to, len, buf[..k]))
  {
    hide Places, After, Room, Put, Start, Bytes;
    RoomAt(g.good, g.n, idx);
    NoneLeft(now.chip, g.good, g.n, idx, buf[next..next]);
  }

  /** The read loop at block `idx`, with `buf` read. */
  ghost predicate ReadSoFar(g: Geometry, chip: seq<Block>, from: nat, len: nat, buf: seq<Block>,
                            idx: nat, ofs: nat, retlen: nat)
  {
    && g.size > 0 && |chip| == g.n && Aligned(g, from)
    && var total := Min(len / g.size, Room(g.good, g.n, from / g.size));
    && |buf| <= total && ofs == Bytes(g, idx) && retlen == Bytes(g, |buf|)
    && total - |buf| <= Room(g.good, g.n, idx)
    && (total < len / g.size ==> total - |buf| == Room(g.good, g.n, idx))
    && Read(g, chip, from, total) == buf + Get(chip, Places(g.good, g.n, idx, total - |buf|))
  }

  lemma {:induction false} ReadStarts(g: Geometry, chip: seq<Block>, from: nat, len: nat)
    requires g.size > 0 && |chip| == g.n && Aligned(g, from)
    ensures ReadSoFar(g, chip, from, len, [], from / g.size, from, 0)
  {
    hide Places, Room, Bytes;
    AlignedIsBytes(g, from);
    ZeroBytes(g);
  }

  lemma {:induction false} BlockRead(g: Geometry, chip: seq<Block>, from: nat, len: nat, buf: seq<Block>,
                                     idx: nat, ofs: nat, retlen: nat)
    requires ReadSoFar(g, chip, from, len, buf, idx, ofs, retlen)
    ensures g.size > 0 && |chip| == g.n && ofs / g.size == idx
    ensures idx < g.n && idx !in g.good && |buf| < len / g.size ==>
      ReadSoFar(g, chip, from, len, buf, idx + 1, ofs + g.size, retlen)
    ensures idx < g.n && idx in g.good && |buf| < len / g.size ==>
      ReadSoFar(g, chip, from, len, buf + [chip[idx]], idx + 1, ofs + g.size, retlen + g.size)
  {
    hide Places, Room, Bytes, Read, Get;
    BlockAt(g, idx);
    OneMore(g, idx);
    OneMore(g, |buf|);
    RoomAt(g.good, g.n, idx);
    var left := Min(len / g.size, Room(g.good, g.n, from / g.size)) - |buf|;
    if idx < g.n {
      Skipped(g.good, g.n, idx, left);
      if idx in g.good && |buf| < len / g.size {
        PlacesStep(g.good, g.n, idx, left);
        GetFirst(chip, buf, idx, Places(g.good, g.n, idx + 1, left - 1));
      }
    }
  }

  lemma {:induction false} GetFirst(chip: seq<Block>, buf: seq<Block>, b: nat, rest: seq<nat>)
    requires b < |chip| && forall i :: 0 <= i < |rest| ==> rest[i] < |chip|
    ensures buf + Get(chip, [b] + rest) == buf + [chip[b]] + Get(chip, rest)
  {
  }

  lemma {:induction false} ReadEnds(g: Geometry, chip: seq<Block>, from: nat, len: nat, buf: seq<Block>,
                                    idx: nat, ofs: nat, retlen: nat)
    requires ReadSoFar(g, chip, from, len, buf, idx, ofs, retlen)
    requires |buf| == len / g.size || idx >= g.n
    ensures var k := Min(len / g.size, Room(g.good, g.n, from / g.size));
      |buf| == k && buf == Read(g, chip, from, k) && retlen == Bytes(g, k)
  {
    hide Places, Room, Bytes, Read;
    RoomAt(g.good, g.n, idx);
    NoPlaces(g.good, g.n, idx);
    assert buf + [] == buf;
  }

  /** What was written is read back, on any chip that allows it. */
  method WriteThenRead(o: OneNand, to: nat, data: seq<Block>) returns (endless: bool, back: seq<Block>)
    requires o.Valid() && to % o.size == 0 && data != []
    modifies o, o.chip
    ensures var w, s, k := o.ForWriting(), old(o.Contents()), |data|;
      && (k > Room(w.good, o.n, Start(w, s, to)) ==> endless)
      && (k <= Room(w.good, o.n, Start(w, s, to)) && ReadsBack(w, o.ForReading(), s, to, k) ==> !endless && back == data)
  {
    hide ReadsBack, Room, Start, Put, Places, Usable, Bytes;
    back := [];
    ghost var w, s := o.ForWriting(), o.Contents();
    BlockAt(w, |data|);
    assert Bytes(w, |data|) == o.size * |data| by { ByteCount(w, |data|); }
    var retlen;
    endless, retlen := o.OnenandBlockWrite(to, o.size * |data|, data);
    if !endless {
      assert data[..|data|] == data;
      ReadAfterWrite(w, o.ForReading(), s, to, data);
      endless, retlen, back := o.OnenandBlockRead(to, o.size * |data|);
    }
  }

  lemma {:induction false} ByteCount(g: Geometry, k: nat)
    ensures Bytes(g, k) == g.size * k
  {
  }

  lemma {:induction false} RoomAt(good: set<nat>, n: nat, from: nat)
    ensures from >= n ==> Room(good, n, from) == 0
    ensures from < n ==> Room(good, n, from) == (if from in good then 1 else 0) + Room(good, n, from + 1)
  {
  }

  /** A block that is passed over. */
  lemma {:induction false} Skipped(good: set<nat>, n: nat, from: nat, k: nat)
    requires k <= Room(good, n, from) && from < n
    ensures from !in good ==>
      && k <= Room(good, n, from + 1)
      && After(good, n, from, k) == (if k == 0 then from else After(good, n, from + 1, k))
      && Places(good, n, from, k) == Places(good, n, from + 1, k)
  {
  }

  lemma {:induction false} OneMore(g: Geometry, k: nat)
    ensures Bytes(g, k + 1) == Bytes(g, k) + g.size && Bytes(g, 1) == g.size
  {
  }

  lemma {:induction false} UsableIs(n: nat, excluded: set<nat>, b: nat)
    ensures b in Usable(n, excluded) <==> b < n && b !in excluded
  {
  }

  lemma {:induction false} PutStep(chip: seq<Block>, good: set<nat>, n: nat, from: nat, k: nat, data: seq<Block>)
    requires 0 < k <= Room(good, n, from) && |chip| == n && |data| == k && from in good && from < n
    ensures k - 1 <= Room(good, n, from + 1)
    ensures Put(chip, Places(good, n, from, k), data)
      == Put(chip[from := data[0]], Places(good, n, from + 1, k - 1), data[1..])
  {
    var rest := Places(good, n, from + 1, k - 1);
    assert Places(good, n, from, k) == [from] + rest;
    assert ([from] + rest)[1..] == rest;
  }

  lemma {:induction false} NoneLeft(chip: seq<Block>, good: set<nat>, n: nat, from: nat, data: seq<Block>)
    requires |chip| == n && data == []
    ensures Put(chip, Places(good, n, from, 0), data) == chip
    ensures After(good, n, from, 0) == from
  {
  }
}
