/** From an address range to flash sectors over many banks (common/cmd_flash.c): which sectors
    `erase start end` and `erase start +length` choose. Addresses are 32 bits wide. */
module FlashRanges {
  import opened Common

  const TOP: nat := 0xffff_ffff

  /** One flash bank: flash_info_t. */
  datatype Bank = Bank(known: bool, start: seq<nat>, size: nat) {

    function Last(): int {
      |start| - 1
    }

    /** The sectors follow one another, fill the bank and stay below 2^32. */
    predicate Tiled() {
      && 0 < |start|
      && (forall i, j :: 0 <= i < j < |start| ==> start[i] < start[j])
      && start[Last()] < start[0] + size <= TOP + 1
    }

    function BankEnd(): int
      requires Tiled()
    {
      start[0] + size - 1
    }

    /** The last address of a sector. */
    function End(i: int): (e: int)
      requires Tiled() && 0 <= i < |start|
      ensures start[i] <= e <= BankEnd() <= TOP
      ensures forall j :: i < j < |start| ==> e < start[j]
    {
      if i == Last() then BankEnd() else start[i + 1] - 1
    }

    predicate Holds(a: int)
      requires Tiled()
    {
      start[0] <= a <= BankEnd()
    }
  }

  lemma {:induction false} EndsAscend(b: Bank, i: int, j: int)
    requires b.Tiled() && 0 <= i < j < |b.start|
    ensures b.End(i) < b.End(j) && b.start[0] <= b.start[i]
  {
    assert b.End(i) < b.start[j];
  }

  predicate Geometry(info: seq<Bank>) {
    forall b :: b in info && b.known ==> b.Tiled()
  }

  /** Known banks in order of address. */
  predicate Ascending(info: seq<Bank>) {
    && Geometry(info)
    && (forall j, k :: 0 <= j < k < |info| && info[j].known && info[k].known ==> info[j].BankEnd() < info[k].start[0])
  }

  predicate InFlash(info: seq<Bank>, a: int)
    requires Geometry(info)
  {
    exists b :: b in info && b.known && b.Holds(a)
  }

  predicate Covers(info: seq<Bank>, lo: int, hi: int)
    requires Geometry(info)
  {
    forall a :: lo <= a <= hi ==> InFlash(info, a)
  }

  // ----- what one bank contributes -------------------------------------------------------------

  predicate StartsHere(b: Bank, a: int, i: int) {
    0 <= i < |b.start| && b.start[i] == a
  }

  predicate EndsHere(b: Bank, a: int, i: int)
    requires b.Tiled()
  {
    0 <= i < |b.start| && b.End(i) == a
  }

  ghost function StartingAt(b: Bank, a: int): (i: int)
    ensures i == -1 || StartsHere(b, a, i)
    ensures i == -1 ==> forall j :: !StartsHere(b, a, j)
  {
    if j :| StartsHere(b, a, j) then j else -1
  }

  ghost function EndingAt(b: Bank, a: int): (i: int)
    requires b.Tiled()
    ensures i == -1 || EndsHere(b, a, i)
    ensures i == -1 ==> forall j :: !EndsHere(b, a, j)
  {
    if j :| EndsHere(b, a, j) then j else -1
  }

  datatype Step = Fail | Skip | Take(first: int, last: int)

  /** Sectors first..last of a bank, or none when `first` is negative: one entry of s_first and s_last. */
  datatype Pick = Pick(first: int, last: int)

  const NONE := Pick(-1, -1)

  ghost function Visit(b: Bank, lo: nat, hi: nat): (s: Step)
    requires b.known ==> b.Tiled()
    ensures s.Take? ==> b.known && 0 <= s.first <= s.last < |b.start|
  {
    if !b.known then Skip
    else
      var f, l := StartingAt(b, lo), EndingAt(b, hi);
      if f >= 0 then
        var last := if l < 0 && hi > b.BankEnd() then b.Last() else l;
        if last < f then Fail else Take(f, last)
      else if b.start[0] <= lo < b.BankEnd() || l >= 0 then Fail
      else Skip
  }

  datatype Outcome = Failed | Done(picks: seq<Pick>)

  function Before(p: Pick, o: Outcome): Outcome {
    if o.Failed? then Failed else Done([p] + o.picks)
  }

  ghost function Fill(info: seq<Bank>, lo: nat, hi: nat): (o: Outcome)
    requires Geometry(info)
    ensures o.Done? ==> |o.picks| == |info|
  {
    if info == [] then Done([])
    else if lo > hi then Before(NONE, Fill(info[1..], lo, hi))
    else
      match Visit(info[0], lo, hi)
      case Fail => Failed
      case Skip => Before(NONE, Fill(info[1..], lo, hi))
      case Take(f, l) => Before(Pick(f, l), Fill(info[1..], Wrap(info[0].End(l) + 1), hi))
  }

  function Count(picks: seq<Pick>): int {
    if picks == [] then 0
    else
      var p := picks[|picks| - 1];
      Count(picks[..|picks| - 1]) + if p.first >= 0 then p.last - p.first + 1 else 0
  }

  predicate Chosen(picks: seq<Pick>, k: int, i: int) {
    0 <= k < |picks| && 0 <= picks[k].first <= i <= picks[k].last
  }

  /** Every pick names sectors of its own bank. */
  predicate Fits(info: seq<Bank>, picks: seq<Pick>) {
    && |picks| == |info|
    && forall k :: 0 <= k < |info| && picks[k].first >= 0 ==>
        info[k].known && picks[k].first <= picks[k].last < |info[k].start|
  }

  lemma {:induction false} FillFits(info: seq<Bank>, lo: nat, hi: nat)
    requires Geometry(info) && Fill(info, lo, hi).Done?
    ensures Fits(info, Fill(info, lo, hi).picks)
  {
    hide Visit, Wrap;
    if info != [] {
      var s := if lo > hi then Skip else Visit(info[0], lo, hi);
      var next := if s.Take? then Wrap(info[0].End(s.last) + 1) else lo;
      FillFits(info[1..], next, hi);
    }
  }

  // ----- every chosen sector lies in the range -------------------------------------------------

  ghost predicate Inside(info: seq<Bank>, picks: seq<Pick>, lo: int, hi: int)
    requires Geometry(info) && Fits(info, picks)
  {
    forall k, i :: Chosen(picks, k, i) ==> lo <= info[k].start[i] && info[k].End(i) <= hi
  }

  /** A known bank that ends at the top of the address space, and a later one that starts at 0. */
  predicate WrapPair(info: seq<Bank>)
    requires Geometry(info)
  {
    exists j, k :: 0 <= j < k < |info| && EndsAtTop(info[j]) && StartsAtZero(info[k])
  }

  predicate EndsAtTop(b: Bank)
    requires b.known ==> b.Tiled()
  {
    b.known && b.BankEnd() == TOP
  }

  predicate StartsAtZero(b: Bank)
    requires b.known ==> b.Tiled()
  {
    b.known && b.start[0] == 0
  }

  /** What a visited bank's choice says about the range. */
  lemma {:induction false} TakeFacts(b: Bank, lo: nat, hi: nat)
    requires b.Tiled() && lo <= hi && Visit(b, lo, hi).Take?
    ensures
      var f, l := Visit(b, lo, hi).first, Visit(b, lo, hi).last;
      && b.start[f] == lo && b.End(l) <= hi
      && (b.End(l) == hi || (l == b.Last() && b.BankEnd() < hi))
      && (hi == TOP && b.BankEnd() == TOP ==> b.End(l) == TOP)
      && (b.start[0] == lo ==> f == 0)
  {
    if b.start[0] == lo {
      assert StartsHere(b, lo, 0);
    }
    if hi == TOP && b.BankEnd() == TOP {
      assert EndsHere(b, hi, b.Last());
    }
  }

  lemma {:induction false} SkipFacts(b: Bank, lo: nat, hi: nat)
    requires b.known && b.Tiled() && lo <= hi && Visit(b, lo, hi).Skip?
    ensures lo < b.start[0] || b.BankEnd() <= lo
    ensures forall i :: 0 <= i < |b.start| ==> b.start[i] != lo && b.End(i) != hi
    ensures b.BankEnd() != hi
  {
    assert StartingAt(b, lo) == -1 && EndingAt(b, hi) == -1;
    assert b.End(b.Last()) == b.BankEnd();
    forall i | 0 <= i < |b.start|
      ensures b.start[i] != lo && b.End(i) != hi
    {
      assert !StartsHere(b, lo, i);
      assert !EndsHere(b, hi, i);
    }
  }

  lemma {:induction false} ChosenRest(p: Pick, rest: seq<Pick>, k: int, i: int)
    ensures k > 0 ==> (Chosen([p] + rest, k, i) <==> Chosen(rest, k - 1, i))
    ensures Chosen([p] + rest, 0, i) <==> 0 <= p.first <= i <= p.last
  {
  }

  /** After the wrap nothing but a bank at address 0 can be chosen. */
  lemma {:induction false} NothingAtZero(info: seq<Bank>, hi: nat, k: int, i: int)
    requires Geometry(info) && Fill(info, 0, hi).Done?
    requires forall b :: b in info ==> !StartsAtZero(b)
    ensures !Chosen(Fill(info, 0, hi).picks, k, i)
  {
    hide Visit;
    if info != [] {
      var b := info[0];
      assert b in info;
      if b.known && Visit(b, 0, hi).Take? {
        TakeFacts(b, 0, hi);
      }
      NothingAtZero(info[1..], hi, k - 1, i);
      ChosenRest(NONE, Fill(info[1..], 0, hi).picks, k, i);
    }
  }

  /** The result of filling on, one bank further. */
  ghost function NextStart(b: Bank, lo: nat, hi: nat): nat
    requires b.known ==> b.Tiled()
  {
    if lo <= hi && Visit(b, lo, hi).Take? then Wrap(b.End(Visit(b, lo, hi).last) + 1) else lo
  }

  ghost function FirstPick(b: Bank, lo: nat, hi: nat): (p: Pick)
    requires b.known ==> b.Tiled()
    ensures p.first >= 0 ==> b.known && p.first <= p.last < |b.start|
  {
    if lo <= hi && Visit(b, lo, hi).Take? then Pick(Visit(b, lo, hi).first, Visit(b, lo, hi).last) else NONE
  }

  lemma {:induction false} FillRest(info: seq<Bank>, lo: nat, hi: nat)
    requires Geometry(info) && info != [] && Fill(info, lo, hi).Done?
    ensures Fill(info[1..], NextStart(info[0], lo, hi), hi).Done?
    ensures Fill(info, lo, hi).picks
        == [FirstPick(info[0], lo, hi)] + Fill(info[1..], NextStart(info[0], lo, hi), hi).picks
    ensures lo <= hi ==> !Visit(info[0], lo, hi).Fail?
  {
    hide Visit, Wrap;
  }

  lemma {:induction false} ChosenInside(info: seq<Bank>, base: nat, lo: nat, hi: nat, k: int, i: int)
    requires Geometry(info) && base <= lo && hi <= TOP && Fill(info, lo, hi).Done?
    requires base == 0 || hi < TOP || !WrapPair(info)
    requires Chosen(Fill(info, lo, hi).picks, k, i)
    ensures k < |info| && info[k].known && i < |info[k].start|
    ensures base <= info[k].start[i] && info[k].End(i) <= hi
    decreases |info|
  {
    hide Visit, StartsAtZero, EndsAtTop, WrapPair, Fill;
    FillFits(info, lo, hi);
    FillRest(info, lo, hi);
    var b, next := info[0], NextStart(info[0], lo, hi);
    ChosenRest(FirstPick(b, lo, hi), Fill(info[1..], next, hi).picks, k, i);
    if k == 0 {
      InsideOne(b, lo, hi, i);
    } else {
      assert info[1..][k - 1] == info[k];
      WrapPairRest(info);
      NextStartGrows(b, lo, hi);
      if next < base {
        NothingAtZero(info[1..], hi, k - 1, i);
        assert false;
      } else {
        ChosenInside(info[1..], base, next, hi, k - 1, i);
      }
    }
  }

  lemma {:induction false} InsideOne(b: Bank, lo: nat, hi: nat, i: int)
    requires b.known ==> b.Tiled()
    requires 0 <= FirstPick(b, lo, hi).first <= i <= FirstPick(b, lo, hi).last
    ensures lo <= b.start[i] && b.End(i) <= hi
  {
    hide Visit;
    TakeFacts(b, lo, hi);
    var p := FirstPick(b, lo, hi);
    if i < p.last {
      EndsAscend(b, i, p.last);
    }
  }

  /** The start of the range moves up, except over the top of the address space. */
  lemma {:induction false} NextStartGrows(b: Bank, lo: nat, hi: nat)
    requires b.known ==> b.Tiled()
    requires hi <= TOP
    ensures NextStart(b, lo, hi) >= lo || (NextStart(b, lo, hi) == 0 && hi == TOP && EndsAtTop(b))
  {
    hide Visit;
    if lo <= hi && Visit(b, lo, hi).Take? {
      TakeFacts(b, lo, hi);
      var l := Visit(b, lo, hi).last;
      assert b.End(l) >= lo by {
        if Visit(b, lo, hi).first < l {
          EndsAscend(b, Visit(b, lo, hi).first, l);
        }
      }
    }
  }

  lemma {:induction false} WrapPairRest(info: seq<Bank>)
    requires Geometry(info) && info != []
    ensures WrapPair(info) <==>
      WrapPair(info[1..]) || (EndsAtTop(info[0]) && exists b :: b in info[1..] && StartsAtZero(b))
  {
    hide EndsAtTop, StartsAtZero;
    var rest := info[1..];
    if WrapPair(info) {
      var j, k :| 0 <= j < k < |info| && EndsAtTop(info[j]) && StartsAtZero(info[k]);
      assert rest[k - 1] == info[k] && rest[k - 1] in rest;
      if j > 0 {
        assert rest[j - 1] == info[j];
      }
    }
    WrapPairOfRest(info);
  }

  lemma {:induction false} WrapPairOfRest(info: seq<Bank>)
    requires Geometry(info) && info != []
    ensures WrapPair(info[1..]) ==> WrapPair(info)
    ensures (EndsAtTop(info[0]) && exists b :: b in info[1..] && StartsAtZero(b)) ==> WrapPair(info)
  {
    hide EndsAtTop, StartsAtZero;
    var rest := info[1..];
    if WrapPair(rest) {
      var j, k :| 0 <= j < k < |rest| && EndsAtTop(rest[j]) && StartsAtZero(rest[k]);
      assert info[j + 1] == rest[j] && info[k + 1] == rest[k];
    }
    if EndsAtTop(info[0]) && exists b :: b in rest && StartsAtZero(b) {
      var b :| b in rest && StartsAtZero(b);
      var k :| 0 <= k < |rest| && rest[k] == b;
      assert info[k + 1] == b;
    }
  }

  /** With the end of the range at the top of the address space, a bank at 0 is chosen after the wrap. */
  lemma {:induction false} ZeroIsChosen(info: seq<Bank>) returns (k: int)
    requires Geometry(info) && Fill(info, 0, TOP).Done?
    requires exists b :: b in info && StartsAtZero(b)
    ensures Chosen(Fill(info, 0, TOP).picks, k, 0) && StartsAtZero(info[k])
    decreases |info|
  {
    hide Visit, Fill;
    FillRest(info, 0, TOP);
    FillFits(info, 0, TOP);
    var b, next := info[0], NextStart(info[0], 0, TOP);
    if StartsAtZero(b) {
      k := 0;
      ZeroIsTaken(b);
      ChosenRest(FirstPick(b, 0, TOP), Fill(info[1..], next, TOP).picks, 0, 0);
    } else {
      NotTakenAtZero(b);
      var j := ZeroIsChosen(info[1..]);
      k := j + 1;
      ChosenRest(FirstPick(b, 0, TOP), Fill(info[1..], next, TOP).picks, k, 0);
    }
  }

  lemma {:induction false} ZeroIsTaken(b: Bank)
    requires b.known && b.Tiled() && b.start[0] == 0 && !Visit(b, 0, TOP).Fail?
    ensures Visit(b, 0, TOP).Take? && FirstPick(b, 0, TOP).first == 0
  {
    assert StartsHere(b, 0, 0);
    if Visit(b, 0, TOP).Take? {
      TakeFacts(b, 0, TOP);
    }
  }

  lemma {:induction false} NotTakenAtZero(b: Bank)
    requires b.known ==> b.Tiled()
    requires !StartsAtZero(b)
    ensures NextStart(b, 0, TOP) == 0
  {
    if Visit(b, 0, TOP).Take? {
      TakeFacts(b, 0, TOP);
    }
  }

  /** A completed walk to the top of the address space passes over it at the bank that ends there. */
  lemma {:induction false} WrapIsTaken(info: seq<Bank>, lo: nat) returns (k: int)
    requires Geometry(info) && lo <= TOP && Fill(info, lo, TOP).Done? && WrapPair(info)
    ensures Chosen(Fill(info, lo, TOP).picks, k, 0) && StartsAtZero(info[k])
    decreases |info|
  {
    hide Visit, Fill;
    FillRest(info, lo, TOP);
    FillFits(info, lo, TOP);
    WrapPairRest(info);
    var b, next := info[0], NextStart(info[0], lo, TOP);
    var j: int;
    if EndsAtTop(b) && exists z :: z in info[1..] && StartsAtZero(z) {
      TopIsTaken(b, lo);
      j := ZeroIsChosen(info[1..]);
    } else {
      NextStartSmall(b, lo, TOP);
      j := WrapIsTaken(info[1..], next);
    }
    k := j + 1;
    ChosenRest(FirstPick(b, lo, TOP), Fill(info[1..], next, TOP).picks, k, 0);
  }

  lemma {:induction false} TopIsTaken(b: Bank, lo: nat)
    requires b.known && b.Tiled() && b.BankEnd() == TOP && lo <= TOP && !Visit(b, lo, TOP).Fail?
    ensures NextStart(b, lo, TOP) == 0
  {
    if Visit(b, lo, TOP).Take? {
      TakeFacts(b, lo, TOP);
    } else {
      SkipFacts(b, lo, TOP);
    }
  }

  lemma {:induction false} NextStartSmall(b: Bank, lo: nat, hi: nat)
    requires b.known ==> b.Tiled()
    requires lo <= TOP
    ensures NextStart(b, lo, hi) <= TOP
  {
    hide Visit;
  }

  /** On success every chosen sector lies inside the range, except that a range from above 0 to the
      very top of the address space goes on at address 0 if a bank there comes after the one at the top. */
  lemma {:induction false} ChosenSectorsLieInside(info: seq<Bank>, lo: nat, hi: nat)
    requires Geometry(info) && lo <= TOP && hi <= TOP && Fill(info, lo, hi).Done?
    ensures Fits(info, Fill(info, lo, hi).picks)
    ensures Inside(info, Fill(info, lo, hi).picks, lo, hi) <==> !(0 < lo && hi == TOP && WrapPair(info))
  {
    hide Fill, WrapPair;
    FillFits(info, lo, hi);
    var picks := Fill(info, lo, hi).picks;
    if 0 < lo && hi == TOP && WrapPair(info) {
      var k := WrapIsTaken(info, lo);
      assert info[k].start[0] < lo;
    } else {
      forall k, i | Chosen(picks, k, i)
        ensures lo <= info[k].start[i] && info[k].End(i) <= hi
      {
        ChosenInside(info, lo, lo, hi, k, i);
      }
    }
  }

  /** An 8 KiB bank at the top of the address space, a 4 KiB bank at 0: a request for the last 4 KiB
      of the former also chooses the latter. */
  lemma {:induction false} WrapExample()
    ensures
      var info := [Bank(true, [0xffff_e000, 0xffff_f000], 0x2000), Bank(true, [0], 0x1000)];
      Fill(info, 0xffff_f000, TOP) == Done([Pick(1, 1), Pick(0, 0)])
  {
    var top, zero := Bank(true, [0xffff_e000, 0xffff_f000], 0x2000), Bank(true, [0], 0x1000);
    assert StartsHere(top, 0xffff_f000, 1) && EndsHere(top, TOP, 1) && top.End(1) == TOP;
    assert StartsHere(zero, 0, 0) && zero.BankEnd() < TOP;
    var info := [top, zero];
    assert info[1..] == [zero];
    assert [zero][1..] == [];
  }

  // ----- the chosen sectors are the range ------------------------------------------------------

  /** The address after the last chosen sector, `lo` if there is none. */
  ghost function Reach(info: seq<Bank>, lo: nat, hi: nat): (r: nat)
    requires Geometry(info)
    ensures r >= lo
  {
    if info == [] || lo > hi then lo
    else
      match Visit(info[0], lo, hi)
      case Fail => lo
      case Skip => Reach(info[1..], lo, hi)
      case Take(f, l) => GrowsFrom(info[0], lo, hi); Reach(info[1..], info[0].End(l) + 1, hi)
  }

  lemma {:induction false} GrowsFrom(b: Bank, lo: nat, hi: nat)
    requires b.Tiled() && lo <= hi && Visit(b, lo, hi).Take?
    ensures b.End(Visit(b, lo, hi).last) >= lo
  {
    TakeFacts(b, lo, hi);
    if Visit(b, lo, hi).first < Visit(b, lo, hi).last {
      EndsAscend(b, Visit(b, lo, hi).first, Visit(b, lo, hi).last);
    }
  }

  lemma {:induction false} AscendingRest(info: seq<Bank>)
    requires Ascending(info) && info != []
    ensures Ascending(info[1..])
    ensures forall b :: info[0].known && b in info[1..] && b.known ==> info[0].BankEnd() < b.start[0]
  {
    var rest := info[1..];
    forall j, k | 0 <= j < k < |rest| && rest[j].known && rest[k].known
      ensures rest[j].BankEnd() < rest[k].start[0]
    {
      assert rest[j] == info[j + 1] && rest[k] == info[k + 1];
    }
    forall b | info[0].known && b in rest && b.known
      ensures info[0].BankEnd() < b.start[0]
    {
      var k :| 0 <= k < |rest| && rest[k] == b;
      assert info[k + 1] == b;
    }
  }

  predicate AllFrom(info: seq<Bank>, lo: int)
    requires Geometry(info)
  {
    forall b :: b in info && b.known ==> lo <= b.start[0]
  }

  /** Banks that all start after `lo` contribute nothing. */
  lemma {:induction false} NothingBelow(info: seq<Bank>, lo: nat, hi: nat)
    requires Geometry(info) && AllFrom(info, lo + 1)
    ensures Reach(info, lo, hi) == lo
  {
    hide Visit;
    if info != [] && lo <= hi {
      var b := info[0];
      assert b in info;
      if b.known && Visit(b, lo, hi).Take? {
        TakeFacts(b, lo, hi);
        BelowFirst(b, Visit(b, lo, hi).first);
      }
      assert Geometry(info[1..]) && AllFrom(info[1..], lo + 1);
      NothingBelow(info[1..], lo, hi);
    }
  }

  lemma {:induction false} BelowFirst(b: Bank, i: int)
    requires b.Tiled() && 0 <= i < |b.start|
    ensures b.start[0] <= b.start[i]
  {
    if i > 0 {
      EndsAscend(b, 0, i);
    }
  }

  /** Past the first bank, coverage is a matter for the others. */
  lemma {:induction false} CoversRest(info: seq<Bank>, lo: int, hi: int)
    requires Geometry(info) && info != [] && Covers(info, lo, hi)
    requires info[0].known ==> info[0].BankEnd() < lo
    ensures Covers(info[1..], lo, hi)
  {
    forall a | lo <= a <= hi
      ensures InFlash(info[1..], a)
    {
      assert InFlash(info, a);
    }
  }

  /** Where flash goes on at the current start, the walk takes it or fails. */
  lemma {:induction false} NextIsTaken(info: seq<Bank>, lo: nat, hi: nat)
    requires Ascending(info) && AllFrom(info, lo) && lo <= hi && InFlash(info, lo)
    requires Fill(info, lo, hi).Done?
    ensures Reach(info, lo, hi) > lo
    decreases |info|
  {
    hide Visit, InFlash, Wrap;
    InFlashHead(info, lo);
    AscendingRest(info);
    var b := info[0];
    assert b in info;
    if b.known {
      FirstIsTaken(info, lo, hi);
      GrowsFrom(b, lo, hi);
    } else {
      UnknownIsSkipped(b, lo, hi);
      NextIsTaken(info[1..], lo, hi);
    }
  }

  lemma {:induction false} InFlashHead(info: seq<Bank>, a: int)
    requires Geometry(info) && InFlash(info, a)
    ensures info != []
    ensures InFlash(info[1..], a) || (info[0].known && info[0].Holds(a))
  {
    var b :| b in info && b.known && b.Holds(a);
    if b != info[0] {
      assert b in info[1..];
    }
  }

  lemma {:induction false} UnknownIsSkipped(b: Bank, lo: nat, hi: nat)
    requires !b.known
    ensures Visit(b, lo, hi) == Skip
  {
  }

  lemma {:induction false} FirstIsTaken(info: seq<Bank>, lo: nat, hi: nat)
    requires Ascending(info) && AllFrom(info, lo) && lo <= hi && InFlash(info, lo)
    requires info != [] && info[0].known && Fill(info, lo, hi).Done?
    ensures Visit(info[0], lo, hi).Take?
  {
    hide Wrap;
    AscendingRest(info);
    InFlashHead(info, lo);
    var b := info[0];
    assert b in info;
    assert b.start[0] == lo;
    assert StartsHere(b, lo, 0);
    FillRest(info, lo, hi);
  }

  /** In a covered range, a walk that has chosen something chooses up to the end. */
  lemma {:induction false} ReachesTheEnd(info: seq<Bank>, lo: nat, hi: nat)
    requires Ascending(info) && lo <= hi <= TOP && Covers(info, lo, hi)
    requires Fill(info, lo, hi).Done? && Reach(info, lo, hi) > lo
    ensures Reach(info, lo, hi) == hi + 1
    decreases |info|
  {
    hide Visit, Covers, AllFrom, Wrap;
    AscendingRest(info);
    var b, rest := info[0], info[1..];
    FillRest(info, lo, hi);
    if Visit(b, lo, hi).Take? {
      TakeFacts(b, lo, hi);
      var next := b.End(Visit(b, lo, hi).last) + 1;
      GrowsFrom(b, lo, hi);
      if next <= hi {
        CoversFrom(info, lo, next, hi);
        CoversRest(info, next, hi);
        AllFromNext(b, rest, next);
        WrapSmall(next);
        CoveredAt(rest, next, hi);
        NextIsTaken(rest, next, hi);
        ReachesTheEnd(rest, next, hi);
      }
    } else {
      SkippedIsBelow(info, lo, hi);
      CoversRest(info, lo, hi);
      ReachesTheEnd(rest, lo, hi);
    }
  }

  lemma {:induction false} WrapSmall(a: nat)
    requires a <= TOP
    ensures Wrap(a) == a
  {
  }

  lemma {:induction false} CoversFrom(info: seq<Bank>, lo: int, mid: int, hi: int)
    requires Geometry(info) && Covers(info, lo, hi) && lo <= mid
    ensures Covers(info, mid, hi)
  {
  }

  lemma {:induction false} CoveredAt(info: seq<Bank>, lo: int, hi: int)
    requires Geometry(info) && Covers(info, lo, hi) && lo <= hi
    ensures InFlash(info, lo)
  {
  }

  lemma {:induction false} AllFromNext(b: Bank, rest: seq<Bank>, next: int)
    requires Geometry(rest) && b.Tiled() && next <= b.BankEnd() + 1
    requires forall m :: m in rest && m.known ==> b.BankEnd() < m.start[0]
    ensures AllFrom(rest, next)
  {
  }

  /** A skipped bank before a chosen one ends below the range. */
  lemma {:induction false} SkippedIsBelow(info: seq<Bank>, lo: nat, hi: nat)
    requires Ascending(info) && info != [] && lo <= hi && Visit(info[0], lo, hi).Skip?
    requires Reach(info, lo, hi) > lo
    ensures info[0].known ==> info[0].BankEnd() < lo
  {
    hide Visit;
    AscendingRest(info);
    var b := info[0];
    if b.known && lo <= b.BankEnd() {
      SkipFacts(b, lo, hi);
      AllFromNext(b, info[1..], lo + 1);
      NothingBelow(info[1..], lo, hi);
      assert false;
    }
  }

  predicate StartsASector(info: seq<Bank>, a: int) {
    exists b, i :: b in info && b.known && 0 <= i < |b.start| && StartsHere(b, a, i)
  }

  predicate EndsASector(info: seq<Bank>, a: int)
    requires Geometry(info)
  {
    exists b, i :: b in info && b.known && 0 <= i < |b.start| && EndsHere(b, a, i)
  }

  lemma {:induction false} StartsMore(info: seq<Bank>, a: int)
    requires Geometry(info) && info != [] && StartsASector(info[1..], a)
    ensures StartsASector(info, a)
  {
    var b, i :| b in info[1..] && b.known && 0 <= i < |b.start| && StartsHere(b, a, i);
    assert b in info;
  }

  lemma {:induction false} EndsMore(info: seq<Bank>, a: int)
    requires Geometry(info) && info != [] && EndsASector(info[1..], a)
    ensures EndsASector(info, a)
  {
    var b, i :| b in info[1..] && b.known && 0 <= i < |b.start| && EndsHere(b, a, i);
    assert b in info;
  }

  lemma {:induction false} HeadIsAligned(info: seq<Bank>, lo: nat, hi: nat)
    requires Geometry(info) && info != [] && lo <= hi && Visit(info[0], lo, hi).Take?
    ensures StartsASector(info, lo) && EndsASector(info, info[0].End(Visit(info[0], lo, hi).last))
  {
    hide Visit;
    var b := info[0];
    TakeFacts(b, lo, hi);
    assert StartsHere(b, lo, Visit(b, lo, hi).first);
    var l := Visit(b, lo, hi).last;
    assert EndsHere(b, b.End(l), l);
  }

  /** What has been chosen begins and ends with whole sectors. */
  lemma {:induction false} ReachIsAligned(info: seq<Bank>, lo: nat, hi: nat)
    requires Geometry(info) && Reach(info, lo, hi) > lo
    ensures StartsASector(info, lo) && EndsASector(info, Reach(info, lo, hi) - 1)
    decreases |info|
  {
    hide Visit, StartsASector, EndsASector, Reach, Geometry;
    ReachStep(info, lo, hi);
    var b, rest := info[0], info[1..];
    if Visit(b, lo, hi).Take? {
      HeadIsAligned(info, lo, hi);
      var next := b.End(Visit(b, lo, hi).last) + 1;
      if Reach(rest, next, hi) > next {
        ReachIsAligned(rest, next, hi);
        EndsMore(info, Reach(rest, next, hi) - 1);
      }
    } else {
      ReachIsAligned(rest, lo, hi);
      StartsMore(info, lo);
      EndsMore(info, Reach(rest, lo, hi) - 1);
    }
  }

  lemma {:induction false} ReachStep(info: seq<Bank>, lo: nat, hi: nat)
    requires Geometry(info) && Reach(info, lo, hi) > lo
    ensures info != [] && lo <= hi && Geometry(info[1..]) && (info[0].known ==> info[0].Tiled())
    ensures !Visit(info[0], lo, hi).Fail?
    ensures var b, rest := info[0], info[1..];
      if Visit(b, lo, hi).Take? then
        b.End(Visit(b, lo, hi).last) >= lo
        && Reach(info, lo, hi) == Reach(rest, b.End(Visit(b, lo, hi).last) + 1, hi)
      else Reach(info, lo, hi) == Reach(rest, lo, hi)
  {
    hide Visit;
    if Visit(info[0], lo, hi).Take? {
      GrowsFrom(info[0], lo, hi);
    }
  }

  lemma {:induction false} NothingMoreFails(info: seq<Bank>, lo: nat, hi: nat)
    requires Geometry(info)
    requires lo > hi || forall b :: b in info ==> !b.known
    ensures Fill(info, lo, hi).Done?
  {
    if info != [] {
      assert info[0] in info;
      NothingMoreFails(info[1..], lo, hi);
    }
  }

  /** A covered range from the start of a sector to the end of one is accepted. */
  lemma {:induction false} AlignedIsAccepted(info: seq<Bank>, lo: nat, hi: nat)
    requires Ascending(info) && lo <= hi <= TOP && Covers(info, lo, hi)
    requires StartsASector(info, lo) && EndsASector(info, hi)
    ensures Fill(info, lo, hi).Done? && Reach(info, lo, hi) > lo
    decreases |info|, 1
  {
    hide Visit, Covers, StartsASector, EndsASector, Wrap, AllFrom, Ascending;
    NonEmpty(info, lo);
    AscendingHead(info);
    var b, rest := info[0], info[1..];
    if !b.known || b.BankEnd() < lo {
      SkipsBelow(b, lo, hi);
      CoversRest(info, lo, hi);
      StartsRest(info, lo);
      EndsRest(info, hi);
      AlignedIsAccepted(rest, lo, hi);
    } else {
      AlignedHead(info, lo, hi);
    }
  }

  lemma {:induction false} AlignedHead(info: seq<Bank>, lo: nat, hi: nat)
    requires Ascending(info) && lo <= hi <= TOP && Covers(info, lo, hi)
    requires StartsASector(info, lo) && EndsASector(info, hi)
    requires info != [] && info[0].known && lo <= info[0].BankEnd()
    ensures Fill(info, lo, hi).Done? && Reach(info, lo, hi) > lo
    decreases |info|, 0
  {
    hide Visit, Covers, StartsASector, EndsASector, Wrap, AllFrom, Ascending;
    AscendingHead(info);
    var b, rest := info[0], info[1..];
    HeadTaken(info, lo, hi);
    AscendingRest(info);
    var next := b.End(Visit(b, lo, hi).last) + 1;
    GrowsFrom(b, lo, hi);
    if hi <= b.BankEnd() {
      LastBankDone(b, rest, next, hi);
    } else {
      WrapSmall(next);
      CoversFrom(info, lo, next, hi);
      CoversRest(info, next, hi);
      StartsNext(b, rest, next, hi);
      EndsRest(info, hi);
      AlignedIsAccepted(rest, next, hi);
    }
  }

  lemma {:induction false} NonEmpty(info: seq<Bank>, a: int)
    requires StartsASector(info, a)
    ensures info != []
  {
  }

  lemma {:induction false} SkipsBelow(b: Bank, lo: nat, hi: nat)
    requires lo <= hi && (b.known ==> b.Tiled() && b.BankEnd() < lo)
    ensures Visit(b, lo, hi) == Skip
  {
    if b.known {
      assert StartingAt(b, lo) == -1;
      assert EndingAt(b, hi) == -1;
    }
  }

  lemma {:induction false} StartsRest(info: seq<Bank>, a: int)
    requires Geometry(info) && info != [] && StartsASector(info, a)
    requires info[0].known ==> info[0].BankEnd() < a
    ensures StartsASector(info[1..], a)
  {
    var b, i :| b in info && b.known && 0 <= i < |b.start| && StartsHere(b, a, i);
    assert b.start[i] <= b.End(i);
    assert b in info[1..];
  }

  lemma {:induction false} EndsRest(info: seq<Bank>, a: int)
    requires Geometry(info) && info != [] && EndsASector(info, a)
    requires info[0].known ==> info[0].BankEnd() < a
    ensures EndsASector(info[1..], a)
  {
    var b, i :| b in info && b.known && 0 <= i < |b.start| && EndsHere(b, a, i);
    assert b in info[1..];
  }

  lemma {:induction false} HoldsStart(info: seq<Bank>, lo: int)
    requires Ascending(info) && info != [] && info[0].known && lo <= info[0].BankEnd()
    requires InFlash(info, lo)
    ensures info[0].Holds(lo)
  {
    AscendingRest(info);
    InFlashHead(info, lo);
  }

  lemma {:induction false} StartInHead(info: seq<Bank>, lo: int)
    requires Ascending(info) && info != [] && info[0].known && lo <= info[0].BankEnd()
    requires StartsASector(info, lo)
    ensures StartingAt(info[0], lo) >= 0
  {
    AscendingRest(info);
    var m, i :| m in info && m.known && 0 <= i < |m.start| && StartsHere(m, lo, i);
    BelowFirst(m, i);
    assert m !in info[1..];
    assert StartsHere(info[0], lo, i);
  }

  lemma {:induction false} EndInHead(info: seq<Bank>, hi: int)
    requires Ascending(info) && info != [] && info[0].known && hi <= info[0].BankEnd()
    requires EndsASector(info, hi)
    ensures EndingAt(info[0], hi) >= 0
  {
    AscendingRest(info);
    var m, i :| m in info && m.known && 0 <= i < |m.start| && EndsHere(m, hi, i);
    BelowFirst(m, i);
    assert m !in info[1..];
    assert EndsHere(info[0], hi, i);
  }

  lemma {:induction false} TakesAligned(b: Bank, lo: nat, hi: nat)
    requires b.known && b.Tiled() && lo <= hi && StartingAt(b, lo) >= 0
    requires hi <= b.BankEnd() ==> EndingAt(b, hi) >= 0
    ensures Visit(b, lo, hi).Take?
    ensures
      var l := Visit(b, lo, hi).last;
      if hi <= b.BankEnd() then b.End(l) == hi else l == b.Last()
  {
    var f, l := StartingAt(b, lo), EndingAt(b, hi);
    if hi <= b.BankEnd() && l < f {
      assert false;
    }
    if l >= 0 {
      assert EndsHere(b, hi, l);
    }
  }

  lemma {:induction false} HeadTaken(info: seq<Bank>, lo: nat, hi: nat)
    requires Ascending(info) && lo <= hi <= TOP && Covers(info, lo, hi)
    requires StartsASector(info, lo) && EndsASector(info, hi)
    requires info != [] && info[0].known && lo <= info[0].BankEnd()
    ensures Visit(info[0], lo, hi).Take?
    ensures var b, l := info[0], Visit(info[0], lo, hi).last;
      if hi <= b.BankEnd() then b.End(l) == hi else l == b.Last()
  {
    hide Visit, Covers, StartsASector, EndsASector, Wrap, AllFrom;
    CoveredAt(info, lo, hi);
    HoldsStart(info, lo);
    StartInHead(info, lo);
    if hi <= info[0].BankEnd() {
      EndInHead(info, hi);
    }
    TakesAligned(info[0], lo, hi);
  }

  lemma {:induction false} LastBankDone(b: Bank, rest: seq<Bank>, next: nat, hi: nat)
    requires Geometry(rest) && b.Tiled() && next == hi + 1 && hi <= b.BankEnd()
    requires forall m :: m in rest && m.known ==> b.BankEnd() < m.start[0]
    ensures Fill(rest, Wrap(next), hi).Done?
  {
    hide Fill;
    if hi == TOP {
      forall m | m in rest
        ensures !m.known
      {
        if m.known {
          BelowFirst(m, m.Last());
        }
      }
    }
    NothingMoreFails(rest, Wrap(next), hi);
  }

  lemma {:induction false} StartsNext(b: Bank, rest: seq<Bank>, next: nat, hi: nat)
    requires Geometry(rest) && b.Tiled() && next == b.BankEnd() + 1 <= hi && Covers(rest, next, hi)
    requires forall m :: m in rest && m.known ==> b.BankEnd() < m.start[0]
    ensures StartsASector(rest, next)
  {
    CoveredAt(rest, next, hi);
    var m :| m in rest && m.known && m.Holds(next);
    assert StartsHere(m, next, 0);
  }

  /** In ascending banks, a range all of which is flash is accepted, and something in it chosen,
      exactly when it consists of whole sectors. */
  lemma {:induction false} AcceptedIffAligned(info: seq<Bank>, lo: nat, hi: nat)
    requires Ascending(info) && lo <= hi <= TOP && Covers(info, lo, hi)
    ensures Fill(info, lo, hi).Done? && Reach(info, lo, hi) > lo
      <==> StartsASector(info, lo) && EndsASector(info, hi)
  {
    hide Fill, Reach, Covers;
    if StartsASector(info, lo) && EndsASector(info, hi) {
      AlignedIsAccepted(info, lo, hi);
    }
    if Fill(info, lo, hi).Done? && Reach(info, lo, hi) > lo {
      ReachesTheEnd(info, lo, hi);
      ReachIsAligned(info, lo, hi);
    }
  }

  // ----- the chosen sectors, one by one --------------------------------------------------------

  lemma {:induction false} ChosenByReach(info: seq<Bank>, lo: nat, hi: nat, k: int, i: int)
    requires Ascending(info) && hi <= TOP && Fill(info, lo, hi).Done?
    requires 0 <= k < |info| && info[k].known && 0 <= i < |info[k].start|
    ensures Chosen(Fill(info, lo, hi).picks, k, i)
      <==> lo <= info[k].start[i] && info[k].End(i) < Reach(info, lo, hi)
    decreases |info|, 1
  {
    hide Visit, Wrap, Fill, Chosen;
    AscendingRest(info);
    FillRest(info, lo, hi);
    var b, rest, next := info[0], info[1..], NextStart(info[0], lo, hi);
    ChosenRest(FirstPick(b, lo, hi), Fill(rest, next, hi).picks, k, i);
    if k > 0 {
      assert rest[k - 1] == info[k] && info[k] in rest;
      ChosenLater(info, lo, hi, k, i);
    } else if lo > hi || Visit(b, lo, hi).Skip? {
      if Reach(info, lo, hi) > lo {
        SkippedIsBelow(info, lo, hi);
        BelowEnd(b, i);
      }
    } else {
      ChosenInHead(info, lo, hi, i);
    }
  }

  lemma {:induction false} ChosenLater(info: seq<Bank>, lo: nat, hi: nat, k: int, i: int)
    requires Ascending(info) && hi <= TOP && Fill(info, lo, hi).Done?
    requires 0 < k < |info| && info[k].known && 0 <= i < |info[k].start|
    requires Ascending(info[1..]) && Fill(info[1..], NextStart(info[0], lo, hi), hi).Done?
    requires info[1..][k - 1] == info[k] && (info[0].known ==> info[0].BankEnd() < info[k].start[0])
    ensures Chosen(Fill(info[1..], NextStart(info[0], lo, hi), hi).picks, k - 1, i)
      <==> lo <= info[k].start[i] && info[k].End(i) < Reach(info, lo, hi)
    decreases |info|, 0
  {
    hide Visit, Fill, Chosen;
    var b, rest := info[0], info[1..];
    if lo <= hi && Visit(b, lo, hi).Take? {
      var next := b.End(Visit(b, lo, hi).last) + 1;
      GrowsFrom(b, lo, hi);
      BelowFirst(info[k], i);
      BelowFirst(info[k], info[k].Last());
      WrapSmall(next);
      ChosenByReach(rest, next, hi, k - 1, i);
    } else {
      FillRest(info, lo, hi);
      ChosenByReach(rest, lo, hi, k - 1, i);
    }
  }

  lemma {:induction false} BelowEnd(b: Bank, i: int)
    requires b.Tiled() && 0 <= i < |b.start|
    ensures b.start[i] <= b.End(i) <= b.BankEnd()
  {
  }

  lemma {:induction false} ChosenInHead(info: seq<Bank>, lo: nat, hi: nat, i: int)
    requires Ascending(info) && info != [] && info[0].known && 0 <= i < |info[0].start|
    requires lo <= hi && Visit(info[0], lo, hi).Take?
    ensures
      var s := Visit(info[0], lo, hi);
      s.first <= i <= s.last <==> lo <= info[0].start[i] && info[0].End(i) < Reach(info, lo, hi)
  {
    hide Visit;
    var b := info[0];
    TakeFacts(b, lo, hi);
    GrowsFrom(b, lo, hi);
    var s := Visit(b, lo, hi);
    if i < s.first {
      EndsAscend(b, i, s.first);
    } else if i <= s.last {
      BelowEnds(b, i, s.last);
    } else {
      EndsAscend(b, s.last, i);
      assert b.End(s.last) == hi;
    }
  }

  lemma {:induction false} BelowEnds(b: Bank, i: int, j: int)
    requires b.Tiled() && 0 <= i <= j < |b.start|
    ensures b.End(i) <= b.End(j)
  {
    if i < j {
      EndsAscend(b, i, j);
    }
  }

  /** Every address up to the reach is in a chosen sector. */
  lemma {:induction false} ReachedIsChosen(info: seq<Bank>, lo: nat, hi: nat, a: int) returns (k: int, i: int)
    requires Ascending(info) && hi <= TOP && Fill(info, lo, hi).Done? && lo <= a < Reach(info, lo, hi)
    ensures Chosen(Fill(info, lo, hi).picks, k, i)
    ensures 0 <= k < |info| && info[k].known && 0 <= i < |info[k].start|
    ensures info[k].start[i] <= a <= info[k].End(i)
    decreases |info|
  {
    hide Visit, Wrap, Fill, Chosen, Fits, Ascending;
    AscendingHead(info);
    FillRest(info, lo, hi);
    var b, rest, next := info[0], info[1..], NextStart(info[0], lo, hi);
    var picks := Fill(rest, next, hi).picks;
    var s := Visit(b, lo, hi);
    if s.Take? && a <= b.End(s.last) {
      k := 0;
      i := SectorInHead(b, lo, hi, a);
    } else {
      if s.Take? {
        TakeFacts(b, lo, hi);
        WrapSmall(b.End(s.last) + 1);
      }
      var j;
      j, i := ReachedIsChosen(rest, next, hi, a);
      k := j + 1;
    }
    ChosenRest(FirstPick(b, lo, hi), picks, k, i);
  }

  lemma {:induction false} SectorInHead(b: Bank, lo: nat, hi: nat, a: int) returns (i: int)
    requires b.known && b.Tiled() && lo <= hi && Visit(b, lo, hi).Take?
    requires lo <= a <= b.End(Visit(b, lo, hi).last)
    ensures 0 <= FirstPick(b, lo, hi).first <= i <= FirstPick(b, lo, hi).last
    ensures b.start[i] <= a <= b.End(i)
  {
    hide Visit;
    TakeFacts(b, lo, hi);
    i := SectorOf(b, Visit(b, lo, hi).first, Visit(b, lo, hi).last, a);
  }

  lemma {:induction false} AscendingHead(info: seq<Bank>)
    requires Ascending(info)
    ensures Geometry(info) && (info != [] ==> Ascending(info[1..]))
  {
    if info != [] {
      AscendingRest(info);
    }
  }

  lemma {:induction false} SectorOf(b: Bank, f: int, l: int, a: int) returns (i: int)
    requires b.Tiled() && 0 <= f <= l < |b.start| && b.start[f] <= a <= b.End(l)
    ensures f <= i <= l && b.start[i] <= a <= b.End(i)
    decreases l - f
  {
    if a >= b.start[l] {
      i := l;
    } else {
      i := SectorOf(b, f, l - 1, a);
    }
  }

  /** Exactly the sectors inside lo..hi are chosen, and they fill lo..hi. */
  ghost predicate IsTheRange(info: seq<Bank>, picks: seq<Pick>, lo: int, hi: int)
    requires Geometry(info) && Fits(info, picks)
  {
    && (forall k, i :: 0 <= k < |info| && info[k].known && 0 <= i < |info[k].start| ==>
         (Chosen(picks, k, i) <==> lo <= info[k].start[i] && info[k].End(i) <= hi))
    && (forall a :: lo <= a <= hi ==> InChosen(info, picks, a))
  }

  ghost predicate InChosen(info: seq<Bank>, picks: seq<Pick>, a: int)
    requires Geometry(info) && Fits(info, picks)
  {
    exists k, i :: Chosen(picks, k, i) && info[k].start[i] <= a <= info[k].End(i)
  }

  /** In ascending banks, an accepted request that chose something chose exactly its range if, and only
      if, all of the range is flash. */
  lemma {:induction false} ChosenIsTheRange(info: seq<Bank>, lo: nat, hi: nat)
    requires Ascending(info) && lo <= hi <= TOP
    requires Fill(info, lo, hi).Done? && Reach(info, lo, hi) > lo
    ensures Fits(info, Fill(info, lo, hi).picks)
    ensures IsTheRange(info, Fill(info, lo, hi).picks, lo, hi) <==> Covers(info, lo, hi)
  {
    hide Fill, Reach, InFlash, Fits, Chosen;
    FillFits(info, lo, hi);
    var picks := Fill(info, lo, hi).picks;
    if Covers(info, lo, hi) {
      ReachesTheEnd(info, lo, hi);
      forall k, i | 0 <= k < |info| && info[k].known && 0 <= i < |info[k].start|
        ensures Chosen(picks, k, i) <==> lo <= info[k].start[i] && info[k].End(i) <= hi
      {
        ChosenByReach(info, lo, hi, k, i);
      }
      forall a | lo <= a <= hi
        ensures InChosen(info, picks, a)
      {
        var k, i := ReachedIsChosen(info, lo, hi, a);
      }
    }
    if IsTheRange(info, picks, lo, hi) {
      forall a | lo <= a <= hi
        ensures InFlash(info, a)
      {
        ChosenIsFlash(info, picks, a);
      }
    }
  }

  lemma {:induction false} ChosenIsFlash(info: seq<Bank>, picks: seq<Pick>, a: int)
    requires Geometry(info) && Fits(info, picks) && InChosen(info, picks, a)
    ensures InFlash(info, a)
  {
    var k, i :| Chosen(picks, k, i) && info[k].start[i] <= a <= info[k].End(i);
    BelowFirst(info[k], i);
    assert info[k] in info && info[k].Holds(a);
  }

  // ----- their number --------------------------------------------------------------------------

  function ChosenSet(picks: seq<Pick>): set<(int, int)> {
    set k, i | 0 <= k < |picks| && picks[k].first <= i <= picks[k].last && Chosen(picks, k, i) :: (k, i)
  }

  /** s_count is the number of chosen sectors. */
  lemma {:induction false} CountIsNumber(info: seq<Bank>, picks: seq<Pick>)
    requires Fits(info, picks)
    ensures |ChosenSet(picks)| == Count(picks)
  {
    hide ChosenSet;
    ChosenSetParts(picks);
    if picks != [] {
      var n := |picks| - 1;
      CountIsNumber(info[..n], picks[..n]);
      var p := picks[n];
      if p.first >= 0 {
        RangeSize(n, p.first, p.last + 1);
      }
    }
  }

  function Row(n: int, lo: int, hi: int): set<(int, int)> {
    set i | lo <= i < hi :: (n, i)
  }

  lemma {:induction false} ChosenSetParts(picks: seq<Pick>)
    ensures picks == [] ==> ChosenSet(picks) == {}
    ensures picks != [] ==>
      var n, p := |picks| - 1, picks[|picks| - 1];
      var here := if p.first >= 0 then Row(n, p.first, p.last + 1) else {};
      ChosenSet(picks) == ChosenSet(picks[..n]) + here && ChosenSet(picks[..n]) !! here
  {
    if picks != [] {
      var n, p := |picks| - 1, picks[|picks| - 1];
      var here := if p.first >= 0 then Row(n, p.first, p.last + 1) else {};
      forall k, i
        ensures (k, i) in ChosenSet(picks) <==> (k, i) in ChosenSet(picks[..n]) || (k, i) in here
      {
      }
    }
  }

  lemma {:induction false} RangeSize(n: int, lo: int, hi: int)
    requires lo <= hi
    ensures |Row(n, lo, hi)| == hi - lo
    decreases hi - lo
  {
    if lo < hi {
      RangeSize(n, lo, hi - 1);
      assert Row(n, lo, hi) == Row(n, lo, hi - 1) + {(n, hi - 1)};
    } else {
      assert Row(n, lo, hi) == {};
    }
  }

  // ----- the functions themselves --------------------------------------------------------------

  /** The loop over the sectors of one bank. */
  method Scan(b: Bank, lo: nat, hi: nat) returns (first: int, last: int)
    requires b.Tiled() && lo <= hi
    ensures first == StartingAt(b, lo) && last == EndingAt(b, hi)
  {
    hide StartingAt, EndingAt, Bank.End, Wrap;
    first, last := -1, -1;
    var sEnd := |b.start| - 1;
    for sect := 0 to |b.start|
      invariant first == -1 || StartsHere(b, lo, first)
      invariant first == -1 ==> forall i :: 0 <= i < sect ==> b.start[i] != lo
      invariant last == -1 || EndsHere(b, hi, last)
      invariant last == -1 ==> forall i :: 0 <= i < sect ==> b.End(i) != hi
    {
      var end := if sect == sEnd then Wrap(b.start[0] + b.size - 1) else Wrap(b.start[sect + 1] - 1);
      SectorEnd(b, sect);
      if lo > end || hi < b.start[sect] {
        continue;
      }
      if lo == b.start[sect] {
        first := sect;
      }
      if hi == end {
        last := sect;
      }
    }
    SameStart(b, lo, first);
    SameEnd(b, hi, last);
  }

  /** The last address of a sector as the loop computes it. */
  lemma {:induction false} SectorEnd(b: Bank, sect: nat)
    requires b.Tiled() && sect < |b.start|
    ensures b.End(sect) ==
      if sect == |b.start| - 1 then Wrap(b.start[0] + b.size - 1) else Wrap(b.start[sect + 1] - 1)
  {
  }

  lemma {:induction false} SameStart(b: Bank, a: int, i: int)
    requires b.Tiled() && (i == -1 || StartsHere(b, a, i))
    requires i == -1 ==> forall j :: 0 <= j < |b.start| ==> b.start[j] != a
    ensures i == StartingAt(b, a)
  {
    if StartingAt(b, a) >= 0 {
      assert StartsHere(b, a, StartingAt(b, a));
    } else if i >= 0 {
      assert false;
    }
  }

  lemma {:induction false} SameEnd(b: Bank, a: int, i: int)
    requires b.Tiled() && (i == -1 || EndsHere(b, a, i))
    requires i == -1 ==> forall j :: 0 <= j < |b.start| ==> b.End(j) != a
    ensures i == EndingAt(b, a)
  {
    var e := EndingAt(b, a);
    if e >= 0 {
      assert EndsHere(b, a, e);
      if i >= 0 && i < e {
        EndsAscend(b, i, e);
      } else if i > e {
        EndsAscend(b, e, i);
      }
    } else if i >= 0 {
      assert false;
    }
  }

  /** The body of the loop over the banks, for a known bank: `next` is the new addr_first. */
  method VisitBank(b: Bank, lo: nat, hi: nat) returns (rcode: int, first: int, last: int, next: nat)
    requires b.known && b.Tiled() && lo <= hi
    ensures rcode == if Visit(b, lo, hi).Fail? then 1 else 0
    ensures rcode == 0 ==> Pick(first, last) == FirstPick(b, lo, hi) && next == NextStart(b, lo, hi)
  {
    hide StartingAt, EndingAt, Wrap, Bank.End;
    BankEndIs(b);
    rcode, next := 0, lo;
    var bEnd: nat := Wrap(b.start[0] + b.size - 1);
    var sEnd := |b.start| - 1;
    first, last := Scan(b, lo, hi);
    if first >= 0 {
      if last < 0 {
        if hi > bEnd {
          last := sEnd;
        } else {
          rcode := 1;
          return;
        }
      }
      if last < first {
        rcode := 1;
        return;
      }
      next := if last == sEnd then Wrap(bEnd + 1) else b.start[last + 1];
      NextAddress(b, last);
    } else if lo >= b.start[0] && lo < bEnd {
      rcode := 1;
    } else if last >= 0 {
      rcode := 1;
    }
  }

  lemma {:induction false} BankEndIs(b: Bank)
    requires b.Tiled()
    ensures Wrap(b.start[0] + b.size - 1) == b.BankEnd()
  {
  }

  /** Where the range goes on behind a sector. */
  lemma {:induction false} NextAddress(b: Bank, last: int)
    requires b.Tiled() && 0 <= last < |b.start|
    ensures Wrap(b.End(last) + 1) == if last == |b.start| - 1 then Wrap(b.BankEnd() + 1) else b.start[last + 1]
  {
  }

  function Picks(first: seq<int>, last: seq<int>): (p: seq<Pick>)
    requires |first| == |last|
    ensures |p| == |first|
  {
    seq(|first|, i requires 0 <= i < |first| => Pick(first[i], last[i]))
  }

  function Join(done: seq<Pick>, o: Outcome): Outcome {
    if o.Failed? then Failed else Done(done + o.picks)
  }

  method FlashFillSectRanges(info: seq<Bank>, addrFirst: nat, addrLast: nat,
                             sFirst: array<int>, sLast: array<int>) returns (rcode: int, sCount: int)
    requires Geometry(info) && addrFirst <= TOP && addrLast <= TOP
    requires sFirst.Length == sLast.Length == |info| && sFirst != sLast
    modifies sFirst, sLast
    ensures rcode == if Fill(info, addrFirst, addrLast).Failed? then 1 else 0
    ensures rcode == 0 ==> Fill(info, addrFirst, addrLast) == Done(Picks(sFirst[..], sLast[..]))
    ensures rcode == 0 ==> sCount == Count(Picks(sFirst[..], sLast[..]))
  {
    hide Visit, Wrap, Count, Picks, Fill, Geometry, FilledTo;
    sCount, rcode := 0, 0;
    for i := 0 to |info|
      invariant forall j :: 0 <= j < i ==> sFirst[j] == sLast[j] == -1
    {
      sFirst[i], sLast[i] := -1, -1;
    }
    var lo: nat, bank: nat := addrFirst, 0;
    FilledStarts(info, addrFirst, addrLast, sFirst[..], sLast[..]);
    while bank < |info| && lo <= addrLast
      invariant bank <= |info| && FilledTo(info, addrFirst, addrLast, sFirst[..], sLast[..], bank, lo, sCount)
    {
      var b, first, last, next: nat := info[bank], -1, -1, lo;
      KnownIsTiled(info, bank);
      if b.known {
        rcode, first, last, next := VisitBank(b, lo, addrLast);
      } else {
        UnknownIsSkipped(b, lo, addrLast);
      }
      if rcode != 0 {
        FilledFails(info, addrFirst, addrLast, sFirst[..], sLast[..], bank, lo, sCount);
        break;
      }
      FilledMore(info, addrFirst, addrLast, sFirst[..], sLast[..], bank, lo, sCount);
      sFirst[bank], sLast[bank] := first, last;
      if first >= 0 {
        sCount := sCount + (last - first + 1);
      }
      lo, bank := next, bank + 1;
    }
    if rcode == 0 {
      FilledEnds(info, addrFirst, addrLast, sFirst[..], sLast[..], bank, lo, sCount);
    }
  }

  /** The walk has got to `bank` and `lo` and has put its choices into the arrays. */
  ghost predicate FilledTo(info: seq<Bank>, from: nat, hi: nat, first: seq<int>, last: seq<int>,
                           bank: nat, lo: nat, count: int)
  {
    && Geometry(info) && |first| == |last| == |info| && bank <= |info| && Geometry(info[bank..])
    && (forall j :: bank <= j < |info| ==> first[j] == last[j] == -1)
    && Fill(info, from, hi) == Join(Picks(first[..bank], last[..bank]), Fill(info[bank..], lo, hi))
    && count == Count(Picks(first[..bank], last[..bank]))
  }

  lemma {:induction false} FilledStarts(info: seq<Bank>, lo: nat, hi: nat, first: seq<int>, last: seq<int>)
    requires Geometry(info) && |first| == |last| == |info|
    requires forall j :: 0 <= j < |info| ==> first[j] == last[j] == -1
    ensures FilledTo(info, lo, hi, first, last, 0, lo, 0)
  {
    hide Fill, Count, Picks, Join, Geometry;
    assert info[0..] == info;
    NothingDone(first[..0], last[..0], Fill(info, lo, hi));
  }

  lemma {:induction false} KnownIsTiled(info: seq<Bank>, k: nat)
    requires Geometry(info) && k < |info|
    ensures info[k].known ==> info[k].Tiled()
  {
    GeometryAt(info, k);
  }

  lemma {:induction false} FilledFails(info: seq<Bank>, from: nat, hi: nat, first: seq<int>, last: seq<int>,
                                       bank: nat, lo: nat, count: int)
    requires FilledTo(info, from, hi, first, last, bank, lo, count) && bank < |info| && lo <= hi
    requires info[bank].known ==> info[bank].Tiled()
    requires Visit(info[bank], lo, hi).Fail?
    ensures Fill(info, from, hi).Failed?
  {
    hide Fill, Count, Picks, Visit, Geometry;
    assert info[bank..][0] == info[bank];
    FillFails(info[bank..], Picks(first[..bank], last[..bank]), lo, hi);
  }

  lemma {:induction false} FilledMore(info: seq<Bank>, from: nat, hi: nat, first: seq<int>, last: seq<int>,
                                      bank: nat, lo: nat, count: int)
    requires FilledTo(info, from, hi, first, last, bank, lo, count) && bank < |info| && lo <= hi
    requires info[bank].known ==> info[bank].Tiled()
    requires !Visit(info[bank], lo, hi).Fail?
    ensures var p := FirstPick(info[bank], lo, hi);
      FilledTo(info, from, hi, first[bank := p.first], last[bank := p.last], bank + 1, NextStart(info[bank], lo, hi),
               count + if p.first >= 0 then p.last - p.first + 1 else 0)
  {
    hide Fill, Count, Picks, Visit, Geometry, Join, FirstPick, NextStart;
    var b, p, done := info[bank], FirstPick(info[bank], lo, hi), Picks(first[..bank], last[..bank]);
    assert info[bank..][0] == b && info[bank..][1..] == info[bank + 1..];
    FillOn(info[bank..], done, lo, hi);
    PicksMore(first[..bank], last[..bank], p.first, p.last);
    assert first[bank := p.first][..bank + 1] == first[..bank] + [p.first];
    assert last[bank := p.last][..bank + 1] == last[..bank] + [p.last];
    CountMore(done, p);
    GeometryAt(info, bank + 1);
  }

  lemma {:induction false} FilledEnds(info: seq<Bank>, from: nat, hi: nat, first: seq<int>, last: seq<int>,
                                      bank: nat, lo: nat, count: int)
    requires FilledTo(info, from, hi, first, last, bank, lo, count) && (bank == |info| || lo > hi)
    ensures |first| == |last| && Fill(info, from, hi) == Done(Picks(first, last)) && count == Count(Picks(first, last))
  {
    hide Fill, Count, Picks, Geometry, Join;
    FillStops(info[bank..], Picks(first[..bank], last[..bank]), lo, hi);
    PicksEnd(first, last, bank);
    CountZeros(Picks(first[..bank], last[..bank]), |info| - bank);
  }

  lemma {:induction false} GeometryAt(info: seq<Bank>, n: nat)
    requires Geometry(info) && n <= |info|
    ensures Geometry(info[n..]) && (n < |info| && info[n].known ==> info[n].Tiled())
  {
  }

  lemma {:induction false} NothingDone(first: seq<int>, last: seq<int>, o: Outcome)
    requires first == last == []
    ensures Count(Picks(first, last)) == 0 && Join(Picks(first, last), o) == o
  {
  }

  lemma {:induction false} FillFails(info: seq<Bank>, done: seq<Pick>, lo: nat, hi: nat)
    requires Geometry(info) && info != [] && lo <= hi && Visit(info[0], lo, hi).Fail?
    ensures Join(done, Fill(info, lo, hi)) == Failed
  {
  }

  lemma {:induction false} FillOn(info: seq<Bank>, done: seq<Pick>, lo: nat, hi: nat)
    requires Geometry(info) && info != [] && lo <= hi && !Visit(info[0], lo, hi).Fail?
    ensures Join(done, Fill(info, lo, hi))
      == Join(done + [FirstPick(info[0], lo, hi)], Fill(info[1..], NextStart(info[0], lo, hi), hi))
  {
    hide Visit, Wrap;
    var p, rest := FirstPick(info[0], lo, hi), Fill(info[1..], NextStart(info[0], lo, hi), hi);
    assert Fill(info, lo, hi) == Before(p, rest);
    if rest.Done? {
      assert done + ([p] + rest.picks) == done + [p] + rest.picks;
    }
  }

  lemma {:induction false} FillStops(info: seq<Bank>, done: seq<Pick>, lo: nat, hi: nat)
    requires Geometry(info) && (info == [] || lo > hi)
    ensures Join(done, Fill(info, lo, hi)) == Done(done + seq(|info|, _ => NONE))
  {
    hide Fill;
    NothingMore(info, lo, hi);
  }

  lemma {:induction false} NothingMore(info: seq<Bank>, lo: nat, hi: nat)
    requires Geometry(info) && (info == [] || lo > hi)
    ensures Fill(info, lo, hi) == Done(seq(|info|, _ => NONE))
  {
    if info != [] {
      NothingMore(info[1..], lo, hi);
      assert seq(|info|, _ => NONE) == [NONE] + seq(|info| - 1, _ => NONE);
    }
  }

  lemma {:induction false} PicksMore(first: seq<int>, last: seq<int>, f: int, l: int)
    requires |first| == |last|
    ensures Picks(first + [f], last + [l]) == Picks(first, last) + [Pick(f, l)]
  {
  }

  lemma {:induction false} PicksEnd(first: seq<int>, last: seq<int>, n: nat)
    requires |first| == |last| && n <= |first|
    requires forall j :: n <= j < |first| ==> first[j] == last[j] == -1
    ensures Picks(first, last) == Picks(first[..n], last[..n]) + seq(|first| - n, _ => NONE)
  {
  }

  lemma {:induction false} CountMore(done: seq<Pick>, p: Pick)
    ensures Count(done + [p]) == Count(done) + if p.first >= 0 then p.last - p.first + 1 else 0
  {
    assert (done + [p])[..|done|] == done;
  }

  lemma {:induction false} CountZeros(done: seq<Pick>, n: nat)
    ensures Count(done + seq(n, _ => NONE)) == Count(done)
  {
    if n == 0 {
      assert done + seq(0, _ => NONE) == done;
    } else {
      CountZeros(done, n - 1);
      CountMore(done + seq(n - 1, _ => NONE), NONE);
      assert done + seq(n, _ => NONE) == done + seq(n - 1, _ => NONE) + [NONE];
    }
  }

  /** s_count is positive exactly when the walk got anywhere. */
  lemma {:induction false} PlannedIffReached(info: seq<Bank>, lo: nat, hi: nat)
    requires Ascending(info) && hi <= TOP && Fill(info, lo, hi).Done?
    ensures Count(Fill(info, lo, hi).picks) > 0 <==> Reach(info, lo, hi) > lo
  {
    hide Fill, Reach, Count, Ascending;
    AscendingHead(info);
    FillFits(info, lo, hi);
    var picks := Fill(info, lo, hi).picks;
    CountIsNumber(info, picks);
    if Reach(info, lo, hi) > lo {
      var k, i := ReachedIsChosen(info, lo, hi, lo);
      assert (k, i) in ChosenSet(picks);
    } else if Count(picks) > 0 {
      var s :| s in ChosenSet(picks);
      ChosenByReach(info, lo, hi, s.0, s.1);
      assert false;
    }
  }

  /** In ascending banks, a request all of which is flash is carried out exactly if it is a range of
      whole sectors, and then on these sectors and no others. */
  lemma {:induction false} RangeIsCarriedOut(info: seq<Bank>, lo: nat, hi: nat)
    requires Ascending(info) && lo <= hi <= TOP && Covers(info, lo, hi)
    ensures
      var o := Fill(info, lo, hi);
      && (o.Done? && Count(o.picks) > 0 <==> StartsASector(info, lo) && EndsASector(info, hi))
      && (o.Done? && Count(o.picks) > 0 ==> Fits(info, o.picks) && IsTheRange(info, o.picks, lo, hi))
  {
    hide Fill, Reach, Covers, IsTheRange, StartsASector, EndsASector, Count, Fits;
    AcceptedIffAligned(info, lo, hi);
    if Fill(info, lo, hi).Done? {
      PlannedIffReached(info, lo, hi);
      if Reach(info, lo, hi) > lo {
        ChosenIsTheRange(info, lo, hi);
      }
    }
  }

  // ----- rounding up the end of `start +length` ------------------------------------------------

  predicate EverySectorTiled(info: seq<Bank>) {
    forall b :: b in info && b.start != [] ==> b.Tiled()
  }

  predicate SectorAround(b: Bank, i: int, a: int)
    requires b.Tiled()
  {
    0 <= i < |b.start| && b.start[i] <= a <= b.End(i)
  }

  /** `e` is the last address of a sector with `a` in it. */
  predicate RoundsTo(info: seq<Bank>, a: int, e: int)
    requires EverySectorTiled(info)
  {
    exists b, i :: b in info && 0 <= i < |b.start| && SectorAround(b, i, a) && b.End(i) == e
  }

  method FlashSectRoundb(info: seq<Bank>, addr: nat) returns (rc: int, rounded: nat)
    requires EverySectorTiled(info) && addr <= TOP
    ensures rc == 0 || rc == 1
    ensures rc == 0 ==> RoundsTo(info, addr, rounded)
    ensures rc == 0 ==> exists b, i :: b in info && 0 <= i < |b.start| && b.start[i] <= addr <= b.End(i) == rounded
    ensures rc == 1 ==> rounded == addr && forall e :: !RoundsTo(info, addr, e)
    ensures rc == 1 ==> forall b, i :: b in info && 0 <= i < |b.start| ==> !(b.start[i] <= addr <= b.End(i))
  {
    var found := false;
    rounded := addr;
    var bank := 0;
    while bank < |info| && !found
      invariant bank <= |info|
      invariant if found then RoundsTo(info, addr, rounded) else rounded == addr
      invariant !found ==> forall k, i :: 0 <= k < bank && 0 <= i < |info[k].start| ==> !SectorAround(info[k], i, addr)
    {
      var b := info[bank];
      var i := 0;
      while i < |b.start| && !found
        invariant i <= |b.start|
        invariant if found then RoundsTo(info, addr, rounded) else rounded == addr
        invariant !found ==> forall j :: 0 <= j < i ==> !SectorAround(b, j, addr)
      {
        var sectorEnd := if i == |b.start| - 1 then Wrap(b.start[0] + b.size - 1) else Wrap(b.start[i + 1] - 1);
        assert sectorEnd == b.End(i);
        if addr <= sectorEnd && addr >= b.start[i] {
          found := true;
          assert SectorAround(b, i, addr);
          if addr < sectorEnd {
            rounded := sectorEnd;
          }
        }
        i := i + 1;
      }
      bank := bank + 1;
    }
    if !found {
      forall b, i | b in info && 0 <= i < |b.start|
        ensures !(b.start[i] <= addr <= b.End(i))
      {
        var k :| 0 <= k < |info| && info[k] == b;
        assert !SectorAround(info[k], i, addr);
      }
    }
    rc := if found then 0 else 1;
  }

  /** `start +length` over flash: the rounded range, which ends with the sector that holds the last
      requested byte, is carried out exactly if it starts with a sector. */
  lemma {:induction false} LengthFormIsCarriedOut(info: seq<Bank>, lo: nat, length: nat, e: nat)
    requires Ascending(info) && EverySectorTiled(info) && (forall b :: b in info && b.start != [] ==> b.known)
    requires 0 < length && lo + length - 1 <= TOP && Covers(info, lo, lo + length - 1)
    requires RoundsTo(info, lo + length - 1, e)
    ensures lo + length - 1 <= e <= TOP
    ensures
      var o := Fill(info, lo, e);
      && (o.Done? && Count(o.picks) > 0 <==> StartsASector(info, lo))
      && (StartsASector(info, lo) ==> Fits(info, o.picks) && IsTheRange(info, o.picks, lo, e))
  {
    hide Fill, IsTheRange, StartsASector, Count, Ascending, Fits;
    AscendingHead(info);
    var last := lo + length - 1;
    var b, i :| b in info && 0 <= i < |b.start| && SectorAround(b, i, last) && b.End(i) == e;
    assert EndsHere(b, e, i);
    BelowFirst(b, i);
    forall a | lo <= a <= e
      ensures InFlash(info, a)
    {
      if a > last {
        assert b.Holds(a);
      }
    }
    RangeIsCarriedOut(info, lo, e);
  }

  // ----- erasing -------------------------------------------------------------------------------

  /** The flash chips: the sectors erased so far, as (bank, sector), and the banks that refuse to be erased. */
  class Flash {
    const info: seq<Bank>
    const broken: set<int>
    var erased: set<(int, int)>

    constructor (info: seq<Bank>, broken: set<int>)
      ensures this.info == info && this.broken == broken && erased == {}
    {
      this.info, this.broken, erased := info, broken, {};
    }

    method FlashErase(bank: int, first: int, last: int) returns (rcode: int)
      modifies this
      ensures rcode == if bank in broken then 1 else 0
      ensures erased == old(erased) + if bank in broken then {} else Row(bank, first, last + 1)
    {
      if bank in broken {
        return 1;
      }
      erased := erased + Row(bank, first, last + 1);
      return 0;
    }

    /** Bank by bank up to the first one that refuses: exactly the chosen sectors in front of it are
        erased. */
    method FlashSectErase(addrFirst: nat, addrLast: nat) returns (rcode: int)
      requires Geometry(info) && addrFirst <= TOP && addrLast <= TOP
      modifies this
      ensures
        var o := Fill(info, addrFirst, addrLast);
        if o.Done? && Count(o.picks) > 0
        then
          var end := Refusing(o.picks, broken, 0);
          && erased == old(erased) + ChosenSet(o.picks[..end])
          && rcode == (if end < |o.picks| then 1 else 0)
          && (rcode == 0 ==> erased == old(erased) + ChosenSet(o.picks))
          && (broken == {} ==> rcode == 0)
        else rcode == 1 && erased == old(erased)
    {
      hide Fill, ChosenSet, Count, Geometry, Row, Refusing;
      var sFirst, sLast := new int[|info|], new int[|info|];
      var planned;
      rcode, planned := FlashFillSectRanges(info, addrFirst, addrLast, sFirst, sLast);
      ghost var picks := Picks(sFirst[..], sLast[..]);
      if rcode == 0 {
        FillFits(info, addrFirst, addrLast);
        CountIsNumber(info, picks);
      }
      if planned != 0 && rcode == 0 {
        NoneRefuses(picks, broken, 0);
        rcode := EraseBanks(sFirst, sLast, picks);
        assert picks[..|picks|] == picks;
      } else if rcode == 0 {
        rcode := 1;
      }
    }

    /** The loop over the banks. */
    method EraseBanks(sFirst: array<int>, sLast: array<int>, ghost picks: seq<Pick>) returns (rcode: int)
      requires sFirst.Length == sLast.Length == |info| && picks == Picks(sFirst[..], sLast[..])
      modifies this
      ensures
        var end := Refusing(picks, broken, 0);
        erased == old(erased) + ChosenSet(picks[..end]) && rcode == (if end < |picks| then 1 else 0)
    {
      hide ChosenSet, Row, Refusing;
      rcode := 0;
      var bank: nat := 0;
      ghost var end := Refusing(picks, broken, 0);
      NoneChosen(picks);
      while bank < |info| && rcode == 0
        invariant bank <= |info|
        invariant rcode == 0 ==> Refusing(picks, broken, bank) == end && erased == old(erased) + ChosenSet(picks[..bank])
        invariant rcode != 0 ==> rcode == 1 && end < |picks| && erased == old(erased) + ChosenSet(picks[..end])
      {
        OneMoreBank(picks, broken, bank, old(erased));
        if sFirst[bank] >= 0 {
          rcode := FlashErase(bank, sFirst[bank], sLast[bank]);
        }
        bank := bank + 1;
      }
      if rcode == 0 {
        RefusingEnd(picks, broken);
      }
    }
  }

  /** The first bank from `k` on of which sectors are chosen and that refuses to be erased. */
  function Refusing(picks: seq<Pick>, broken: set<int>, k: nat): (end: nat)
    requires k <= |picks|
    ensures k <= end <= |picks|
    decreases |picks| - k
  {
    if k == |picks| || (picks[k].first >= 0 && k in broken) then k else Refusing(picks, broken, k + 1)
  }

  lemma {:induction false} RefusingEnd(picks: seq<Pick>, broken: set<int>)
    ensures Refusing(picks, broken, |picks|) == |picks|
  {
  }

  lemma {:induction false} NoneRefuses(picks: seq<Pick>, broken: set<int>, k: nat)
    requires k <= |picks|
    ensures broken == {} ==> Refusing(picks, broken, k) == |picks|
    decreases |picks| - k
  {
    if k < |picks| {
      NoneRefuses(picks, broken, k + 1);
    }
  }

  lemma {:induction false} NoneChosen(picks: seq<Pick>)
    ensures forall s: set<(int, int)> :: s + ChosenSet(picks[..0]) == s
  {
    ChosenSetParts(picks[..0]);
  }

  /** Bank `k` is refused, or adds its sectors to what has been erased. */
  lemma {:induction false} OneMoreBank(picks: seq<Pick>, broken: set<int>, k: nat, erased: set<(int, int)>)
    requires k < |picks|
    ensures var p := picks[k];
      var here := if p.first >= 0 then Row(k, p.first, p.last + 1) else {};
      if p.first >= 0 && k in broken then Refusing(picks, broken, k) == k
      else
        && Refusing(picks, broken, k) == Refusing(picks, broken, k + 1)
        && erased + ChosenSet(picks[..k + 1]) == erased + ChosenSet(picks[..k]) + here
  {
    hide ChosenSet, Row;
    assert picks[..k + 1][..k] == picks[..k];
    ChosenSetParts(picks[..k + 1]);
  }
}
