/** The environment kept in two NOR flash sectors (common/env_flash.c, redundant configuration).

    Each sector holds one copy: a CRC-32, one flag byte, the environment data and the rest of the
    sector.  `saveenv` changes them by at most six flash operations; the supply may fail between any
    two of them.  `crc32` is a parameter: all that is used of it is that an erased sector does not
    match its own CRC. */
module RedundantEnv {
  import opened Common

  type Bytes = seq<bv8>
  type Crc32 = Bytes -> bv32

  const ACTIVE_FLAG: bv8 := 1
  const OBSOLETE_FLAG: bv8 := 0
  const ERASED: bv8 := 0xFF
  const ERASED_CRC: bv32 := 0xFFFF_FFFF

  /** The two sectors: `Primary` is CONFIG_ENV_ADDR, `Redundant` is CONFIG_ENV_ADDR_REDUND. */
  datatype Where = Primary | Redundant {
    function Other(): Where {
      if Primary? then Redundant else Primary
    }
  }

  datatype Sector = Sector(crc: bv32, flags: bv8, data: Bytes, rest: Bytes) {
    predicate Ok(crc32: Crc32) {
      crc32(data) == crc
    }
  }

  datatype Flash = Flash(primary: Sector, redundant: Sector) {
    function At(w: Where): Sector {
      if w.Primary? then primary else redundant
    }

    function Put(w: Where, s: Sector): Flash {
      if w.Primary? then this.(primary := s) else this.(redundant := s)
    }

    /** Both sectors have the configured sizes. */
    ghost predicate Shaped(size: nat, spare: nat) {
      && |primary.data| == |redundant.data| == size
      && |primary.rest| == |redundant.rest| == spare
    }
  }

  /** The environment as it is kept in RAM (env_ptr). */
  datatype Image = Image(crc: bv32, data: Bytes)

  // ----- flash operations --------------------------------------------------------------------

  datatype Op =
    | Erase(at: Where)
    | WriteData(at: Where, data: Bytes)
    | WriteCrc(at: Where, crc: bv32)
    | WriteFlag(at: Where, flag: bv8)
    | WriteRest(at: Where, data: Bytes)

  /** NOR programming can only clear bits. */
  function Program(was: Bytes, wanted: Bytes): (r: Bytes)
    ensures |r| == |was|
  {
    seq(|was|, i requires 0 <= i < |was| => if i < |wanted| then was[i] & wanted[i] else was[i])
  }

  function Blank(n: nat): (r: Bytes)
    ensures |r| == n
  {
    seq(n, _ => ERASED)
  }

  function Do(s: Sector, op: Op): Sector {
    match op
    case Erase(_) => Sector(ERASED_CRC, ERASED, Blank(|s.data|), Blank(|s.rest|))
    case WriteData(_, d) => s.(data := Program(s.data, d))
    case WriteCrc(_, c) => s.(crc := s.crc & c)
    case WriteFlag(_, v) => s.(flags := s.flags & v)
    case WriteRest(_, d) => s.(rest := Program(s.rest, d))
  }

  function Apply(f: Flash, op: Op): Flash {
    f.Put(op.at, Do(f.At(op.at), op))
  }

  function ApplyAll(f: Flash, ops: seq<Op>): Flash {
    if ops == [] then f else Apply(ApplyAll(f, ops[..|ops| - 1]), ops[|ops| - 1])
  }

  /** The flash after the first `k` operations of a plan. */
  function After(f: Flash, plan: seq<Op>, k: nat): Flash {
    ApplyAll(f, plan[..if k < |plan| then k else |plan|])
  }

  /** The `i`-th operation of a save; the last one only when there is a rest of the sector. */
  function SaveOp(f: Flash, cur: Where, img: Image, i: int): Op {
    var spare := cur.Other();
    if i == 0 then Erase(spare)
    else if i == 1 then WriteData(spare, img.data)
    else if i == 2 then WriteCrc(spare, img.crc)
    else if i == 3 then WriteFlag(cur, OBSOLETE_FLAG)
    else if i == 4 then WriteFlag(spare, ACTIVE_FLAG)
    else WriteRest(spare, f.At(spare).rest)
  }

  /** The operations `saveenv` issues when `cur` is the sector in use (flash_addr). */
  function SavePlan(f: Flash, cur: Where, img: Image): seq<Op> {
    seq(if |f.At(cur.Other()).rest| > 0 then 6 else 5, i => SaveOp(f, cur, img, i))
  }

  lemma {:induction false} PlanOps(f: Flash, cur: Where, img: Image)
    ensures var plan, spare := SavePlan(f, cur, img), cur.Other();
      && |plan| == (if |f.At(spare).rest| > 0 then 6 else 5)
      && plan[0] == Erase(spare) && plan[1] == WriteData(spare, img.data) && plan[2] == WriteCrc(spare, img.crc)
      && plan[3] == WriteFlag(cur, OBSOLETE_FLAG) && plan[4] == WriteFlag(spare, ACTIVE_FLAG)
      && (|plan| == 6 ==> plan[5] == WriteRest(spare, f.At(spare).rest))
  {
  }

  predicate RetireDue(f: Flash, cur: Where, crc32: Crc32) {
    f.At(cur.Other()).flags != OBSOLETE_FLAG && f.At(cur.Other()).Ok(crc32)
  }

  predicate ActivateDue(f: Flash, cur: Where) {
    f.At(cur).flags != ACTIVE_FLAG && f.At(cur).flags & ACTIVE_FLAG == ACTIVE_FLAG
  }

  /** The repairs `env_relocate_spec` issues once `cur` has been selected. */
  function RepairPlan(f: Flash, cur: Where, crc32: Crc32): seq<Op> {
    (if RetireDue(f, cur, crc32) then [WriteFlag(cur.Other(), OBSOLETE_FLAG)] else [])
    + (if ActivateDue(f, cur) then [WriteFlag(cur, ACTIVE_FLAG)] else [])
  }

  // ----- which copy env_init uses ------------------------------------------------------------

  /** `Unchanged`: no branch of env_init applies and gd->env_addr keeps its value. */
  datatype Source = Copy(at: Where) | Default | Unchanged

  datatype Choice = Choice(source: Source, valid: int)

  /** The branches of env_init; `a` is flash_addr, which is `Primary` when a boot starts. */
  function Choose(f: Flash, a: Where, crc32: Crc32, before: int): Choice {
    var s1, s2 := f.At(a), f.At(a.Other());
    if s1.Ok(crc32) && !s2.Ok(crc32) then Choice(Copy(a), 1)
    else if !s1.Ok(crc32) && s2.Ok(crc32) then Choice(Copy(a.Other()), 1)
    else if !s1.Ok(crc32) && !s2.Ok(crc32) then Choice(Default, 0)
    else if s1.flags == ACTIVE_FLAG && s2.flags == OBSOLETE_FLAG then Choice(Copy(a), 1)
    else if s1.flags == OBSOLETE_FLAG && s2.flags == ACTIVE_FLAG then Choice(Copy(a.Other()), 1)
    else if s1.flags == s2.flags then Choice(Copy(a), 2)
    else if s1.flags == ERASED then Choice(Copy(a), 2)
    else if s2.flags == ERASED then Choice(Copy(a.Other()), 2)
    else Choice(Unchanged, before)
  }

  /** The same with the numbers: which copy is taken, and 1 for a clear choice or 2 for a doubtful one. */
  lemma {:induction false} ChooseSpelledOut(f: Flash, crc32: Crc32, before: int)
    ensures
      var c, x, y := Choose(f, Primary, crc32, before), f.primary.flags, f.redundant.flags;
      var ok1, ok2 := crc32(f.primary.data) == f.primary.crc, crc32(f.redundant.data) == f.redundant.crc;
      && (!ok1 && !ok2 ==> c == Choice(Default, 0))
      && (ok1 && !ok2 ==> c == Choice(Copy(Primary), 1))
      && (!ok1 && ok2 ==> c == Choice(Copy(Redundant), 1))
      && (ok1 && ok2 ==>
            && (x == 1 && y == 0 ==> c == Choice(Copy(Primary), 1))
            && (x == 0 && y == 1 ==> c == Choice(Copy(Redundant), 1))
            && (x == y || (x == 0xFF && y != 0xFF) ==> c == Choice(Copy(Primary), 2))
            && (x != 0xFF && y == 0xFF ==> c == Choice(Copy(Redundant), 2)))
  {
  }

  /** The environment data a boot uses; `None` stands for the built-in default. */
  function Selected(f: Flash, crc32: Crc32): Option<Bytes> {
    match Choose(f, Primary, crc32, 0).source
    case Copy(w) => Some(f.At(w).data)
    case _ => None
  }

  function DefaultImage(builtin: Bytes, size: nat, crc32: Crc32): Image
    requires |builtin| <= size
  {
    var data := builtin + seq(size - |builtin|, _ => 0);
    Image(crc32(data), data)
  }

  // ----- the code, over a flash whose supply may fail ----------------------------------------

  /** How a call ends: it returns a code, or the supply fails inside it. */
  datatype Outcome = Returned(rc: int) | PowerCut

  /** Which of the next operations the device reports an error on; those beyond the end succeed. */
  type Faults = seq<bool>

  predicate Fault(faults: Faults, i: nat) {
    i < |faults| && faults[i]
  }

  function Drop(faults: Faults, i: nat): Faults {
    if i <= |faults| then faults[i..] else []
  }

  function FirstFault(faults: Faults): (j: nat)
    ensures j < |faults| ==> faults[j]
    ensures forall i | 0 <= i < j :: !Fault(faults, i)
  {
    if faults == [] || faults[0] then 0
    else
      var j := FirstFault(faults[1..]);
      assert forall i | 0 < i < 1 + j :: Fault(faults, i) == Fault(faults[1..], i - 1);
      1 + j
  }

  /** How `m` operations in a row end: `done` of them are performed, then the supply fails, or the
      device reports an error on the next one, or there is none left. */
  datatype Ending = Cut(done: nat) | Failed(done: nat) | Complete(done: nat)

  function Ends(m: nat, budget: nat, faults: Faults): Ending {
    var j := FirstFault(faults);
    if j < m && j < budget && Fault(faults, j) then Failed(j)
    else if budget < m then Cut(budget)
    else Complete(m)
  }

  lemma {:induction false} EndsIs(m: nat, budget: nat, faults: Faults, i: nat)
    requires i <= m && i <= budget && forall j | 0 <= j < i :: !Fault(faults, j)
    ensures Ends(m, budget, faults) ==
      if i == m then Complete(m)
      else if i == budget then Cut(i)
      else if Fault(faults, i) then Failed(i)
      else Ends(m, budget, faults)
  {
  }

  lemma {:induction false} EndsWithin(m: nat, budget: nat, faults: Faults)
    ensures var e := Ends(m, budget, faults);
      e.done <= m && e.done <= budget && (e.Complete? <==> e.done == m)
    ensures faults == [] ==> Ends(m, budget, faults) == if budget < m then Cut(budget) else Complete(m)
  {
  }

  /** Operations in a row whose errors are ignored: one that fails is skipped. */
  function Attempt(f: Flash, ops: seq<Op>, k: nat, faults: Faults): Flash
    decreases |ops|
  {
    if ops == [] || k == 0 then f
    else Attempt(if Fault(faults, 0) then f else Apply(f, ops[0]), ops[1..], k - 1, Drop(faults, 1))
  }

  class EnvFlash {
    const crc32: Crc32
    var flash: Flash
    var flashAddr: Where
    var flashAddrNew: Where
    var envSource: Source     // gd->env_addr
    var envValid: int         // gd->env_valid
    var envPtr: Image         // the copy in RAM
    var budget: nat           // flash operations the supply still lasts for
    var faults: Faults        // which of them fail
    const errorCode: int      // what flash_write returns for those

    ghost predicate Valid()
      reads this
    {
      flashAddrNew == flashAddr.Other() && errorCode != 0
    }

    constructor (crc: Crc32, f: Flash, b: nat, e: Faults, code: int)
      requires code != 0
      ensures Valid() && crc32 == crc && flash == f && flashAddr == Primary && errorCode == code
      ensures budget == b && faults == e && envSource == Unchanged && envValid == 0
    {
      crc32, flash, flashAddr, flashAddrNew, errorCode := crc, f, Primary, Redundant, code;
      envSource, envValid, envPtr, budget, faults := Unchanged, 0, Image(0, []), b, e;
    }

    /** One flash operation. */
    method Issue(op: Op) returns (r: Outcome)
      requires errorCode != 0
      modifies this`flash, this`budget, this`faults
      ensures r == if old(budget) == 0 then PowerCut
                   else if Fault(old(faults), 0) then Returned(errorCode) else Returned(0)
      ensures flash == if r == Returned(0) then Apply(old(flash), op) else old(flash)
      ensures r != PowerCut ==> budget == old(budget) - 1 && faults == Drop(old(faults), 1)
    {
      if budget == 0 {
        return PowerCut;
      }
      var failed := Fault(faults, 0);
      budget, faults := budget - 1, Drop(faults, 1);
      if failed {
        return Returned(errorCode);
      }
      flash := Apply(flash, op);
      return Returned(0);
    }

    /** Operation number `i` of a plan that started at `f0` and has not failed before. */
    method IssueNext(op: Op, ghost f0: Flash, ghost plan: seq<Op>, ghost i: nat, ghost b: nat, ghost e: Faults)
      returns (r: Outcome)
      requires errorCode != 0 && i < |plan| && plan[i] == op && Performed(f0, plan, i, b, e)
      modifies this`flash, this`budget, this`faults
      ensures r == Returned(0) ==> Performed(f0, plan, i + 1, b, e)
      ensures r != Returned(0) ==>
        && flash == old(flash) == After(f0, plan, i)
        && Ends(|plan|, b, e) == (if r == PowerCut then Cut(i) else Failed(i))
        && (r == PowerCut || r == Returned(errorCode))
    {
      PlanStep(f0, plan, i);
      EndsIs(|plan|, b, e, i);
      hide After, Ends, Apply;
      r := Issue(op);
    }

    lemma {:induction false} NothingPerformed(plan: seq<Op>)
      requires plan != []
      ensures Performed(flash, plan, 0, budget, faults)
    {
      PlanStep(flash, plan, 0);
    }

    lemma {:induction false} AllPerformed(f0: Flash, plan: seq<Op>, b: nat, e: Faults)
      requires Performed(f0, plan, |plan|, b, e)
      ensures flash == After(f0, plan, |plan|) && Ends(|plan|, b, e) == Complete(|plan|)
    {
      EndsIs(|plan|, b, e, |plan|);
    }

    ghost predicate Performed(f0: Flash, plan: seq<Op>, i: nat, b: nat, e: Faults)
      reads this
    {
      && i <= b && budget == b - i && faults == Drop(e, i) && (forall j | 0 <= j < i :: !Fault(e, j))
      && flash == After(f0, plan, i)
    }

    /** env_init */
    method EnvInit()
      requires Valid()
      modifies this`envSource, this`envValid
      ensures var c := Choose(flash, flashAddr, crc32, old(envValid));
        envValid == c.valid && envSource == if c.source == Unchanged then old(envSource) else c.source
    {
      var crc1Ok, crc2Ok := flash.At(flashAddr).Ok(crc32), flash.At(flashAddrNew).Ok(crc32);
      var flag1, flag2 := flash.At(flashAddr).flags, flash.At(flashAddrNew).flags;
      if crc1Ok && !crc2Ok {
        envSource, envValid := Copy(flashAddr), 1;
      } else if !crc1Ok && crc2Ok {
        envSource, envValid := Copy(flashAddrNew), 1;
      } else if !crc1Ok && !crc2Ok {
        envSource, envValid := Default, 0;
      } else if flag1 == ACTIVE_FLAG && flag2 == OBSOLETE_FLAG {
        envSource, envValid := Copy(flashAddr), 1;
      } else if flag1 == OBSOLETE_FLAG && flag2 == ACTIVE_FLAG {
        envSource, envValid := Copy(flashAddrNew), 1;
      } else if flag1 == flag2 {
        envSource, envValid := Copy(flashAddr), 2;
      } else if flag1 == ERASED {
        envSource, envValid := Copy(flashAddr), 2;
      } else if flag2 == ERASED {
        envSource, envValid := Copy(flashAddrNew), 2;
      }
    }

    method Swap()
      requires Valid()
      modifies this`flashAddr, this`flashAddrNew
      ensures Valid() && flashAddr == old(flashAddr).Other()
    {
      flashAddr, flashAddrNew := flashAddrNew, flashAddr;
    }

    /** saveenv; `unprotected` says whether both sectors could be unprotected, `room` whether there
        was memory for the rest of the sector.  The last write, which puts that rest back, reports its
        error with the return code of the writes before it, so the call then returns 0 without
        swapping. */
    method SaveEnv(unprotected: bool, room: bool) returns (r: Outcome)
      requires Valid()
      modifies this`flash, this`budget, this`faults, this`flashAddr, this`flashAddrNew
      ensures Valid()
      ensures !unprotected || (!room && |old(flash).At(old(flashAddr).Other()).rest| > 0) ==>
        r == Returned(1) && flash == old(flash) && flashAddr == old(flashAddr)
      ensures unprotected && (room || |old(flash).At(old(flashAddr).Other()).rest| == 0) ==>
        var plan := SavePlan(old(flash), old(flashAddr), envPtr);
        var e := Ends(|plan|, old(budget), old(faults));
        && flash == After(old(flash), plan, e.done)
        && flashAddr == (if e.Complete? then old(flashAddr).Other() else old(flashAddr))
        && (r == PowerCut <==> e.Cut?)
        && (e.Failed? && e.done == 0 ==> r == Returned(1))
        && (e.Failed? && 0 < e.done < 5 ==> r == Returned(errorCode))
        && (r == Returned(0) <==> e.Complete? || (e.Failed? && e.done == 5))
    {
      if !unprotected {
        return Returned(1);
      }
      hide Ends, SavePlan, After;
      var savedData := flash.At(flashAddrNew).rest;
      if |savedData| > 0 && !room {
        return Returned(1);
      }
      var done;
      r, done := Rewrite(savedData);
      if done {
        Swap();
      }
    }

    /** The operations of a save; `done` says whether the sectors may change roles. */
    method Rewrite(savedData: Bytes) returns (r: Outcome, done: bool)
      requires Valid() && savedData == flash.At(flashAddrNew).rest
      modifies this`flash, this`budget, this`faults
      ensures var plan := SavePlan(old(flash), flashAddr, envPtr);
        var e := Ends(|plan|, old(budget), old(faults));
        && flash == After(old(flash), plan, e.done) && done == e.Complete?
        && (r == PowerCut <==> e.Cut?)
        && (e.Failed? && e.done == 0 ==> r == Returned(1))
        && (e.Failed? && 0 < e.done < 5 ==> r == Returned(errorCode))
        && (r == Returned(0) <==> e.Complete? || (e.Failed? && e.done == 5))
    {
      hide After, Ends, SavePlan, Performed;
      ghost var f0, plan, b, e := flash, SavePlan(flash, flashAddr, envPtr), budget, faults;
      done := false;
      PlanOps(f0, flashAddr, envPtr);
      NothingPerformed(plan);
      r := IssueNext(Erase(flashAddrNew), f0, plan, 0, b, e);
      if r == PowerCut { return; }
      if r != Returned(0) { return Returned(1), false; }
      r := IssueNext(WriteData(flashAddrNew, envPtr.data), f0, plan, 1, b, e);
      if r != Returned(0) { return; }
      r := IssueNext(WriteCrc(flashAddrNew, envPtr.crc), f0, plan, 2, b, e);
      if r != Returned(0) { return; }
      r := IssueNext(WriteFlag(flashAddr, OBSOLETE_FLAG), f0, plan, 3, b, e);
      if r != Returned(0) { return; }
      r := IssueNext(WriteFlag(flashAddrNew, ACTIVE_FLAG), f0, plan, 4, b, e);
      if r != Returned(0) { return; }
      if |savedData| > 0 {
        r := IssueNext(WriteRest(flashAddrNew, savedData), f0, plan, 5, b, e);
        if r == PowerCut { return; }
        if r != Returned(0) { return Returned(0), false; }
      }
      AllPerformed(f0, plan, b, e);
      done := true;
    }

    /** env_relocate_spec, called when env_init found a copy.  Errors of its two writes are ignored. */
    method EnvRelocateSpec() returns (cut: bool)
      requires Valid() && envSource.Copy?
      modifies this
      ensures Valid() && flashAddr == old(envSource).at && envSource == old(envSource)
      ensures var plan := RepairPlan(old(flash), old(envSource).at, crc32);
        && cut == (old(budget) < |plan|)
        && flash == Attempt(old(flash), plan, old(budget), old(faults))
        && (!cut ==> envPtr == Image(flash.At(flashAddr).crc, flash.At(flashAddr).data))
        && (!cut ==> envValid == if plan == [] then old(envValid) else 2)
    {
      hide Attempt, RepairPlan, Apply, Fault, Drop, Sector.Ok;
      AttemptRepairs(flash, envSource.at, crc32, budget, faults);
      if envSource != Copy(flashAddr) {
        Swap();
      }
      var r;
      if flash.At(flashAddrNew).flags != OBSOLETE_FLAG && flash.At(flashAddrNew).Ok(crc32) {
        envValid := 2;
        r := Issue(WriteFlag(flashAddrNew, OBSOLETE_FLAG));
        if r == PowerCut { return true; }
      }
      if flash.At(flashAddr).flags != ACTIVE_FLAG && flash.At(flashAddr).flags & ACTIVE_FLAG == ACTIVE_FLAG {
        envValid := 2;
        r := Issue(WriteFlag(flashAddr, ACTIVE_FLAG));
        if r == PowerCut { return true; }
      }
      envPtr := Image(flash.At(flashAddr).crc, flash.At(flashAddr).data);
      return false;
    }

    /** set_default_env; a default environment that does not fit is refused. */
    method SetDefaultEnv(builtin: Bytes, size: nat)
      modifies this`envPtr, this`envValid
      ensures if |builtin| > size then envPtr == old(envPtr) && envValid == old(envValid)
              else envPtr == DefaultImage(builtin, size, crc32) && envValid == 1
      ensures |builtin| <= size ==>
        && envPtr.crc == crc32(envPtr.data) && |envPtr.data| == size && builtin <= envPtr.data
        && forall i | |builtin| <= i < size :: envPtr.data[i] == 0
    {
      if |builtin| > size {
        return;
      }
      var data := builtin + seq(size - |builtin|, _ => 0);
      envPtr, envValid := Image(crc32(data), data), 1;
    }

    /** env_relocate, after env_init of the same boot: together they are the machine's Boot step. */
    method EnvRelocate(builtin: Bytes, size: nat) returns (cut: bool)
      requires Valid() && flashAddr == Primary
      requires Choose(flash, Primary, crc32, 0) == Choice(envSource, envValid)
      modifies this
      ensures Valid()
      ensures Step(Off(old(flash)), Boot(old(budget), old(faults)), crc32) ==
              if cut then Off(flash) else Running(flash, flashAddr)
      ensures !cut && old(envSource).Copy? ==> envPtr.data == flash.At(old(envSource).at).data
      ensures !cut && !old(envSource).Copy? ==>
        envPtr == if |builtin| <= size then DefaultImage(builtin, size, crc32) else old(envPtr)
    {
      cut := false;
      if envValid == 0 {
        SetDefaultEnv(builtin, size);
      } else {
        cut := EnvRelocateSpec();
      }
    }
  }

  /** A save of a fresh image by a system that works from any state failing saves can leave: without
      power cut or device error it returns 0, and whenever it returns 0 the next boot has the saved
      environment in RAM. */
  method SaveThenBoot(dev: EnvFlash, builtin: Bytes) returns (r: Outcome, next: EnvFlash)
    requires dev.Valid() && Serving(dev.flash, dev.flashAddr, dev.crc32) && dev.envPtr.crc == dev.crc32(dev.envPtr.data)
    requires dev.flash.Shaped(|dev.envPtr.data|, |dev.flash.primary.rest|) && ErasedIsBad(dev.crc32, |dev.envPtr.data|)
    modifies dev
    ensures old(dev.budget) >= 6 && old(dev.faults) == [] ==> r == Returned(0)
    ensures r == Returned(0) ==> Selected(dev.flash, dev.crc32) == Some(old(dev.envPtr).data)
    ensures r == Returned(0) ==> next.envPtr.data == old(dev.envPtr).data
  {
    ghost var f, cur, img := dev.flash, dev.flashAddr, dev.envPtr;
    ghost var plan := SavePlan(f, cur, img);
    ghost var end := Ends(|plan|, dev.budget, dev.faults);
    EndsWithin(|plan|, dev.budget, dev.faults);
    SaveFrom(f, cur, img.data, dev.crc32, end.done);
    hide After, Ends, Choose, Serving, Recoverable;
    r := dev.SaveEnv(true, true);
    ghost var g := dev.flash;
    RecoverableBoots(g, dev.crc32, 0);
    next := new EnvFlash(dev.crc32, dev.flash, 2, [], 1);
    next.EnvInit();
    ghost var source := next.envSource;
    var cut := next.EnvRelocate(builtin, |builtin|);
    if r == Returned(0) {
      SelectedIs(g, dev.crc32);
      RepairKeepsData(g, source.at, dev.crc32, 2, []);
    }
  }

  lemma {:induction false} SelectedIs(f: Flash, crc32: Crc32)
    ensures var s := Choose(f, Primary, crc32, 0).source;
      Selected(f, crc32) == if s.Copy? then Some(f.At(s.at).data) else None
  {
  }

  lemma {:induction false} RepairKeepsData(f: Flash, w: Where, crc32: Crc32, b: nat, e: Faults)
    ensures |RepairPlan(f, w, crc32)| <= 2 && Attempt(f, RepairPlan(f, w, crc32), b, e).At(w).data == f.At(w).data
  {
    AttemptRepairs(f, w, crc32, b, e);
  }

  /** The last write of a save fails: saveenv reports success, but the sectors do not change roles. */
  method RestoreFails(crc32: Crc32, f: Flash, code: int) returns (r: Outcome, e: EnvFlash)
    requires code != 0 && |f.redundant.rest| > 0
    ensures r == Returned(0) && e.flashAddr == Primary
    ensures e.flash == After(f, SavePlan(f, Primary, e.envPtr), 5)
  {
    e := new EnvFlash(crc32, f, 6, [false, false, false, false, false, true], code);
    EndsIs(6, 6, [false, false, false, false, false, true], 5);
    r := e.SaveEnv(true, true);
  }

  /** The two repairs of a boot, one after the other. */
  lemma {:induction false} AttemptRepairs(f: Flash, cur: Where, crc32: Crc32, b: nat, e: Faults)
    ensures var plan := RepairPlan(f, cur, crc32);
      var first, second := RetireDue(f, cur, crc32), ActivateDue(f, cur);
      var g := if first && b > 0 && !Fault(e, 0) then Apply(f, WriteFlag(cur.Other(), OBSOLETE_FLAG)) else f;
      var c, d := if first && b > 0 then b - 1 else b, if first then Drop(e, 1) else e;
      && |plan| == (if first then 1 else 0) + (if second then 1 else 0)
      && g.At(cur) == f.At(cur)
      && Attempt(f, plan, b, e) ==
         if second && c > 0 && !Fault(d, 0) then Apply(g, WriteFlag(cur, ACTIVE_FLAG)) else g
  {
    AttemptPlan(f, RepairPlan(f, cur, crc32), b, e);
  }

  /** A plan of at most two operations whose errors are ignored. */
  lemma {:induction false} AttemptPlan(f: Flash, plan: seq<Op>, k: nat, faults: Faults)
    requires |plan| <= 2
    ensures Attempt(f, plan, k, faults) ==
      if plan == [] || k == 0 then f
      else
        var g := if Fault(faults, 0) then f else Apply(f, plan[0]);
        if |plan| == 1 || k == 1 || Fault(Drop(faults, 1), 0) then g else Apply(g, plan[1])
  {
    if |plan| == 2 && k >= 2 {
      var g := if Fault(faults, 0) then f else Apply(f, plan[0]);
      assert Attempt(g, plan[1..], k - 1, Drop(faults, 1)) ==
        if Fault(Drop(faults, 1), 0) then g else Apply(g, plan[1]);
    }
  }

  lemma {:induction false} PlanStep(f: Flash, plan: seq<Op>, k: nat)
    requires k < |plan|
    ensures After(f, plan, 0) == f
    ensures After(f, plan, k + 1) == Apply(After(f, plan, k), plan[k])
  {
    assert plan[..k + 1][..k] == plan[..k];
  }

  // ----- what the sectors look like between operations ---------------------------------------

  /** No erased sector matches its own CRC. */
  ghost predicate ErasedIsBad(crc32: Crc32, size: nat) {
    crc32(Blank(size)) != ERASED_CRC
  }

  /** A running system uses sector `cur`, and so will the next boot. */
  ghost predicate Settled(f: Flash, cur: Where, crc32: Crc32) {
    var s, o := f.At(cur), f.At(cur.Other());
    if o.Ok(crc32) then s.Ok(crc32) && s.flags == ACTIVE_FLAG && o.flags == OBSOLETE_FLAG
    else s.Ok(crc32) ==> s.flags == ACTIVE_FLAG || s.flags == OBSOLETE_FLAG
  }

  /** A running system uses sector `cur`; saves may have failed, even the first one of all. */
  ghost predicate Serving(f: Flash, cur: Where, crc32: Crc32) {
    var s, o := f.At(cur), f.At(cur.Other());
    if s.Ok(crc32) then
      && (s.flags == ACTIVE_FLAG || s.flags == OBSOLETE_FLAG)
      && (o.Ok(crc32) ==> o.flags == ERASED || o.flags == (if s.flags == ACTIVE_FLAG then OBSOLETE_FLAG else ACTIVE_FLAG))
    else
      o.Ok(crc32) ==> o.flags == ERASED || o.flags == ACTIVE_FLAG
  }

  /** `w` holds the environment and every boot will find it. */
  ghost predicate Wins(f: Flash, w: Where, crc32: Crc32) {
    var s, o := f.At(w), f.At(w.Other());
    && s.Ok(crc32)
    && if o.Ok(crc32) then
         || (s.flags == ACTIVE_FLAG && o.flags == OBSOLETE_FLAG)
         || (s.flags == ERASED && (o.flags == OBSOLETE_FLAG || o.flags == ACTIVE_FLAG))
       else s.flags == ACTIVE_FLAG || s.flags == OBSOLETE_FLAG || s.flags == ERASED
  }

  /** Every flash content a power cut or a failed save can leave behind. */
  ghost predicate Recoverable(f: Flash, crc32: Crc32) {
    || (!f.primary.Ok(crc32) && !f.redundant.Ok(crc32))
    || Wins(f, Primary, crc32)
    || Wins(f, Redundant, crc32)
  }

  /** Both copies are never CRC-valid and ACTIVE, a branch of env_init applies, and it is the one
      that finds the winning copy. */
  lemma {:induction false} RecoverableBoots(f: Flash, crc32: Crc32, before: int)
    requires Recoverable(f, crc32)
    ensures !(f.primary.Ok(crc32) && f.redundant.Ok(crc32)
              && f.primary.flags == f.redundant.flags == ACTIVE_FLAG)
    ensures var c := Choose(f, Primary, crc32, before);
      && c.source != Unchanged
      && (c.source == Default <==> !f.primary.Ok(crc32) && !f.redundant.Ok(crc32))
      && (c.source.Copy? ==> Wins(f, c.source.at, crc32))
      && forall w :: Wins(f, w, crc32) ==> c.source == Copy(w)
  {
    forall w | Wins(f, w, crc32)
      ensures Choose(f, Primary, crc32, before).source == Copy(w)
    {
      assert w == Primary || w == Redundant;
    }
  }

  lemma {:induction false} ProgramBlank(d: Bytes)
    ensures Program(Blank(|d|), d) == d
  {
    forall i | 0 <= i < |d|
      ensures ERASED & d[i] == d[i]
    {
    }
  }

  /** The operation count from which a save is visible after a power cut: the CRC write, or already
      the data write when the new CRC is what an erased CRC field contains. */
  function CommitPoint(crc: bv32): nat {
    if crc == ERASED_CRC then 2 else 3
  }

  /** What NOR programming writes over an erased field. */
  lemma {:induction false} ProgramErased(crc: bv32, flag: bv8)
    ensures ERASED_CRC & crc == crc
    ensures ERASED & flag == flag
    ensures flag & OBSOLETE_FLAG == OBSOLETE_FLAG
  {
  }

  /** The spare sector after `k` operations of a save of `img`; `o` is what it held before. */
  function SpareAfter(o: Sector, img: Image, k: nat): Sector {
    if k == 0 then o
    else Sector(if k >= 3 then img.crc else ERASED_CRC,
                if k >= 5 then ACTIVE_FLAG else ERASED,
                if k >= 2 then img.data else Blank(|o.data|),
                if k >= 6 then o.rest else Blank(|o.rest|))
  }

  /** The two sectors after `k` operations of a save of `img`. */
  lemma {:induction false} SaveContents(f: Flash, cur: Where, img: Image, k: nat)
    requires |img.data| == |f.At(cur.Other()).data|
    ensures var plan := SavePlan(f, cur, img);
      var g, n := After(f, plan, k), if k < |plan| then k else |plan|;
      && g.At(cur) == f.At(cur).(flags := if n >= 4 then OBSOLETE_FLAG else f.At(cur).flags)
      && g.At(cur.Other()) == SpareAfter(f.At(cur.Other()), img, n)
  {
    var plan := SavePlan(f, cur, img);
    if k > |plan| {
      assert After(f, plan, k) == After(f, plan, |plan|);
      SaveContents(f, cur, img, |plan|);
    } else if k > 0 {
      SaveContents(f, cur, img, k - 1);
      PlanStep(f, plan, k - 1);
      if k == 4 {
        ProgramErased(0, f.At(cur).flags);
      } else {
        SpareStep(f, cur, img, k);
      }
      hide After, ApplyAll, Do;
    }
  }

  lemma {:induction false} SpareStep(f: Flash, cur: Where, img: Image, k: nat)
    requires 0 < k <= 6 && k != 4 && |img.data| == |f.At(cur.Other()).data|
    ensures var o := f.At(cur.Other());
      Do(SpareAfter(o, img, k - 1), SaveOp(f, cur, img, k - 1)) == SpareAfter(o, img, k)
  {
    ProgramBlank(img.data);
    ProgramBlank(f.At(cur.Other()).rest);
    ProgramErased(img.crc, ACTIVE_FLAG);
    hide Program, Blank;
  }

  // ----- one save, cut anywhere ---------------------------------------------------------------

  /** A save cut or stopped by an error after `k` operations, from any state of a running system: from
      the commit point on a boot finds the new environment, before that the one in use, or none. */
  lemma {:induction false} SaveFrom(f: Flash, cur: Where, data: Bytes, crc32: Crc32, k: nat)
    requires Serving(f, cur, crc32) && |f.At(cur.Other()).data| == |data| && ErasedIsBad(crc32, |data|)
    ensures var img := Image(crc32(data), data);
      var plan := SavePlan(f, cur, img);
      var g := After(f, plan, k);
      && Recoverable(g, crc32)
      && Selected(g, crc32) == (if k >= CommitPoint(img.crc) then Some(data)
                                else if k > 0 then InUse(f, cur, crc32)
                                else Selected(f, crc32))
      && Serving(g, cur, crc32) && InUse(g, cur, crc32) == InUse(f, cur, crc32)
      && (k >= |plan| ==> Settled(g, cur.Other(), crc32) && InUse(g, cur.Other(), crc32) == Some(data))
  {
    var img := Image(crc32(data), data);
    var plan := SavePlan(f, cur, img);
    SaveContents(f, cur, img, k);
    hide ApplyAll, After, SaveOp, Program, Blank, Selected;
    var g := After(f, plan, k);
    if k == 0 {
      assert g == f by {
        assert g.At(cur) == f.At(cur) && g.At(cur.Other()) == f.At(cur.Other());
      }
      ServingSelects(f, cur, crc32);
    } else {
      ServingSelects(g, cur, crc32);
    }
  }

  /** The environment a running system works from; `None` stands for the built-in default. */
  function InUse(f: Flash, cur: Where, crc32: Crc32): Option<Bytes> {
    if f.At(cur).Ok(crc32) then Some(f.At(cur).data) else None
  }

  /** What the next boot finds: the other copy only if that is newer or the only one. */
  lemma {:induction false} ServingSelects(f: Flash, cur: Where, crc32: Crc32)
    requires Serving(f, cur, crc32)
    ensures Recoverable(f, crc32)
    ensures var o := f.At(cur.Other());
      Selected(f, crc32) ==
      if o.Ok(crc32) && (o.flags == ERASED || o.flags == ACTIVE_FLAG) then Some(o.data) else InUse(f, cur, crc32)
  {
  }

  /** A power cut after `k` operations of a save leaves exactly the old environment or exactly the
      new one, and the new one precisely from the commit point on. */
  lemma {:induction false} SaveIsAtomic(f: Flash, cur: Where, data: Bytes, crc32: Crc32, k: nat)
    requires Settled(f, cur, crc32) && f.Shaped(|data|, |f.primary.rest|)
    requires ErasedIsBad(crc32, |data|)
    ensures var img := Image(crc32(data), data);
      var plan := SavePlan(f, cur, img);
      var g := After(f, plan, k);
      && Recoverable(g, crc32)
      && g.Shaped(|data|, |f.primary.rest|)
      && Selected(g, crc32) == (if k >= CommitPoint(img.crc) then Some(data) else Selected(f, crc32))
      && (k >= |plan| ==> Settled(g, cur.Other(), crc32) && Selected(g, crc32) == Some(data)
                          && g.primary.rest == f.primary.rest && g.redundant.rest == f.redundant.rest)
  {
    var img := Image(crc32(data), data);
    SaveContents(f, cur, img, k);
    SaveFrom(f, cur, data, crc32, k);
    ServingSelects(f, cur, crc32);
    hide ApplyAll, After, SaveOp, Program, Blank, Selected;
  }

  /** After `k` operations of a save of `img` the data are in the sector and match what is in its CRC
      field: the CRC of the image, or before that is written an erased one. */
  predicate Readable(img: Image, crc32: Crc32, k: nat) {
    (k == 2 && crc32(img.data) == ERASED_CRC) || (k > 2 && crc32(img.data) == img.crc)
  }

  /** A save of any image, with the right CRC or not, cut or stopped after `k` operations. */
  lemma {:induction false} SaveOfAnyImage(f: Flash, cur: Where, img: Image, crc32: Crc32, k: nat)
    requires Settled(f, cur, crc32) && f.At(cur).Ok(crc32)
    requires |f.At(cur.Other()).data| == |img.data| && ErasedIsBad(crc32, |img.data|)
    ensures Selected(After(f, SavePlan(f, cur, img), k), crc32) ==
      Some(if Readable(img, crc32, k) then img.data else f.At(cur).data)
  {
    SaveContents(f, cur, img, k);
    hide ApplyAll, After, SaveOp, Program, Blank, Selected;
    var g := After(f, SavePlan(f, cur, img), k);
    if k == 0 {
      assert g == f by {
        assert g.At(cur) == f.At(cur) && g.At(cur.Other()) == f.At(cur.Other());
      }
    }
    ServingSelects(g, cur, crc32);
  }

  /** A save of an image whose CRC field does not match its data changes nothing a boot sees, and it
      retires the copy in use: any later save that is cut right after its erase then leaves no valid
      copy at all. */
  lemma {:induction false} StaleCrcLosesTheEnvironment(f: Flash, cur: Where, stale: Image, later: Image, crc32: Crc32)
    requires Settled(f, cur, crc32) && f.At(cur).Ok(crc32)
    requires f.Shaped(|stale.data|, |f.primary.rest|) && |later.data| == |stale.data|
    requires ErasedIsBad(crc32, |stale.data|)
    requires stale.crc != crc32(stale.data)
    ensures var plan := SavePlan(f, cur, stale);
      var g := After(f, plan, |plan|);
      var h := After(g, SavePlan(g, cur.Other(), later), 1);
      && Selected(g, crc32) == Selected(f, crc32) == Some(f.At(cur).data)
      && Selected(h, crc32) == None
  {
    var plan := SavePlan(f, cur, stale);
    SaveContents(f, cur, stale, |plan|);
    var g := After(f, plan, |plan|);
    SaveContents(g, cur.Other(), later, 1);
    hide ApplyAll, After, SaveOp, Program, Blank;
    assert cur.Other().Other() == cur;
  }

  /** A save that stops with a device error after `j` operations leaves flash_addr where it was.  The
      retry, cut after `k` operations, then gives the retried environment, or the failed one, or the
      one before it: exactly as follows, and never none at all. */
  lemma {:induction false} RetryAfterError(f: Flash, cur: Where, data1: Bytes, data2: Bytes, crc32: Crc32, j: nat, k: nat)
    requires Settled(f, cur, crc32) && f.At(cur).Ok(crc32)
    requires f.Shaped(|data1|, |f.primary.rest|) && |data2| == |data1|
    requires ErasedIsBad(crc32, |data1|)
    ensures var g := After(f, SavePlan(f, cur, Image(crc32(data1), data1)), j);
      var h := After(g, SavePlan(g, cur, Image(crc32(data2), data2)), k);
      Selected(h, crc32) ==
      if k >= CommitPoint(crc32(data2)) then Some(data2)
      else if k == 0 && j >= CommitPoint(crc32(data1)) then Some(data1)
      else Selected(f, crc32)
  {
    hide After, SaveOp, SavePlan, Selected, Choose, Program, Blank, Recoverable;
    var img1 := Image(crc32(data1), data1);
    var g := After(f, SavePlan(f, cur, img1), j);
    SaveContents(f, cur, img1, j);
    SaveFrom(f, cur, data1, crc32, j);
    ServingSelects(f, cur, crc32);
    SaveFrom(g, cur, data2, crc32, k);
  }

  /** The first save of a system that runs on the default environment fails behind its commit point,
      and the next one is cut behind its erase: the only copy is lost again. */
  lemma {:induction false} RetryLosesFirstSave(f: Flash, cur: Where, data1: Bytes, data2: Bytes, crc32: Crc32, j: nat)
    requires !f.At(cur).Ok(crc32) && !f.At(cur.Other()).Ok(crc32)
    requires f.Shaped(|data1|, |f.primary.rest|) && |data2| == |data1|
    requires ErasedIsBad(crc32, |data1|)
    requires CommitPoint(crc32(data1)) <= j
    ensures var g := After(f, SavePlan(f, cur, Image(crc32(data1), data1)), j);
      var h := After(g, SavePlan(g, cur, Image(crc32(data2), data2)), 1);
      Selected(g, crc32) == Some(data1) && Selected(h, crc32) == None
  {
    hide After, SaveOp, SavePlan, Selected, Choose, Program, Blank, Recoverable;
    var img1 := Image(crc32(data1), data1);
    var g := After(f, SavePlan(f, cur, img1), j);
    SaveContents(f, cur, img1, j);
    SaveFrom(f, cur, data1, crc32, j);
    SaveFrom(g, cur, data2, crc32, 1);
  }

  // ----- a boot, cut anywhere ------------------------------------------------------------------

  /** The repairs of a boot may be cut at any point and run again: the same copy stays selected, and
      when they are complete the running system uses it. */
  lemma {:induction false} RepairIsIdempotent(f: Flash, cur: Where, crc32: Crc32, k: nat)
    requires Recoverable(f, crc32) && Choose(f, Primary, crc32, 0).source == Copy(cur)
    ensures var plan := RepairPlan(f, cur, crc32);
      var g := After(f, plan, k);
      && Wins(g, cur, crc32) && Choose(g, Primary, crc32, 0).source == Copy(cur)
      && g.At(cur).data == f.At(cur).data && g.At(cur.Other()).data == f.At(cur.Other()).data
      && g.primary.rest == f.primary.rest && g.redundant.rest == f.redundant.rest
      && (k >= |plan| ==> Settled(g, cur, crc32) && InUse(g, cur, crc32) == Selected(f, crc32))
  {
    var plan := RepairPlan(f, cur, crc32);
    RecoverableBoots(f, crc32, 0);
    ProgramErased(0, ACTIVE_FLAG);
    ProgramErased(0, f.At(cur.Other()).flags);
    PlanPrefix(f, plan, k);
    var g := After(f, plan, k);
    assert Wins(g, cur, crc32);
    RecoverableBoots(g, crc32, 0);
  }

  /** A plan of at most two operations, spelt out. */
  lemma {:induction false} PlanPrefix(f: Flash, plan: seq<Op>, k: nat)
    requires |plan| <= 2
    ensures After(f, plan, k) ==
      if k == 0 || |plan| == 0 then f
      else if k == 1 || |plan| == 1 then Apply(f, plan[0])
      else Apply(Apply(f, plan[0]), plan[1])
  {
    if |plan| > 0 { PlanStep(f, plan, 0); }
    if |plan| > 1 { PlanStep(f, plan, 1); }
  }

  // ----- whole runs ---------------------------------------------------------------------------

  /** The supply is off, or the system runs and uses sector `cur`. */
  datatype Machine = Off(flash: Flash) | Running(flash: Flash, cur: Where)

  /** `lasts` is how many flash operations the supply lasts for, `faults` which of them fail. */
  datatype Event = Boot(lasts: nat, faults: Faults) | Save(data: Bytes, lasts: nat, faults: Faults) | PowerOff

  function Step(m: Machine, e: Event, crc32: Crc32): Machine {
    match e
    case PowerOff => Off(m.flash)
    case Boot(lasts, faults) =>
      if m.Running? then m
      else (match Choose(m.flash, Primary, crc32, 0).source
            case Copy(w) =>
              var plan := RepairPlan(m.flash, w, crc32);
              var g := Attempt(m.flash, plan, lasts, faults);
              if lasts < |plan| then Off(g) else Running(g, w)
            case _ => Running(m.flash, Primary))
    case Save(data, lasts, faults) =>
      if m.Off? then m
      else
        var plan := SavePlan(m.flash, m.cur, Image(crc32(data), data));
        var end := Ends(|plan|, lasts, faults);
        var g := After(m.flash, plan, end.done);
        match end
        case Cut(_) => Off(g)
        case Failed(_) => Running(g, m.cur)
        case Complete(_) => Running(g, m.cur.Other())
  }
}
