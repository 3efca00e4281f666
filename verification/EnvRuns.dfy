/** Whole runs of the redundant environment of common/env_flash.c: boots, saves, power cuts and device
    errors in any order. */
module EnvRuns {
  import opened Common
  import opened RedundantEnv

  function Run(m: Machine, es: seq<Event>, crc32: Crc32): Machine {
    if es == [] then m else Step(Run(m, es[..|es| - 1], crc32), es[|es| - 1], crc32)
  }

  ghost predicate SavesFit(es: seq<Event>, size: nat) {
    forall i | 0 <= i < |es| :: es[i].Save? ==> |es[i].data| == size
  }

  /** No boot meets a device error when it repairs the flags. */
  ghost predicate RepairsSucceed(es: seq<Event>) {
    forall i | 0 <= i < |es| :: es[i].Boot? ==> es[i].faults == []
  }

  ghost predicate NoErrors(es: seq<Event>) {
    forall i | 0 <= i < |es| :: !es[i].PowerOff? ==> es[i].faults == []
  }

  ghost predicate Sound(m: Machine, crc32: Crc32, size: nat, spare: nat) {
    && m.flash.Shaped(size, spare)
    && Recoverable(m.flash, crc32)
    && (m.Running? ==> Serving(m.flash, m.cur, crc32))
  }

  /** How many operations a save takes. */
  function SaveLength(spare: nat): nat {
    if spare > 0 then 6 else 5
  }

  /** The reference: the environment a running system works from, and the one the next boot finds. */
  datatype Memory = Memory(inUse: Option<Bytes>, found: Option<Bytes>)

  function Remember(was: Memory, running: bool, e: Event, crc32: Crc32, spare: nat): Memory {
    match e
    case PowerOff => was
    case Boot(_, _) => if running then was else Memory(was.found, was.found)
    case Save(data, lasts, faults) =>
      if !running then was
      else
        var end := Ends(SaveLength(spare), lasts, faults);
        Memory(if end.Complete? then Some(data) else was.inUse,
               if end.done >= CommitPoint(crc32(data)) then Some(data)
               else if end.done > 0 then was.inUse
               else was.found)
  }

  function Remembered(m: Machine, es: seq<Event>, crc32: Crc32, spare: nat, initial: Memory): Memory {
    if es == [] then initial
    else
      var before := es[..|es| - 1];
      Remember(Remembered(m, before, crc32, spare, initial), Run(m, before, crc32).Running?, es[|es| - 1], crc32, spare)
  }

  /** The memory describes the machine. */
  ghost predicate Describes(r: Memory, m: Machine, crc32: Crc32) {
    Selected(m.flash, crc32) == r.found && (m.Running? ==> InUse(m.flash, m.cur, crc32) == r.inUse)
  }

  lemma {:induction false} StepKeeps(m: Machine, e: Event, crc32: Crc32, size: nat, spare: nat, r: Memory)
    requires Sound(m, crc32, size, spare) && ErasedIsBad(crc32, size)
    requires (e.Save? ==> |e.data| == size) && (e.Boot? ==> e.faults == [])
    requires Describes(r, m, crc32)
    ensures Sound(Step(m, e, crc32), crc32, size, spare)
    ensures Describes(Remember(r, m.Running?, e, crc32, spare), Step(m, e, crc32), crc32)
  {
    hide Attempt, After, Recoverable, Serving, Selected;
    match e
    case PowerOff =>
    case Boot(lasts, faults) =>
      if m.Off? {
        BootKeeps(m.flash, lasts, crc32);
      }
    case Save(data, lasts, faults) =>
      if m.Running? {
        hide Ends, SavePlan;
        SaveShape(m.flash, m.cur, Image(crc32(data), data), Ends(SaveLength(spare), lasts, faults).done);
        EndsWithin(SaveLength(spare), lasts, faults);
        SaveFrom(m.flash, m.cur, data, crc32, Ends(SaveLength(spare), lasts, faults).done);
        SettledServes(Step(m, e, crc32).flash, m.cur.Other(), crc32);
      }
  }

  lemma {:induction false} SettledServes(f: Flash, cur: Where, crc32: Crc32)
    ensures Settled(f, cur, crc32) ==> Serving(f, cur, crc32)
  {
  }

  lemma {:induction false} SaveShape(f: Flash, cur: Where, img: Image, k: nat)
    requires f.Shaped(|img.data|, |f.primary.rest|)
    ensures |SavePlan(f, cur, img)| == SaveLength(|f.primary.rest|)
    ensures After(f, SavePlan(f, cur, img), k).Shaped(|img.data|, |f.primary.rest|)
  {
    SaveContents(f, cur, img, k);
    hide After;
  }

  lemma {:induction false} BootKeeps(f: Flash, lasts: nat, crc32: Crc32)
    requires Recoverable(f, crc32)
    ensures var m := Step(Off(f), Boot(lasts, []), crc32);
      && Recoverable(m.flash, crc32) && Selected(m.flash, crc32) == Selected(f, crc32)
      && (m.Running? ==> Serving(m.flash, m.cur, crc32) && InUse(m.flash, m.cur, crc32) == Selected(f, crc32))
      && (forall size, spare :: f.Shaped(size, spare) ==> m.flash.Shaped(size, spare))
  {
    RecoverableBoots(f, crc32, 0);
    match Choose(f, Primary, crc32, 0).source {
      case Copy(w) =>
        var plan := RepairPlan(f, w, crc32);
        AttemptClean(f, plan, lasts);
        RepairIsIdempotent(f, w, crc32, lasts);
        hide After, Attempt, RepairPlan;
        SettledServes(After(f, plan, lasts), w, crc32);
      case _ =>
    }
  }

  lemma {:induction false} AttemptClean(f: Flash, plan: seq<Op>, k: nat)
    requires |plan| <= 2
    ensures Attempt(f, plan, k, []) == After(f, plan, k)
  {
    AttemptPlan(f, plan, k, []);
    PlanPrefix(f, plan, k);
  }

  /** Over every run of boots, power cuts and saves, of which any may fail at any operation, the pair of
      sectors refines the memory, the copies are never both valid and ACTIVE, and every boot takes a
      branch of env_init. */
  lemma {:induction false} RunsRefineTheMemory(m: Machine, es: seq<Event>, crc32: Crc32, size: nat, spare: nat, initial: Memory)
    requires Sound(m, crc32, size, spare) && ErasedIsBad(crc32, size) && SavesFit(es, size)
    requires RepairsSucceed(es) && Describes(initial, m, crc32)
    ensures var f := Run(m, es, crc32).flash;
      && Sound(Run(m, es, crc32), crc32, size, spare)
      && Describes(Remembered(m, es, crc32, spare, initial), Run(m, es, crc32), crc32)
      && !(f.primary.Ok(crc32) && f.redundant.Ok(crc32)
           && f.primary.flags == f.redundant.flags == ACTIVE_FLAG)
      && Choose(f, Primary, crc32, 0).source != Unchanged
  {
    if es != [] {
      var before, e := es[..|es| - 1], es[|es| - 1];
      Shorter(es, size);
      RunsRefineTheMemory(m, before, crc32, size, spare, initial);
      hide Choose, Describes, Step, Recoverable, Remember;
      StepKeeps(Run(m, before, crc32), e, crc32, size, spare, Remembered(m, before, crc32, spare, initial));
    }
    RecoverableBoots(Run(m, es, crc32).flash, crc32, 0);
  }

  lemma {:induction false} Shorter(es: seq<Event>, size: nat)
    requires es != []
    ensures SavesFit(es, size) ==>
      SavesFit(es[..|es| - 1], size) && (es[|es| - 1].Save? ==> |es[|es| - 1].data| == size)
    ensures RepairsSucceed(es) ==>
      RepairsSucceed(es[..|es| - 1]) && (es[|es| - 1].Boot? ==> es[|es| - 1].faults == [])
    ensures NoErrors(es) ==>
      NoErrors(es[..|es| - 1]) && RepairsSucceed(es) && (!es[|es| - 1].PowerOff? ==> es[|es| - 1].faults == [])
  {
  }

  /** Without device errors one variable is enough: a save sets it at its commit point and nothing
      else changes it. */
  function Register(m: Machine, es: seq<Event>, crc32: Crc32, initial: Option<Bytes>): Option<Bytes> {
    if es == [] then initial
    else
      var before, e := es[..|es| - 1], es[|es| - 1];
      if e.Save? && Run(m, before, crc32).Running? && e.lasts >= CommitPoint(crc32(e.data))
      then Some(e.data)
      else Register(m, before, crc32, initial)
  }

  /** Over every run of boots, saves and power cuts without device errors the pair of sectors refines
      the one variable, the copies are never both valid and ACTIVE, and every boot takes a branch of
      env_init. */
  lemma {:induction false} RunsRefineTheRegister(m: Machine, es: seq<Event>, crc32: Crc32, size: nat, spare: nat)
    requires Sound(m, crc32, size, spare) && ErasedIsBad(crc32, size) && SavesFit(es, size)
    requires NoErrors(es) && (m.Running? ==> Settled(m.flash, m.cur, crc32))
    ensures var f := Run(m, es, crc32).flash;
      && Sound(Run(m, es, crc32), crc32, size, spare)
      && Selected(f, crc32) == Register(m, es, crc32, Selected(m.flash, crc32))
      && !(f.primary.Ok(crc32) && f.redundant.Ok(crc32)
           && f.primary.flags == f.redundant.flags == ACTIVE_FLAG)
      && Choose(f, Primary, crc32, 0).source != Unchanged
  {
    var found := Selected(m.flash, crc32);
    if m.Running? {
      ServingSelects(m.flash, m.cur, crc32);
    }
    hide Selected, Choose, Step, Recoverable, Sound, Settled, InUse, ErasedIsBad;
    if es != [] {
      Shorter(es, size);
    }
    RunsRefineTheMemory(m, es, crc32, size, spare, Memory(found, found));
    OneValueIsEnough(m, es, crc32, size, spare, found);
  }

  lemma {:induction false} OneValueIsEnough(m: Machine, es: seq<Event>, crc32: Crc32, size: nat, spare: nat,
                                            found: Option<Bytes>)
    requires Sound(m, crc32, size, spare) && ErasedIsBad(crc32, size) && SavesFit(es, size)
    requires NoErrors(es) && Describes(Memory(found, found), m, crc32)
    ensures var r, v := Remembered(m, es, crc32, spare, Memory(found, found)), Register(m, es, crc32, found);
      r.found == v && (Run(m, es, crc32).Running? ==> r.inUse == v)
  {
    hide Describes, ErasedIsBad, Step, Recoverable, Serving;
    if es != [] {
      var before, e := es[..|es| - 1], es[|es| - 1];
      Shorter(es, size);
      OneValueIsEnough(m, before, crc32, size, spare, found);
      RunsRefineTheMemory(m, before, crc32, size, spare, Memory(found, found));
      OneStepIsEnough(Run(m, before, crc32), e, crc32, spare);
    }
  }

  lemma {:induction false} OneStepIsEnough(m: Machine, e: Event, crc32: Crc32, spare: nat)
    requires |m.flash.primary.rest| == |m.flash.redundant.rest| == spare
    requires !e.PowerOff? ==> e.faults == []
    ensures e.PowerOff? ==> Step(m, e, crc32).Off?
    ensures e.Save? && m.Running? ==>
      var end := Ends(SaveLength(spare), e.lasts, e.faults);
      && (end.done >= CommitPoint(crc32(e.data)) <==> e.lasts >= CommitPoint(crc32(e.data)))
      && (Step(m, e, crc32).Running? ==> end.Complete? && end.done >= CommitPoint(crc32(e.data)))
    ensures e.Save? && m.Off? ==> Step(m, e, crc32).Off?
  {
    hide After, Attempt, Choose;
    if e.Save? && m.Running? {
      EndsWithin(SaveLength(spare), e.lasts, []);
    }
  }

  /** The runs start somewhere: a blank flash is such a state. */
  lemma {:induction false} BlankFlashIsSound(crc32: Crc32, size: nat, spare: nat)
    requires ErasedIsBad(crc32, size)
    ensures var s := Sector(ERASED_CRC, ERASED, Blank(size), Blank(spare));
      Sound(Off(Flash(s, s)), crc32, size, spare) && Selected(Flash(s, s), crc32) == None
  {
  }

  /** The exact set of flash contents for which no branch of env_init applies. */
  lemma {:induction false} UncoveredFlags(f: Flash, crc32: Crc32, before: int)
    ensures var x, y := f.primary.flags, f.redundant.flags;
      Choose(f, Primary, crc32, before).source == Unchanged <==>
      && f.primary.Ok(crc32) && f.redundant.Ok(crc32)
      && x != y && x != ERASED && y != ERASED
      && !(x == ACTIVE_FLAG && y == OBSOLETE_FLAG) && !(x == OBSOLETE_FLAG && y == ACTIVE_FLAG)
  {
  }

  // ----- runs with any device errors -----------------------------------------------------------

  /** Valid copies carry the flags that the code writes. */
  ghost predicate Tidy(f: Flash, crc32: Crc32) {
    forall w: Where :: f.At(w).Ok(crc32) ==>
      f.At(w).flags == ACTIVE_FLAG || f.At(w).flags == OBSOLETE_FLAG || f.At(w).flags == ERASED
  }

  predicate HasCopy(f: Flash, crc32: Crc32) {
    f.primary.Ok(crc32) || f.redundant.Ok(crc32)
  }

  /** One of the valid copies holds `d`. */
  predicate Holds(f: Flash, d: Bytes, crc32: Crc32) {
    (f.primary.Ok(crc32) && f.primary.data == d) || (f.redundant.Ok(crc32) && f.redundant.data == d)
  }

  lemma {:induction false} TidySelects(f: Flash, crc32: Crc32)
    requires Tidy(f, crc32)
    ensures Choose(f, Primary, crc32, 0).source != Unchanged
    ensures Selected(f, crc32) == None <==> !HasCopy(f, crc32)
    ensures Selected(f, crc32).Some? ==> Holds(f, Selected(f, crc32).value, crc32)
  {
    assert f.At(Primary) == f.primary && f.At(Redundant) == f.redundant;
    UncoveredFlags(f, crc32, 0);
  }

  /** The exact loss: the only valid copy is the one that a save replaces, and it is erased but not
      written again. */
  ghost predicate Loses(m: Machine, e: Event, crc32: Crc32) {
    && m.Running? && e.Save? && !m.flash.At(m.cur).Ok(crc32)
    && var done := Ends(|SavePlan(m.flash, m.cur, Image(crc32(e.data), e.data))|, e.lasts, e.faults).done;
       0 < done < CommitPoint(crc32(e.data))
  }

  lemma {:induction false} TidySave(f: Flash, cur: Where, data: Bytes, crc32: Crc32, k: nat)
    requires Tidy(f, crc32) && |f.At(cur.Other()).data| == |data| && ErasedIsBad(crc32, |data|)
    ensures var g := After(f, SavePlan(f, cur, Image(crc32(data), data)), k);
      && Tidy(g, crc32)
      && (g.At(cur).Ok(crc32) <==> f.At(cur).Ok(crc32)) && g.At(cur).data == f.At(cur).data
      && (g.At(cur.Other()).Ok(crc32) <==>
            if k == 0 then f.At(cur.Other()).Ok(crc32) else k >= CommitPoint(crc32(data)))
      && (k >= CommitPoint(crc32(data)) ==> g.At(cur.Other()).data == data)
      && (k == 0 ==> g.At(cur.Other()).data == f.At(cur.Other()).data)
  {
    var img := Image(crc32(data), data);
    SaveContents(f, cur, img, k);
    hide ApplyAll, After, SaveOp, Program, Blank, Selected;
    var g := After(f, SavePlan(f, cur, img), k);
    forall w: Where | g.At(w).Ok(crc32)
      ensures g.At(w).flags == ACTIVE_FLAG || g.At(w).flags == OBSOLETE_FLAG || g.At(w).flags == ERASED
    {
      assert w == cur || w == cur.Other();
    }
  }

  lemma {:induction false} TidyRepair(f: Flash, cur: Where, crc32: Crc32, b: nat, e: Faults)
    requires Tidy(f, crc32)
    ensures var g := Attempt(f, RepairPlan(f, cur, crc32), b, e);
      && Tidy(g, crc32)
      && forall w: Where :: (g.At(w).Ok(crc32) <==> f.At(w).Ok(crc32))
           && g.At(w).data == f.At(w).data && g.At(w).rest == f.At(w).rest
  {
    AttemptRepairs(f, cur, crc32, b, e);
    hide Attempt, RepairPlan;
    ProgramErased(0, ACTIVE_FLAG);
    ProgramErased(0, f.At(cur.Other()).flags);
  }

  /** A boot loses no copy and adds none, and what is in use afterwards is one. */
  lemma {:induction false} TidyBoot(f: Flash, lasts: nat, faults: Faults, crc32: Crc32)
    requires Tidy(f, crc32)
    ensures var m := Step(Off(f), Boot(lasts, faults), crc32);
      && Tidy(m.flash, crc32)
      && (forall w: Where :: (m.flash.At(w).Ok(crc32) <==> f.At(w).Ok(crc32)) && m.flash.At(w).data == f.At(w).data)
      && (forall size, spare :: f.Shaped(size, spare) ==> m.flash.Shaped(size, spare))
      && (m.Running? && HasCopy(f, crc32) ==> m.flash.At(m.cur).Ok(crc32))
  {
    TidySelects(f, crc32);
    match Choose(f, Primary, crc32, 0).source {
      case Copy(w) =>
        TidyRepair(f, w, crc32, lasts, faults);
        hide Attempt, RepairPlan, Tidy;
        var g := Attempt(f, RepairPlan(f, w, crc32), lasts, faults);
        assert g.At(Primary) == g.primary && g.At(Redundant) == g.redundant;
        assert f.At(Primary) == f.primary && f.At(Redundant) == f.redundant;
      case _ =>
    }
  }

  /** The default environment comes back exactly after such a save. */
  lemma {:induction false} TidyStep(m: Machine, e: Event, crc32: Crc32, size: nat, spare: nat)
    requires Tidy(m.flash, crc32) && m.flash.Shaped(size, spare) && ErasedIsBad(crc32, size)
    requires HasCopy(m.flash, crc32) && (e.Save? ==> |e.data| == size)
    ensures var n := Step(m, e, crc32);
      && Tidy(n.flash, crc32) && n.flash.Shaped(size, spare)
      && (Selected(n.flash, crc32) == None <==> Loses(m, e, crc32))
      && ((m.Running? ==> m.flash.At(m.cur).Ok(crc32)) && n.Running? ==> n.flash.At(n.cur).Ok(crc32))
      && forall d :: Holds(n.flash, d, crc32) ==> Holds(m.flash, d, crc32) || (e.Save? && d == e.data)
  {
    var n := Step(m, e, crc32);
    hide After, Attempt, RepairPlan, Tidy, Choose, Ends, SavePlan;
    assert m.flash.At(Primary) == m.flash.primary && m.flash.At(Redundant) == m.flash.redundant;
    assert n.flash.At(Primary) == n.flash.primary && n.flash.At(Redundant) == n.flash.redundant;
    match e {
      case PowerOff =>
      case Boot(lasts, faults) => if m.Off? { TidyBoot(m.flash, lasts, faults, crc32); }
      case Save(data, lasts, faults) =>
        if m.Running? {
          var img := Image(crc32(data), data);
          var k := Ends(SaveLength(spare), lasts, faults).done;
          SaveShape(m.flash, m.cur, img, k);
          EndsWithin(SaveLength(spare), lasts, faults);
          TidySave(m.flash, m.cur, data, crc32, k);
        }
    }
    TidySelects(n.flash, crc32);
  }

  /** Over every run, whatever fails: once the system is off with a valid copy, or runs on one, every
      boot finds a copy, and what it finds was there before or has been saved since. */
  lemma {:induction false} NeverTheDefault(m: Machine, es: seq<Event>, crc32: Crc32, size: nat, spare: nat)
    requires Tidy(m.flash, crc32) && m.flash.Shaped(size, spare) && ErasedIsBad(crc32, size) && SavesFit(es, size)
    requires HasCopy(m.flash, crc32) && (m.Running? ==> m.flash.At(m.cur).Ok(crc32))
    ensures var n := Run(m, es, crc32);
      && Tidy(n.flash, crc32) && n.flash.Shaped(size, spare)
      && HasCopy(n.flash, crc32) && (n.Running? ==> n.flash.At(n.cur).Ok(crc32))
      && Selected(n.flash, crc32).Some?
      && forall d :: Holds(n.flash, d, crc32) ==> Holds(m.flash, d, crc32) || Saved(es, d)
  {
    hide Selected, Tidy, Step, Holds;
    if es != [] {
      var before, e := es[..|es| - 1], es[|es| - 1];
      Shorter(es, size);
      NeverTheDefault(m, before, crc32, size, spare);
      TidyStep(Run(m, before, crc32), e, crc32, size, spare);
      SavedBefore(es);
    }
    TidySelects(Run(m, es, crc32).flash, crc32);
  }

  predicate Saved(es: seq<Event>, d: Bytes) {
    exists i | 0 <= i < |es| :: es[i].Save? && es[i].data == d
  }

  lemma {:induction false} SavedBefore(es: seq<Event>)
    requires es != []
    ensures forall d :: Saved(es[..|es| - 1], d) ==> Saved(es, d)
    ensures es[|es| - 1].Save? ==> Saved(es, es[|es| - 1].data)
  {
    var before := es[..|es| - 1];
    forall d | Saved(before, d)
      ensures Saved(es, d)
    {
      var i :| 0 <= i < |before| && before[i].Save? && before[i].data == d;
      assert es[i] == before[i];
    }
  }

  /** A boot whose repair writes may fail keeps the selection, unless the copy in `Redundant` is taken,
      its flag is written and the flag of the older copy is not: then both are ACTIVE and every later
      boot takes the older one. */
  lemma {:induction false} RepairErrors(f: Flash, w: Where, crc32: Crc32, lasts: nat, faults: Faults)
    requires Recoverable(f, crc32) && Choose(f, Primary, crc32, 0).source == Copy(w)
    ensures var plan := RepairPlan(f, w, crc32);
      var g := Attempt(f, plan, lasts, faults);
      Choose(g, Primary, crc32, 0).source ==
      if w == Redundant && |plan| == 2 && lasts >= 2 && Fault(faults, 0) && !Fault(faults, 1) then Copy(Primary)
      else Copy(w)
  {
    RecoverableBoots(f, crc32, 0);
    AttemptRepairs(f, w, crc32, lasts, faults);
    hide Attempt;
    ProgramErased(0, ACTIVE_FLAG);
    ProgramErased(0, f.At(w.Other()).flags);
  }

  /** So a save that was cut behind its commit point is undone by such a boot. */
  lemma {:induction false} RepairErrorExample(f: Flash, data: Bytes, crc32: Crc32)
    requires f.primary.Ok(crc32) && f.primary.flags == ACTIVE_FLAG && !f.redundant.Ok(crc32)
    requires f.Shaped(|data|, |f.primary.rest|) && ErasedIsBad(crc32, |data|)
    ensures var g := After(f, SavePlan(f, Primary, Image(crc32(data), data)), 3);
      var m := Step(Off(g), Boot(2, [true, false]), crc32);
      && Selected(g, crc32) == Some(data) && m.Running? && Selected(m.flash, crc32) == Some(f.primary.data)
  {
    hide After, SaveOp, Attempt;
    SaveContents(f, Primary, Image(crc32(data), data), 3);
    var g := After(f, SavePlan(f, Primary, Image(crc32(data), data)), 3);
    assert g.At(Primary) == g.primary && g.At(Redundant) == g.redundant;
    assert Wins(g, Redundant, crc32);
    RecoverableBoots(g, crc32, 0);
    RepairErrors(g, Redundant, crc32, 2, [true, false]);
    AttemptRepairs(g, Redundant, crc32, 2, [true, false]);
  }

  // ----- which environment, with any device errors ---------------------------------------------

  /** The flag of a copy: as the erase left it, or as the code wrote it. */
  datatype Mark = Obsolete | Active | Fresh

  /** A sector without a valid copy, or what its copy is. */
  datatype Slot = Empty | Full(data: Bytes, mark: Mark) {
    function With(m: Mark): Slot {
      if Empty? then this else this.(mark := m)
    }

    /** How far a boot prefers it. */
    function Rank(): nat {
      if Empty? then 0 else if mark == Obsolete then 1 else if mark == Active then 2 else 3
    }
  }

  datatype Slots = Slots(primary: Slot, redundant: Slot) {
    function At(w: Where): Slot {
      if w.Primary? then primary else redundant
    }

    function Put(w: Where, s: Slot): Slots {
      if w.Primary? then this.(primary := s) else this.(redundant := s)
    }

    /** The slot a boot takes: the one of higher rank, and the first of two equal ones. */
    function Taken(): Where {
      if redundant.Rank() > primary.Rank() then Redundant else Primary
    }

    /** The environment a boot finds. */
    function Found(): Option<Bytes> {
      if At(Taken()).Empty? then None else Some(At(Taken()).data)
    }
  }

  datatype System = Down(slots: Slots) | Up(slots: Slots, cur: Where)

  function SlotOf(s: Sector, crc32: Crc32): Slot {
    if !s.Ok(crc32) then Empty
    else Full(s.data, if s.flags == ACTIVE_FLAG then Active else if s.flags == ERASED then Fresh else Obsolete)
  }

  function SlotsOf(f: Flash, crc32: Crc32): Slots {
    Slots(SlotOf(f.primary, crc32), SlotOf(f.redundant, crc32))
  }

  function SystemOf(m: Machine, crc32: Crc32): System {
    var s := SlotsOf(m.flash, crc32);
    if m.Off? then Down(s) else Up(s, m.cur)
  }

  /** A boot that takes `w`: a valid copy beside it is to become obsolete, and a fresh one active. */
  function Booted(s: Slots, w: Where, lasts: nat, faults: Faults): System {
    var other := w.Other();
    var retire, activate := s.At(other).Rank() >= 2, s.At(w).Rank() == 3;
    var due := (if retire then 1 else 0) + (if activate then 1 else 0);
    var r := if retire && lasts > 0 && !Fault(faults, 0) then s.Put(other, s.At(other).With(Obsolete)) else s;
    var last := if activate && lasts >= due && !Fault(faults, due - 1) then r.Put(w, s.At(w).With(Active)) else r;
    if lasts < due then Down(last) else Up(last, w)
  }

  /** A save that ends after `done` operations. */
  function SavedSlots(s: Slots, cur: Where, data: Bytes, done: nat, commit: nat): Slots {
    var spare := if done == 0 then s.At(cur.Other())
                 else if done < commit then Empty
                 else Full(data, if done >= 5 then Active else Fresh);
    s.Put(cur.Other(), spare).Put(cur, if done >= 4 then s.At(cur).With(Obsolete) else s.At(cur))
  }

  function Follow(y: System, e: Event, crc32: Crc32, spare: nat): System {
    match e
    case PowerOff => Down(y.slots)
    case Boot(lasts, faults) => if y.Up? then y else Booted(y.slots, y.slots.Taken(), lasts, faults)
    case Save(data, lasts, faults) =>
      if y.Down? then y
      else
        var end := Ends(SaveLength(spare), lasts, faults);
        var s := SavedSlots(y.slots, y.cur, data, end.done, CommitPoint(crc32(data)));
        match end
        case Cut(_) => Down(s)
        case Failed(_) => Up(s, y.cur)
        case Complete(_) => Up(s, y.cur.Other())
  }

  function FollowAll(y: System, es: seq<Event>, crc32: Crc32, spare: nat): System {
    if es == [] then y else Follow(FollowAll(y, es[..|es| - 1], crc32, spare), es[|es| - 1], crc32, spare)
  }

  /** On tidy contents the branches of env_init are that order of ranks. */
  lemma {:induction false} RankDecides(f: Flash, crc32: Crc32)
    requires Tidy(f, crc32)
    ensures var s := SlotsOf(f, crc32);
      && Choose(f, Primary, crc32, 0).source == (if s.At(s.Taken()).Empty? then Default else Copy(s.Taken()))
      && Selected(f, crc32) == s.Found()
  {
    assert f.At(Primary) == f.primary && f.At(Redundant) == f.redundant;
  }

  lemma {:induction false} SlotAt(f: Flash, w: Where, crc32: Crc32)
    ensures SlotsOf(f, crc32).At(w) == SlotOf(f.At(w), crc32)
  {
  }

  lemma {:induction false} SaveFollows(f: Flash, cur: Where, data: Bytes, crc32: Crc32, k: nat)
    requires Tidy(f, crc32) && |f.At(cur.Other()).data| == |data| && ErasedIsBad(crc32, |data|)
    requires k <= |SavePlan(f, cur, Image(crc32(data), data))|
    ensures SlotsOf(After(f, SavePlan(f, cur, Image(crc32(data), data)), k), crc32)
      == SavedSlots(SlotsOf(f, crc32), cur, data, k, CommitPoint(crc32(data)))
  {
    var img := Image(crc32(data), data);
    SaveContents(f, cur, img, k);
    hide ApplyAll, After, SaveOp, Program, Blank, Selected;
    var g := After(f, SavePlan(f, cur, img), k);
    SlotAt(f, cur, crc32);
    SlotAt(f, cur.Other(), crc32);
    SlotAt(g, cur, crc32);
    SlotAt(g, cur.Other(), crc32);
  }

  lemma {:induction false} BootFollows(f: Flash, lasts: nat, faults: Faults, crc32: Crc32)
    requires Tidy(f, crc32)
    ensures var s := SlotsOf(f, crc32);
      SystemOf(Step(Off(f), Boot(lasts, faults), crc32), crc32) == Booted(s, s.Taken(), lasts, faults)
  {
    RankDecides(f, crc32);
    var s := SlotsOf(f, crc32);
    var w := s.Taken();
    SlotAt(f, w, crc32);
    SlotAt(f, w.Other(), crc32);
    if !s.At(w).Empty? {
      AttemptRepairs(f, w, crc32, lasts, faults);
      hide Attempt, RepairPlan, Choose;
      ProgramErased(0, ACTIVE_FLAG);
      ProgramErased(0, f.At(w.Other()).flags);
    }
  }

  lemma {:induction false} StepFollows(m: Machine, e: Event, crc32: Crc32, size: nat, spare: nat)
    requires Tidy(m.flash, crc32) && m.flash.Shaped(size, spare) && ErasedIsBad(crc32, size)
    requires e.Save? ==> |e.data| == size
    ensures Tidy(Step(m, e, crc32).flash, crc32) && Step(m, e, crc32).flash.Shaped(size, spare)
    ensures SystemOf(Step(m, e, crc32), crc32) == Follow(SystemOf(m, crc32), e, crc32, spare)
  {
    hide After, Attempt, RepairPlan, Tidy, Choose, Ends, SavePlan, Booted, SavedSlots, SlotsOf;
    match e {
      case PowerOff =>
      case Boot(lasts, faults) =>
        if m.Off? {
          TidyBoot(m.flash, lasts, faults, crc32);
          BootFollows(m.flash, lasts, faults, crc32);
        }
      case Save(data, lasts, faults) =>
        if m.Running? {
          var k := Ends(SaveLength(spare), lasts, faults).done;
          SaveShape(m.flash, m.cur, Image(crc32(data), data), k);
          EndsWithin(SaveLength(spare), lasts, faults);
          TidySave(m.flash, m.cur, data, crc32, k);
          SaveFollows(m.flash, m.cur, data, crc32, k);
        }
    }
  }

  /** Over every run with any device errors, in saves and in repairs, the flash follows the two slots,
      and so a boot finds exactly what they say. */
  lemma {:induction false} RunsFollow(m: Machine, es: seq<Event>, crc32: Crc32, size: nat, spare: nat)
    requires Tidy(m.flash, crc32) && m.flash.Shaped(size, spare) && ErasedIsBad(crc32, size) && SavesFit(es, size)
    ensures var n, y := Run(m, es, crc32), FollowAll(SystemOf(m, crc32), es, crc32, spare);
      && Tidy(n.flash, crc32) && n.flash.Shaped(size, spare)
      && SystemOf(n, crc32) == y && Selected(n.flash, crc32) == y.slots.Found()
  {
    hide Selected, Tidy, Step, Follow;
    if es != [] {
      var before, e := es[..|es| - 1], es[|es| - 1];
      Shorter(es, size);
      RunsFollow(m, before, crc32, size, spare);
      StepFollows(Run(m, before, crc32), e, crc32, size, spare);
    }
    RankDecides(Run(m, es, crc32).flash, crc32);
  }
}
