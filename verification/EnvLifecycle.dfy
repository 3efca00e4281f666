/** The environment end to end: setenv in RAM (EnvBuffer), saveenv to flash, power cuts and boots
    (RedundantEnv, EnvRuns), and getenv after the next boot. */
module EnvLifecycle {
  import opened Common
  import R = RedundantEnv
  import Runs = EnvRuns
  import E = EnvBuffer

  /** The event is a save whose commit point is reached. */
  predicate Commits(e: R.Event, crc32: R.Crc32, spare: nat) {
    e.Save? && R.Ends(Runs.SaveLength(spare), e.lasts, e.faults).done >= R.CommitPoint(crc32(e.data))
  }

  /** A save that is complete, or cut behind its commit point, is remembered until the next save that
      reaches its own. */
  lemma {:induction false} MemoryKeeps(m: R.Machine, save: R.Event, es: seq<R.Event>, crc32: R.Crc32,
                                       spare: nat, initial: Runs.Memory)
    requires m.Running? && |m.flash.primary.rest| == |m.flash.redundant.rest| == spare
    requires Commits(save, crc32, spare) && !R.Ends(Runs.SaveLength(spare), save.lasts, save.faults).Failed?
    requires forall i | 0 <= i < |es| :: !Commits(es[i], crc32, spare)
    ensures var r := Runs.Remembered(m, [save] + es, crc32, spare, initial);
      r.found == Some(save.data) && (Runs.Run(m, [save] + es, crc32).Running? ==> r.inUse == Some(save.data))
  {
    hide R.Ends, R.Choose, R.After, R.Attempt;
    var all := [save] + es;
    if es == [] {
      assert all[..0] == [] && all[0] == save;
      R.EndsWithin(Runs.SaveLength(spare), save.lasts, save.faults);
    } else {
      var before, e := es[..|es| - 1], es[|es| - 1];
      MemoryKeeps(m, save, before, crc32, spare, initial);
      assert all[..|all| - 1] == [save] + before && all[|all| - 1] == e;
      assert !Commits(e, crc32, spare);
      if e.Save? {
        R.EndsWithin(Runs.SaveLength(spare), e.lasts, e.faults);
      }
    }
  }

  /** Once a save of the RAM buffer has returned or was cut behind its commit point, any later run of
      boots, power cuts and uncommitted saves, failing ones included, leaves a flash whose next boot
      finds exactly the saved variables; in particular a variable that was set before the save is
      looked up with its words. */
  lemma {:induction false} SavedVariablesSurvive(m: R.Machine, vars: seq<E.Var>, c: E.Command, data: R.Bytes, save: R.Event,
                              es: seq<R.Event>, crc32: R.Crc32, spare: nat)
    requires E.AllValid(vars) && E.Unique(vars) && c.Valid()
    requires E.Set(vars, c, |data|).0 == 0 && c.args != []
    requires E.Image(E.Set(vars, c, |data|).1) <= data
    requires Runs.Sound(m, crc32, |data|, spare) && R.ErasedIsBad(crc32, |data|) && m.Running?
    requires Commits(save, crc32, spare) && save.data == data
    requires !R.Ends(Runs.SaveLength(spare), save.lasts, save.faults).Failed?
    requires Runs.SavesFit(es, |data|) && Runs.RepairsSucceed(es)
    requires forall i | 0 <= i < |es| :: !Commits(es[i], crc32, spare)
    ensures var f := Runs.Run(m, [save] + es, crc32).flash;
      && R.Selected(f, crc32).Some?
      && var booted := E.Decode(R.Selected(f, crc32).value);
      && booted == E.Set(vars, c, |data|).1
      && E.Lookup(booted, c.name) == Some(E.Join(c.args))
      && (forall other | other != c.name :: E.Lookup(booted, other) == E.Lookup(vars, other))
  {
    hide R.Selected, Runs.Run, R.Ends, Commits, E.Decode, E.Set, E.Image, E.Lookup, E.AllValid, E.Unique;
    SavedImageSurvives(m, data, save, es, crc32, spare);
    ImageHoldsTheChange(vars, c, data);
  }

  lemma {:induction false} ImageHoldsTheChange(vars: seq<E.Var>, c: E.Command, data: R.Bytes)
    requires E.AllValid(vars) && E.Unique(vars) && c.Valid()
    requires E.Set(vars, c, |data|).0 == 0 && c.args != []
    requires E.Image(E.Set(vars, c, |data|).1) <= data
    ensures E.Decode(data) == E.Set(vars, c, |data|).1
    ensures E.Lookup(E.Decode(data), c.name) == Some(E.Join(c.args))
    ensures forall other | other != c.name :: E.Lookup(E.Decode(data), other) == E.Lookup(vars, other)
  {
    hide E.Decode;
    var after := E.Set(vars, c, |data|).1;
    E.SetLaws(vars, c, |data|);
    var junk := data[|E.Image(after)|..];
    assert data == E.Image(after) + junk;
    E.DecodeImage(after, junk);
  }

  lemma {:induction false} SavedImageSurvives(m: R.Machine, data: R.Bytes, save: R.Event, es: seq<R.Event>,
                                              crc32: R.Crc32, spare: nat)
    requires Runs.Sound(m, crc32, |data|, spare) && R.ErasedIsBad(crc32, |data|) && m.Running?
    requires Commits(save, crc32, spare) && save.data == data
    requires !R.Ends(Runs.SaveLength(spare), save.lasts, save.faults).Failed?
    requires Runs.SavesFit(es, |data|) && Runs.RepairsSucceed(es)
    requires forall i | 0 <= i < |es| :: !Commits(es[i], crc32, spare)
    ensures R.Selected(Runs.Run(m, [save] + es, crc32).flash, crc32) == Some(data)
  {
    var all := [save] + es;
    assert Runs.SavesFit(all, |data|) && Runs.RepairsSucceed(all);
    var initial := Runs.Memory(R.InUse(m.flash, m.cur, crc32), R.Selected(m.flash, crc32));
    hide R.Selected, Runs.Run, R.Ends, R.Choose, R.Recoverable, R.Serving, R.InUse, Runs.SavesFit, Runs.RepairsSucceed;
    MemoryKeeps(m, save, es, crc32, spare, initial);
    Runs.RunsRefineTheMemory(m, all, crc32, |data|, spare, initial);
  }

  /** What _do_setenv leaves behind when the new entry does not fit: the old value is gone, the CRC is
      that of the bytes before, and unless the two byte strings happen to have the same CRC the next
      save is not seen by any boot and the save after it, cut behind its erase, loses everything. */
  lemma {:induction false} OverflowThenSave(f: R.Flash, cur: R.Where, was: R.Bytes, now: R.Bytes, later: R.Image, crc32: R.Crc32)
    requires R.Settled(f, cur, crc32) && f.At(cur).Ok(crc32)
    requires |was| == |now| == |later.data| && f.Shaped(|now|, |f.primary.rest|)
    requires R.ErasedIsBad(crc32, |now|)
    ensures var img := R.Image(crc32(was), now);
      var plan := R.SavePlan(f, cur, img);
      var g := R.After(f, plan, |plan|);
      R.Selected(g, crc32) ==
        Some(if crc32(was) == crc32(now) then now else f.At(cur).data)
      && (crc32(was) != crc32(now) ==>
            R.Selected(R.After(g, R.SavePlan(g, cur.Other(), later), 1), crc32) == None)
  {
    if crc32(was) == crc32(now) {
      R.SaveIsAtomic(f, cur, now, crc32, 6);
      var plan := R.SavePlan(f, cur, R.Image(crc32(now), now));
      assert R.After(f, plan, 6) == R.After(f, plan, |plan|);
    } else {
      R.StaleCrcLosesTheEnvironment(f, cur, R.Image(crc32(was), now), later, crc32);
    }
  }

  /** One setenv and one saveenv on a system that uses a valid copy, whatever the save meets: a boot
      finds the bytes of the buffer exactly if they match the CRC that has got into the sector, and
      otherwise the older environment.  If setenv has succeeded, those bytes are the variables it
      promises and the CRC is theirs; if it has failed, the CRC is that of the bytes before it. */
  method SetAndSave(buf: E.EnvBuffer, dev: R.EnvFlash, c: E.Command) returns (rc: int, saved: R.Outcome)
    requires buf.Valid() && c.Valid() && dev.Valid() && buf.crc32 == dev.crc32
    requires buf.crc == buf.crc32(buf.data[..])
    requires R.Settled(dev.flash, dev.flashAddr, dev.crc32) && dev.flash.At(dev.flashAddr).Ok(dev.crc32)
    requires dev.flash.Shaped(buf.data.Length, |dev.flash.primary.rest|) && R.ErasedIsBad(dev.crc32, buf.data.Length)
    modifies buf, buf.data, dev
    ensures buf.Valid() && (rc, buf.vars) == E.Set(old(buf.vars), c, buf.data.Length)
    ensures buf.crc == dev.crc32(if rc == 0 then buf.data[..] else old(buf.data[..]))
    ensures E.Decode(buf.data[..]) == buf.vars
    ensures
      var img := R.Image(buf.crc, buf.data[..]);
      var plan := R.SavePlan(old(dev.flash), old(dev.flashAddr), img);
      var end := R.Ends(|plan|, old(dev.budget), old(dev.faults));
      && (saved == R.PowerCut <==> end.Cut?)
      && (saved == R.Returned(0) <==> end.Complete? || (end.Failed? && end.done == 5))
      && R.Selected(dev.flash, dev.crc32) ==
         Some(if R.Readable(img, dev.crc32, end.done) then buf.data[..] else old(dev.flash.At(dev.flashAddr).data))
      && (rc == 0 ==> (R.Readable(img, dev.crc32, end.done) <==> end.done >= R.CommitPoint(buf.crc)))
  {
    hide R.Selected, R.After, R.SavePlan, R.Ends, E.Set, E.Decode;
    ghost var f, cur := dev.flash, dev.flashAddr;
    rc := buf.SetEnv(c);
    dev.envPtr := R.Image(buf.crc, buf.data[..]);
    saved := dev.SaveEnv(true, true);
    ghost var plan := R.SavePlan(f, cur, dev.envPtr);
    ghost var end := R.Ends(|plan|, old(dev.budget), old(dev.faults));
    R.SaveOfAnyImage(f, cur, dev.envPtr, dev.crc32, end.done);
    DecodesToVars(buf);
  }

  lemma {:induction false} DecodesToVars(buf: E.EnvBuffer)
    requires buf.Valid()
    ensures E.Decode(buf.data[..]) == buf.vars
  {
    hide E.Image;
    var image := E.Image(buf.vars);
    var junk := buf.data[|image|..];
    assert buf.data[..] == image + junk;
    E.DecodeImage(buf.vars, junk);
  }
}
