/** The complete memory test of common/cmd_mem.c (do_mem_mtest with CONFIG_SYS_ALT_MEMTEST), run on a
    memory that may be faulty.

    u32 offsets from the start of the region are wired to cells, several of them possibly to the same
    one, and what is read from a cell need not be what was written to it. */
module MemTest {
  import opened Common

  function Complement(x: u32): u32 {
    0xFFFF_FFFF - x
  }

  function Bit(x: nat, b: nat): bool {
    if b == 0 then x % 2 == 1 else Bit(x / 2, b - 1)
  }

  lemma {:induction false} OppositeBits(x: nat, y: nat, n: nat, b: nat)
    requires x + y == Pow2(n) - 1 && b < n
    ensures Bit(x, b) != Bit(y, b)
  {
    if b > 0 {
      OppositeBits(x / 2, y / 2, n - 1, b - 1);
    }
  }

  lemma {:induction false} ComplementBits(x: u32, b: nat)
    requires b < 32
    ensures Bit(Complement(x), b) != Bit(x, b)
  {
    Pow32();
    OppositeBits(Complement(x), x, 32, b);
  }

  /** The walking offsets 1, 2, 4, ... */
  predicate IsPower(o: nat) {
    o == 1 || (o > 0 && o % 2 == 0 && IsPower(o / 2))
  }

  lemma {:induction false} NextPower(o: nat, p: nat)
    requires IsPower(o) && IsPower(p) && o < p
    ensures 2 * o <= p && IsPower(2 * o)
  {
    assert 2 * o / 2 == o;
    if o > 1 {
      NextPower(o / 2, p / 2);
    }
  }

  lemma {:induction false} Doubled(o: nat)
    requires IsPower(o)
    ensures IsPower(2 * o)
  {
    assert 2 * o / 2 == o;
  }

  const PATTERN: u32 := 0xAAAA_AAAA
  const ANTI_PATTERN: u32 := 0x5555_5555

  const BITPATTERN: seq<u32> :=
    [0x0000_0001, 0x0000_0003, 0x0000_0007, 0x0000_000F, 0x0000_0005, 0x0000_0015, 0x0000_0055, 0xAAAA_AAAA]

  /** val << k */
  function Shifted(val: u32, k: nat): u32 {
    val * Pow2(k) % 0x1_0000_0000
  }

  lemma {:induction false} ShiftOnce(val: u32, k: nat)
    ensures Shifted(val, k + 1) == Shifted(val, k) * 2 % 0x1_0000_0000
  {
    var p := Pow2(k);
    assert Pow2(k + 1) == 2 * p;
    assert val * (2 * p) == val * p * 2;
    hide Pow2;
    TwiceMod(val * p);
  }

  lemma {:induction false} TwiceMod(x: nat)
    ensures x * 2 % 0x1_0000_0000 == x % 0x1_0000_0000 * 2 % 0x1_0000_0000
  {
    var m, q, y := 0x1_0000_0000, x / 0x1_0000_0000, x % 0x1_0000_0000;
    assert x == q * m + y;
    if 2 * y < m {
      DivisionIs(2 * x, m, 2 * q, 2 * y);
    } else {
      DivisionIs(2 * x, m, 2 * q + 1, 2 * y - m);
    }
  }

  lemma {:induction false} NoShift(val: u32)
    ensures Shifted(val, 0) == val
  {
    assert val * Pow2(0) == val;
  }

  lemma {:induction false} ShiftedOut(val: u32)
    ensures Shifted(val, 32) == 0
  {
    Pow32();
  }

  lemma {:induction false} Pow32()
    ensures Pow2(32) == 0x1_0000_0000
  {
    assert Pow2(8) == 0x100;
    assert Pow2(16) == 0x100 * Pow2(8);
    assert Pow2(24) == 0x100 * Pow2(16);
    assert Pow2(32) == 0x100 * Pow2(24);
  }

  // ----- faulty memory ------------------------------------------------------------------------

  class Memory {
    const wiring: int -> int          // word offset to cell
    const back: (int, u32) -> u32   // what a cell gives back after a word was written to it
    var raw: map<int, u32>           // the words last written

    constructor (w: int -> int, b: (int, u32) -> u32, r: map<int, u32>)
      ensures wiring == w && back == b
    {
      wiring, back, raw := w, b, r;
    }

    function Cell(o: int): int {
      wiring(o)
    }

    function Back(c: int, v: u32): u32 {
      back(c, v)
    }

    /** The cell at an offset gives back every word. */
    ghost predicate Sound(o: int) {
      forall v: u32 :: Back(Cell(o), v) == v
    }

    /** Some bit of the cell at an offset never changes. */
    ghost predicate Stuck(o: int) {
      exists b: nat, s: bool :: b < 32 && StuckAt(o, b, s)
    }

    ghost predicate StuckAt(o: int, b: nat, s: bool) {
      forall v: u32 :: Bit(Back(Cell(o), v), b) == s
    }

    /** The fault model: a cell is sound or has a stuck bit; its other bits may do anything. */
    ghost predicate SoundOrStuck(n: nat) {
      forall o | 0 <= o < n :: Sound(o) || Stuck(o)
    }

    ghost predicate AllSound(n: nat) {
      forall o | 0 <= o < n :: Sound(o)
    }

    /** No two offsets share a cell. */
    ghost predicate Unaliased(n: nat) {
      forall a, b | 0 <= a < b < n :: Cell(a) != Cell(b)
    }

    method Write(o: int, v: u32)
      modifies this
      ensures raw == old(raw)[Cell(o) := v]
    {
      raw := raw[Cell(o) := v];
    }

    function Value(o: int): u32
      reads this
    {
      Back(Cell(o), if Cell(o) in raw then raw[Cell(o)] else 0)
    }

    method Read(o: int) returns (v: u32)
      ensures v == Value(o)
    {
      v := Value(o);
    }

    /** The cell at `o` has given back `x` for some word. */
    ghost predicate Gives(o: int, x: u32) {
      exists v: u32 :: Back(Cell(o), v) == x
    }

    /** What the first and the second check want to read at `o`. */
    ghost predicate Passed(o: int, inverted: bool) {
      0 <= o < 0x4000_0000 && Gives(o, if inverted then Complement(o + 1) else o + 1)
    }

    ghost predicate AllPassed(n: nat, inverted: bool) {
      forall o | 0 <= o < n :: Passed(o, inverted)
    }

    /** A stuck cell cannot give back a word and its complement. */
    lemma {:induction false} StuckIsSeen(o: int, x: u32)
      requires Gives(o, x) && Gives(o, Complement(x))
      ensures !Stuck(o)
    {
      var v: u32 :| Back(Cell(o), v) == x;
      var w: u32 :| Back(Cell(o), w) == Complement(x);
      forall b: nat, s: bool | b < 32
        ensures !StuckAt(o, b, s)
      {
        ComplementBits(x, b);
        assert Bit(Back(Cell(o), v), b) != Bit(Back(Cell(o), w), b);
      }
    }

    // ----- the march over the whole region ----------------------------------------------------

    /** The three last loops over `n` words: fill, check and invert, check the inverse and clear.  No
        error is counted exactly when the words have cells of their own and every cell is sound. */
    method March(n: nat) returns (errs: nat)
      requires n <= 0x4000_0000 && SoundOrStuck(n)
      modifies this
      ensures errs == 0 <==> Unaliased(n) && AllSound(n)
    {
      errs := 0;
      Fill(n);
      ghost var filled := raw;
      errs := CheckAndInvert(n, filled);
      var more := CheckAndClear(n);
      errs := errs + more;
      if errs == 0 {
        forall o | 0 <= o < n
          ensures Sound(o)
        {
          assert Passed(o, false) && Passed(o, true);
          StuckIsSeen(o, o + 1);
        }
      }
    }

    method Fill(n: nat)
      requires n <= 0x4000_0000
      modifies this
      ensures Filled(raw, n)
    {
      var pattern: u32, offset: u32 := 1, 0;
      while offset < n
        invariant offset <= n && pattern == offset + 1
        invariant forall a | 0 <= a < offset :: Cell(a) in raw && a + 1 <= raw[Cell(a)] <= offset
        invariant Unaliased(n) ==> forall a | 0 <= a < offset :: raw[Cell(a)] == a + 1
      {
        Write(offset, pattern);
        pattern, offset := (pattern + 1) % 0x1_0000_0000, offset + 1;
      }
    }

    /** The words that the second check expects. */
    ghost predicate Inverted(words: map<int, u32>, n: nat) {
      forall a | 0 <= a < n :: Cell(a) in words && words[Cell(a)] == Complement((a + 1) % 0x1_0000_0000)
    }

    /** The words the fill leaves: those of later offsets win, and without aliases each is in place. */
    ghost predicate Filled(words: map<int, u32>, n: nat) {
      && (forall a | 0 <= a < n :: Cell(a) in words && a + 1 <= words[Cell(a)])
      && (Unaliased(n) ==> forall a | 0 <= a < n :: words[Cell(a)] == a + 1)
    }

    /** The cell at `b` is not that of an offset below `k`. */
    ghost predicate Alone(b: int, k: int) {
      forall a | 0 <= a < k :: Cell(a) != Cell(b)
    }

    /** The offsets below `k` share no cell with any other. */
    ghost predicate PrefixAlone(k: nat, n: nat) {
      forall a, b | 0 <= a < k && a < b < n :: Cell(a) != Cell(b)
    }

    /** What is not yet checked is as it was filled, unless an alias has been inverted. */
    ghost predicate Untouched(words: map<int, u32>, filled: map<int, u32>, k: nat, n: nat) {
      forall b | k <= b < n && Alone(b, k) :: Cell(b) in words && Cell(b) in filled && words[Cell(b)] == filled[Cell(b)]
    }

    method CheckAndInvert(n: nat, ghost filled: map<int, u32>) returns (errs: nat)
      requires n <= 0x4000_0000 && raw == filled && Filled(filled, n)
      modifies this
      ensures errs == 0 ==> AllPassed(n, false)
      ensures errs == 0 && AllSound(n) ==> Unaliased(n)
      ensures Unaliased(n) && AllSound(n) ==> errs == 0 && Inverted(raw, n)
    {
      hide Cell, Back, Unaliased, PrefixAlone, AllSound, Untouched, Filled, Inverted, Passed, AllPassed, Complement;
      NothingInverted(filled, n);
      AllAlone(n);
      errs := 0;
      var pattern: u32, offset: u32 := 1, 0;
      while offset < n
        invariant offset <= n && pattern == offset + 1
        invariant errs == 0 ==> AllPassed(offset, false)
        invariant Untouched(raw, filled, offset, n)
        invariant errs == 0 && AllSound(n) ==> PrefixAlone(offset, n)
        invariant Unaliased(n) && AllSound(n) ==> errs == 0 && Inverted(raw, offset)
      {
        var temp := Read(offset);
        if temp != pattern {
          errs := errs + 1;
        }
        FirstCheck(offset, n, filled, temp);
        OneMorePassed(offset, false);
        Overwrite(raw, filled, offset, n);
        Write(offset, Complement(pattern));
        pattern, offset := (pattern + 1) % 0x1_0000_0000, offset + 1;
      }
    }

    lemma {:induction false} NothingInverted(filled: map<int, u32>, n: nat)
      requires n <= 0x4000_0000 && Filled(filled, n)
      ensures Untouched(filled, filled, 0, n) && AllPassed(0, false) && Inverted(filled, 0)
    {
    }

    lemma {:induction false} OneMorePassed(offset: nat, second: bool)
      ensures AllPassed(offset, second) && Passed(offset, second) ==> AllPassed(offset + 1, second)
    {
      hide Passed;
    }

    lemma {:induction false} AllAlone(n: nat)
      ensures PrefixAlone(n, n) <==> Unaliased(n)
      ensures PrefixAlone(0, n)
    {
    }

    /** What one read of the first check tells. */
    lemma {:induction false} FirstCheck(offset: nat, n: nat, filled: map<int, u32>, temp: u32)
      requires offset < n <= 0x4000_0000 && temp == Value(offset)
      requires Filled(filled, n) && Untouched(raw, filled, offset, n)
      ensures temp == offset + 1 ==> Passed(offset, false)
      ensures AllSound(n) && PrefixAlone(offset, n) && temp == offset + 1 ==> PrefixAlone(offset + 1, n)
      ensures AllSound(n) && Unaliased(n) ==> temp == offset + 1
    {
      if PrefixAlone(offset, n) || Unaliased(n) {
        assert Alone(offset, offset);
      }
      if AllSound(n) && Alone(offset, offset) {
        assert Sound(offset) && temp == filled[Cell(offset)];
      }
    }

    lemma {:induction false} Overwrite(words: map<int, u32>, filled: map<int, u32>, k: nat, n: nat)
      requires k < n <= 0x4000_0000 && Untouched(words, filled, k, n)
      ensures var after := words[Cell(k) := Complement(k + 1)];
        && Untouched(after, filled, k + 1, n)
        && (Unaliased(n) && Inverted(words, k) ==> Inverted(after, k + 1))
    {
      hide Cell;
      forall b | k + 1 <= b < n && Alone(b, k + 1)
        ensures Alone(b, k) && Cell(b) != Cell(k)
      {
      }
    }

    method CheckAndClear(n: nat) returns (errs: nat)
      requires n <= 0x4000_0000
      modifies this
      ensures errs == 0 ==> AllPassed(n, true)
      ensures Unaliased(n) && AllSound(n) && Inverted(old(raw), n) ==> errs == 0
    {
      errs := 0;
      var pattern: u32, offset: u32 := 1, 0;
      ghost var before := raw;
      while offset < n
        invariant offset <= n && pattern == offset + 1
        invariant errs == 0 ==> AllPassed(offset, true)
        invariant Unaliased(n) ==>
          forall b | offset <= b < n && Cell(b) in before :: Cell(b) in raw && raw[Cell(b)] == before[Cell(b)]
        invariant Unaliased(n) && AllSound(n) && Inverted(before, n) ==> errs == 0
      {
        var temp := Read(offset);
        if temp != Complement(pattern) {
          errs := errs + 1;
        }
        assert AllSound(n) ==> Sound(offset);
        Write(offset, 0);
        pattern, offset := (pattern + 1) % 0x1_0000_0000, offset + 1;
      }
    }

    // ----- the data lines ---------------------------------------------------------------------

    /** 1 if the first word, written with `val` and followed by the opposite at the parking address, is not
        read as `val`. */
    function Misread(val: u32, dummy: int): nat {
      if Back(Cell(0), if Cell(0) == Cell(dummy) then 0xFFFF_FFFF - val else val) == val then 0 else 1
    }

    /** The same for the first `k` shifts of a pattern and their complements, as long as they are not zero. */
    function MisreadShifts(pattern: u32, k: nat, dummy: int): nat {
      if k == 0 then 0
      else
        var val := Shifted(pattern, k - 1);
        MisreadShifts(pattern, k - 1, dummy) +
          if val == 0 then 0 else Misread(val, dummy) + Misread(0xFFFF_FFFF - val, dummy)
    }

    function MisreadPatterns(patterns: seq<u32>, dummy: int): nat {
      if patterns == [] then 0
      else MisreadPatterns(patterns[..|patterns| - 1], dummy) + MisreadShifts(patterns[|patterns| - 1], 32, dummy)
    }

    /** One value and its complement at the first word, each followed by the opposite at the parking
        address. */
    method TestValue(val: u32, dummy: int) returns (errs: nat)
      modifies this
      ensures errs == Misread(val, dummy) + Misread(0xFFFF_FFFF - val, dummy)
      ensures Sound(0) || Stuck(0) ==> (errs == 0 <==> Sound(0) && Cell(0) != Cell(dummy))
    {
      errs := 0;
      Write(0, val);
      Write(dummy, Complement(val));
      var readback := Read(0);
      if readback != val {
        errs := errs + 1;
      }
      Write(0, Complement(val));
      Write(dummy, val);
      readback := Read(0);
      if readback != Complement(val) {
        errs := errs + 1;
      }
      if errs == 0 {
        StuckIsSeen(0, val);
      }
    }

    /** The data line test.  It counts each misreading of eight patterns, their shifts and the complements
        of these; with a sound or stuck first cell there is none exactly if the cell is sound and the
        parking address has another one. */
    method DataLines(dummy: int) returns (errs: nat)
      modifies this
      ensures errs == MisreadPatterns([1, 3, 7, 15, 5, 21, 85, 0xAAAA_AAAA], dummy)
      ensures Sound(0) || Stuck(0) ==> (errs == 0 <==> Sound(0) && Cell(0) != Cell(dummy))
    {
      errs := 0;
      var j := 0;
      while j < |BITPATTERN|
        invariant j <= |BITPATTERN| && errs == MisreadPatterns(BITPATTERN[..j], dummy)
        invariant Sound(0) || Stuck(0) ==> (errs == 0 <==> j == 0 || (Sound(0) && Cell(0) != Cell(dummy)))
      {
        var more := TestShifts(BITPATTERN[j], dummy);
        assert BITPATTERN[..j + 1][..j] == BITPATTERN[..j];
        errs, j := errs + more, j + 1;
      }
      assert BITPATTERN[..8] == BITPATTERN == [1, 3, 7, 15, 5, 21, 85, 0xAAAA_AAAA];
    }

    lemma {:induction false} NothingLeft(pattern: u32, k: nat, n: nat, dummy: int)
      requires k <= n && Shifted(pattern, k) == 0
      ensures Shifted(pattern, n) == 0 && MisreadShifts(pattern, n, dummy) == MisreadShifts(pattern, k, dummy)
      decreases n - k
    {
      hide Shifted, Misread;
      if k < n {
        ShiftOnce(pattern, k);
        NothingLeft(pattern, k + 1, n, dummy);
      }
    }

    /** A pattern shifted left until nothing is left of it. */
    method TestShifts(pattern: u32, dummy: int) returns (errs: nat)
      requires pattern != 0
      modifies this
      ensures errs == MisreadShifts(pattern, 32, dummy)
      ensures Sound(0) || Stuck(0) ==> (errs == 0 <==> Sound(0) && Cell(0) != Cell(dummy))
    {
      hide Shifted, Misread, Sound, Stuck, Cell, Back;
      errs := 0;
      var val := pattern;
      ghost var k := 0;
      NoShift(pattern);
      while val != 0
        invariant val == Shifted(pattern, k) && k <= 32 && errs == MisreadShifts(pattern, k, dummy)
        invariant Sound(0) || Stuck(0) ==> (errs == 0 <==> k == 0 || (Sound(0) && Cell(0) != Cell(dummy)))
        decreases 32 - k
      {
        ShiftedOut(pattern);
        ShiftOnce(pattern, k);
        var more := TestValue(val, dummy);
        errs, val, k := errs + more, (val as int) * 2 % 0x1_0000_0000, k + 1;
      }
      NothingLeft(pattern, k, 32, dummy);
    }

    // ----- the address lines ------------------------------------------------------------------

    /** An offset the address test uses. */
    predicate Walking(o: int, len: nat) {
      0 <= o < len && (o == 0 || IsPower(o))
    }

    ghost predicate WalkingSound(len: nat) {
      Sound(0) && forall o | Walking(o, len) :: Sound(o)
    }

    /** Offset 0 and the powers of two below `len` have cells of their own. */
    ghost predicate WalkingUnaliased(len: nat) {
      forall a, b | Walking(a, len) && Walking(b, len) && a != b :: Cell(a) != Cell(b)
    }

    /** The powers of two below `k` hold the pattern. */
    ghost predicate Patterned(words: map<int, u32>, k: int) {
      forall o | 0 < o < k && IsPower(o) :: Cell(o) in words && words[Cell(o)] == 0xAAAA_AAAA
    }

    method SetPowers(len: nat)
      modifies this
      ensures Patterned(raw, len)
    {
      var offset := 1;
      while offset < len
        invariant IsPower(offset) && Patterned(raw, if offset < len then offset else len)
        decreases len - offset
      {
        Doubled(offset);
        Write(offset, PATTERN);
        forall o | 0 < o < 2 * offset && IsPower(o)
          ensures o <= offset
        {
          if offset < o { NextPower(offset, o); }
        }
        offset := 2 * offset;
      }
    }

    /** Some power of two below `k`, other than `t`, does not read as the pattern. */
    ghost predicate Differs(k: int, t: int)
      reads this
    {
      exists o :: 0 < o < k && IsPower(o) && o != t && Value(o) != 0xAAAA_AAAA
    }

    method CheckPowers(len: nat, testOffset: nat) returns (errs: nat)
      ensures errs == 0 <==> !Differs(len, testOffset)
    {
      hide Differs, IsPower, Value;
      errs := 0;
      var offset := 1;
      NoneDiffers(testOffset);
      while offset < len
        invariant offset > 0 && IsPower(offset)
        invariant errs == 0 <==> !Differs(if offset < len then offset else len, testOffset)
        decreases len - offset
      {
        Doubled(offset);
        MoreDiffers(offset, if 2 * offset < len then 2 * offset else len, testOffset);
        var temp := Read(offset);
        if temp != PATTERN && offset != testOffset {
          errs := errs + 1;
        }
        offset := 2 * offset;
      }
    }

    lemma {:induction false} NoneDiffers(t: int)
      ensures IsPower(1) && (forall k | k <= 1 :: !Differs(k, t))
    {
    }

    lemma {:induction false} MoreDiffers(o: nat, k: nat, t: int)
      requires 0 < o < k <= 2 * o && IsPower(o)
      ensures Differs(k, t) <==> Differs(o, t) || (Value(o) != 0xAAAA_AAAA && o != t)
    {
      hide Value, IsPower;
      forall p | o < p < k && IsPower(p)
        ensures false
      {
        NextPower(o, p);
      }
    }

    /** The address line test: on sound cells it counts an error exactly when two of the walking offsets
        share a cell. */
    method AddressLines(len: nat) returns (errs: nat)
      modifies this
      ensures WalkingSound(len) ==> (errs == 0 <==> WalkingUnaliased(len))
    {
      SetPowers(len);
      hide Cell, Back, IsPower, Patterned, Differs, Walking, AloneAmongPowers, WalkingUnaliased, WalkingSound;
      ghost var words := raw;
      Write(0, ANTI_PATTERN);
      errs := CheckPowers(len, 0);
      AntiPattern(len, 0, words);
      Restored(len, 0, words);
      Write(0, PATTERN);
      var testOffset := 1;
      FirstPower(len);
      while testOffset < len
        invariant IsPower(testOffset) && testOffset > 0 && Patterned(raw, len)
        invariant WalkingSound(len) ==> (errs == 0 <==> Checked(testOffset, len))
        decreases len - testOffset
      {
        words := raw;
        Write(testOffset, ANTI_PATTERN);
        var more := CheckPowers(len, testOffset);
        AntiPattern(len, testOffset, words);
        Restored(len, testOffset, words);
        Write(testOffset, PATTERN);
        NextChecked(testOffset, len);
        errs, testOffset := errs + more, 2 * testOffset;
      }
      AllChecked(testOffset, len);
    }

    /** The offsets below `t` have been tested and are alone. */
    ghost predicate Checked(t: int, len: nat) {
      forall a | Walking(a, len) && a < t :: AloneAmongPowers(a, len)
    }

    lemma {:induction false} FirstPower(len: nat)
      ensures IsPower(1) && (Checked(1, len) <==> AloneAmongPowers(0, len))
    {
    }

    lemma {:induction false} NextChecked(t: nat, len: nat)
      requires IsPower(t) && 0 < t < len
      ensures IsPower(2 * t) && (Checked(2 * t, len) <==> Checked(t, len) && AloneAmongPowers(t, len))
    {
      Doubled(t);
      forall o | 0 < o < 2 * t && IsPower(o)
        ensures o <= t
      {
        if t < o { NextPower(t, o); }
      }
      hide AloneAmongPowers;
      assert Walking(t, len);
    }

    lemma {:induction false} AllChecked(t: int, len: nat)
      requires t >= len
      ensures Checked(t, len) <==> WalkingUnaliased(len)
    {
      hide Cell;
      if Checked(t, len) {
        forall a, b | Walking(a, len) && Walking(b, len) && a != b
          ensures Cell(a) != Cell(b)
        {
          assert AloneAmongPowers(a, len) && AloneAmongPowers(b, len);
        }
      }
      if WalkingUnaliased(len) {
        forall a, o | Walking(a, len) && 0 < o < len && IsPower(o) && o != a
          ensures Cell(o) != Cell(a)
        {
          assert Walking(o, len);
        }
      }
    }

    /** While offset `t` holds the opposite pattern, exactly its aliases differ. */
    lemma {:induction false} AntiPattern(len: nat, t: int, words: map<int, u32>)
      requires Patterned(words, len) && raw == words[Cell(t) := ANTI_PATTERN]
      ensures WalkingSound(len) ==> (Differs(len, t) <==> !AloneAmongPowers(t, len))
    {
      hide Cell, Back;
      if WalkingSound(len) {
        forall o | 0 < o < len && IsPower(o) && o != t
          ensures Value(o) == if Cell(o) == Cell(t) then ANTI_PATTERN else PATTERN
        {
          assert Walking(o, len) && Sound(o);
        }
      }
    }

    lemma {:induction false} Restored(len: nat, t: int, words: map<int, u32>)
      requires Patterned(words, len)
      ensures Patterned(words[Cell(t) := ANTI_PATTERN][Cell(t) := PATTERN], len)
    {
    }

    /** No power of two below `len` other than `a` shares the cell of `a`. */
    ghost predicate AloneAmongPowers(a: int, len: nat) {
      forall o | 0 < o < len && IsPower(o) && o != a :: Cell(o) != Cell(a)
    }

    /** One iteration of the test over `n` words counts no error exactly when the memory is good: every
        word has a cell of its own, every cell is sound, and the parking address is not the first word. */
    method Iteration(n: nat, dummy: int) returns (errs: nat)
      requires 0 < n <= 0x4000_0000 && SoundOrStuck(n)
      modifies this
      ensures errs == 0 <==> Unaliased(n) && AllSound(n) && Cell(0) != Cell(dummy)
    {
      var e1 := DataLines(dummy);
      var e2 := AddressLines(n - 1);
      var e3 := March(n);
      errs := e1 + e2 + e3;
      assert AllSound(n) ==> Sound(0);
    }
  }
}
