/** Assembling and disassembling PowerPC operands (common/bedbug.c). The tables of opcodes and operands
    are parameters; text is represented by the numbers that read_number, spr_value and tbr_value give. */
module Bedbug {

  type word = bv32

  /** What an operand stands for, in the order in which the hint flags are asked for. */
  datatype Kind = Address | Register | Spr | Tbr | Number

  /** One entry of the operand table: a field of 1 to 31 bits inside the 32-bit instruction. */
  datatype Operand = Operand(bits: word, shift: nat, kind: Kind, silent: bool) {
    predicate Valid() {
      1 <= bits <= 31 && Fits(Ones(bits), shift)
    }
  }

  function And(a: word, b: word): word {
    a & b
  }

  function Or(a: word, b: word): word {
    a | b
  }

  function Plus(a: word, b: word): word {
    a + b
  }

  function Minus(a: word, b: word): word {
    a - b
  }

  function Twice(a: word): word {
    a << 1
  }

  function Halve(a: word): word {
    a >> 1
  }

  /** A shift by `n` places, one at a time. */
  function Left(a: word, n: nat): word {
    if n == 0 then a else Twice(Left(a, n - 1))
  }

  function Right(a: word, n: nat): word {
    if n == 0 then a else Halve(Right(a, n - 1))
  }

  predicate Negative(d: word) {
    d & 0x8000_0000 != 0
  }

  /** Shifting left by `n` places loses no bit. */
  predicate Fits(a: word, n: nat)
    decreases n
  {
    n == 0 || (!Negative(a) && Fits(Twice(a), n - 1))
  }

  /** One entry of the opcode table; `fields` are positions in the operand table, counted from 1. */
  datatype Opcode = Opcode(opcode: word, fields: seq<nat>, relative: bool)

  predicate TableFits(op: Opcode, table: seq<Operand>) {
    && (forall i :: 0 <= i < |op.fields| ==> 1 <= op.fields[i] <= |table|)
    && (forall i :: 0 <= i < |table| ==> table[i].Valid())
  }

  function Nth(op: Opcode, table: seq<Operand>, i: nat): (o: Operand)
    requires TableFits(op, table) && i < |op.fields|
    ensures o.Valid()
  {
    table[op.fields[i] - 1]
  }

  function Ones(bits: word): word
    requires bits <= 31
  {
    (1 << bits) - 1
  }

  /** The bits of the instruction that belong to an operand. */
  function Place(o: Operand): word
    requires o.Valid()
  {
    Left(Ones(o.bits), o.shift)
  }

  function Extract(instr: word, o: Operand): word
    requires o.Valid()
  {
    And(Right(instr, o.shift), Ones(o.bits))
  }

  /** A masked value, moved to its place. */
  function Placed(v: word, o: Operand): word
    requires o.Valid()
  {
    Left(And(v, Ones(o.bits)), o.shift)
  }

  // ----- single words --------------------------------------------------------------------------

  lemma {:induction false} TwiceAnd(a: word, b: word)
    ensures Twice(And(a, b)) == And(Twice(a), Twice(b))
  {
  }

  lemma {:induction false} HalveAnd(a: word, b: word)
    ensures Halve(And(a, b)) == And(Halve(a), Halve(b))
  {
  }

  lemma {:induction false} HalveOr(a: word, b: word)
    ensures Halve(Or(a, b)) == Or(Halve(a), Halve(b))
  {
  }

  lemma {:induction false} LeftAnd(a: word, b: word, n: nat)
    ensures And(Left(a, n), Left(b, n)) == Left(And(a, b), n)
  {
    hide And, Twice;
    if n > 0 {
      LeftAnd(a, b, n - 1);
      TwiceAnd(Left(a, n - 1), Left(b, n - 1));
    }
  }

  lemma {:induction false} RightAnd(a: word, b: word, n: nat)
    ensures Right(And(a, b), n) == And(Right(a, n), Right(b, n))
  {
    hide And, Halve;
    if n > 0 {
      RightAnd(a, b, n - 1);
      HalveAnd(Right(a, n - 1), Right(b, n - 1));
    }
  }

  lemma {:induction false} RightOr(a: word, b: word, n: nat)
    ensures Right(Or(a, b), n) == Or(Right(a, n), Right(b, n))
  {
    hide Or, Halve;
    if n > 0 {
      RightOr(a, b, n - 1);
      HalveOr(Right(a, n - 1), Right(b, n - 1));
    }
  }

  lemma {:induction false} RightZero(n: nat)
    ensures Right(0, n) == 0
  {
    if n > 0 {
      RightZero(n - 1);
    }
  }

  lemma {:induction false} LeftFirst(a: word, n: nat)
    ensures Left(Twice(a), n) == Left(a, n + 1)
  {
    hide Twice;
    if n > 0 {
      LeftFirst(a, n - 1);
    } else {
      assert Left(a, 0) == a;
    }
  }

  lemma {:induction false} ThereAndBack(a: word, n: nat)
    requires Fits(a, n)
    ensures Right(Left(a, n), n) == a
    decreases n
  {
    hide Twice, Halve, Negative;
    if n > 0 {
      LeftFirst(a, n - 1);
      ThereAndBack(Twice(a), n - 1);
      TopClear(a);
    }
  }

  lemma {:induction false} TopClear(a: word)
    requires !Negative(a)
    ensures Halve(Twice(a)) == a
  {
  }

  lemma {:induction false} PartFits(v: word, m: word, n: nat)
    requires Fits(m, n)
    ensures Fits(And(v, m), n)
    decreases n
  {
    hide And, Twice, Negative;
    if n > 0 {
      PartFits(Twice(v), Twice(m), n - 1);
      TwiceAnd(v, m);
      PartClear(v, m);
    }
  }

  lemma {:induction false} PartClear(v: word, m: word)
    requires !Negative(m)
    ensures !Negative(And(v, m))
  {
  }

  lemma {:induction false} OrAnd(a: word, b: word, m: word)
    ensures And(Or(a, b), m) == Or(And(a, m), And(b, m))
  {
  }

  lemma {:induction false} Idempotent(a: word, m: word)
    ensures And(And(a, m), m) == And(a, m) && Or(0, a) == a && Or(a, 0) == a
  {
  }

  /** Nothing that is not at the place of an operand has any effect on its value. */
  lemma {:induction false} ExtractOther(base: word, w: word, o: Operand)
    requires o.Valid() && And(w, Place(o)) == 0
    ensures Extract(Or(base, w), o) == Extract(base, o)
  {
    hide Left, Right, Fits, Ones, And, Or;
    var m, n := Ones(o.bits), o.shift;
    RightOr(base, w, n);
    OrAnd(Right(base, n), Right(w, n), m);
    RightAnd(w, Place(o), n);
    RightZero(n);
    ThereAndBack(m, n);
    Idempotent(And(Right(base, n), m), m);
  }

  /** An operand put at its place, where nothing was before, is found there. */
  lemma {:induction false} ExtractPlaced(base: word, v: word, o: Operand)
    requires o.Valid() && And(base, Place(o)) == 0
    ensures Extract(Or(base, Placed(v, o)), o) == And(v, Ones(o.bits))
  {
    hide Left, Right, Fits, Ones, And, Or;
    var m, n, w := Ones(o.bits), o.shift, Placed(v, o);
    RightOr(base, w, n);
    OrAnd(Right(base, n), Right(w, n), m);
    RightAnd(base, Place(o), n);
    RightZero(n);
    ThereAndBack(m, n);
    PartFits(v, m, n);
    ThereAndBack(And(v, m), n);
    Idempotent(v, m);
    Idempotent(And(v, m), m);
  }

  lemma {:induction false} PlacedInPlace(v: word, o: Operand)
    requires o.Valid()
    ensures And(Placed(v, o), Place(o)) == Placed(v, o)
  {
    hide Left, Fits, Ones, And;
    LeftAnd(And(v, Ones(o.bits)), Ones(o.bits), o.shift);
    Idempotent(v, Ones(o.bits));
  }

  /** A word inside one place has nothing in a disjoint one. */
  lemma {:induction false} Disjoint(w: word, p: word, q: word)
    requires And(w, p) == w && And(p, q) == 0
    ensures And(w, q) == 0
  {
  }

  lemma {:induction false} BothZero(a: word, b: word, m: word)
    requires And(a, m) == 0 && And(b, m) == 0
    ensures And(Or(a, b), m) == 0
  {
  }

  // ----- addresses -----------------------------------------------------------------------------

  /** A signed `long` shifted right by two. */
  function Quarter(d: word): word {
    (d >> 2) | (if Negative(d) then 0xc000_0000 else 0)
  }

  function EncodeWith(d: word, low: word, sign: word): word {
    var q := Quarter(d) & low;
    if Negative(d) then q | sign else q
  }

  function DecodeWith(v: word, sign: word, size: word): word {
    (if v & sign != 0 then v - size else v) << 2
  }

  /** parse_operand for an address, up to the mask. */
  function EncodeAddress(d: word, bits: word): word
    requires 1 <= bits <= 31
  {
    EncodeWith(d, Ones(bits) >> 1, 1 << (bits - 1))
  }

  /** print_operands for an address, before the base is added. */
  function DecodeAddress(v: word, bits: word): word
    requires 1 <= bits <= 31
  {
    DecodeWith(v, 1 << (bits - 1), 1 << bits)
  }

  /** A distance of -2^(bits+1) to 2^(bits+1) - 4 bytes, in whole instructions. */
  predicate Reachable(d: word, bits: word)
    requires 1 <= bits <= 31
  {
    d & 3 == 0 && (bits >= 30 || d + (1 << (bits + 1)) < 1 << (bits + 2))
  }

  function Half(bits: word): word
    requires 1 <= bits <= 31
  {
    1 << (bits - 1)
  }

  lemma {:induction false} HalfIsPower(bits: word)
    requires 1 <= bits <= 31
    ensures var h := Half(bits); h != 0 && h & (h - 1) == 0 && h <= 0x4000_0000
  {
  }

  lemma {:induction false} TwoHalves(bits: word)
    requires 1 <= bits <= 31
    ensures 1 << bits == Half(bits) + Half(bits) && Ones(bits) == Half(bits) + Half(bits) - 1
  {
  }

  lemma {:induction false} OnesHalved(bits: word)
    requires 1 <= bits <= 31
    ensures Ones(bits) >> 1 == Half(bits) - 1
  {
  }

  lemma {:induction false} HalfInBytes(bits: word)
    requires 1 <= bits <= 29
    ensures 1 << (bits + 1) == Half(bits) << 2 && 1 << (bits + 2) == Half(bits) << 3
    ensures Half(bits) <= 0x1000_0000
  {
  }

  lemma {:induction false} LargeHalf(bits: word)
    requires 30 <= bits <= 31
    ensures Half(bits) >= 0x2000_0000
  {
  }

  predicate Near(d: word, h: word) {
    d & 3 == 0 && (h >= 0x2000_0000 || d + (h << 2) < h << 3)
  }

  lemma {:induction false} ForwardSurvives(d: word, h: word)
    requires h != 0 && h & (h - 1) == 0 && h <= 0x4000_0000 && !Negative(d)
    ensures DecodeWith(And(EncodeWith(d, h - 1, h), h + h - 1), h, h + h) == d <==> Near(d, h)
  {
  }

  lemma {:induction false} BackwardSurvives(d: word, h: word)
    requires h != 0 && h & (h - 1) == 0 && h <= 0x4000_0000 && Negative(d)
    ensures DecodeWith(And(EncodeWith(d, h - 1, h), h + h - 1), h, h + h) == d <==> Near(d, h)
  {
  }

  lemma {:induction false} NearIsReachable(d: word, bits: word)
    requires 1 <= bits <= 31
    ensures Near(d, Half(bits)) <==> Reachable(d, bits)
  {
    hide Half;
    if bits <= 29 {
      HalfInBytes(bits);
    } else {
      LargeHalf(bits);
    }
  }

  /** For any width of field, a distance survives encoding and decoding exactly if it is reachable. */
  lemma {:induction false} AddressSurvives(d: word, bits: word)
    requires 1 <= bits <= 31
    ensures DecodeAddress(And(EncodeAddress(d, bits), Ones(bits)), bits) == d <==> Reachable(d, bits)
  {
    hide Quarter, Ones, EncodeWith, DecodeWith, Near, Reachable, And;
    var h := Half(bits);
    HalfIsPower(bits);
    TwoHalves(bits);
    OnesHalved(bits);
    NearIsReachable(d, bits);
    if Negative(d) {
      BackwardSurvives(d, h);
    } else {
      ForwardSurvives(d, h);
    }
  }

  // ----- one operand ---------------------------------------------------------------------------

  const MINUS_ONE: word := 0xffff_ffff

  datatype Error = NoError | BadRegister | BadSpr | BadTbr | NumOperands

  /** What is encoded for an address: the distance to it, or itself. */
  function Distance(op: Opcode, memaddr: word, target: word): word {
    if op.relative then Minus(target, memaddr) else target
  }

  /** The value of an argument before it is masked. */
  function Meaning(memaddr: word, op: Opcode, o: Operand, value: word): word
    requires o.Valid()
  {
    if o.kind == Address then EncodeAddress(Distance(op, memaddr, value), o.bits) else value
  }

  /** Register numbers above 31 and unknown special registers are refused; a negative number is not. */
  function Refusal(o: Operand, value: word): Error {
    match o.kind
    case Register => if !Negative(value) && value > 31 then BadRegister else NoError
    case Spr => if value == 0 then BadSpr else NoError
    case Tbr => if value == 0 then BadTbr else NoError
    case _ => NoError
  }

  function ParseOperand(memaddr: word, op: Opcode, o: Operand, value: word): (word, Error)
    requires o.Valid()
  {
    if Refusal(o, value) != NoError then (MINUS_ONE, Refusal(o, value))
    else (Placed(Meaning(memaddr, op, o, value), o), NoError)
  }

  /** A field of at most 31 bits is never taken for the error value. */
  lemma {:induction false} NeverMinusOne(v: word, o: Operand)
    requires o.Valid()
    ensures Placed(v, o) != MINUS_ONE
  {
    hide Left, Fits, Ones, And;
    SmallOnes(o.bits);
    MaskedSmall(v, Ones(o.bits));
    ShiftedMinusOne(And(v, Ones(o.bits)), o.shift);
  }

  lemma {:induction false} SmallOnes(bits: word)
    requires bits <= 31
    ensures !Negative(Ones(bits))
  {
  }

  lemma {:induction false} ShiftedMinusOne(v: word, n: nat)
    ensures Left(v, n) == MINUS_ONE ==> n == 0 && v == MINUS_ONE
  {
    if n > 0 {
      LowBit(Left(v, n - 1));
    }
  }

  lemma {:induction false} LowBit(a: word)
    ensures Twice(a) != MINUS_ONE
  {
  }

  lemma {:induction false} MaskedSmall(v: word, m: word)
    requires !Negative(m)
    ensures And(v, m) != MINUS_ONE
  {
  }

  // ----- a whole instruction -------------------------------------------------------------------

  /** The operands from number `i` on, with the arguments from number `k` on, or-ed into `instr`. */
  function Assemble(memaddr: word, op: Opcode, table: seq<Operand>, args: seq<word>, i: nat, k: nat, instr: word)
    : (word, Error)
    requires TableFits(op, table) && i <= |op.fields|
    decreases |op.fields| - i
  {
    if i == |op.fields| then (instr, NoError)
    else
      var o := Nth(op, table, i);
      if o.silent then Assemble(memaddr, op, table, args, i + 1, k, instr)
      else if k >= |args| then (0, NumOperands)
      else
        var p := ParseOperand(memaddr, op, o, args[k]);
        if p.0 == MINUS_ONE then (0, p.1)
        else Assemble(memaddr, op, table, args, i + 1, k + 1, Or(instr, p.0))
  }

  /** The number of an operand among those that are not silent: its argument. */
  function Rank(op: Opcode, table: seq<Operand>, i: nat): (k: nat)
    requires TableFits(op, table) && i <= |op.fields|
    ensures k <= i
  {
    if i == 0 then 0 else Rank(op, table, i - 1) + if Nth(op, table, i - 1).silent then 0 else 1
  }

  predicate Shows(op: Opcode, table: seq<Operand>, i: nat)
    requires TableFits(op, table)
  {
    i < |op.fields| && !Nth(op, table, i).silent
  }

  /** No place of an operand from number `i` on has a bit of `w`. */
  ghost predicate ClearFrom(op: Opcode, table: seq<Operand>, i: nat, w: word)
    requires TableFits(op, table)
  {
    forall j :: i <= j && Shows(op, table, j) ==> And(w, Place(Nth(op, table, j))) == 0
  }

  /** The operands do not overlap one another or the bits of the opcode. */
  ghost predicate FieldsDisjoint(op: Opcode, table: seq<Operand>)
    requires TableFits(op, table)
  {
    && ClearFrom(op, table, 0, op.opcode)
    && forall i :: 0 <= i && Shows(op, table, i) ==> ClearFrom(op, table, i + 1, Place(Nth(op, table, i)))
  }

  /** A parsed operand lies in its place, and so leaves the later ones clear. */
  lemma {:induction false} StillClear(memaddr: word, op: Opcode, table: seq<Operand>, i: nat, value: word, instr: word)
    requires TableFits(op, table) && FieldsDisjoint(op, table) && Shows(op, table, i) && ClearFrom(op, table, i, instr)
    requires Refusal(Nth(op, table, i), value) == NoError
    ensures ClearFrom(op, table, i + 1, Or(instr, ParseOperand(memaddr, op, Nth(op, table, i), value).0))
  {
    hide And, Or, Place, Placed, Left, Fits, Refusal, Meaning, Nth;
    var o := Nth(op, table, i);
    var v := Meaning(memaddr, op, o, value);
    PlacedInPlace(v, o);
    forall j | i + 1 <= j && Shows(op, table, j)
      ensures And(Or(instr, Placed(v, o)), Place(Nth(op, table, j))) == 0
    {
      var q := Place(Nth(op, table, j));
      assert ClearFrom(op, table, i + 1, Place(o));
      Disjoint(Placed(v, o), Place(o), q);
      BothZero(instr, Placed(v, o), q);
    }
  }

  /** Assembling further operands leaves an operand alone whose place they do not touch. */
  lemma {:induction false} OperandKept(memaddr: word, op: Opcode, table: seq<Operand>, args: seq<word>,
                                       i: nat, k: nat, instr: word, o: Operand)
    requires TableFits(op, table) && i <= |op.fields| && o.Valid() && ClearFrom(op, table, i, Place(o))
    requires Assemble(memaddr, op, table, args, i, k, instr).1 == NoError
    ensures Extract(Assemble(memaddr, op, table, args, i, k, instr).0, o) == Extract(instr, o)
    decreases |op.fields| - i
  {
    hide And, Or, Place, Placed, Extract, Refusal, Meaning, Nth, ParseOperand;
    if i < |op.fields| {
      assert ClearFrom(op, table, i + 1, Place(o));
      var x := Nth(op, table, i);
      if x.silent {
        OperandKept(memaddr, op, table, args, i + 1, k, instr, o);
      } else {
        assert Shows(op, table, i);
        ParsedIsPlaced(memaddr, op, x, args[k]);
        var v := Meaning(memaddr, op, x, args[k]);
        OperandKept(memaddr, op, table, args, i + 1, k + 1, Or(instr, Placed(v, x)), o);
        AndCommutes(Place(o), Place(x));
        PlacedInPlace(v, x);
        Disjoint(Placed(v, x), Place(x), Place(o));
        ExtractOther(instr, Placed(v, x), o);
      }
    }
  }

  lemma {:induction false} AndCommutes(a: word, b: word)
    ensures And(a, b) == And(b, a)
  {
  }

  lemma {:induction false} ParsedIsPlaced(memaddr: word, op: Opcode, o: Operand, value: word)
    requires o.Valid()
    ensures ParseOperand(memaddr, op, o, value).0 == MINUS_ONE <==> Refusal(o, value) != NoError
    ensures Refusal(o, value) == NoError ==>
      ParseOperand(memaddr, op, o, value) == (Placed(Meaning(memaddr, op, o, value), o), NoError)
    ensures Refusal(o, value) != NoError ==> ParseOperand(memaddr, op, o, value).1 == Refusal(o, value)
  {
    hide Placed, Refusal, Meaning;
    NeverMinusOne(Meaning(memaddr, op, o, value), o);
  }

  /** Argument number k - n is there for operand `q` and not refused. */
  predicate Accepted(op: Opcode, table: seq<Operand>, args: seq<word>, q: nat, k: nat, n: nat)
    requires TableFits(op, table) && Shows(op, table, q)
  {
    n <= k < n + |args| && Refusal(Nth(op, table, q), args[k - n]) == NoError
  }

  /** Assembling succeeds exactly if each operand that is not silent has an argument and none is refused. */
  lemma {:induction false} AcceptedIff(memaddr: word, op: Opcode, table: seq<Operand>, args: seq<word>,
                                       i: nat, k: nat, instr: word)
    requires TableFits(op, table) && i <= |op.fields|
    ensures Assemble(memaddr, op, table, args, i, k, instr).1 == NoError <==>
      forall q :: i <= q && Shows(op, table, q) ==>
        Accepted(op, table, args, q, k + Rank(op, table, q), Rank(op, table, i))
    decreases |op.fields| - i
  {
    hide And, Or, Place, Placed, Refusal, Meaning, Nth, ParseOperand;
    if i < |op.fields| {
      var x := Nth(op, table, i);
      if x.silent {
        AcceptedIff(memaddr, op, table, args, i + 1, k, instr);
      } else {
        assert Shows(op, table, i);
        if k < |args| {
          ParsedIsPlaced(memaddr, op, x, args[k]);
          var p := ParseOperand(memaddr, op, x, args[k]);
          AcceptedIff(memaddr, op, table, args, i + 1, k + 1, Or(instr, p.0));
        }
      }
    }
  }

  /** Which arguments are refused, and with which error. */
  lemma {:induction false} RefusalIs(o: Operand, value: word)
    ensures o.kind == Register ==> Refusal(o, value) == if 31 < value < 0x8000_0000 then BadRegister else NoError
    ensures o.kind == Spr ==> Refusal(o, value) == if value == 0 then BadSpr else NoError
    ensures o.kind == Tbr ==> Refusal(o, value) == if value == 0 then BadTbr else NoError
    ensures o.kind == Address || o.kind == Number ==> Refusal(o, value) == NoError
  {
    SignBit(value);
  }

  lemma {:induction false} SignBit(value: word)
    ensures Negative(value) <==> value >= 0x8000_0000
  {
  }

  /** An instruction is assembled exactly if every operand that is not silent has an argument, registers
      are at most 31 or negative, and special registers are known. */
  lemma {:induction false} SuccessSpelledOut(memaddr: word, op: Opcode, table: seq<Operand>, args: seq<word>)
    requires TableFits(op, table)
    ensures Assemble(memaddr, op, table, args, 0, 0, op.opcode).1 == NoError <==>
      forall q :: 0 <= q && Shows(op, table, q) ==>
        var a, kind := Rank(op, table, q), Nth(op, table, q).kind;
        && a < |args|
        && (kind == Register ==> args[a] <= 31 || args[a] >= 0x8000_0000)
        && (kind == Spr || kind == Tbr ==> args[a] != 0)
  {
    hide Refusal, Nth, Assemble, Accepted;
    AcceptedIff(memaddr, op, table, args, 0, 0, op.opcode);
    RankStarts(op, table);
    forall q | 0 <= q && Shows(op, table, q)
      ensures
        var a, kind := Rank(op, table, q), Nth(op, table, q).kind;
        Accepted(op, table, args, q, a, 0) <==>
          && a < |args|
          && (kind == Register ==> args[a] <= 31 || args[a] >= 0x8000_0000)
          && (kind == Spr || kind == Tbr ==> args[a] != 0)
    {
      AcceptedIs(op, table, args, q, Rank(op, table, q));
    }
  }

  lemma {:induction false} AcceptedIs(op: Opcode, table: seq<Operand>, args: seq<word>, q: nat, a: nat)
    requires TableFits(op, table) && Shows(op, table, q)
    ensures var kind := Nth(op, table, q).kind;
      Accepted(op, table, args, q, a, 0) <==>
        && a < |args|
        && (kind == Register ==> args[a] <= 31 || args[a] >= 0x8000_0000)
        && (kind == Spr || kind == Tbr ==> args[a] != 0)
  {
    hide Refusal, Nth;
    if a < |args| {
      RefusalIs(Nth(op, table, q), args[a]);
      AboveIs(args[a]);
    }
  }

  lemma {:induction false} AboveIs(v: word)
    ensures 31 < v < 0x8000_0000 <==> !(v <= 31 || v >= 0x8000_0000)
  {
  }

  /** Otherwise the word is 0 and the error is that of the first operand without an acceptable argument. */
  lemma {:induction false} FirstError(memaddr: word, op: Opcode, table: seq<Operand>, args: seq<word>,
                                      i: nat, k: nat, instr: word, q: nat)
    requires TableFits(op, table) && i <= q && Shows(op, table, q)
    requires forall p :: i <= p < q && Shows(op, table, p) ==>
      Accepted(op, table, args, p, k + Rank(op, table, p), Rank(op, table, i))
    requires !Accepted(op, table, args, q, k + Rank(op, table, q), Rank(op, table, i))
    ensures Rank(op, table, i) <= Rank(op, table, q)
    ensures
      var a := k + Rank(op, table, q) - Rank(op, table, i);
      Assemble(memaddr, op, table, args, i, k, instr) ==
        (0, if a < |args| then Refusal(Nth(op, table, q), args[a]) else NumOperands)
    decreases q - i
  {
    hide And, Or, Place, Placed, Refusal, Meaning, Nth, ParseOperand;
    var x := Nth(op, table, i);
    if i < q {
      if x.silent {
        FirstError(memaddr, op, table, args, i + 1, k, instr, q);
      } else {
        assert Shows(op, table, i);
        ParsedIsPlaced(memaddr, op, x, args[k]);
        FirstError(memaddr, op, table, args, i + 1, k + 1, Or(instr, ParseOperand(memaddr, op, x, args[k]).0), q);
      }
    } else if k < |args| {
      ParsedIsPlaced(memaddr, op, x, args[k]);
    }
  }

  /** Every operand from number `i` on is found in the assembled word. */
  lemma {:induction false} OperandFound(memaddr: word, op: Opcode, table: seq<Operand>, args: seq<word>,
                                        i: nat, k: nat, instr: word, q: nat)
    requires TableFits(op, table) && FieldsDisjoint(op, table) && ClearFrom(op, table, i, instr)
    requires i <= q && Shows(op, table, q)
    requires Assemble(memaddr, op, table, args, i, k, instr).1 == NoError
    ensures
      var a, o := k + Rank(op, table, q) - Rank(op, table, i), Nth(op, table, q);
      && k <= a < |args|
      && Extract(Assemble(memaddr, op, table, args, i, k, instr).0, o)
         == And(Meaning(memaddr, op, o, args[a]), Ones(o.bits))
    decreases |op.fields| - i
  {
    hide And, Or, Place, Placed, Extract, Refusal, Meaning, Nth, ParseOperand, FieldsDisjoint, ClearFrom, Ones, Operand.Valid;
    var x := Nth(op, table, i);
    ClearNext(op, table, i, instr);
    if x.silent {
      OperandFound(memaddr, op, table, args, i + 1, k, instr, q);
    } else {
      var v := Meaning(memaddr, op, x, args[k]);
      ParsedIsPlaced(memaddr, op, x, args[k]);
      if i == q {
        ClearHere(op, table, i, instr);
        OperandKept(memaddr, op, table, args, i + 1, k + 1, Or(instr, Placed(v, x)), x);
        ExtractPlaced(instr, v, x);
      } else {
        StillClear(memaddr, op, table, i, args[k], instr);
        OperandFound(memaddr, op, table, args, i + 1, k + 1, Or(instr, Placed(v, x)), q);
        RankGrows(op, table, i + 1, q);
      }
    }
  }

  lemma {:induction false} RankGrows(op: Opcode, table: seq<Operand>, i: nat, q: nat)
    requires TableFits(op, table) && i <= q <= |op.fields|
    ensures Rank(op, table, i) <= Rank(op, table, q)
    decreases q - i
  {
    hide Nth;
    if i < q {
      RankGrows(op, table, i, q - 1);
    }
  }

  lemma {:induction false} ClearNext(op: Opcode, table: seq<Operand>, i: nat, w: word)
    requires TableFits(op, table) && ClearFrom(op, table, i, w)
    ensures ClearFrom(op, table, i + 1, w)
  {
  }

  lemma {:induction false} ClearHere(op: Opcode, table: seq<Operand>, i: nat, w: word)
    requires TableFits(op, table) && FieldsDisjoint(op, table) && ClearFrom(op, table, i, w) && Shows(op, table, i)
    ensures And(w, Place(Nth(op, table, i))) == 0 && ClearFrom(op, table, i + 1, Place(Nth(op, table, i)))
  {
    hide And, Place;
  }

  /** For disjoint operands, each one that is not silent is found in the word that asmppc builds. */
  lemma {:induction false} AssembledOperand(memaddr: word, op: Opcode, table: seq<Operand>, args: seq<word>, q: nat)
    requires TableFits(op, table) && FieldsDisjoint(op, table) && Shows(op, table, q)
    requires Assemble(memaddr, op, table, args, 0, 0, op.opcode).1 == NoError
    ensures
      var a, o := Rank(op, table, q), Nth(op, table, q);
      && a < |args|
      && Extract(Assemble(memaddr, op, table, args, 0, 0, op.opcode).0, o)
         == And(Meaning(memaddr, op, o, args[a]), Ones(o.bits))
  {
    hide And, Place, Extract, Meaning, Nth, Ones, Assemble, ClearFrom;
    OperandFound(memaddr, op, table, args, 0, 0, op.opcode, q);
    RankStarts(op, table);
  }

  lemma {:induction false} RankStarts(op: Opcode, table: seq<Operand>)
    requires TableFits(op, table)
    ensures Rank(op, table, 0) == 0
  {
  }

  /** Bits outside all operands stay those of the opcode, so that the word is still recognised. */
  lemma {:induction false} OpcodeKept(memaddr: word, op: Opcode, table: seq<Operand>, args: seq<word>,
                                      i: nat, k: nat, instr: word, m: word)
    requires TableFits(op, table) && i <= |op.fields| && ClearFrom(op, table, i, m)
    requires Assemble(memaddr, op, table, args, i, k, instr).1 == NoError
    ensures And(Assemble(memaddr, op, table, args, i, k, instr).0, m) == And(instr, m)
    decreases |op.fields| - i
  {
    hide And, Or, Place, Placed, Refusal, Meaning, Nth, ParseOperand;
    if i < |op.fields| {
      var x := Nth(op, table, i);
      if x.silent {
        OpcodeKept(memaddr, op, table, args, i + 1, k, instr, m);
      } else {
        assert Shows(op, table, i);
        ParsedIsPlaced(memaddr, op, x, args[k]);
        var v := Meaning(memaddr, op, x, args[k]);
        OpcodeKept(memaddr, op, table, args, i + 1, k + 1, Or(instr, Placed(v, x)), m);
        AndCommutes(m, Place(x));
        PlacedInPlace(v, x);
        Disjoint(Placed(v, x), Place(x), m);
        OrAnd(instr, Placed(v, x), m);
        Idempotent(And(instr, m), m);
      }
    }
  }

  // ----- printing ------------------------------------------------------------------------------

  /** What is printed for one operand. */
  datatype Shown = Target(address: word) | Reg(n: word) | SpecialReg(n: word) | TimeBase(n: word) | Value(n: word)

  function ShownAs(op: Opcode, o: Operand, instr: word, virtual: word): Shown
    requires o.Valid()
  {
    var v := Extract(instr, o);
    match o.kind
    case Address =>
      Target(if op.relative then Plus(DecodeAddress(v, o.bits), virtual) else DecodeAddress(v, o.bits))
    case Register => Reg(v)
    case Spr => SpecialReg(v)
    case Tbr => TimeBase(v)
    case Number => Value(And(v, 0xffff))
  }

  function Display(op: Opcode, table: seq<Operand>, instr: word, virtual: word, n: nat): (d: seq<Shown>)
    requires TableFits(op, table) && n <= |op.fields|
    ensures |d| == Rank(op, table, n)
  {
    if n == 0 then []
    else
      var front, o := Display(op, table, instr, virtual, n - 1), Nth(op, table, n - 1);
      if o.silent then front else front + [ShownAs(op, o, instr, virtual)]
  }

  lemma {:induction false} DisplayAt(op: Opcode, table: seq<Operand>, instr: word, virtual: word, n: nat, q: nat)
    requires TableFits(op, table) && n <= |op.fields| && q < n && Shows(op, table, q)
    ensures Rank(op, table, q) < Rank(op, table, n)
    ensures Display(op, table, instr, virtual, n)[Rank(op, table, q)] == ShownAs(op, Nth(op, table, q), instr, virtual)
  {
    hide Nth, ShownAs;
    if q < n - 1 {
      DisplayAt(op, table, instr, virtual, n - 1, q);
    }
  }

  lemma {:induction false} SumLessTerm(a: word, b: word)
    ensures Minus(a + b, b) == a
  {
  }

  lemma {:induction false} DifferencePlusTerm(a: word, b: word)
    ensures Plus(a - b, b) == a
  {
  }

  lemma {:induction false} AddSubtract(a: word, b: word)
    ensures Minus(Plus(a, b), b) == a
  {
    hide Minus;
    SumLessTerm(a, b);
  }

  lemma {:induction false} SubtractAdd(a: word, b: word)
    ensures Plus(Minus(a, b), b) == a
  {
    hide Plus;
    DifferencePlusTerm(a, b);
  }

  lemma {:induction false} TargetSurvives(op: Opcode, o: Operand, instr: word, memaddr: word, target: word)
    requires o.Valid() && o.kind == Address
    requires Extract(instr, o) == And(Meaning(memaddr, op, o, target), Ones(o.bits))
    ensures ShownAs(op, o, instr, memaddr) == Target(target) <==> Reachable(Distance(op, memaddr, target), o.bits)
  {
    hide And, Extract, Ones, EncodeAddress, DecodeAddress, Reachable, Fits, Plus, Minus;
    AddressSurvives(Distance(op, memaddr, target), o.bits);
    AddSubtract(DecodeAddress(Extract(instr, o), o.bits), memaddr);
    SubtractAdd(target, memaddr);
  }

  /** An address operand is printed, at the same address, as it was given exactly if it is aligned and in
      range for its field. */
  lemma {:induction false} TargetPrintedBack(memaddr: word, op: Opcode, table: seq<Operand>, args: seq<word>, q: nat)
    requires TableFits(op, table) && FieldsDisjoint(op, table) && Shows(op, table, q)
    requires Nth(op, table, q).kind == Address
    requires Assemble(memaddr, op, table, args, 0, 0, op.opcode).1 == NoError
    ensures
      var instr, a := Assemble(memaddr, op, table, args, 0, 0, op.opcode).0, Rank(op, table, q);
      && a < |args| && a < Rank(op, table, |op.fields|)
      && (Display(op, table, instr, memaddr, |op.fields|)[a] == Target(args[a])
          <==> Reachable(Distance(op, memaddr, args[a]), Nth(op, table, q).bits))
  {
    hide Extract, Meaning, ShownAs, Reachable, Assemble, And, Ones, FieldsDisjoint, Fits, Distance, Display;
    var instr, a, o := Assemble(memaddr, op, table, args, 0, 0, op.opcode).0, Rank(op, table, q), Nth(op, table, q);
    AssembledOperand(memaddr, op, table, args, q);
    DisplayAt(op, table, instr, memaddr, |op.fields|, q);
    TargetSurvives(op, o, instr, memaddr, args[a]);
  }

  /** Every other operand is printed as what it was given, as far as its field holds it: a register, a
      special register, a time base, or the low sixteen bits of a number. */
  lemma {:induction false} OperandPrintedBack(memaddr: word, op: Opcode, table: seq<Operand>, args: seq<word>, q: nat, virtual: word)
    requires TableFits(op, table) && FieldsDisjoint(op, table) && Shows(op, table, q)
    requires Assemble(memaddr, op, table, args, 0, 0, op.opcode).1 == NoError
    ensures
      var instr, a, o := Assemble(memaddr, op, table, args, 0, 0, op.opcode).0, Rank(op, table, q), Nth(op, table, q);
      && a < |args| && a < Rank(op, table, |op.fields|)
      && var shown, v := Display(op, table, instr, virtual, |op.fields|)[a], And(args[a], Ones(o.bits));
      && (o.kind == Register ==> shown == Reg(v))
      && (o.kind == Spr ==> shown == SpecialReg(v))
      && (o.kind == Tbr ==> shown == TimeBase(v))
      && (o.kind == Number ==> shown == Value(And(v, 0xffff)))
  {
    hide Extract, Meaning, ShownAs, Assemble, And, Ones, FieldsDisjoint, Fits, Display, Nth;
    var instr, a := Assemble(memaddr, op, table, args, 0, 0, op.opcode).0, Rank(op, table, q);
    AssembledOperand(memaddr, op, table, args, q);
    DisplayAt(op, table, instr, virtual, |op.fields|, q);
    ShownPlain(op, Nth(op, table, q), instr, virtual, memaddr, args[a]);
  }

  lemma {:induction false} ShownPlain(op: Opcode, o: Operand, instr: word, virtual: word, memaddr: word, value: word)
    requires o.Valid() && Extract(instr, o) == And(Meaning(memaddr, op, o, value), Ones(o.bits))
    ensures
      var shown, v := ShownAs(op, o, instr, virtual), And(value, Ones(o.bits));
      && (o.kind == Register ==> shown == Reg(v))
      && (o.kind == Spr ==> shown == SpecialReg(v))
      && (o.kind == Tbr ==> shown == TimeBase(v))
      && (o.kind == Number ==> shown == Value(And(v, 0xffff)))
  {
    hide Extract, EncodeAddress, DecodeAddress, Distance, And, Ones, Fits;
  }

  // ----- the functions themselves --------------------------------------------------------------

  /** The loops of asmppc, once the opcode has been found by name. */
  method Asmppc(memaddr: word, op: Opcode, table: seq<Operand>, args: seq<word>) returns (instr: word, err: Error)
    requires TableFits(op, table) && |op.fields| <= 8
    ensures (instr, err) == Assemble(memaddr, op, table, args, 0, 0, op.opcode)
  {
    hide Or, ParseOperand, Nth, Operand.Valid;
    var wOperands := |op.fields|;
    instr, err := op.opcode, NoError;
    var nOperands, word := 0, 0;
    while nOperands < wOperands
      invariant nOperands <= |op.fields| && word <= |args| && err == NoError
      invariant Assemble(memaddr, op, table, args, nOperands, word, instr)
        == Assemble(memaddr, op, table, args, 0, 0, op.opcode)
    {
      var o := Nth(op, table, nOperands);
      if o.silent {
        nOperands := nOperands + 1;
        continue;
      }
      if word == |args| {
        break;
      }
      var param := ParseOperand(memaddr, op, o, args[word]);
      if param.0 == MINUS_ONE {
        return 0, param.1;
      }
      instr := Or(instr, param.0);
      nOperands, word := nOperands + 1, word + 1;
    }
    if nOperands < wOperands {
      instr, err := 0, NumOperands;
    }
  }

  method GetOperandValue(op: Opcode, table: seq<Operand>, instr: word, field: nat) returns (found: bool, value: word)
    requires TableFits(op, table)
    ensures found <==> field in op.fields
    ensures found ==> 1 <= field <= |table| && value == Extract(instr, table[field - 1])
  {
    hide Extract;
    found, value := false, 0;
    if field > |table| {
      return;
    }
    for i := 0 to |op.fields|
      invariant field !in op.fields[..i]
    {
      if op.fields[i] == field {
        return true, Extract(instr, table[op.fields[i] - 1]);
      }
    }
  }

  method PrintOperands(op: Opcode, table: seq<Operand>, instr: word, virtual: word) returns (shown: seq<Shown>)
    requires TableFits(op, table)
    ensures shown == Display(op, table, instr, virtual, |op.fields|)
  {
    hide ShownAs, Nth;
    shown := [];
    for field := 0 to |op.fields|
      invariant shown == Display(op, table, instr, virtual, field)
    {
      var o := Nth(op, table, field);
      if o.silent {
        continue;
      }
      shown := shown + [ShownAs(op, o, instr, virtual)];
    }
  }
}