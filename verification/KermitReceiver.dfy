/** The receiver of common/cmd_load.c itself (k_recv and what it calls), proved against the parser and the
    replay of attempts in Kermit. */
module KermitReceiver {
  import opened Common
  import opened Kermit

  /** How k_recv ends; the input of the model is finite, so it may also run dry. */
  datatype Outcome = Received(size: int) | Cancelled | Starved

  /** How reading a part of a packet ends. */
  datatype Reading = Dry | Bad | Good

  datatype Input = Eof | Char(c: byte)

  /** How one turn of the main loop ends. */
  datatype Turn = OutOfInput | Escaped | More | Last

  class Receiver {
    const input: Bytes
    const binStartAddress: int
    var pos: nat
    var mem: map<int, byte>
    var osDataAddr: int
    var osDataAddrSaved: int
    var kDataEscape: bool
    var kDataEscapeSaved: bool
    var hisQuote: byte
    var lastN: int            // a local variable of k_recv
    var sendParms: array<byte>
    var sendPtr: nat
    var sent: seq<Reply>
    ghost var parser: Parser

    ghost predicate Valid()
      reads this
    {
      && pos <= |input| && parser == Run(START_PARSER, input[..pos])
      && binStartAddress <= osDataAddrSaved <= osDataAddr
      && (forall i | binStartAddress <= i < osDataAddr :: i in mem)
      && sendParms.Length == 20 && sendPtr < 20
    }

    constructor (chars: Bytes, address: int, memory: map<int, byte>)
      ensures Valid() && pos == 0 && input == chars && binStartAddress == address && sent == []
      ensures fresh(sendParms)
    {
      input, binStartAddress, mem, pos, sent := chars, address, memory, 0, [];
      osDataAddr, osDataAddrSaved, kDataEscape, kDataEscapeSaved := address, address, false, false;
      hisQuote, lastN, sendParms, sendPtr, parser := K_ESCAPE, -1, new byte[20], 0, START_PARSER;
    }

    /** The bytes stored so far. */
    ghost function Out(): Bytes
      reads `mem, `osDataAddr
    {
      var m, a, n := mem, binStartAddress, osDataAddr - binStartAddress;
      seq(if n < 0 then 0 else n, i => if a + i in m then m[a + i] else 0)
    }

    ghost function State(): Core
      reads `mem, `osDataAddr, `lastN, `kDataEscape, `kDataEscapeSaved, `osDataAddrSaved, `hisQuote, `sent
    {
      Core(lastN, kDataEscape, Out(), kDataEscapeSaved,
           if osDataAddrSaved < binStartAddress then 0 else osDataAddrSaved - binStartAddress, hisQuote, sent)
    }

    method Getc() returns (r: Input)
      requires Valid()
      modifies this`pos, this`parser
      ensures Valid() && pos >= old(pos)
      ensures r.Eof? ==> pos == |input| && parser == old(parser)
      ensures r.Char? ==> pos == old(pos) + 1 && parser == old(parser).Step(r.c)
    {
      if pos == |input| {
        return Eof;
      }
      assert input[..pos + 1][..pos] == input[..pos];
      parser := parser.Step(input[pos]);
      pos := pos + 1;
      return Char(input[pos - 1]);
    }

    method KDataSave()
      requires Valid()
      modifies this`kDataEscapeSaved, this`osDataAddrSaved
      ensures Valid() && State() == old(State()).Save()
    {
      kDataEscapeSaved, osDataAddrSaved := kDataEscape, osDataAddr;
    }

    method KDataRestore()
      requires Valid()
      modifies this`kDataEscape, this`osDataAddr
      ensures Valid() && State() == old(State()).Restore()
    {
      kDataEscape, osDataAddr := kDataEscapeSaved, osDataAddrSaved;
    }

    method BinDataChar(c: byte)
      requires Valid()
      modifies this`mem, this`osDataAddr
      ensures Valid() && Out() == old(Out()) + [c]
    {
      mem := mem[osDataAddr := c];
      osDataAddr := osDataAddr + 1;
    }

    method KDataChar(c: byte)
      requires Valid()
      modifies this`kDataEscape, this`mem, this`osDataAddr
      ensures Valid() && State() == old(State()).FeedChar(c)
    {
      if kDataEscape {
        BinDataChar(KTrans(c));
        kDataEscape := false;
      } else if c == hisQuote {
        kDataEscape := true;
      } else {
        BinDataChar(c);
      }
    }

    /** The parameters of a Send-Initiate packet received so far; a 20th one is overwritten. */
    ghost predicate Params(chars: Bytes)
      reads `sendPtr, `sendParms, sendParms
    {
      && sendPtr < 20 == sendParms.Length
      && sendPtr == (if |chars| < 19 then |chars| else 19)
      && forall i | 0 <= i < sendPtr :: sendParms[i] == chars[i]
    }

    method SaveParam(c: byte, ghost chars: Bytes)
      requires Valid() && Params(chars)
      modifies this`sendPtr, sendParms
      ensures Valid() && Params(chars + [c])
    {
      sendParms[sendPtr] := c;
      sendPtr := sendPtr + 1;
      if sendPtr >= 20 {
        sendPtr := sendPtr - 1;
      }
    }

    /** handle_send_packet, as far as it decides the quote character. */
    method HandleSendPacket(n: int, ghost chars: Bytes)
      requires Valid() && Params(chars)
      modifies this`hisQuote, this`sendPtr, this`sent
      ensures Valid()
      ensures State() == old(State()).(quote := NewQuote(chars), replies := old(sent) + [SendAck(n)])
    {
      hisQuote := K_ESCAPE;
      if sendPtr == 19 {
        sendPtr := sendPtr - 1;
      }
      if sendPtr > 5 {
        hisQuote := sendParms[5];
      }
      sent := sent + [SendAck(n)];
    }

    /** Between two attempts. */
    ghost predicate Between(status: Status)
      reads this
    {
      parser == Parser(Idle, 0, 0, 0, NOTHING, parser.log, status) && State() == Replay(parser.log)
    }

    /** Inside an attempt that has got as far as `a`. */
    ghost predicate Inside(phase: Phase, sum: nat, length: int, a: Attempt, log: seq<Attempt>)
      reads this
    {
      && parser == Parser(phase, sum, length, parser.hi, a, log, Going) && !a.ok
      && State() == if a.n == -1 then Replay(log) else Replay(log).Opened(a)
    }

    /** An attempt has just been closed, and its effect before any rollback has taken place. */
    ghost predicate Closed(a: Attempt, log: seq<Attempt>)
      reads this
    {
      && parser == Parser(Idle, 0, 0, 0, NOTHING, log + [a], if a.ok && a.typ == BREAK_TYPE then Finished else Going)
      && State() == if a.n == -1 then Replay(log) else Replay(log).Opened(a)
    }

    /** Waits for the START character or ^C. */
    method WaitForStart() returns (r: Input)
      requires Valid() && Between(Going)
      modifies this`pos, this`parser
      ensures Valid() && pos >= old(pos)
      ensures r.Eof? ==> pos == |input| && Between(Going)
      ensures r.Char? ==> pos > old(pos) && (r.c == START_CHAR || r.c == ETX_CHAR)
      ensures r == Char(START_CHAR) ==> Inside(Len, 0, 0, NOTHING, old(parser).log)
      ensures r == Char(ETX_CHAR) ==> Between(Interrupted) && parser.log == old(parser).log
    {
      hide Replay, Run, Valid, Out;
      ghost var log := parser.log;
      while true
        invariant Valid() && Between(Going) && parser.log == log && pos >= old(pos)
        decreases |input| - pos
      {
        r := Getc();
        if r.Eof? || r.c == START_CHAR || r.c == ETX_CHAR {
          return;
        }
      }
    }

    /** The length and sequence characters. */
    method GetSequence(n0: int, ghost log: seq<Attempt>) returns (r: Reading, n: int, sum: nat, length: int)
      requires Valid() && Inside(Len, 0, 0, NOTHING, log) && n0 == State().LastSeen()
      modifies this
      ensures Valid() && unchanged(`sendParms, `sendPtr) && pos >= old(pos) && n == State().LastSeen()
      ensures r == Dry ==> pos == |input| && parser.status == Going
      ensures r == Bad ==> Closed(NOTHING, log)
      ensures r == Good ==> Inside(Type, sum, length, Attempt(n, 0, [], false), log) && n >= 0
    {
      hide Replay, Run, Valid, Out, Core.Feed;
      n, sum, length := n0, 0, 0;
      var c := Getc();
      if c.Eof? { return Dry, n, sum, length; }
      if IsControl(c.c) { return Bad, n, sum, length; }
      sum, length := sum + c.c, c.c - SPACE;
      c := Getc();
      if c.Eof? { return Dry, n, sum, length; }
      if IsControl(c.c) { return Bad, n, sum, length; }
      sum, n, length := sum + c.c, c.c - SPACE, length - 1;
      if n == lastN {
        KDataRestore();
      } else {
        lastN := n;
        KDataSave();
      }
      return Good, n, sum, length;
    }

    /** The type character and, when the length character was zero, the extended length. */
    method GetType(n: int, sum0: nat, length0: int, ghost log: seq<Attempt>)
      returns (r: Reading, kState: byte, sum: nat, length: int)
      requires Valid() && Inside(Type, sum0, length0, Attempt(n, 0, [], false), log) && n >= 0
      modifies `pos, `parser
      ensures Valid() && pos >= old(pos)
      ensures r == Dry ==> pos == |input| && parser.status == Going
      ensures r == Bad ==> Closed(Attempt(n, kState, [], false), log)
      ensures r == Good ==>
        Inside(if length > 1 then Data else Check, sum, length, Attempt(n, kState, [], false), log)
    {
      OpenedByHeader(Replay(log), n);
      hide Replay, Core.Opened, Run, Valid;
      sum, length, kState := sum0, length0, 0;
      var c := Getc();
      if c.Eof? { return Dry, kState, sum, length; }
      if IsControl(c.c) { return Bad, kState, sum, length; }
      sum, kState, length := sum + c.c, c.c, length - 1;
      r := Good;
      if length == -2 {
        r, sum, length := GetLongLength(sum, Attempt(n, kState, [], false), log);
      }
    }

    lemma {:induction false} OpenedByHeader(c: Core, n: int)
      requires c.Valid()
      ensures forall typ: byte :: c.Opened(Attempt(n, typ, [], false)) == c.Begin(n)
    {
    }

    /** The two extended length characters and their check. */
    method GetLongLength(sum0: nat, ghost a: Attempt, ghost log: seq<Attempt>)
      returns (r: Reading, sum: nat, length: int)
      requires Valid() && Inside(ExtHi, sum0, -2, a, log) && a.n >= 0 && a.chars == []
      modifies `pos, `parser
      ensures Valid() && pos >= old(pos)
      ensures r == Dry ==> pos == |input| && parser.status == Going
      ensures r == Bad ==> Closed(a, log)
      ensures r == Good ==> Inside(if length > 1 then Data else Check, sum, length, a, log)
    {
      hide Replay, Core.Opened, Run, Valid, CheckChar, State;
      sum, length := sum0, -2;
      var c := Getc();
      if c.Eof? { return Dry, sum, length; }
      if IsControl(c.c) { return Bad, sum, length; }
      sum := sum + c.c;
      var hi := c.c - SPACE;
      c := Getc();
      if c.Eof? { return Dry, sum, length; }
      if IsControl(c.c) { return Bad, sum, length; }
      sum, length := sum + c.c, hi * 95 + (c.c - SPACE);
      c := Getc();
      if c.Eof? { return Dry, sum, length; }
      if IsControl(c.c) || c.c != CheckChar(sum) { return Bad, sum, length; }
      sum := sum + c.c;
      return Good, sum, length;
    }

    lemma {:induction false} OpenedMore(core: Core, n: int, typ: byte, chars: Bytes, c: byte)
      requires core.Valid()
      ensures var was := core.Opened(Attempt(n, typ, chars, false));
        core.Opened(Attempt(n, typ, chars + [c], false)) == if typ == DATA_TYPE then was.FeedChar(c) else was
    {
      assert (chars + [c])[..|chars|] == chars;
    }

    /** The data characters. */
    method GetData(n: int, kState: byte, sum0: nat, length0: int, ghost log: seq<Attempt>)
      returns (r: Reading, sum: nat, ghost chars: Bytes)
      requires Valid() && sendPtr == 0 && n >= 0
      requires Inside(if length0 > 1 then Data else Check, sum0, length0, Attempt(n, kState, [], false), log)
      modifies this, sendParms
      ensures Valid() && unchanged(`sendParms, `lastN) && pos >= old(pos)
      ensures r == Dry ==> pos == |input| && parser.status == Going
      ensures r == Bad ==> Closed(Attempt(n, kState, chars, false), log)
      ensures r == Good ==> exists l :: Inside(Check, sum, l, Attempt(n, kState, chars, false), log)
      ensures kState == SEND_TYPE ==> Params(chars)
    {
      chars, sum := [], sum0;
      var length := length0;
      hide Replay, Run, Core.Opened, Core.FeedChar, Out, NewQuote, CheckChar;
      while length > 1
        invariant Valid() && unchanged(`sendParms, `lastN) && pos >= old(pos)
        invariant Inside(if length > 1 then Data else Check, sum, length, Attempt(n, kState, chars, false), log)
        invariant kState == SEND_TYPE ==> Params(chars)
        decreases length
      {
        var c := Getc();
        if c.Eof? { return Dry, sum, chars; }
        if IsControl(c.c) { return Bad, sum, chars; }
        sum, length := sum + c.c, length - 1;
        ghost var was := chars;
        chars := chars + [c.c];
        OpenedMore(Replay(log), n, kState, was, c.c);
        if kState == DATA_TYPE {
          KDataChar(c.c);
        } else if kState == SEND_TYPE {
          SaveParam(c.c, was);
        }
      }
      return Good, sum, chars;
    }

    /** The block check and the end-of-packet character. */
    method GetCheck(sum: nat, ghost l: int, ghost a: Attempt, ghost log: seq<Attempt>) returns (r: Reading)
      requires Valid() && Inside(Check, sum, l, a, log) && a.n >= 0
      modifies `pos, `parser
      ensures Valid() && pos >= old(pos)
      ensures r == Dry ==> pos == |input| && parser.status == Going
      ensures r != Dry ==> Closed(a.(ok := r == Good), log)
    {
      hide Replay, Run, Core.Begin, Core.Feed, Valid;
      var c := Getc();
      if c.Eof? { return Dry; }
      if IsControl(c.c) || c.c != CheckChar(sum) { return Bad; }
      c := Getc();
      if c.Eof? { return Dry; }
      r := if c.c != END_CHAR then Bad else Good;
    }

    /** One packet, from its START character on. */
    method GetPacket(n0: int, ghost log: seq<Attempt>)
      returns (r: Reading, n: int, kState: byte, ghost a: Attempt)
      requires Valid() && sendPtr == 0 && Inside(Len, 0, 0, NOTHING, log) && n0 == State().LastSeen()
      modifies this, sendParms
      ensures Valid() && unchanged(`sendParms) && pos >= old(pos)
      ensures r == Dry ==> pos == |input| && parser.status == Going
      ensures r != Dry ==> Closed(a, log) && n == State().LastSeen() && a.ok == (r == Good)
      ensures r == Good ==> a.n == n && a.typ == kState && (kState == SEND_TYPE ==> Params(a.chars))
    {
      hide Replay, Core.Opened, Run, Out, Valid, Params;
      var sum, length;
      ghost var chars: Bytes := [];
      kState, a := 0, NOTHING;
      r, n, sum, length := GetSequence(n0, log);
      if r != Good { return; }
      r, kState, sum, length := GetType(n, sum, length, log);
      a := Attempt(n, kState, [], false);
      if r != Good { return; }
      r, sum, chars := GetData(n, kState, sum, length, log);
      a := Attempt(n, kState, chars, false);
      if r != Good { return; }
      ghost var l :| Inside(Check, sum, l, a, log);
      r := GetCheck(sum, l, a, log);
      a := a.(ok := r == Good);
    }

    /** The end of the main loop: roll back and refuse, or acknowledge. */
    method Finish(error: bool, n: int, kState: byte, ghost a: Attempt, ghost log: seq<Attempt>)
      requires Valid() && Closed(a, log) && n == State().LastSeen()
      requires error == !a.ok && (!error ==> a.n == n && a.typ == kState)
      requires !error && kState == SEND_TYPE ==> Params(a.chars)
      modifies this`kDataEscape, this`osDataAddr, this`sent, this`hisQuote, this`sendPtr
      ensures Valid() && Between(if a.ok && a.typ == BREAK_TYPE then Finished else Going)
      ensures n == State().LastSeen()
    {
      ReplayStep(log, a);
      hide Replay, Core.Opened, Run, Out;
      if error {
        KDataRestore();
        sent := sent + [Nack(n)];
      } else if kState == SEND_TYPE {
        HandleSendPacket(n, a.chars);
      } else {
        sent := sent + [Ack(n)];
      }
    }

    /** One turn of the main loop: a packet is waited for, read and answered. */
    method NextPacket(n0: int) returns (r: Turn, n: int)
      requires Valid() && Between(Going) && n0 == State().LastSeen()
      modifies this, sendParms
      ensures Valid() && unchanged(`sendParms) && pos >= old(pos)
      ensures r == OutOfInput ==> pos == |input| && parser.status == Going
      ensures r == Escaped ==> parser.status == Interrupted
      ensures r == More ==> pos > old(pos)
      ensures r == More || r == Last ==> Between(if r == Last then Finished else Going) && n == State().LastSeen()
    {
      hide Replay, Core.Opened, Core.LastSeen, Run, Out;
      ghost var log := parser.log;
      n := n0;
      sendPtr := 0;
      var c := WaitForStart();
      if c.Eof? { return OutOfInput, n; }
      if c.c == ETX_CHAR { return Escaped, n; }
      var g, kState;
      ghost var a;
      g, n, kState, a := GetPacket(n, log);
      if g == Dry { return OutOfInput, n; }
      Finish(g == Bad, n, kState, a, log);
      r := if g == Good && kState == BREAK_TYPE then Last else More;
    }

    /** k_recv */
    method KRecv() returns (r: Outcome)
      requires Valid() && pos == 0 && sent == []
      modifies this, sendParms
      ensures Valid()
      ensures r.Received? <==> parser.status == Finished
      ensures r.Cancelled? <==> parser.status == Interrupted
      ensures r.Starved? ==> pos == |input|
      ensures r.Received? ==> State() == Replay(parser.log) && r.size == |Out()|
    {
      assert input[..0] == [];
      hisQuote, kDataEscape, osDataAddr, lastN := K_ESCAPE, false, binStartAddress, -1;
      kDataEscapeSaved, osDataAddrSaved := kDataEscape, osDataAddr;
      var n, turn := 0, More;
      while turn == More
        invariant Valid() && unchanged(`sendParms)
        invariant turn == OutOfInput ==> pos == |input| && parser.status == Going
        invariant turn == Escaped ==> parser.status == Interrupted
        invariant turn == More || turn == Last ==>
          Between(if turn == Last then Finished else Going) && n == State().LastSeen()
        decreases |input| - pos, turn == More
      {
        hide Replay, Core.LastSeen, Run, Out;
        turn, n := NextPacket(n);
      }
      match turn {
        case OutOfInput => return Starved;
        case Escaped => return Cancelled;
        case _ => return Received(osDataAddr - binStartAddress);
      }
    }
  }

  /** load_serial_bin: a transfer to `address` leaves exactly the unquoted payload there; a file that
      a sender has quoted is stored as it was. */
  method LoadSerialBin(input: Bytes, address: int, memory: map<int, byte>, ghost sendings: seq<Sending>, ghost more: Bytes)
    returns (r: Outcome, receiver: Receiver)
    requires Transfer(sendings) && input == Stream(sendings) + more
    ensures
      var packets := PacketsOf(sendings);
      var init, payload := packets[0].chars, Payload(packets);
      var quote: byte := if |init| >= 6 then init[5] else 0x23;
      && receiver.binStartAddress == address
      && StoredAs(r, receiver, Unquote(payload, quote, false).0)
      && forall file: Bytes :: IsPrefix(quote) && payload == Quote(file, quote) ==> StoredAs(r, receiver, file)
  {
    assert |PacketsOf(sendings)| > 0;
    hide Run, Stream, Replay, Unquote, Payload, Transfer, StoredAs;
    receiver := new Receiver(input, address, memory);
    r := receiver.KRecv();
    ParsedToTheEnd(input, sendings, more, receiver.pos, receiver.parser);
    StreamIsReceived(sendings);
    OutIsStored(r, receiver);
    ghost var packets := PacketsOf(sendings);
    ghost var quote := NewQuote(packets[0].chars);
    forall file: Bytes | IsPrefix(quote) && Payload(packets) == Quote(file, quote)
      ensures StoredAs(r, receiver, file)
    {
      QuoteRoundTrip(file, quote);
    }
  }

  /** A parser that has stopped, or has read all of the input, has read the session. */
  lemma {:induction false} ParsedToTheEnd(input: Bytes, sendings: seq<Sending>, more: Bytes, pos: nat, parser: Parser)
    requires Transfer(sendings) && input == Stream(sendings) + more && pos <= |input|
    requires parser == Run(START_PARSER, input[..pos]) && (parser.status == Going ==> pos == |input|)
    ensures parser == Run(START_PARSER, Stream(sendings)) && parser.status == Finished
  {
    hide Run, Stream, Transfer;
    StreamIsReceived(sendings);
    var p := Run(START_PARSER, Stream(sendings));
    RunConcat(START_PARSER, Stream(sendings), more);
    RunStopped(p, more);
    assert input == input[..pos] + input[pos..] && input[..|input|] == input;
    RunConcat(START_PARSER, input[..pos], input[pos..]);
    if parser.status != Going {
      RunStopped(parser, input[pos..]);
    }
  }

  lemma {:induction false} OutIsStored(r: Outcome, receiver: Receiver)
    requires receiver.Valid() && r == Received(|receiver.Out()|)
    ensures StoredAs(r, receiver, receiver.Out())
  {
    hide Run;
    var out := receiver.Out();
    assert forall i | 0 <= i < |out| :: out[i] == receiver.mem[receiver.binStartAddress + i];
  }

  /** The transfer has ended with the size of `data`, and the memory at the address holds it. */
  ghost predicate StoredAs(r: Outcome, receiver: Receiver, data: Bytes)
    reads receiver
  {
    && r == Received(|data|)
    && forall i | 0 <= i < |data| ::
      receiver.binStartAddress + i in receiver.mem && receiver.mem[receiver.binStartAddress + i] == data[i]
  }

  const SEND_FRAME: Bytes := [0x01, 0x23, 0x20, 0x53, 0x38, 0x0D]
  const DATA_FRAME: Bytes := [0x01, 0x25, 0x21, 0x44, 0x23, 0x4D, 0x5D, 0x0D]
  const BREAK_FRAME: Bytes := [0x01, 0x23, 0x22, 0x42, 0x29, 0x0D]

  /** A whole session, character by character: a Send-Initiate packet, a carriage return as `#M`, and a
      BREAK. */
  method CarriageReturn(address: int) returns (r: Outcome, receiver: Receiver)
    ensures r == Received(1) && address in receiver.mem && receiver.mem[address] == 0x0D
  {
    var input := SEND_FRAME + DATA_FRAME + BREAK_FRAME;
    ghost var sendings := SessionIs();
    UnquotesToReturn();
    hide Transfer, Stream, Payload, Unquote, SEND_FRAME, DATA_FRAME, BREAK_FRAME, Quote;
    assert input + [] == input;
    r, receiver := LoadSerialBin(input, address, map[], sendings, []);
    ghost var file: Bytes := [0x0D];
    assert StoredAs(r, receiver, file) && file[0] == 0x0D;
  }

  lemma {:induction false} UnquotesToReturn()
    ensures Unquote([0x23, 0x4D], 0x23, false).0 == [0x0D]
  {
    UnquoteNone(0x23);
    UnquoteFront(0x4D, 0x23, []);
    assert [0x23, 0x4D] + [] == [0x23, 0x4D] && [KTrans(0x4D)] + [] == [0x0D];
  }

  lemma {:induction false} SessionIs() returns (sendings: seq<Sending>)
    ensures Transfer(sendings) && SEND_FRAME + DATA_FRAME + BREAK_FRAME == Stream(sendings)
    ensures PacketsOf(sendings)[0].chars == [] && Payload(PacketsOf(sendings)) == [0x23, 0x4D]
  {
    hide Frame, Sendable, Stream, Transfer, Payload, SEND_FRAME, DATA_FRAME, BREAK_FRAME;
    FramesAre();
    sendings := Session(Packet(0x53, []), Packet(0x44, [0x23, 0x4D]), Packet(0x42, []));
  }

  /** Three packets, each sent once. */
  lemma {:induction false} Session(a: Packet, b: Packet, c: Packet) returns (sendings: seq<Sending>)
    requires a.typ == 0x53 && b.typ == 0x44 && c.typ == 0x42
    requires Sendable(0, a.typ, a.chars, false) && Sendable(1, b.typ, b.chars, false) && Sendable(2, c.typ, c.chars, false)
    ensures Transfer(sendings) && PacketsOf(sendings)[0] == a && Payload(PacketsOf(sendings)) == b.chars
    ensures Stream(sendings) ==
      Frame(0, a.typ, a.chars, false) + Frame(1, b.typ, b.chars, false) + Frame(2, c.typ, c.chars, false)
  {
    hide Frame, Sendable, SendingOk, Stream, Payload, Transfer, Heard;
    var x := Once(0, a);
    var y := Once(1, b);
    var z := Once(2, c);
    sendings := [x, y, z];
    StreamOfThree(x, y, z);
    PayloadOfThree(a, b, c);
    TransferOfThree(x, y, z);
    assert PacketsOf(sendings) == [a, b, c];
  }

  lemma {:induction false} FramesAre()
    ensures Sendable(0, 0x53, [], false) && Frame(0, 0x53, [], false) == SEND_FRAME
    ensures Sendable(1, 0x44, [0x23, 0x4D], false) && Frame(1, 0x44, [0x23, 0x4D], false) == DATA_FRAME
    ensures Sendable(2, 0x42, [], false) && Frame(2, 0x42, [], false) == BREAK_FRAME
  {
    FrameIs(0, 0x53, [], [0x23, 0x20, 0x53], 0x38);
    FrameIs(1, 0x44, [0x23, 0x4D], [0x25, 0x21, 0x44, 0x23, 0x4D], 0x5D);
    FrameIs(2, 0x42, [], [0x23, 0x22, 0x42], 0x29);
    hide Frame;
  }

  lemma {:induction false} FrameIs(n: nat, typ: byte, chars: Bytes, content: Bytes, check: byte)
    requires Sendable(n, typ, chars, false) && (|content| == 3 || |content| == 5)
    requires content == [|chars| + 3 + SPACE, n + SPACE, typ] + chars
    requires check == CheckChar(content[0] as int + content[1] as int + content[2] as int +
      if |content| == 5 then content[3] as int + content[4] as int else 0)
    ensures Frame(n, typ, chars, false) == [0x01] + content + [check, 0x0D]
  {
    SumFirst(content);
    hide Sum, Sendable;
  }

  /** A packet sent once, on a clear line. */
  lemma {:induction false} Once(i: nat, p: Packet) returns (s: Sending)
    requires i < 64 && Sendable(i, p.typ, p.chars, false)
    ensures s.packet == p && SendingOk(i, s) && Heard(s.copies) == Frame(i, p.typ, p.chars, false)
  {
    hide Arrives, Frame, Sendable, Heard, HeaderFirst, CopiesOk, IsControl;
    var frame := Frame(i, p.typ, p.chars, false);
    s := Sending(p, false, [([], frame)]);
    FrameArrives(i, p, false);
    FramePrintable(i, p, false);
    OneCopyOk(i, p, frame);
    OneCopyHeard(frame);
  }

  lemma {:induction false} OneCopyOk(i: nat, p: Packet, frame: Bytes)
    requires Sendable(i, p.typ, p.chars, false) && frame == Frame(i, p.typ, p.chars, false) && Arrives(frame, i, p, false)
    requires |frame| >= 6 && forall k | 0 < k < |frame| - 1 :: !IsControl(frame[k])
    ensures CopiesOk(i, p, false, [([], frame)]) && HeaderFirst([([], frame)])
  {
    hide Arrives, Frame, Sendable;
    var copies: seq<(Bytes, Bytes)> := [([], frame)];
    assert copies[1..] == [];
  }

  lemma {:induction false} OneCopyHeard(frame: Bytes)
    ensures Heard([([], frame)]) == frame
  {
    var copies: seq<(Bytes, Bytes)> := [([], frame)];
    assert copies[1..] == [] && Heard([]) == [] && [] + frame + [] == frame;
  }

  lemma {:induction false} StreamOfThree(x: Sending, y: Sending, z: Sending)
    ensures Stream([x, y, z]) == Heard(x.copies) + Heard(y.copies) + Heard(z.copies)
  {
    hide Heard;
    assert [x, y, z][..2] == [x, y] && [x, y][..1] == [x] && [x][..0] == [];
    assert Stream([x, y, z]) == Stream([x, y]) + Heard(z.copies);
    assert Stream([x, y]) == Stream([x]) + Heard(y.copies);
    assert Stream([x]) == [] + Heard(x.copies);
  }

  lemma {:induction false} TransferOfThree(x: Sending, y: Sending, z: Sending)
    requires SendingOk(0, x) && SendingOk(1, y) && SendingOk(2, z)
    requires x.packet.typ == 0x53 && y.packet.typ == 0x44 && z.packet.typ == 0x42
    ensures Transfer([x, y, z])
  {
    hide SendingOk;
    var sendings := [x, y, z];
    assert forall i | 0 <= i < 3 :: SendingOk(i, sendings[i]);
  }

  lemma {:induction false} PayloadOfThree(a: Packet, b: Packet, c: Packet)
    requires a.typ != 0x44 && b.typ == 0x44 && c.typ != 0x44
    ensures Payload([a, b, c]) == b.chars
  {
    assert [a, b, c][..2] == [a, b] && [a, b][..1] == [a] && [a][..0] == [];
    assert Payload([]) == [] && Payload([a]) == [] && Payload([a, b]) == [] + b.chars;
  }
}
