/** The Kermit receiver of common/cmd_load.c, which writes the data straight to memory and takes it
    back when a packet turns out to be damaged or is sent again.  Packets have the layout of section 6
    "Packet Format" of the Kermit Protocol Manual, 6th edition, with block check type 1.

    Two specifications: `Parser` cuts any character stream into attempts (one per START character),
    `Replay` says what each attempt does to the data.  `KRecv` is the code. */
module Kermit {
  import opened Common

  type Bytes = seq<byte>

  const START_CHAR: byte := 0x01
  const ETX_CHAR: byte := 0x03
  const END_CHAR: byte := 0x0D
  const SPACE := 0x20
  const K_ESCAPE: byte := 0x23
  const SEND_TYPE: byte := 0x53
  const DATA_TYPE: byte := 0x44
  const BREAK_TYPE: byte := 0x42

  /** (c & 0xE0) == 0 */
  predicate IsControl(c: byte) {
    c < 0x20
  }

  /** The block check character of a character sum. */
  function CheckChar(sum: nat): (r: byte)
    ensures !IsControl(r)
  {
    (sum + sum / 64 % 4) % 64 + SPACE
  }

  /** ktrans: the character that a quoted character stands for. */
  function KTrans(c: byte): byte {
    if c / 32 % 4 == 2 then c - 0x40
    else if c % 128 == 0x3F then c + 0x40
    else c
  }

  // ----- cutting the stream into attempts -----------------------------------------------------

  /** One packet as far as it was read: `n` is -1 when the length or the sequence character was bad,
      `typ` is 0 when the type was, and `ok` says that it was accepted. */
  datatype Attempt = Attempt(n: int, typ: byte, chars: Bytes, ok: bool)

  const NOTHING := Attempt(-1, 0, [], false)

  datatype Phase = Idle | Len | Seq | Type | ExtHi | ExtLo | HeadCheck | Data | Check | End

  datatype Status = Going | Interrupted | Finished

  datatype Parser = Parser(phase: Phase, sum: nat, length: int, hi: int, cur: Attempt,
                           log: seq<Attempt>, status: Status)
  {
    function Close(ok: bool): Parser {
      Parser(Idle, 0, 0, 0, NOTHING, log + [cur.(ok := ok)],
             if ok && cur.typ == BREAK_TYPE then Finished else status)
    }

    /** Data follow while more than the block check is missing. */
    function Body(): Parser {
      this.(phase := if length > 1 then Data else Check)
    }

    function Step(c: byte): Parser {
      if status != Going then this
      else if phase == Idle then
        if c == START_CHAR then Parser(Len, 0, 0, 0, NOTHING, log, status)
        else if c == ETX_CHAR then this.(status := Interrupted)
        else this
      else if phase == End then Close(c == END_CHAR)
      else if IsControl(c) then Close(false)
      else
        var p := this.(sum := sum + c);
        match phase
        case Len => p.(length := c - SPACE, phase := Seq)
        case Seq => p.(length := length - 1, cur := cur.(n := c - SPACE), phase := Type)
        case Type =>
          var q := p.(length := length - 1, cur := cur.(typ := c));
          if q.length == -2 then q.(phase := ExtHi) else q.Body()
        case ExtHi => p.(hi := c - SPACE, phase := ExtLo)
        case ExtLo => p.(length := hi * 95 + (c - SPACE), phase := HeadCheck)
        case HeadCheck => if c == CheckChar(sum) then p.Body() else Close(false)
        case Data => p.(length := length - 1, cur := cur.(chars := cur.chars + [c])).Body()
        case Check => if c == CheckChar(sum) then this.(phase := End) else Close(false)
    }
  }

  const START_PARSER := Parser(Idle, 0, 0, 0, NOTHING, [], Going)

  function Run(p: Parser, s: Bytes): Parser {
    if s == [] then p else Run(p, s[..|s| - 1]).Step(s[|s| - 1])
  }

  lemma {:induction false} RunConcat(p: Parser, s: Bytes, t: Bytes)
    ensures Run(p, s + t) == Run(Run(p, s), t)
  {
    if t == [] {
      assert s + t == s;
    } else {
      assert (s + t)[..|s + t| - 1] == s + t[..|t| - 1];
      RunConcat(p, s, t[..|t| - 1]);
    }
  }

  // ----- what the attempts do to the data -----------------------------------------------------

  datatype Reply = Ack(n: int) | Nack(n: int) | SendAck(n: int)

  /** The receiver's data: the bytes stored so far, whether the last character was the quote, the
      checkpoint of both, and the quote character in force. */
  datatype Core = Core(lastN: int, escape: bool, out: Bytes, escapeSaved: bool, outSaved: nat,
                       quote: byte, replies: seq<Reply>)
  {
    ghost predicate Valid() {
      outSaved <= |out|
    }

    function Restore(): Core
      requires outSaved <= |out|
    {
      this.(escape := escapeSaved, out := out[..outSaved])
    }

    function Save(): Core {
      this.(escapeSaved := escape, outSaved := |out|)
    }

    /** The number a negative acknowledgement carries. */
    function LastSeen(): int {
      if lastN == -1 then 0 else lastN
    }

    /** A sequence number is read: a repeated one goes back to the checkpoint. */
    function Begin(n: int): (r: Core)
      requires Valid()
      ensures r.Valid()
    {
      if n == lastN then Restore() else this.(lastN := n).Save()
    }

    function Feed(chars: Bytes): (r: Core)
      ensures out <= r.out && r.(escape := escape, out := out) == this
    {
      if chars == [] then this
      else
        Feed(chars[..|chars| - 1]).FeedChar(chars[|chars| - 1])
    }

    /** k_data_char */
    function FeedChar(c: byte): Core {
      if escape then this.(escape := false, out := out + [KTrans(c)])
      else if c == quote then this.(escape := true)
      else this.(out := out + [c])
    }

    function Opened(a: Attempt): (r: Core)
      requires Valid()
      ensures r.Valid()
    {
      var b := Begin(a.n);
      if a.typ == DATA_TYPE then b.Feed(a.chars) else b
    }

    function Reject(): Core
      requires Valid()
    {
      Restore().(replies := replies + [Nack(LastSeen())])
    }

    function After(a: Attempt): (r: Core)
      requires Valid()
      ensures r.Valid()
    {
      if a.n == -1 then Reject()
      else if !a.ok then Opened(a).Reject()
      else if a.typ == SEND_TYPE then
        var r := Opened(a);
        r.(quote := NewQuote(a.chars), replies := r.replies + [SendAck(a.n)])
      else
        var r := Opened(a);
        r.(replies := r.replies + [Ack(a.n)])
    }
  }

  /** The quote character a Send-Initiate packet asks for: its sixth parameter, '#' by default. */
  function NewQuote(chars: Bytes): byte {
    if |chars| >= 6 then chars[5] else K_ESCAPE
  }

  const START_CORE := Core(-1, false, [], false, 0, K_ESCAPE, [])

  function Replay(log: seq<Attempt>): (r: Core)
    ensures r.Valid()
  {
    if log == [] then START_CORE else Replay(log[..|log| - 1]).After(log[|log| - 1])
  }

  // ----- which attempts reach the memory ------------------------------------------------------

  /** Control-unquoting, from the front: the bytes, and whether a quote is still open. */
  function Unquote(chars: Bytes, quote: byte, open: bool): (Bytes, bool) {
    if chars == [] then ([], open)
    else if open then
      var (rest, o) := Unquote(chars[1..], quote, false);
      ([KTrans(chars[0])] + rest, o)
    else if chars[0] == quote then Unquote(chars[1..], quote, true)
    else
      var (rest, o) := Unquote(chars[1..], quote, false);
      ([chars[0]] + rest, o)
  }

  lemma {:induction false} UnquoteConcat(s: Bytes, t: Bytes, quote: byte, open: bool)
    ensures var (a, o) := Unquote(s, quote, open);
      var (b, o') := Unquote(t, quote, o);
      Unquote(s + t, quote, open) == (a + b, o')
  {
    if s == [] {
      assert s + t == t && Unquote(s, quote, open) == ([], open);
      assert [] + Unquote(t, quote, open).0 == Unquote(t, quote, open).0;
    } else {
      assert (s + t)[1..] == s[1..] + t && (s + t)[0] == s[0];
      var next := !open && s[0] == quote;
      UnquoteConcat(s[1..], t, quote, next);
      var (a, o) := Unquote(s[1..], quote, next);
      var (b, _) := Unquote(t, quote, o);
      assert forall x: byte {:trigger [x] + a} :: [x] + (a + b) == [x] + a + b;
    }
  }

  lemma {:induction false} FeedUnquotes(c: Core, chars: Bytes)
    ensures var (b, o) := Unquote(chars, c.quote, c.escape);
      c.Feed(chars) == c.(escape := o, out := c.out + b)
  {
    if chars != [] {
      var front, last := chars[..|chars| - 1], chars[|chars| - 1];
      FeedUnquotes(c, front);
      assert chars == front + [last];
      UnquoteConcat(front, [last], c.quote, c.escape);
    }
  }

  // ----- a sender -----------------------------------------------------------------------------

  /** b ^ 0x40 */
  function Flip(b: byte): byte {
    if b / 64 % 2 == 0 then b + 64 else b - 64
  }

  /** A control character, DEL, or one of them with the eighth bit set. */
  predicate NeedsQuote(b: byte) {
    b % 128 < 32 || b % 128 == 127
  }

  /** The printable characters that a sender may choose as its quote. */
  predicate IsPrefix(q: byte) {
    '!' as int <= q <= '>' as int || '`' as int <= q <= '~' as int
  }

  /** Control-quoting as a sender does it. */
  function Quote(data: Bytes, q: byte): Bytes {
    if data == [] then []
    else
      var b := data[0];
      (if NeedsQuote(b) then [q, Flip(b)] else if b == q then [q, q] else [b]) + Quote(data[1..], q)
  }

  /** Bit 6 is turned over and no other bit. */
  lemma {:induction false} FlipBits(b: byte)
    ensures var c := Flip(b);
      && c / 128 == b / 128 && c / 64 % 2 != b / 64 % 2 && c % 64 == b % 64
      && c / 32 % 2 == b / 32 % 2 && c % 32 == b % 32
  {
    var k, r := b / 64, b % 64;
    Halves(k, r);
    Halves(if k % 2 == 0 then k + 1 else k - 1, r);
  }

  lemma {:induction false} Halves(k: nat, r: nat)
    requires r < 64
    ensures var b := 64 * k + r;
      b / 128 == k / 2 && b / 64 == k && b % 64 == r && b / 32 % 2 == r / 32 && b % 32 == r % 32
  {
    By32(2 * k + r / 32, r % 32);
    By64(k, r);
    By128(k / 2, k % 2 * 64 + r);
    Parity(k, r / 32);
  }

  lemma {:induction false} By32(k: nat, r: nat)
    ensures r < 32 ==> (32 * k + r) / 32 == k && (32 * k + r) % 32 == r
  {
  }

  lemma {:induction false} By64(k: nat, r: nat)
    ensures r < 64 ==> (64 * k + r) / 64 == k && (64 * k + r) % 64 == r
  {
  }

  lemma {:induction false} By128(k: nat, r: nat)
    ensures r < 128 ==> (128 * k + r) / 128 == k
  {
  }

  lemma {:induction false} Parity(k: nat, r: nat)
    ensures r < 2 ==> (2 * k + r) % 2 == r
  {
  }

  /** ktrans on the bits: behind the quote, bit 6 is cleared where it is set and bit 5 is not, and set where
      the low seven bits are those of `?`. */
  lemma {:induction false} KTransBits(c: byte)
    ensures c / 64 % 2 == 1 && c / 32 % 2 == 0 ==> KTrans(c) == c - 64
    ensures c % 128 == '?' as int ==> KTrans(c) == c + 64
    ensures !(c / 64 % 2 == 1 && c / 32 % 2 == 0) && c % 128 != '?' as int ==> KTrans(c) == c
  {
  }

  lemma {:induction false} KTransFlip(b: byte)
    ensures NeedsQuote(b) ==> KTrans(Flip(b)) == b && !IsControl(Flip(b))
    ensures !NeedsQuote(b) ==> !IsControl(b)
  {
    FlipBits(b);
    KTransBits(Flip(b));
    hide KTrans;
  }

  /** What any sender has quoted, the receiver's translation gives back. */
  lemma {:induction false} QuoteRoundTrip(data: Bytes, q: byte)
    requires IsPrefix(q)
    ensures Unquote(Quote(data, q), q, false) == (data, false)
  {
    hide Unquote, KTrans, Flip, NeedsQuote;
    if data == [] {
      UnquoteNone(q);
    } else {
      var b, rest := data[0], Quote(data[1..], q);
      QuoteRoundTrip(data[1..], q);
      KTransFlip(b);
      KTransPrefix(q);
      UnquoteFront(b, q, rest);
      UnquoteFront(Flip(b), q, rest);
      UnquoteFront(q, q, rest);
      assert [b] + data[1..] == data;
    }
  }

  lemma {:induction false} UnquoteNone(q: byte)
    ensures Unquote([], q, false) == ([], false)
  {
  }

  lemma {:induction false} KTransPrefix(q: byte)
    ensures IsPrefix(q) ==> KTrans(q) == q
  {
  }

  /** A character in front of others, plain or behind a quote. */
  lemma {:induction false} UnquoteFront(c: byte, q: byte, rest: Bytes)
    ensures var (r, o) := Unquote(rest, q, false);
      && (c != q ==> Unquote([c] + rest, q, false) == ([c] + r, o))
      && Unquote([q, c] + rest, q, false) == ([KTrans(c)] + r, o)
  {
    hide KTrans;
    assert ([c] + rest)[1..] == rest && ([q, c] + rest)[1..] == [c] + rest;
  }

  /** Quoted data can be sent. */
  lemma {:induction false} QuotedIsPrintable(data: Bytes, q: byte)
    requires IsPrefix(q)
    ensures forall i | 0 <= i < |Quote(data, q)| :: !IsControl(Quote(data, q)[i])
  {
    hide Flip, NeedsQuote;
    if data != [] {
      KTransFlip(data[0]);
      QuotedIsPrintable(data[1..], q);
    }
  }

  /** A data packet stays in memory exactly when it was accepted and the next attempt, if there is
      one, has a good header with another sequence number. */
  predicate Survives(log: seq<Attempt>, i: nat)
    requires i < |log|
  {
    && log[i].n != -1 && log[i].ok && log[i].typ == DATA_TYPE
    && (i + 1 < |log| ==> log[i + 1].n != -1 && log[i + 1].n != log[i].n)
  }

  /** The quote character in force when attempt `i` is read. */
  function QuoteAt(log: seq<Attempt>, i: nat): byte
    requires i <= |log|
  {
    if i == 0 then K_ESCAPE
    else if log[i - 1].n != -1 && log[i - 1].ok && log[i - 1].typ == SEND_TYPE then NewQuote(log[i - 1].chars)
    else QuoteAt(log, i - 1)
  }

  /** The unquoted data of the survivors among the first `k` attempts. */
  function Stored(log: seq<Attempt>, k: nat): (Bytes, bool)
    requires k <= |log|
  {
    if k == 0 then ([], false)
    else
      var (b, o) := Stored(log, k - 1);
      if Survives(log, k - 1) then
        var (b', o') := Unquote(log[k - 1].chars, QuoteAt(log, k - 1), o);
        (b + b', o')
      else (b, o)
  }

  lemma {:induction false} StoredPrefix(log: seq<Attempt>, a: Attempt, k: nat)
    requires k < |log| || k == 0
    ensures Stored(log + [a], k) == Stored(log, k)
  {
    if k > 0 {
      StoredPrefix(log, a, k - 1);
      QuotePrefix(log, a, k - 1);
    }
  }

  lemma {:induction false} QuotePrefix(log: seq<Attempt>, a: Attempt, k: nat)
    requires k <= |log|
    ensures QuoteAt(log + [a], k) == QuoteAt(log, k)
  {
    if k > 0 {
      QuotePrefix(log, a, k - 1);
    }
  }

  /** The sequence number of the last attempt with a good header. */
  function LastN(log: seq<Attempt>): int {
    if log == [] then -1
    else if log[|log| - 1].n != -1 then log[|log| - 1].n
    else LastN(log[..|log| - 1])
  }

  /** For every sequence of attempts: the memory holds the survivors, unquoted, once and in order; and
      the checkpoint holds the survivors that the last attempt can no longer undo. */
  lemma {:induction false} MemoryHoldsTheSurvivors(log: seq<Attempt>)
    ensures var r := Replay(log);
      && (r.out, r.escape) == Stored(log, |log|)
      && (r.out[..r.outSaved], r.escapeSaved) == Stored(log, if log == [] then 0 else |log| - 1)
      && r.quote == QuoteAt(log, |log|)
      && r.lastN == LastN(log)
  {
    if log != [] {
      var front, a := log[..|log| - 1], log[|log| - 1];
      assert log == front + [a];
      MemoryHoldsTheSurvivors(front);
      LastAttempt(front, a);
    }
  }

  /** Every attempt is answered, in order: one that is accepted with an acknowledgement of its number, a
      Send-Initiate packet with the receiver's parameters, and any other with a refusal that carries the
      last number read, or 0. */
  lemma {:induction false} EveryAttemptIsAnswered(log: seq<Attempt>)
    ensures |Replay(log).replies| == |log|
    ensures forall i | 0 <= i < |log| ::
      var a, n := log[i], LastN(log[..i + 1]);
      Replay(log).replies[i] ==
      if a.n == -1 || !a.ok then Nack(if n == -1 then 0 else n)
      else if a.typ == 0x53 then SendAck(a.n)
      else Ack(a.n)
  {
    hide Replay, LastN;
    AnswersAre(log);
  }

  /** The replies to the attempts so far. */
  predicate Answers(replies: seq<Reply>, log: seq<Attempt>) {
    && |replies| == |log|
    && forall i | 0 <= i < |log| :: replies[i] == Answer(log[i], LastN(log[..i + 1]))
  }

  function Answer(a: Attempt, n: int): Reply {
    if a.n == -1 || !a.ok then Nack(if n == -1 then 0 else n)
    else if a.typ == SEND_TYPE then SendAck(a.n)
    else Ack(a.n)
  }

  lemma {:induction false} AnswersAre(log: seq<Attempt>)
    ensures Answers(Replay(log).replies, log)
  {
    if log != [] {
      hide Replay, LastN, Core.After, Core.Valid, Answer, Answers;
      var front, a := log[..|log| - 1], log[|log| - 1];
      assert log == front + [a];
      AnswersAre(front);
      LastRead(front);
      OneReply(Replay(front), a);
      LastNMore(front, a);
      ReplayStep(front, a);
      OneMoreAnswer(Replay(front).replies, front, a);
    }
  }

  lemma {:induction false} OneMoreAnswer(replies: seq<Reply>, front: seq<Attempt>, a: Attempt)
    requires Answers(replies, front)
    ensures Answers(replies + [Answer(a, LastN(front + [a]))], front + [a])
  {
    hide LastN, Answer;
    var log := front + [a];
    assert log[..|log|] == log;
    forall i | 0 <= i < |front|
      ensures log[i] == front[i] && log[..i + 1] == front[..i + 1]
    {
    }
  }

  lemma {:induction false} LastRead(log: seq<Attempt>)
    ensures Replay(log).Valid() && Replay(log).lastN == LastN(log)
  {
    hide Replay, LastN;
    MemoryHoldsTheSurvivors(log);
  }

  lemma {:induction false} OneReply(c: Core, a: Attempt)
    requires c.Valid()
    ensures c.After(a).replies == c.replies + [Answer(a, if a.n != -1 then a.n else c.lastN)]
  {
    hide Core.Feed;
  }

  lemma {:induction false} LastNMore(front: seq<Attempt>, a: Attempt)
    ensures LastN(front + [a]) == if a.n != -1 then a.n else LastN(front)
  {
    assert (front + [a])[..|front|] == front;
  }

  lemma {:induction false} LastAttempt(front: seq<Attempt>, a: Attempt)
    requires var r, k := Replay(front), if front == [] then 0 else |front| - 1;
      && (r.out, r.escape) == Stored(front, |front|)
      && (r.out[..r.outSaved], r.escapeSaved) == Stored(front, k)
      && r.quote == QuoteAt(front, |front|) && r.lastN == LastN(front)
    ensures var r, log := Replay(front).After(a), front + [a];
      && (r.out, r.escape) == Stored(log, |log|)
      && (r.out[..r.outSaved], r.escapeSaved) == Stored(log, |front|)
      && r.quote == QuoteAt(log, |log|)
      && r.lastN == LastN(log)
  {
    hide Replay, Unquote, Core.After, QuoteAt, Stored;
    if a.n == -1 {
      LastBadHeader(front, a);
    } else {
      LastGoodHeader(front, a);
    }
  }

  /** The two ends of a log that has become longer. */
  lemma {:induction false} LongerLog(front: seq<Attempt>, a: Attempt)
    ensures var log, k := front + [a], if front == [] then 0 else |front| - 1;
      && log[..|front|] == front && log[|front|] == a
      && QuoteAt(log, |front|) == QuoteAt(front, |front|) && Stored(log, k) == Stored(front, k)
      && LastN(log) == (if a.n != -1 then a.n else LastN(front))
      && Stored(log, |front|) ==
         (if front != [] && (a.n == -1 || a.n == front[|front| - 1].n) then Stored(front, k) else Stored(front, |front|))
  {
    hide Unquote;
    var log, k := front + [a], if front == [] then 0 else |front| - 1;
    assert log[..|front|] == front;
    QuotePrefix(front, a, |front|);
    QuotePrefix(front, a, k);
    StoredPrefix(front, a, k);
    if front != [] {
      assert Survives(log, k) <==> Survives(front, k) && a.n != -1 && a.n != front[k].n;
      if front[k].n != a.n && a.n != -1 {
        assert Stored(log, |front|) == Stored(front, |front|);
      } else {
        assert Stored(log, |front|) == Stored(log, k);
      }
    }
  }

  lemma {:induction false} LastBadHeader(front: seq<Attempt>, a: Attempt)
    requires a.n == -1
    requires var r, k := Replay(front), if front == [] then 0 else |front| - 1;
      && (r.out, r.escape) == Stored(front, |front|)
      && (r.out[..r.outSaved], r.escapeSaved) == Stored(front, k)
      && r.quote == QuoteAt(front, |front|) && r.lastN == LastN(front)
    ensures var r, log := Replay(front).After(a), front + [a];
      && (r.out, r.escape) == Stored(log, |log|)
      && (r.out[..r.outSaved], r.escapeSaved) == Stored(log, |front|)
      && r.quote == QuoteAt(log, |log|)
      && r.lastN == LastN(log)
  {
    LongerLog(front, a);
    hide Replay, Unquote, LastN;
    var log, c := front + [a], Replay(front);
    assert !Survives(log, |front|);
    assert Stored(log, |log|) == Stored(log, |front|);
    assert c.Reject().out[..c.outSaved] == c.out[..c.outSaved];
  }

  lemma {:induction false} LastGoodHeader(front: seq<Attempt>, a: Attempt)
    requires a.n != -1
    requires var r, k := Replay(front), if front == [] then 0 else |front| - 1;
      && (r.out, r.escape) == Stored(front, |front|)
      && (r.out[..r.outSaved], r.escapeSaved) == Stored(front, k)
      && r.quote == QuoteAt(front, |front|) && r.lastN == LastN(front)
    ensures var r, log := Replay(front).After(a), front + [a];
      && (r.out, r.escape) == Stored(log, |log|)
      && (r.out[..r.outSaved], r.escapeSaved) == Stored(log, |front|)
      && r.quote == QuoteAt(log, |log|)
      && r.lastN == LastN(log)
  {
    LongerLog(front, a);
    LastNumber(front);
    hide Replay, Unquote, Core.After, LastN, NewQuote;
    var log, c := front + [a], Replay(front);
    var b := c.Begin(a.n);
    assert (b.out, b.escape) == Stored(log, |front|);
    AttemptEffect(c, a);
    assert c.After(a).out[..b.outSaved] == b.out;
    assert Survives(log, |front|) <==> a.ok && a.typ == DATA_TYPE;
  }

  /** The last attempt has the last number, or leaves nothing behind. */
  lemma {:induction false} LastNumber(front: seq<Attempt>)
    ensures front == [] ==> LastN(front) == -1
    ensures var k := |front| - 1;
      front != [] ==>
        && (front[k].n == -1 ==> Stored(front, |front|) == Stored(front, k))
        && (front[k].n != -1 ==> LastN(front) == front[k].n)
  {
    hide Unquote;
  }

  lemma {:induction false} ReplayStep(log: seq<Attempt>, a: Attempt)
    ensures Replay(log + [a]) == Replay(log).After(a)
  {
    assert (log + [a])[..|log|] == log;
  }

  // ----- a stop-and-wait sender ---------------------------------------------------------------

  datatype Packet = Packet(typ: byte, chars: Bytes)

  /** An attempt that carries the number of the packet, or none, and is accepted only with its content. */
  predicate TryOf(a: Attempt, n: int, p: Packet) {
    && (a.n == n || a.n == -1)
    && (a.ok ==> a.n != -1 && a.typ == p.typ && a.chars == p.chars)
  }

  /** What the receiver sees of packet number `i`: attempts that carry its sequence number, the first
      with a good header, any of them damaged or repeated, and the last one accepted. */
  predicate Tries(i: nat, p: Packet, t: seq<Attempt>) {
    && t != [] && t[0].n != -1 && t[|t| - 1].ok
    && forall j | 0 <= j < |t| :: TryOf(t[j], i % 64, p)
  }

  function Flat(tries: seq<seq<Attempt>>): seq<Attempt> {
    if tries == [] then [] else Flat(tries[..|tries| - 1]) + tries[|tries| - 1]
  }

  /** The characters of the data packets, one packet after the other. */
  function Payload(packets: seq<Packet>): Bytes {
    if packets == [] then []
    else
      var p := packets[|packets| - 1];
      Payload(packets[..|packets| - 1]) + if p.typ == DATA_TYPE then p.chars else []
  }

  /** What one attempt with a good header does, relative to the state at its checkpoint. */
  lemma {:induction false} AttemptEffect(d: Core, a: Attempt)
    requires d.Valid() && a.n != -1
    ensures var b, r := d.Begin(a.n), d.After(a);
      var (x, o) := Unquote(a.chars, b.quote, b.escape);
      && b.out == b.out[..b.outSaved] && b.escape == b.escapeSaved && b.lastN == a.n && b.quote == d.quote
      && r.lastN == a.n && r.escapeSaved == b.escapeSaved && r.outSaved == b.outSaved
      && r.quote == (if a.ok && a.typ == SEND_TYPE then NewQuote(a.chars) else d.quote)
      && (r.out, r.escape) == (if a.ok && a.typ == DATA_TYPE then (b.out + x, o) else (b.out, b.escape))
  {
    var b := d.Begin(a.n);
    FeedUnquotes(b, a.chars);
    hide Unquote, Core.Feed, NewQuote;
    assert (b.out + Unquote(a.chars, b.quote, b.escape).0)[..b.outSaved] == b.out;
  }

  /** State `r` after attempts at packet `p` with number `n` that began in state `c`. */
  ghost predicate During(c: Core, r: Core, n: int, p: Packet, ok: bool) {
    && r.lastN == n && r.escapeSaved == c.escape && r.outSaved == |c.out| && c.out <= r.out
    && (p.typ != SEND_TYPE ==> r.quote == c.quote)
    && (ok ==>
          && (p.typ == SEND_TYPE ==> r.quote == NewQuote(p.chars))
          && if p.typ != DATA_TYPE then r.out == c.out && r.escape == c.escape
             else
               var (b, o) := Unquote(p.chars, c.quote, c.escape);
               r.out == c.out + b && r.escape == o)
  }

  lemma {:induction false} DuringStep(c: Core, d: Core, n: int, p: Packet, a: Attempt, before: bool)
    requires d.Valid() && n != -1
    requires During(c, d, n, p, before) || (d == c && c.lastN != n && a.n != -1)
    requires (a.n == n || a.n == -1) && (a.ok ==> a.n != -1 && a.typ == p.typ && a.chars == p.chars)
    ensures During(c, d.After(a), n, p, a.ok)
  {
    hide Unquote, NewQuote, Core.Feed;
    if a.n != -1 {
      AttemptEffect(d, a);
      hide Core.After;
      assert d.Begin(a.n).out == c.out && d.Begin(a.n).escape == c.escape;
    }
  }

  /** The effect of the first `j` attempts at one packet. */
  lemma {:induction false} TriesPrefix(log: seq<Attempt>, i: nat, p: Packet, t: seq<Attempt>, j: nat)
    requires Tries(i, p, t) && 0 < j <= |t| && Replay(log).lastN != i % 64
    ensures During(Replay(log), Replay(log + t[..j]), i % 64, p, t[j - 1].ok)
  {
    var c, a := Replay(log), t[j - 1];
    assert log + t[..j] == log + t[..j - 1] + [a];
    ReplayStep(log + t[..j - 1], a);
    hide Replay, During, Core.After;
    if j > 1 {
      TriesPrefix(log, i, p, t, j - 1);
      DuringStep(c, Replay(log + t[..j - 1]), i % 64, p, a, t[j - 2].ok);
    } else {
      assert log + t[..0] == log;
      DuringStep(c, c, i % 64, p, a, false);
    }
  }

  /** Exactly once: however many packets were damaged or repeated, the memory holds the
      control-unquoted characters of every data packet once and in order. */
  lemma {:induction false} ExactlyOnce(packets: seq<Packet>, tries: seq<seq<Attempt>>)
    requires |packets| == |tries| > 0
    requires packets[0].typ == SEND_TYPE && forall i | 0 < i < |packets| :: packets[i].typ != SEND_TYPE
    requires forall i | 0 <= i < |packets| :: Tries(i, packets[i], tries[i])
    ensures var r, quote := Replay(Flat(tries)), NewQuote(packets[0].chars);
      && (r.out, r.escape) == Unquote(Payload(packets), quote, false)
      && r.quote == quote && r.lastN == (|packets| - 1) % 64
  {
    hide Payload, Flat, Replay, Unquote, Tries, NewQuote;
    var k := |packets| - 1;
    var p, t, before := packets[k], tries[k], Flat(tries[..k]);
    LastPacket(packets, tries);
    if k > 0 {
      forall i | 0 <= i < k
        ensures Tries(i, packets[..k][i], tries[..k][i]) && (i > 0 ==> packets[..k][i].typ != SEND_TYPE)
      {
        assert Tries(i, packets[i], tries[i]);
      }
      ExactlyOnce(packets[..k], tries[..k]);
      UnquoteConcat(Payload(packets[..k]), p.chars, NewQuote(packets[0].chars), false);
      assert (k - 1) % 64 != k % 64;
    }
    assert Tries(k, p, t);
    LastIsAccepted(k, p, t);
    TriesPrefix(before, k, p, t, |t|);
  }

  lemma {:induction false} LastPacket(packets: seq<Packet>, tries: seq<seq<Attempt>>)
    requires |packets| == |tries| > 0
    ensures var k := |packets| - 1;
      var p, t := packets[k], tries[k];
      && Flat(tries) == Flat(tries[..k]) + t && t[..|t|] == t
      && Payload(packets) == (if p.typ == DATA_TYPE then Payload(packets[..k]) + p.chars else Payload(packets[..k]))
      && (k == 0 ==> Replay(Flat(tries[..k])) == START_CORE && Payload(packets[..k]) == [])
    ensures forall q: byte :: Unquote([], q, false) == ([], false)
  {
    assert Payload(packets[..|packets| - 1]) + [] == Payload(packets[..|packets| - 1]);
  }

  lemma {:induction false} LastIsAccepted(i: nat, p: Packet, t: seq<Attempt>)
    requires Tries(i, p, t)
    ensures |t| > 0 && t[|t| - 1].ok
  {
  }

  // ----- the wire format ----------------------------------------------------------------------

  function Sum(s: Bytes): nat {
    if s == [] then 0 else s[0] + Sum(s[1..])
  }

  /** What the sender may put into a packet: printable characters, at most 220 or, with the extended
      length, 21278 of them. */
  predicate Sendable(n: nat, typ: byte, chars: Bytes, long: bool) {
    && n < 64 && !IsControl(typ) && (forall i | 0 <= i < |chars| :: !IsControl(chars[i]))
    && |chars| <= if long then 21278 else 220
  }

  /** The characters between START and the block check. */
  function Content(n: nat, typ: byte, chars: Bytes, long: bool): (r: Bytes)
    requires Sendable(n, typ, chars, long)
    ensures |chars| <= |r|
  {
    if long then
      var l := |chars| + 1;
      var head: Bytes := [SPACE, n + SPACE, typ, l / 95 + SPACE, l % 95 + SPACE];
      head + [CheckChar(Sum(head))] + chars
    else
      [|chars| + 3 + SPACE, n + SPACE, typ] + chars
  }

  function Frame(n: nat, typ: byte, chars: Bytes, long: bool): Bytes
    requires Sendable(n, typ, chars, long)
  {
    var c := Content(n, typ, chars, long);
    [START_CHAR] + c + [CheckChar(Sum(c)), END_CHAR]
  }

  lemma {:induction false} SumConcat(s: Bytes, t: Bytes)
    ensures Sum(s + t) == Sum(s) + Sum(t)
  {
    if s == [] {
      assert s + t == t;
    } else {
      assert (s + t)[1..] == s[1..] + t;
      SumConcat(s[1..], t);
    }
  }

  lemma {:induction false} SumFirst(s: Bytes)
    requires |s| == 3 || |s| == 5
    ensures Sum(s) == s[0] as int + s[1] as int + s[2] as int
      + if |s| == 5 then s[3] as int + s[4] as int else 0
  {
    var t := s[1..];
    var u := t[1..];
    assert Sum(s) == s[0] + Sum(t) && Sum(t) == s[1] + Sum(u) && Sum(u) == s[2] + Sum(u[1..]);
    if |s| == 5 {
      assert Sum(u[1..]) == s[3] + Sum(u[1..][1..]) && Sum(u[1..][1..]) == s[4] + 0;
    }
  }

  lemma {:induction false} RunFirst(p: Parser, s: Bytes)
    requires s != []
    ensures Run(p, s) == Run(p.Step(s[0]), s[1..])
  {
    assert s == [s[0]] + s[1..];
    RunConcat(p, [s[0]], s[1..]);
    assert Run(p, [s[0]]) == p.Step(s[0]);
  }

  lemma {:induction false} DataStep(p: Parser, c: byte) returns (q: Parser)
    requires p.status == Going && p.length > 1 && !IsControl(c)
    ensures q == p.(phase := Data, length := p.length - 1, sum := p.sum + c,
                    cur := p.cur.(chars := p.cur.chars + [c]))
    ensures p.Body().Step(c) == q.Body()
  {
    hide CheckChar;
    q := p.(phase := Data, length := p.length - 1, sum := p.sum + c, cur := p.cur.(chars := p.cur.chars + [c]));
  }

  /** The data loop: exactly the announced number of characters is taken. */
  lemma {:induction false} RunData(p: Parser, chars: Bytes)
    requires p.status == Going && p.length == |chars| + 1 && forall i | 0 <= i < |chars| :: !IsControl(chars[i])
    ensures Run(p.Body(), chars) ==
      p.(phase := Check, length := 1, sum := p.sum + Sum(chars), cur := p.cur.(chars := p.cur.chars + chars))
    decreases |chars|
  {
    assert Sum(chars) == if chars == [] then 0 else chars[0] + Sum(chars[1..]);
    hide Run, Sum, CheckChar;
    if chars == [] {
      RunNone(p.Body());
      assert p.cur.chars + chars == p.cur.chars;
    } else {
      var c := chars[0];
      var q := DataStep(p, c);
      assert q.cur.chars + chars[1..] == p.cur.chars + chars;
      hide Parser.Step, Parser.Body;
      RunFirst(p.Body(), chars);
      RunData(q, chars[1..]);
      assert q.cur.(chars := q.cur.chars + chars[1..]) == p.cur.(chars := p.cur.chars + chars);
    }
  }

  /** A frame with intact characters is one accepted attempt, whatever came before it. */
  lemma {:induction false} FrameIsAccepted(log: seq<Attempt>, n: nat, typ: byte, chars: Bytes, long: bool)
    requires Sendable(n, typ, chars, long)
    ensures Run(Parser(Idle, 0, 0, 0, NOTHING, log, Going), Frame(n, typ, chars, long)) ==
      Parser(Idle, 0, 0, 0, NOTHING, log + [Attempt(n, typ, chars, true)],
             if typ == BREAK_TYPE then Finished else Going)
  {
    hide Content, Parser.Step, Sum, CheckChar, Run, Frame;
    var p, content := Parser(Idle, 0, 0, 0, NOTHING, log, Going), Content(n, typ, chars, long);
    var head, sum := content[..|content| - |chars|], Sum(content);
    var h, tail := Parser(Len, 0, 0, 0, NOTHING, log, Going), [CheckChar(sum), END_CHAR];
    FrameParts(p, n, typ, chars, long);
    var q;
    if long {
      q := LongHead(h, n, typ, chars);
    } else {
      q := ShortHead(h, n, typ, chars);
    }
    RunConcat(h, head, chars);
    RunData(q, chars);
    var r := q.(phase := Check, length := 1, sum := sum, cur := Attempt(n, typ, chars, false));
    assert Run(h, content) == r;
    LastTwo(r, typ);
    RunFrame(p, content, r, tail);
  }

  lemma {:induction false} FrameParts(p: Parser, n: nat, typ: byte, chars: Bytes, long: bool)
    requires Sendable(n, typ, chars, long) && p == Parser(Idle, 0, 0, 0, NOTHING, p.log, Going)
    ensures p.Step(START_CHAR) == Parser(Len, 0, 0, 0, NOTHING, p.log, Going)
    ensures var content := Content(n, typ, chars, long);
      var head := content[..|content| - |chars|];
      && content == head + chars && Sum(content) == Sum(head) + Sum(chars) && [] + chars == chars
      && Frame(n, typ, chars, long) == [START_CHAR] + (content + [CheckChar(Sum(content)), END_CHAR])
  {
    var content := Content(n, typ, chars, long);
    var head := content[..|content| - |chars|];
    assert content == head + chars;
    SumConcat(head, chars);
  }

  lemma {:induction false} RunFrame(p: Parser, content: Bytes, r: Parser, tail: Bytes)
    requires Run(p.Step(START_CHAR), content) == r && |tail| == 2
    ensures Run(p, [START_CHAR] + (content + tail)) == r.Step(tail[0]).Step(tail[1])
  {
    hide Run, Parser.Step;
    RunFirst(p, [START_CHAR] + (content + tail));
    assert ([START_CHAR] + (content + tail))[1..] == content + tail;
    RunConcat(p.Step(START_CHAR), content, tail);
    RunTwo(r, tail);
  }

  lemma {:induction false} LastTwo(r: Parser, typ: byte)
    requires r.phase == Check && r.status == Going && r.cur.typ == typ
    ensures r.Step(CheckChar(r.sum)).Step(END_CHAR) ==
      Parser(Idle, 0, 0, 0, NOTHING, r.log + [r.cur.(ok := true)], if typ == BREAK_TYPE then Finished else Going)
  {
  }

  lemma {:induction false} RunTwo(p: Parser, s: Bytes)
    requires |s| == 2
    ensures Run(p, s) == p.Step(s[0]).Step(s[1])
  {
    RunFirst(p, s);
    RunFirst(p.Step(s[0]), s[1..]);
  }

  /** The parser behind the header of a short frame. */
  lemma {:induction false} ShortHead(h: Parser, n: nat, typ: byte, chars: Bytes) returns (q: Parser)
    requires Sendable(n, typ, chars, false) && h == Parser(Len, 0, 0, 0, NOTHING, h.log, Going)
    ensures var content := Content(n, typ, chars, false);
      var head := content[..|content| - |chars|];
      && Run(h, head) == q.Body()
      && q == Parser(q.phase, Sum(head), |chars| + 1, q.hi, Attempt(n, typ, [], false), h.log, Going)
  {
    var head: Bytes := [|chars| + 3 + SPACE, n + SPACE, typ];
    var content := Content(n, typ, chars, false);
    assert content[..|content| - |chars|] == head;
    SumFirst(head);
    assert head == [head[0]] + [head[1], head[2]];
    hide Run, Content, Sum, CheckChar;
    RunFirst(h, head);
    var a := h.Step(head[0]);
    assert a == Parser(Seq, head[0], |chars| + 3, 0, NOTHING, h.log, Going);
    var b := a.Step(head[1]);
    assert b == Parser(Type, head[0] as int + head[1] as int, |chars| + 2, 0, Attempt(n, 0, [], false), h.log, Going);
    RunTwo(a, head[1..]);
    q := b.(sum := Sum(head), length := |chars| + 1, cur := Attempt(n, typ, [], false));
  }

  /** The parser behind the header of a frame with the extended length. */
  lemma {:induction false} LongHead(h: Parser, n: nat, typ: byte, chars: Bytes) returns (q: Parser)
    requires Sendable(n, typ, chars, true) && h == Parser(Len, 0, 0, 0, NOTHING, h.log, Going)
    ensures var content := Content(n, typ, chars, true);
      var head := content[..|content| - |chars|];
      && Run(h, head) == q.Body()
      && q == Parser(q.phase, Sum(head), |chars| + 1, q.hi, Attempt(n, typ, [], false), h.log, Going)
  {
    var first, check, hi, lo := LongContent(n, typ, chars);
    hide Run, Content, Sum, CheckChar, Sendable;
    RunSix(h, first, check);
    q := LongSteps(h, n, typ, hi, lo, check, Sum(first));
  }

  /** The characters in front of the data, and their sum. */
  lemma {:induction false} LongContent(n: nat, typ: byte, chars: Bytes)
    returns (first: Bytes, check: byte, hi: nat, lo: nat)
    requires Sendable(n, typ, chars, true)
    ensures hi <= 223 && lo < 95 && hi * 95 + lo == |chars| + 1
    ensures first == [SPACE, n + SPACE, typ, hi + SPACE, lo + SPACE] && check == CheckChar(Sum(first))
    ensures var content := Content(n, typ, chars, true);
      && content[..|content| - |chars|] == first + [check] && Sum(first + [check]) == Sum(first) + check
      && Sum(first) == SPACE + (n + SPACE) + typ + (hi + SPACE) + (lo + SPACE)
  {
    hide CheckChar;
    var l := |chars| + 1;
    LengthBack(l);
    hi, lo := l / 95, l % 95;
    first := [SPACE, n + SPACE, typ, hi + SPACE, lo + SPACE];
    SumFirst(first);
    hide Sum;
    check := CheckChar(Sum(first));
    SumConcat(first, [check]);
    SumOne(check);
  }

  lemma {:induction false} SumOne(c: byte)
    ensures Sum([c]) == c
  {
    assert Sum([c]) == c + Sum([]);
  }

  lemma {:induction false} LongSteps(h: Parser, n: nat, typ: byte, hi: nat, lo: nat, check: byte, sum: nat) returns (q: Parser)
    requires h == Parser(Len, 0, 0, 0, NOTHING, h.log, Going)
    requires n < 64 && !IsControl(typ) && hi <= 223 && lo < 95 && check == CheckChar(sum)
    requires sum == SPACE + (n + SPACE) + typ + (hi + SPACE) + (lo + SPACE)
    ensures q == Parser(HeadCheck, sum + check, hi * 95 + lo, hi, Attempt(n, typ, [], false), h.log, Going)
    ensures q.Body() ==
      h.Step(SPACE).Step(n + SPACE).Step(typ).Step(hi + SPACE).Step(lo + SPACE).Step(check)
  {
    hide CheckChar;
    var a := h.Step(SPACE).Step(n + SPACE);
    assert a == Parser(Type, SPACE + (n + SPACE), -1, 0, Attempt(n, 0, [], false), h.log, Going);
    var b := a.Step(typ);
    assert b == Parser(ExtHi, a.sum + typ, -2, 0, Attempt(n, typ, [], false), h.log, Going);
    var c := b.Step(hi + SPACE);
    assert c == Parser(ExtLo, b.sum + (hi + SPACE), -2, hi, Attempt(n, typ, [], false), h.log, Going);
    var d := c.Step(lo + SPACE);
    assert d == Parser(HeadCheck, sum, hi * 95 + lo, hi, Attempt(n, typ, [], false), h.log, Going);
    q := d.(sum := sum + check);
  }

  lemma {:induction false} RunSix(h: Parser, first: Bytes, check: byte)
    requires |first| == 5
    ensures Run(h, first + [check]) ==
      h.Step(first[0]).Step(first[1]).Step(first[2]).Step(first[3]).Step(first[4]).Step(check)
  {
    hide Run, Parser.Step;
    var x, y, z := [first[0], first[1]], [first[2], first[3]], [first[4], check];
    assert first + [check] == x + (y + z);
    RunConcat(h, x, y + z);
    RunTwo(h, x);
    var a := h.Step(x[0]).Step(x[1]);
    RunConcat(a, y, z);
    RunTwo(a, y);
    RunTwo(a.Step(y[0]).Step(y[1]), z);
  }

  lemma {:induction false} RunNone(p: Parser)
    ensures Run(p, []) == p
  {
  }

  /** Line noise between packets is ignored as long as it has no START and no ^C. */
  lemma {:induction false} NoiseIsIgnored(p: Parser, noise: Bytes)
    requires p.phase == Idle && START_CHAR !in noise && ETX_CHAR !in noise
    ensures Run(p, noise) == p
  {
    if noise != [] {
      NoiseIsIgnored(p, noise[..|noise| - 1]);
      assert noise[|noise| - 1] in noise;
    }
  }

  // ----- damaged, repeated and noisy streams ---------------------------------------------------

  predicate Quiet(s: Bytes) {
    START_CHAR !in s && ETX_CHAR !in s
  }

  predicate Checked(s: Bytes, check: byte) {
    check == CheckChar(Sum(s))
  }

  /** The checks notice all damage to `f` behind the sequence number. */
  predicate Noticed(r: Bytes, f: Bytes, long: bool)
    requires |r| == |f| >= if long then 9 else 6
  {
    && (Checked(r[1..|r| - 2], r[|r| - 2]) ==> r[1..|r| - 2] == f[1..|f| - 2])
    && (long && Checked(r[1..6], r[6]) ==> r[1..7] == f[1..7])
  }

  /** What may arrive of one transmission: characters are changed, but none but the first becomes START
      or ^C.  The START may be lost, the length and the sequence number are intact or become control
      characters, and all other damage is noticed. */
  predicate Arrives(r: Bytes, n: nat, p: Packet, long: bool)
    requires Sendable(n, p.typ, p.chars, long)
  {
    var f := Frame(n, p.typ, p.chars, long);
    |r| == |f| &&
    (Quiet(r) ||
      (r[0] == START_CHAR && Quiet(r[1..]) &&
        (IsControl(r[1]) ||
          (r[1] == f[1] && (IsControl(r[2]) || (r[2] == f[2] && Noticed(r, f, long)))))))
  }

  lemma {:induction false} FramePrintable(n: nat, p: Packet, long: bool)
    requires Sendable(n, p.typ, p.chars, long)
    ensures var f := Frame(n, p.typ, p.chars, long);
      && |f| >= 6 && f[0] == START_CHAR && f[|f| - 1] == END_CHAR
      && forall i | 0 < i < |f| - 1 :: !IsControl(f[i])
  {
    hide CheckChar, Sum;
  }

  /** A frame may arrive as it is. */
  lemma {:induction false} FrameArrives(n: nat, p: Packet, long: bool)
    requires Sendable(n, p.typ, p.chars, long)
    ensures Arrives(Frame(n, p.typ, p.chars, long), n, p, long)
  {
    FramePrintable(n, p, long);
    FrameShape(n, p, long);
    hide Frame, Sum, CheckChar, Sendable;
    var f := Frame(n, p.typ, p.chars, long);
    assert forall i | 0 <= i < |f| - 1 :: f[1..][i] == f[i + 1];
  }

  function IdleParser(log: seq<Attempt>, status: Status): Parser {
    Parser(Idle, 0, 0, 0, NOTHING, log, status)
  }

  /** An accepted BREAK ends the transfer. */
  function StatusOf(a: Attempt): Status {
    if a.ok && a.typ == BREAK_TYPE then Finished else Going
  }

  /** A control character ends the attempt; what is left of the frame is noise. */
  lemma {:induction false} ControlAborts(p: Parser, s: Bytes)
    requires p.status == Going && p.phase != Idle && p.phase != End
    requires s != [] && IsControl(s[0]) && Quiet(s[1..])
    ensures Run(p, s) == IdleParser(p.log + [p.cur.(ok := false)], Going)
  {
    RunFirst(p, s);
    NoiseIsIgnored(p.Step(s[0]), s[1..]);
  }

  lemma {:induction false} RestIsQuiet(s: Bytes)
    requires s != [] && Quiet(s)
    ensures Quiet(s[1..]) && s[0] != START_CHAR && s[0] != ETX_CHAR
  {
  }

  /** From the data on: one attempt, accepted only if the check agrees. */
  lemma {:induction false} BodyAttempt(p: Parser, s: Bytes) returns (a: Attempt)
    requires p.status == Going && |s| >= 2 && p.length == |s| - 1 && Quiet(s)
    ensures Run(p.Body(), s) == IdleParser(p.log + [a], StatusOf(a)) && a.n == p.cur.n
    ensures var k := |s| - 2;
      a.ok ==> s[k] == CheckChar(p.sum + Sum(s[..k])) && a.typ == p.cur.typ && a.chars == p.cur.chars + s[..k]
    decreases |s|
  {
    hide CheckChar, Run, Sum;
    RestIsQuiet(s);
    if |s| == 2 {
      SumNothing();
      assert s[..0] == [];
      a := CheckAttempt(p.(phase := Check), s);
    } else if IsControl(s[0]) {
      ControlAborts(p.Body(), s);
      a := p.cur.(ok := false);
    } else {
      var q := DataStep(p, s[0]);
      RunFirst(p.Body(), s);
      a := BodyAttempt(q, s[1..]);
      FirstOfSum(s, |s| - 2);
      assert p.cur.chars + [s[0]] + s[1..][..|s| - 3] == p.cur.chars + s[..|s| - 2];
    }
  }

  lemma {:induction false} SumNothing()
    ensures Sum([]) == 0
  {
  }

  lemma {:induction false} FirstOfSum(s: Bytes, k: nat)
    requires 0 < k <= |s|
    ensures Sum(s[..k]) == s[0] + Sum(s[1..][..k - 1])
  {
    assert s[..k][1..] == s[1..][..k - 1];
  }

  /** The block check and the end character. */
  lemma {:induction false} CheckAttempt(p: Parser, s: Bytes) returns (a: Attempt)
    requires p.status == Going && p.phase == Check && |s| == 2 && Quiet(s)
    ensures Run(p, s) == IdleParser(p.log + [a], StatusOf(a))
    ensures a == p.cur.(ok := a.ok) && (a.ok ==> s[0] == CheckChar(p.sum))
  {
    hide CheckChar;
    RestIsQuiet(s);
    if IsControl(s[0]) {
      ControlAborts(p, s);
      a := p.cur.(ok := false);
    } else {
      RunTwo(p, s);
      RestIsQuiet(s[1..]);
      a := p.cur.(ok := s[0] == CheckChar(p.sum) && s[1] == END_CHAR);
    }
  }

  /** The parser behind intact length and sequence characters. */
  function TypeParser(log: seq<Attempt>, length: byte, n: nat): Parser
    requires !IsControl(length) && n + SPACE < 256
  {
    Parser(Type, length + (n + SPACE), length - SPACE - 1, 0, Attempt(n, 0, [], false), log, Going)
  }

  /** From the type character of a short frame on. */
  lemma {:induction false} ShortAttempt(log: seq<Attempt>, length: byte, n: nat, s: Bytes) returns (a: Attempt)
    requires n < 64 && |s| >= 3 && length == |s| + SPACE && Quiet(s)
    ensures Run(TypeParser(log, length, n), s) == IdleParser(log + [a], StatusOf(a)) && a.n == n
    ensures var k := |s| - 2;
      a.ok ==> s[k] == CheckChar(length + (n + SPACE) + Sum(s[..k])) && a.typ == s[0] && a.chars == s[1..k]
  {
    hide CheckChar, Run, Sum;
    RestIsQuiet(s);
    var p := TypeParser(log, length, n);
    if IsControl(s[0]) {
      ControlAborts(p, s);
      a := Attempt(n, 0, [], false);
    } else {
      RunFirst(p, s);
      var q := p.(sum := p.sum + s[0], length := p.length - 1, cur := p.cur.(typ := s[0]));
      assert p.Step(s[0]) == q.Body();
      a := BodyAttempt(q, s[1..]);
      FirstOfSum(s, |s| - 2);
      assert [] + s[1..][..|s| - 3] == s[1..|s| - 2];
    }
  }

  /** From the type character of a frame with the extended length on, up to the header check. */
  lemma {:induction false} LongHeader(log: seq<Attempt>, n: nat, s: Bytes)
    requires n < 64 && |s| >= 4 && Quiet(s)
    ensures var p, good := TypeParser(log, SPACE, n), forall i | 0 <= i < 4 :: !IsControl(s[i]);
      var sum := SPACE + (n + SPACE) + (s[0] as int + s[1] as int + s[2] as int);
      if good && s[3] == CheckChar(sum) then
        Run(p, s) == Run(Parser(HeadCheck, sum + s[3], (s[1] - SPACE) * 95 + (s[2] - SPACE), s[1] - SPACE,
                                Attempt(n, s[0], [], false), log, Going).Body(), s[4..])
      else
        exists a: Attempt :: a.n == n && !a.ok && Run(p, s) == IdleParser(log + [a], Going)
  {
    hide CheckChar, Run;
    var p := TypeParser(log, SPACE, n);
    var t, u, v := s[1..], s[2..], s[3..];
    assert s[1..][1..] == u && s[2..][1..] == v && s[3..][1..] == s[4..];
    RestIsQuiet(s);
    RestIsQuiet(t);
    RestIsQuiet(u);
    RestIsQuiet(v);
    if IsControl(s[0]) {
      ControlAborts(p, s);
    } else {
      RunFirst(p, s);
      var q := p.Step(s[0]);
      assert q == Parser(ExtHi, p.sum + s[0], -2, 0, Attempt(n, s[0], [], false), log, Going);
      if IsControl(s[1]) {
        ControlAborts(q, t);
      } else {
        RunFirst(q, t);
        var r := q.Step(s[1]);
        assert r == q.(phase := ExtLo, sum := q.sum + s[1], hi := s[1] - SPACE);
        LongCheck(r, u);
      }
    }
  }

  /** The second length character and the header check. */
  lemma {:induction false} LongCheck(r: Parser, u: Bytes)
    requires r.status == Going && r.phase == ExtLo && |u| >= 2 && Quiet(u) && !r.cur.ok
    ensures var good := !IsControl(u[0]) && !IsControl(u[1]);
      if good && u[1] == CheckChar(r.sum + u[0]) then
        Run(r, u) == Run(r.(phase := HeadCheck, sum := r.sum + u[0] + u[1],
                            length := r.hi * 95 + (u[0] - SPACE)).Body(), u[2..])
      else Run(r, u) == IdleParser(r.log + [r.cur], Going)
  {
    hide CheckChar, Run;
    RestIsQuiet(u);
    RestIsQuiet(u[1..]);
    assert u[1..][1..] == u[2..];
    if IsControl(u[0]) {
      ControlAborts(r, u);
    } else {
      RunFirst(r, u);
      var q := r.Step(u[0]);
      assert q == r.(phase := HeadCheck, sum := r.sum + u[0], length := r.hi * 95 + (u[0] - SPACE));
      if IsControl(u[1]) {
        ControlAborts(q, u[1..]);
      } else {
        RunFirst(q, u[1..]);
        if u[1] != CheckChar(q.sum) {
          NoiseIsIgnored(q.Step(u[1]), u[2..]);
        }
      }
    }
  }

  lemma {:induction false} HeaderIntact(log: seq<Attempt>, r: Bytes, n: nat)
    requires |r| >= 3 && r[0] == START_CHAR && !IsControl(r[1]) && r[2] == n + SPACE
    ensures Run(IdleParser(log, Going), r) == Run(TypeParser(log, r[1], n), r[3..])
  {
    hide Run;
    var p := IdleParser(log, Going);
    RunFirst(p, r);
    RunFirst(p.Step(r[0]), r[1..]);
    assert r[1..][1..] == r[2..];
    RunFirst(p.Step(r[0]).Step(r[1]), r[2..]);
    assert r[2..][1..] == r[3..];
  }

  /** A control character instead of the length or the sequence number. */
  lemma {:induction false} HeaderAborted(log: seq<Attempt>, r: Bytes)
    requires |r| >= 3 && r[0] == START_CHAR && Quiet(r[1..]) && (IsControl(r[1]) || IsControl(r[2]))
    ensures Run(IdleParser(log, Going), r) == IdleParser(log + [NOTHING], Going)
  {
    hide Run;
    var p := IdleParser(log, Going);
    RunFirst(p, r);
    RestIsQuiet(r[1..]);
    assert r[1..][1..] == r[2..];
    if IsControl(r[1]) {
      ControlAborts(p.Step(r[0]), r[1..]);
    } else {
      RunFirst(p.Step(r[0]), r[1..]);
      RestIsQuiet(r[2..]);
      ControlAborts(p.Step(r[0]).Step(r[1]), r[2..]);
    }
  }

  lemma {:induction false} FrameShape(n: nat, p: Packet, long: bool)
    requires Sendable(n, p.typ, p.chars, long)
    ensures var f, h := Frame(n, p.typ, p.chars, long), if long then 7 else 4;
      && |f| == |p.chars| + h + 2 && !IsControl(f[1]) && f[0] == START_CHAR && f[2] == n + SPACE && f[3] == p.typ
      && f[h..|f| - 2] == p.chars
      && (if long then f[1] == SPACE && f[4] == (|p.chars| + 1) / 95 + SPACE && f[5] == (|p.chars| + 1) % 95 + SPACE
          else f[1] == |p.chars| + 3 + SPACE)
  {
    hide CheckChar, Sum;
  }

  /** What the checks say of a frame, in terms of the characters behind the sequence number. */
  lemma {:induction false} SumsBehind(r: Bytes, h: nat)
    requires (h == 4 || h == 7) && |r| >= h + 2
    ensures Sum(r[1..|r| - 2]) == r[1] + r[2] + Sum(r[3..][..|r| - 5])
    ensures h == 7 ==> Sum(r[1..6]) == r[1] + r[2] + (r[3] as int + r[4] as int + r[5] as int)
    ensures h == 7 ==> Sum(r[1..|r| - 2]) == Sum(r[1..6]) + r[6] + Sum(r[7..][..|r| - 9])
  {
    FirstOfSum(r[1..], |r| - 3);
    FirstOfSum(r[2..], |r| - 4);
    assert r[1..|r| - 2] == r[1..][..|r| - 3] && r[1..][1..] == r[2..] && r[2..][1..] == r[3..];
    if h == 7 {
      SumFirst(r[1..6]);
      var rest := r[7..][..|r| - 9];
      assert r[1..|r| - 2] == r[1..6] + [r[6]] + rest;
      SumConcat(r[1..6] + [r[6]], rest);
      SumConcat(r[1..6], [r[6]]);
      assert Sum([r[6]]) == r[6] + Sum([]);
    }
  }

  lemma {:induction false} ShortArrival(log: seq<Attempt>, r: Bytes, n: nat, p: Packet) returns (a: Attempt)
    requires Sendable(n, p.typ, p.chars, false) && |r| == |Frame(n, p.typ, p.chars, false)|
    requires var f := Frame(n, p.typ, p.chars, false);
      r[..3] == f[..3] && Quiet(r[1..]) && |f| >= 6 && Noticed(r, f, false)
    ensures Run(IdleParser(log, Going), r) == IdleParser(log + [a], StatusOf(a)) && a.n == n && TryOf(a, n, p)
  {
    FrameShape(n, p, false);
    var f := Frame(n, p.typ, p.chars, false);
    hide Run, Sum, CheckChar, Frame, IdleParser, TypeParser, Sendable, Quiet, Noticed;
    SameHeader(r, f);
    HeaderIntact(log, r, n);
    QuietPart(r, 1, 3);
    ShortNoticed(r, f);
    ShortSlice(r);
    a := ShortAttempt(log, r[1], n, r[3..]);
  }

  lemma {:induction false} ShortSlice(r: Bytes)
    requires |r| >= 6
    ensures var s := r[3..];
      |s| - 2 == |r| - 5 && s[0] == r[3] && s[|s| - 2] == r[|r| - 2] && s[1..|s| - 2] == r[4..|r| - 2]
  {
  }

  /** Damage to a short frame is noticed by the block check. */
  lemma {:induction false} ShortNoticed(r: Bytes, f: Bytes)
    requires |r| == |f| >= 6 && Noticed(r, f, false)
    ensures r[|r| - 2] == CheckChar(r[1] + r[2] + Sum(r[3..][..|r| - 5])) ==>
      r[3] == f[3] && r[4..|r| - 2] == f[4..|f| - 2]
  {
    hide Sum, CheckChar;
    SumsBehind(r, 4);
    if Checked(r[1..|r| - 2], r[|r| - 2]) {
      SameFrom(r, f, 3, |r| - 2);
    }
  }

  lemma {:induction false} QuietPart(r: Bytes, i: nat, j: nat)
    requires i <= j <= |r| && Quiet(r[i..])
    ensures Quiet(r[j..])
  {
    assert forall k | j <= k < |r| :: r[k] == r[i..][k - i];
  }

  lemma {:induction false} SameFrom(r: Bytes, f: Bytes, i: nat, j: nat)
    requires |r| == |f| && 1 <= i < j <= |r| && r[1..j] == f[1..j]
    ensures r[i..j] == f[i..j] && forall k | i <= k < j :: r[k] == f[k]
    ensures i + 1 <= j ==> r[i + 1..j] == f[i + 1..j]
  {
    forall k | i <= k < j
      ensures r[k] == f[k]
    {
      assert r[1..j][k - 1] == f[1..j][k - 1];
    }
  }

  predicate HeaderAccepted(r: Bytes)
    requires |r| >= 7
  {
    !IsControl(r[3]) && !IsControl(r[4]) && !IsControl(r[5]) && !IsControl(r[6]) && Checked(r[1..6], r[6])
  }

  lemma {:induction false} LongHeaderOf(log: seq<Attempt>, r: Bytes, n: nat)
    requires n < 64 && |r| >= 9 && Quiet(r[3..]) && r[1] == SPACE && r[2] == n + SPACE
    ensures
      if HeaderAccepted(r) then
        Run(TypeParser(log, SPACE, n), r[3..]) ==
        Run(Parser(HeadCheck, Sum(r[1..6]) + r[6], (r[4] - SPACE) * 95 + (r[5] - SPACE), r[4] - SPACE,
                   Attempt(n, r[3], [], false), log, Going).Body(), r[7..])
      else
        exists a: Attempt :: a.n == n && !a.ok && Run(TypeParser(log, SPACE, n), r[3..]) == IdleParser(log + [a], Going)
  {
    hide Run, Sum, CheckChar, Parser.Body;
    SumsBehind(r, 7);
    LongHeader(log, n, r[3..]);
    var t := r[3..];
    assert t[0] == r[3] && t[1] == r[4] && t[2] == r[5] && t[3] == r[6] && t[4..] == r[7..];
    assert (forall i | 0 <= i < 4 :: !IsControl(t[i])) <==>
      !IsControl(t[0]) && !IsControl(t[1]) && !IsControl(t[2]) && !IsControl(t[3]);
  }

  /** The rest of a long frame whose header is intact. */
  lemma {:induction false} LongBody(log: seq<Attempt>, r: Bytes, n: nat, p: Packet) returns (a: Attempt)
    requires Sendable(n, p.typ, p.chars, true) && |r| == |Frame(n, p.typ, p.chars, true)| >= 9
    requires var f := Frame(n, p.typ, p.chars, true);
      r[1..7] == f[1..7] && Quiet(r[7..]) && Noticed(r, f, true)
    ensures
      var q := Parser(HeadCheck, Sum(r[1..6]) + r[6], |p.chars| + 1, r[4] - SPACE, Attempt(n, p.typ, [], false), log, Going);
      Run(q.Body(), r[7..]) == IdleParser(log + [a], StatusOf(a)) && a.n == n && TryOf(a, n, p)
  {
    LongBlock(r, n, p);
    BodySlice(r);
    hide Run, Sum, CheckChar, Frame, Parser.Body, Sendable, Quiet, Noticed;
    var q := Parser(HeadCheck, Sum(r[1..6]) + r[6], |p.chars| + 1, r[4] - SPACE, Attempt(n, p.typ, [], false), log, Going);
    a := BodyAttempt(q, r[7..]);
  }

  lemma {:induction false} LongBlock(r: Bytes, n: nat, p: Packet)
    requires Sendable(n, p.typ, p.chars, true) && |r| == |Frame(n, p.typ, p.chars, true)| >= 9
    requires Noticed(r, Frame(n, p.typ, p.chars, true), true)
    ensures |r| == |p.chars| + 9
    ensures r[|r| - 2] == CheckChar(Sum(r[1..6]) + r[6] + Sum(r[7..][..|r| - 9])) ==> r[7..|r| - 2] == p.chars
  {
    hide Sum, CheckChar, Frame, Noticed;
    FrameShape(n, p, true);
    BlockNoticed(r, Frame(n, p.typ, p.chars, true), true);
  }

  lemma {:induction false} BodySlice(r: Bytes)
    requires |r| >= 9
    ensures var s := r[7..];
      |s| - 2 == |r| - 9 && s[|s| - 2] == r[|r| - 2] && [] + s[..|s| - 2] == r[7..|r| - 2]
  {
  }

  /** Damage to a long frame with an intact header is noticed by the block check. */
  lemma {:induction false} BlockNoticed(r: Bytes, f: Bytes, long: bool)
    requires |r| == |f| >= 9 && long && Noticed(r, f, long)
    ensures r[|r| - 2] == CheckChar(Sum(r[1..6]) + r[6] + Sum(r[7..][..|r| - 9])) ==> r[7..|r| - 2] == f[7..|f| - 2]
  {
    hide Sum, CheckChar;
    SumsBehind(r, 7);
    if Checked(r[1..|r| - 2], r[|r| - 2]) {
      SameFrom(r, f, 6, |r| - 2);
    }
  }

  lemma {:induction false} LongArrival(log: seq<Attempt>, r: Bytes, n: nat, p: Packet) returns (a: Attempt)
    requires Sendable(n, p.typ, p.chars, true) && |r| == |Frame(n, p.typ, p.chars, true)|
    requires var f := Frame(n, p.typ, p.chars, true);
      r[..3] == f[..3] && Quiet(r[1..]) && |f| >= 9 && Noticed(r, f, true)
    ensures Run(IdleParser(log, Going), r) == IdleParser(log + [a], StatusOf(a)) && a.n == n && TryOf(a, n, p)
  {
    FrameShape(n, p, true);
    var f := Frame(n, p.typ, p.chars, true);
    hide Run, Sum, CheckChar, Frame, Parser.Body, Quiet, TypeParser, IdleParser, TryOf, Noticed, HeaderAccepted, Sendable,
      StatusOf;
    SameHeader(r, f);
    HeaderIntact(log, r, n);
    QuietPart(r, 1, 3);
    LongHeaderOf(log, r, n);
    if HeaderAccepted(r) {
      HeaderNoticed(r, f);
      QuietPart(r, 1, 7);
      LengthBack(|p.chars| + 1);
      a := LongBody(log, r, n, p);
    } else {
      a :| a.n == n && !a.ok && Run(TypeParser(log, SPACE, n), r[3..]) == IdleParser(log + [a], Going);
      RefusedTry(a, n, p);
    }
  }

  lemma {:induction false} HeaderNoticed(r: Bytes, f: Bytes)
    requires |r| == |f| >= 9 && Noticed(r, f, true) && HeaderAccepted(r)
    ensures r[1..7] == f[1..7] && r[3] == f[3] && r[4] == f[4] && r[5] == f[5]
  {
    hide Checked;
    SameFrom(r, f, 3, 7);
  }

  lemma {:induction false} SameHeader(r: Bytes, f: Bytes)
    requires |r| >= 3 && |f| >= 3 && r[..3] == f[..3]
    ensures r[0] == f[0] && r[1] == f[1] && r[2] == f[2]
  {
    assert r[0] == r[..3][0] && r[1] == r[..3][1] && r[2] == r[..3][2];
  }

  lemma {:induction false} RefusedTry(a: Attempt, n: nat, p: Packet)
    requires a.n == n && !a.ok
    ensures TryOf(a, n, p) && StatusOf(a) == Going
  {
  }

  lemma {:induction false} LengthBack(l: nat)
    ensures l / 95 * 95 + l % 95 == l
  {
  }

  /** One transmission is at most one attempt at its packet. */
  lemma {:induction false} OneArrival(log: seq<Attempt>, r: Bytes, n: nat, p: Packet, long: bool) returns (t: seq<Attempt>)
    requires Sendable(n, p.typ, p.chars, long) && Arrives(r, n, p, long)
    ensures |r| >= 6 && |t| == if r[0] == START_CHAR then 1 else 0
    ensures Run(IdleParser(log, Going), r) == IdleParser(log + t, if t == [] then Going else StatusOf(t[0]))
    ensures t != [] ==> TryOf(t[0], n, p) && (t[0].n == -1 <==> IsControl(r[1]) || IsControl(r[2]))
    ensures r == Frame(n, p.typ, p.chars, long) ==> t == [Attempt(n, p.typ, p.chars, true)]
  {
    FrameShape(n, p, long);
    var f := Frame(n, p.typ, p.chars, long);
    hide Run, Frame, Sum, CheckChar, Noticed;
    if r == f {
      FrameIsAccepted(log, n, p.typ, p.chars, long);
      t := [Attempt(n, p.typ, p.chars, true)];
    } else if Quiet(r) {
      NoiseIsIgnored(IdleParser(log, Going), r);
      t := [];
      assert log + t == log && r[0] in r;
    } else if IsControl(r[1]) || IsControl(r[2]) {
      HeaderAborted(log, r);
      t := [NOTHING];
    } else {
      assert r[..3] == f[..3];
      var a;
      if long {
        a := LongArrival(log, r, n, p);
      } else {
        a := ShortArrival(log, r, n, p);
      }
      t := [a];
    }
  }

  /** What is heard while a packet is sent again and again: each time line noise and what arrives of the
      frame. */
  datatype Sending = Sending(packet: Packet, long: bool, copies: seq<(Bytes, Bytes)>)

  function Heard(copies: seq<(Bytes, Bytes)>): Bytes {
    if copies == [] then [] else copies[0].0 + copies[0].1 + Heard(copies[1..])
  }

  function Stream(sendings: seq<Sending>): Bytes {
    if sendings == [] then []
    else Stream(sendings[..|sendings| - 1]) + Heard(sendings[|sendings| - 1].copies)
  }

  /** The first copy whose START arrives has its length and sequence number intact. */
  predicate HeaderFirst(copies: seq<(Bytes, Bytes)>) {
    if copies == [] then true
    else
      var r := copies[0].1;
      if r == [] || r[0] != START_CHAR then HeaderFirst(copies[1..])
      else |r| >= 3 && !IsControl(r[1]) && !IsControl(r[2])
  }

  predicate CopiesOk(n: nat, p: Packet, long: bool, copies: seq<(Bytes, Bytes)>) {
    && Sendable(n, p.typ, p.chars, long) && copies != []
    && (forall j | 0 <= j < |copies| :: Quiet(copies[j].0) && Arrives(copies[j].1, n, p, long))
    && copies[|copies| - 1].1 == Frame(n, p.typ, p.chars, long)
  }

  /** What may be heard of packet number `i`: the last copy is intact. */
  predicate SendingOk(i: nat, s: Sending) {
    CopiesOk(i % 64, s.packet, s.long, s.copies) && HeaderFirst(s.copies)
  }

  lemma {:induction false} RunStopped(p: Parser, s: Bytes)
    requires p.status != Going
    ensures Run(p, s) == p
  {
    if s != [] {
      RunStopped(p, s[..|s| - 1]);
    }
  }

  /** Noise and one copy. */
  lemma {:induction false} RunCopy(log: seq<Attempt>, copy: (Bytes, Bytes), rest: Bytes, p: Parser)
    requires Quiet(copy.0) && Run(IdleParser(log, Going), copy.1) == p
    ensures Run(IdleParser(log, Going), copy.0 + copy.1 + rest) == Run(p, rest)
  {
    hide Run;
    NoiseIsIgnored(IdleParser(log, Going), copy.0);
    RunConcat(IdleParser(log, Going), copy.0, copy.1);
    RunConcat(IdleParser(log, Going), copy.0 + copy.1, rest);
  }

  predicate AllTries(t: seq<Attempt>, n: int, p: Packet) {
    forall j | 0 <= j < |t| :: TryOf(t[j], n, p)
  }

  lemma {:induction false} CopiesAreTries(log: seq<Attempt>, n: nat, p: Packet, long: bool, copies: seq<(Bytes, Bytes)>)
    returns (t: seq<Attempt>)
    requires CopiesOk(n, p, long, copies)
    ensures Run(IdleParser(log, Going), Heard(copies)) ==
      IdleParser(log + t, if p.typ == BREAK_TYPE then Finished else Going)
    ensures t != [] && t[|t| - 1].ok && (HeaderFirst(copies) ==> t[0].n != -1) && AllTries(t, n, p)
    decreases |copies|
  {
    hide Run, Frame, Arrives, TryOf, HeaderFirst, AllTries, Sendable;
    var rest := copies[1..];
    t := FirstCopy(log, n, p, long, copies);
    var status := if t == [] then Going else StatusOf(t[0]);
    if rest == [] || status == Finished {
      LastCopy(log + t, status, rest);
    } else {
      RestOfCopies(n, p, long, copies);
      hide CopiesOk;
      var u := CopiesAreTries(log + t, n, p, long, rest);
      JoinTries(log, t, u, n, p);
      t := t + u;
    }
  }

  /** No copies are left, or the BREAK packet has been seen. */
  lemma {:induction false} LastCopy(log: seq<Attempt>, status: Status, rest: seq<(Bytes, Bytes)>)
    requires rest == [] || status != Going
    ensures Run(IdleParser(log, status), Heard(rest)) == IdleParser(log, status)
  {
    var q := IdleParser(log, status);
    if rest == [] {
      RunNone(q);
    } else {
      RunStopped(q, Heard(rest));
    }
  }

  lemma {:induction false} FirstCopy(log: seq<Attempt>, n: nat, p: Packet, long: bool, copies: seq<(Bytes, Bytes)>)
    returns (t: seq<Attempt>)
    requires CopiesOk(n, p, long, copies)
    ensures |t| <= 1 && AllTries(t, n, p) && (HeaderFirst(copies) ==> if t == [] then HeaderFirst(copies[1..]) else t[0].n != -1)
    ensures Run(IdleParser(log, Going), Heard(copies)) ==
      Run(IdleParser(log + t, if t == [] then Going else StatusOf(t[0])), Heard(copies[1..]))
    ensures |copies| == 1 ==> t != [] && t[0].ok
    ensures t != [] && StatusOf(t[0]) == Finished ==> t[0].ok && p.typ == BREAK_TYPE
    ensures t != [] && t[0].ok && p.typ == BREAK_TYPE ==> StatusOf(t[0]) == Finished
  {
    hide Run, Frame, Arrives, Sendable;
    t := OneArrival(log, copies[0].1, n, p, long);
    RunCopy(log, copies[0], Heard(copies[1..]), IdleParser(log + t, if t == [] then Going else StatusOf(t[0])));
  }

  lemma {:induction false} JoinTries(log: seq<Attempt>, t: seq<Attempt>, u: seq<Attempt>, n: int, p: Packet)
    requires AllTries(t, n, p) && AllTries(u, n, p)
    ensures AllTries(t + u, n, p) && log + t + u == log + (t + u)
    ensures u != [] ==>
      t + u != [] && (t + u)[|t + u| - 1] == u[|u| - 1] && (t + u)[0] == if t == [] then u[0] else t[0]
  {
    hide TryOf;
  }

  lemma {:induction false} RestOfCopies(n: nat, p: Packet, long: bool, copies: seq<(Bytes, Bytes)>)
    requires CopiesOk(n, p, long, copies) && |copies| > 1
    ensures CopiesOk(n, p, long, copies[1..])
  {
    hide Frame, Arrives;
  }

  /** The packets of a transfer: a Send-Initiate packet first and a BREAK last. */
  predicate Transfer(sendings: seq<Sending>) {
    && |sendings| > 1
    && (forall i | 0 <= i < |sendings| ::
          && SendingOk(i, sendings[i])
          && (sendings[i].packet.typ == SEND_TYPE <==> i == 0)
          && (sendings[i].packet.typ == BREAK_TYPE <==> i == |sendings| - 1))
  }

  function PacketsOf(sendings: seq<Sending>): (ps: seq<Packet>)
    ensures |ps| == |sendings| && forall i | 0 <= i < |ps| :: ps[i] == sendings[i].packet
  {
    seq(|sendings|, i requires 0 <= i < |sendings| => sendings[i].packet)
  }

  /** A stream of such sendings is parsed into tries of the packets. */
  lemma {:induction false} StreamIsTries(sendings: seq<Sending>) returns (tries: seq<seq<Attempt>>)
    requires forall i | 0 <= i < |sendings| :: SendingOk(i, sendings[i])
    requires forall i | 0 <= i < |sendings| - 1 :: sendings[i].packet.typ != BREAK_TYPE
    ensures |tries| == |sendings| && forall i | 0 <= i < |tries| :: Tries(i, sendings[i].packet, tries[i])
    ensures Run(START_PARSER, Stream(sendings)) ==
      IdleParser(Flat(tries),
        if sendings != [] && sendings[|sendings| - 1].packet.typ == BREAK_TYPE then Finished else Going)
  {
    hide Run, Heard, SendingOk;
    if sendings == [] {
      RunNone(START_PARSER);
      tries := [];
    } else {
      var k := |sendings| - 1;
      var front, last := sendings[..k], sendings[k];
      assert forall i | 0 <= i < k :: front[i] == sendings[i];
      tries := StreamIsTries(front);
      RunConcat(START_PARSER, Stream(front), Heard(last.copies));
      assert SendingOk(k, last);
      var t := SendingIsTries(Flat(tries), k, last);
      hide Stream, Tries;
      FlatMore(tries, t);
      tries := tries + [t];
    }
  }

  lemma {:induction false} FlatMore(tries: seq<seq<Attempt>>, t: seq<Attempt>)
    ensures Flat(tries + [t]) == Flat(tries) + t
  {
    assert (tries + [t])[..|tries|] == tries;
  }

  lemma {:induction false} SendingIsTries(log: seq<Attempt>, i: nat, s: Sending) returns (t: seq<Attempt>)
    requires SendingOk(i, s)
    ensures Tries(i, s.packet, t)
    ensures Run(IdleParser(log, Going), Heard(s.copies)) ==
      IdleParser(log + t, if s.packet.typ == BREAK_TYPE then Finished else Going)
  {
    hide Run, Heard, HeaderFirst;
    t := CopiesAreTries(log, i % 64, s.packet, s.long, s.copies);
  }

  /** From the characters on the line to the data: whatever is lost, damaged, repeated or added as noise
      in such a stream, the attempts replay to the unquoted payload, once and in order. */
  lemma {:induction false} StreamIsReceived(sendings: seq<Sending>)
    requires Transfer(sendings)
    ensures var p := Run(START_PARSER, Stream(sendings));
      var r, packets := Replay(p.log), PacketsOf(sendings);
      p.status == Finished && (r.out, r.escape) == Unquote(Payload(packets), NewQuote(packets[0].chars), false)
  {
    hide Run, Stream, Replay, Unquote, Payload, SendingOk, Tries;
    var tries := StreamIsTries(sendings);
    ExactlyOnce(PacketsOf(sendings), tries);
  }
}
