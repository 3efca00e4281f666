/** The S-record uploader (common/cmd_load.c, save_serial): a stretch of memory as S3 records of at most
    16 bytes. The memory is 2^32 bytes and addresses wrap around. */
module SRecord {
  import opened Common

  const BYTES_PER_RECORD: nat := 16

  datatype Record = Record(address: nat, data: seq<byte>)

  // ----- hexadecimal text ----------------------------------------------------------------------

  function HexDigit(n: int): char
    requires 0 <= n < 16
  {
    "0123456789ABCDEF"[n]
  }

  function HexValue(c: char): (v: int)
    ensures -1 <= v < 16
  {
    if '0' <= c <= '9' then c as int - '0' as int
    else if 'A' <= c <= 'F' then c as int - 'A' as int + 10
    else -1
  }

  /** A byte as %02X. */
  function HexByte(b: byte): string {
    [HexDigit(b / 16), HexDigit(b % 16)]
  }

  function HexText(bs: seq<byte>): (s: string)
    ensures |s| == 2 * |bs|
  {
    if bs == [] then "" else HexText(bs[..|bs| - 1]) + HexByte(bs[|bs| - 1])
  }

  function HexParse(s: string): Option<seq<byte>> {
    if s == "" then Some([])
    else if |s| == 1 then None
    else
      var n := |s| - 2;
      var hi, lo, front := HexValue(s[n]), HexValue(s[n + 1]), HexParse(s[..n]);
      if hi < 0 || lo < 0 || front == None then None else Some(front.value + [16 * hi + lo])
  }

  lemma {:induction false} HexByteRoundTrip(b: byte)
    ensures
      var s := HexByte(b);
      HexValue(s[0]) >= 0 && HexValue(s[1]) >= 0 && 16 * HexValue(s[0]) + HexValue(s[1]) == b
  {
    DigitRoundTrip(b / 16);
    DigitRoundTrip(b % 16);
  }

  lemma {:induction false} DigitRoundTrip(n: int)
    requires 0 <= n < 16
    ensures HexValue(HexDigit(n)) == n
  {
  }

  lemma {:induction false} HexRoundTrip(bs: seq<byte>)
    ensures HexParse(HexText(bs)) == Some(bs)
  {
    hide HexParse, HexText, HexByte;
    HexTextStep(bs);
    if bs != [] {
      var front, b := bs[..|bs| - 1], bs[|bs| - 1];
      HexRoundTrip(front);
      HexParseMore(HexText(front), front, b);
      assert front + [b] == bs;
    }
  }

  lemma {:induction false} HexTextStep(bs: seq<byte>)
    ensures HexText([]) == "" && HexParse("") == Some([])
    ensures bs != [] ==> HexText(bs) == HexText(bs[..|bs| - 1]) + HexByte(bs[|bs| - 1])
  {
    hide HexByte;
  }

  lemma {:induction false} HexParseMore(s: string, front: seq<byte>, b: byte)
    requires HexParse(s) == Some(front)
    ensures HexParse(s + HexByte(b)) == Some(front + [b])
  {
    HexByteRoundTrip(b);
    hide HexValue;
    var t := s + HexByte(b);
    assert t[..|t| - 2] == s && t[|t| - 2] == HexByte(b)[0] && t[|t| - 1] == HexByte(b)[1];
  }

  lemma {:induction false} HexTextConcat(a: seq<byte>, b: seq<byte>)
    ensures HexText(a + b) == HexText(a) + HexText(b)
  {
    hide HexByte;
    if b == [] {
      assert a + b == a;
    } else {
      var n := |b| - 1;
      assert (a + b)[..|a + b| - 1] == a + b[..n];
      HexTextConcat(a, b[..n]);
    }
  }

  predicate IsHex(s: string) {
    forall i :: 0 <= i < |s| ==> HexValue(s[i]) >= 0
  }

  lemma {:induction false} HexTextIsHex(bs: seq<byte>)
    ensures IsHex(HexText(bs))
  {
    if bs != [] {
      HexTextIsHex(bs[..|bs| - 1]);
      HexByteRoundTrip(bs[|bs| - 1]);
    }
  }

  // ----- records -------------------------------------------------------------------------------

  function Sum(bs: seq<byte>): nat {
    if bs == [] then 0 else Sum(bs[..|bs| - 1]) + bs[|bs| - 1]
  }

  lemma {:induction false} SumConcat(a: seq<byte>, b: seq<byte>)
    ensures Sum(a + b) == Sum(a) + Sum(b)
  {
    if b == [] {
      assert a + b == a;
    } else {
      assert (a + b)[..|a + b| - 1] == a + b[..|b| - 1];
      SumConcat(a, b[..|b| - 1]);
    }
  }

  function AddressBytes(a: nat): (bs: seq<byte>)
    requires a < LIMIT
    ensures |bs| == 4
  {
    [a / 256 / 256 / 256, a / 256 / 256 % 256, a / 256 % 256, a % 256]
  }

  function AddressOf(bs: seq<byte>): (a: nat)
    requires |bs| == 4
    ensures a < LIMIT
  {
    ((bs[0] as int * 256 + bs[1]) * 256 + bs[2]) * 256 + bs[3]
  }

  lemma {:induction false} AddressRoundTrip(a: nat)
    requires a < LIMIT
    ensures AddressOf(AddressBytes(a)) == a
  {
  }

  /** Length, address and data. */
  function Body(r: Record): seq<byte>
    requires r.address < LIMIT && |r.data| <= BYTES_PER_RECORD
  {
    [5 + |r.data|] + AddressBytes(r.address) + r.data
  }

  function Checksum(bs: seq<byte>): byte {
    255 - Sum(bs) % 256
  }

  /** One S3 record with its newline. */
  function Format(r: Record): string
    requires r.address < LIMIT && |r.data| <= BYTES_PER_RECORD
  {
    "S3" + HexText(Body(r) + [Checksum(Body(r))]) + "\n"
  }

  const START := "S0030000FC\n"
  const END := "S70500000000FA\n"

  // ----- an independent reader -----------------------------------------------------------------

  datatype Line = Header | Data(record: Record) | Finish | Bad

  /** One line without its newline: type, length, four address bytes (two for S0), data, checksum. */
  function ReadLine(s: string): Line {
    if |s| < 2 || s[0] != 'S' then Bad
    else
      var p := HexParse(s[2..]);
      if p == None then Bad
      else
        var bs := p.value;
        if |bs| == 0 || |bs| - 1 != bs[0] || Sum(bs) % 256 != 255 then Bad
        else if s[1] == '0' then Header
        else if |bs| < 6 then Bad
        else if s[1] == '3' then Data(Record(AddressOf(bs[1..5]), bs[5..|bs| - 1]))
        else if s[1] == '7' then Finish
        else Bad
  }

  function NewlineAt(s: string): (n: nat)
    ensures n <= |s| && (n < |s| ==> s[n] == '\n') && forall i :: 0 <= i < n ==> s[i] != '\n'
  {
    if s == "" || s[0] == '\n' then 0 else 1 + NewlineAt(s[1..])
  }

  /** All data records up to the final one. */
  function ReadAll(s: string): Option<seq<Record>>
    decreases |s|
  {
    var n := NewlineAt(s);
    if n == |s| then None
    else
      match ReadLine(s[..n])
      case Bad => None
      case Finish => Some([])
      case Header => ReadAll(s[n + 1..])
      case Data(r) =>
        var rest := ReadAll(s[n + 1..]);
        if rest == None then None else Some([r] + rest.value)
  }

  /** Length, address, data and checksum add up to 0xff modulo 256. */
  lemma {:induction false} ByteSum(r: Record)
    requires r.address < LIMIT && |r.data| <= BYTES_PER_RECORD
    ensures Sum(Body(r) + [Checksum(Body(r))]) % 256 == 255
  {
    var body := Body(r);
    assert (body + [Checksum(body)])[..|body|] == body;
  }

  /** A written record is read back as it is. */
  lemma {:induction false} RecordRoundTrip(r: Record)
    requires r.address < LIMIT && 0 < |r.data| <= BYTES_PER_RECORD
    ensures ReadLine(Format(r)[..|Format(r)| - 1]) == Data(r)
  {
    hide HexText, HexParse, Sum, AddressOf, AddressBytes;
    var body := Body(r);
    var bs := body + [Checksum(body)];
    var s := Format(r)[..|Format(r)| - 1];
    assert s == "S3" + HexText(bs) && s[2..] == HexText(bs);
    HexRoundTrip(bs);
    ByteSum(r);
    AddressRoundTrip(r.address);
    assert bs[1..5] == AddressBytes(r.address) && bs[5..|bs| - 1] == r.data;
  }

  // ----- the whole upload ----------------------------------------------------------------------

  /** The bytes of memory from an address on, around the top of the address space. */
  function Bytes(memory: seq<byte>, address: nat, n: nat): (bs: seq<byte>)
    requires |memory| == LIMIT
    ensures |bs| == n
  {
    seq(n, i requires 0 <= i < n => memory[(address + i) % LIMIT])
  }

  /** The records of `data` placed at `address`. */
  function Records(address: nat, data: seq<byte>): (rs: seq<Record>)
    requires address < LIMIT
    ensures |rs| == (|data| + BYTES_PER_RECORD - 1) / BYTES_PER_RECORD
    decreases |data|
  {
    if data == [] then []
    else
      var n := Min(BYTES_PER_RECORD, |data|);
      [Record(address, data[..n])] + Records((address + n) % LIMIT, data[n..])
  }

  predicate Sound(rs: seq<Record>) {
    forall i :: 0 <= i < |rs| ==> rs[i].address < LIMIT && 0 < |rs[i].data| <= BYTES_PER_RECORD
  }

  function Text(rs: seq<Record>): string
    requires Sound(rs)
  {
    if rs == [] then "" else Text(rs[..|rs| - 1]) + Format(rs[|rs| - 1])
  }

  function Concat(rs: seq<Record>): seq<byte> {
    if rs == [] then [] else rs[0].data + Concat(rs[1..])
  }

  /** Each record goes on where the one before it ended, around the top of the address space. */
  predicate Contiguous(rs: seq<Record>, address: nat) {
    rs == [] || (rs[0].address == address && Contiguous(rs[1..], (address + |rs[0].data|) % LIMIT))
  }

  /** The records have 1 to 16 bytes each, and 16 except for the last, follow one another and hold exactly the data. */
  lemma {:induction false} RecordsHoldTheData(address: nat, data: seq<byte>)
    requires address < LIMIT
    ensures
      var rs := Records(address, data);
      && Sound(rs) && Contiguous(rs, address) && Concat(rs) == data
      && forall i :: 0 <= i < |rs| ==> 1 <= |rs[i].data| <= 16 && (i < |rs| - 1 ==> |rs[i].data| == 16)
  {
    RecordsHold(address, data);
    FullRecords(address, data);
    hide Records;
  }

  lemma {:induction false} FullRecords(address: nat, data: seq<byte>)
    requires address < LIMIT
    ensures
      var rs := Records(address, data);
      && (data != [] ==> rs != [])
      && forall i :: 0 <= i < |rs| ==> 1 <= |rs[i].data| <= 16 && (i < |rs| - 1 ==> |rs[i].data| == 16)
    decreases |data|
  {
    if data != [] {
      var n := Min(BYTES_PER_RECORD, |data|);
      FullRecords((address + n) % LIMIT, data[n..]);
      var rest := Records((address + n) % LIMIT, data[n..]);
      assert Records(address, data) == [Record(address, data[..n])] + rest;
      hide Records;
    }
  }

  lemma {:induction false} RecordsHold(address: nat, data: seq<byte>)
    requires address < LIMIT
    ensures
      var rs := Records(address, data);
      Sound(rs) && Contiguous(rs, address) && Concat(rs) == data
    decreases |data|
  {
    if data != [] {
      var n := Min(BYTES_PER_RECORD, |data|);
      RecordsHold((address + n) % LIMIT, data[n..]);
      var rs := Records(address, data);
      assert rs[1..] == Records((address + n) % LIMIT, data[n..]);
      assert data == data[..n] + data[n..];
    }
  }

  /** What the uploader sends for `count` bytes at `address`. */
  function Upload(memory: seq<byte>, address: nat, count: nat): string
    requires |memory| == LIMIT && address < LIMIT
  {
    var rs := Records(address, Bytes(memory, address, count));
    RecordsHoldTheData(address, Bytes(memory, address, count));
    START + Text(rs) + END
  }

  /** The upload of one byte, character by character. */
  lemma {:induction false} OneByteUpload(memory: seq<byte>)
    requires |memory| == LIMIT && memory[0x1000] == 0x41
    ensures Upload(memory, 0x1000, 1) == "S0030000FC\n" + "S3060000100041A8\n" + "S70500000000FA\n"
  {
    hide Bytes, Records, Format, Text, Upload;
    var r := Record(0x1000, [0x41]);
    OneByte(memory);
    OneRecord(r.data);
    OneLine(r);
    TextIsLine(r);
    UploadIs(memory, 0x1000, 1);
  }

  lemma {:induction false} OneByte(memory: seq<byte>)
    requires |memory| == LIMIT
    ensures Bytes(memory, 0x1000, 1) == [memory[0x1000]]
  {
  }

  lemma {:induction false} TextIsLine(r: Record)
    requires Sound([r]) && r.address < LIMIT && |r.data| <= BYTES_PER_RECORD
    ensures Text([r]) == Format(r)
  {
    hide Format;
    TextOne(r);
    assert Text([]) == "" && Format(r) + "" == Format(r);
  }

  lemma {:induction false} UploadIs(memory: seq<byte>, address: nat, count: nat)
    requires |memory| == LIMIT && address < LIMIT
    ensures var rs := Records(address, Bytes(memory, address, count));
      Sound(rs) && Upload(memory, address, count) == START + Text(rs) + END
  {
    hide Bytes, Records, Text;
    RecordsHoldTheData(address, Bytes(memory, address, count));
  }

  lemma {:induction false} OneRecord(bs: seq<byte>)
    requires |bs| == 1
    ensures Records(0x1000, bs) == [Record(0x1000, bs)]
  {
    assert bs[..1] == bs && bs[1..] == [];
    assert Records(0x1001, []) == [];
  }

  lemma {:induction false} OneLine(r: Record)
    requires r == Record(0x1000, [0x41])
    ensures Format(r) == "S3060000100041A8\n"
  {
    hide HexByte;
    ByteTexts();
    OneHex(0x41);
    LineSum(r);
    RecordText(r, HexText(r.data), 0x57);
    assert AddressBytes(0x1000) == [0, 0, 0x10, 0];
    assert "S3" + "06" + ("00" + "00" + "10" + "00") + "41" + "A8" + "\n" == "S3060000100041A8\n";
  }

  lemma {:induction false} ByteTexts()
    ensures HexByte(6) == "06" && HexByte(0) == "00" && HexByte(0x10) == "10" && HexByte(0x41) == "41" && HexByte(0xA8) == "A8"
  {
  }

  lemma {:induction false} OneHex(b: byte)
    ensures HexText([b]) == HexByte(b)
  {
    hide HexByte;
    assert [b][..0] == [] && HexText([]) == "" && "" + HexByte(b) == HexByte(b);
  }

  lemma {:induction false} LineSum(r: Record)
    requires r == Record(0x1000, [0x41])
    ensures 0x57 == Sum(r.data) + LowSum(5 + |r.data|, 2) + LowSum(r.address, 4)
  {
    assert r.data[..0] == [] && Sum([]) == 0 && Sum(r.data) == 0x41;
    assert LowSum(6, 2) == 6;
    assert LowSum(0x1000, 4) == 0x10;
  }

  lemma {:induction false} TextFront(r: Record, rs: seq<Record>)
    requires Sound([r] + rs)
    ensures Sound(rs) && r.address < LIMIT && |r.data| <= BYTES_PER_RECORD
    ensures Text([r] + rs) == Format(r) + Text(rs)
    decreases |rs|
  {
    hide Format, Sound, Text;
    SoundRest(r, rs);
    if rs == [] {
      TextOne(r);
      assert [r] + rs == [r];
    } else {
      var n := |rs| - 1;
      SoundFront(r, rs);
      TextFront(r, rs[..n]);
      TextLast(rs);
      TextLast([r] + rs);
      assert ([r] + rs)[..n + 1] == [r] + rs[..n];
    }
  }

  lemma {:induction false} TextOne(r: Record)
    requires Sound([r]) && r.address < LIMIT && |r.data| <= BYTES_PER_RECORD
    ensures Text([r]) == Format(r) + Text([])
  {
    assert [r][..0] == [];
    assert "" + Format(r) == Format(r) + "";
  }

  lemma {:induction false} TextLast(rs: seq<Record>)
    requires Sound(rs) && rs != []
    ensures Sound(rs[..|rs| - 1]) && rs[|rs| - 1].address < LIMIT && |rs[|rs| - 1].data| <= BYTES_PER_RECORD
    ensures Text(rs) == Text(rs[..|rs| - 1]) + Format(rs[|rs| - 1])
  {
    hide Format;
  }

  lemma {:induction false} SoundFront(r: Record, rs: seq<Record>)
    requires Sound([r] + rs) && rs != []
    ensures Sound([r] + rs[..|rs| - 1])
  {
    var front := [r] + rs[..|rs| - 1];
    forall i | 0 <= i < |front|
      ensures front[i].address < LIMIT && 0 < |front[i].data| <= BYTES_PER_RECORD
    {
      assert front[i] == ([r] + rs)[i];
    }
  }

  lemma {:induction false} SoundRest(r: Record, rs: seq<Record>)
    requires Sound([r] + rs)
    ensures Sound(rs) && r.address < LIMIT && 0 < |r.data| <= BYTES_PER_RECORD
  {
    assert ([r] + rs)[0] == r;
    forall i | 0 <= i < |rs|
      ensures rs[i].address < LIMIT && 0 < |rs[i].data| <= BYTES_PER_RECORD
    {
      assert ([r] + rs)[i + 1] == rs[i];
    }
  }

  lemma {:induction false} ReadOneLine(line: string, rest: string)
    requires forall i :: 0 <= i < |line| ==> line[i] != '\n'
    ensures
      var s := line + "\n" + rest;
      NewlineAt(s) == |line| && s[..|line|] == line && s[|line| + 1..] == rest && |line| < |s|
  {
    var s := line + "\n" + rest;
    assert s[|line|] == '\n';
  }

  lemma {:induction false} FormatIsOneLine(r: Record)
    requires r.address < LIMIT && |r.data| <= BYTES_PER_RECORD
    ensures
      var line := Format(r)[..|Format(r)| - 1];
      Format(r) == line + "\n" && forall i :: 0 <= i < |line| ==> line[i] != '\n'
  {
    hide HexText, Body, Checksum;
    var hex := HexText(Body(r) + [Checksum(Body(r))]);
    HexTextIsHex(Body(r) + [Checksum(Body(r))]);
    var line := Format(r)[..|Format(r)| - 1];
    assert line == "S3" + hex;
    forall i | 0 <= i < |line|
      ensures line[i] != '\n'
    {
      if i >= 2 {
        assert HexValue(hex[i - 2]) >= 0;
      }
    }
  }

  lemma {:induction false} ReadsData(line: string, rest: string, r: Record)
    requires ReadLine(line) == Data(r) && forall i :: 0 <= i < |line| ==> line[i] != '\n'
    requires ReadAll(rest).Some?
    ensures ReadAll(line + "\n" + rest) == Some([r] + ReadAll(rest).value)
  {
    hide ReadLine;
    ReadOneLine(line, rest);
  }

  lemma {:induction false} ReadsRecords(rs: seq<Record>)
    requires Sound(rs)
    ensures ReadAll(Text(rs) + END) == Some(rs)
    decreases |rs|
  {
    hide Format, ReadLine, ReadAll, Text;
    if rs == [] {
      NoText();
      ReadsEnd();
    } else {
      var r, rest := rs[0], rs[1..];
      assert rs == [r] + rest;
      TextFront(r, rest);
      ReadsRecords(rest);
      FormatIsOneLine(r);
      var line := Format(r)[..|Format(r)| - 1];
      RecordRoundTrip(r);
      ReadsData(line, Text(rest) + END, r);
      assert Text(rs) + END == line + "\n" + (Text(rest) + END);
    }
  }

  lemma {:induction false} NoText()
    ensures Text([]) == "" && Text([]) + END == END
  {
  }

  lemma {:induction false} EndLine()
    ensures ReadLine("S70500000000FA") == Finish
  {
    hide HexParse, Sum, HexText;
    var bs: seq<byte> := [5, 0, 0, 0, 0, 0xfa];
    EndText();
    HexRoundTrip(bs);
    assert "S70500000000FA"[2..] == HexText(bs);
  }

  lemma {:induction false} ReadsFinish(line: string, rest: string)
    requires ReadLine(line) == Finish && forall i :: 0 <= i < |line| ==> line[i] != '\n'
    ensures ReadAll(line + "\n" + rest) == Some([])
  {
    hide ReadLine;
    ReadOneLine(line, rest);
  }

  lemma {:induction false} ReadsEnd()
    ensures ReadAll(END) == Some([])
  {
    hide ReadLine, ReadAll;
    EndLine();
    ReadsFinish("S70500000000FA", "");
    assert "S70500000000FA" + "\n" + "" == END;
  }

  lemma {:induction false} HexPush(bs: seq<byte>, b: byte)
    ensures HexText(bs + [b]) == HexText(bs) + HexByte(b) && Sum(bs + [b]) == Sum(bs) + b
  {
    assert (bs + [b])[..|bs|] == bs;
  }

  lemma {:induction false} HexTwo(a: byte, b: byte)
    ensures HexText([a, b]) == HexByte(a) + HexByte(b) && Sum([a, b]) == a + b
  {
    HexPush([], a);
    HexPush([a], b);
    assert [] + [a] == [a] && [a] + [b] == [a, b];
    assert "" + HexByte(a) == HexByte(a);
  }

  lemma {:induction false} EndText()
    ensures var bs: seq<byte> := [5, 0, 0, 0, 0, 0xfa];
      "S70500000000FA" == "S7" + HexText(bs) && Sum(bs) == 255
  {
    hide HexText, Sum;
    var a: seq<byte>, b: seq<byte>, c: seq<byte> := [5, 0], [0, 0], [0, 0xfa];
    HexTwo(5, 0);
    HexTwo(0, 0);
    HexTwo(0, 0xfa);
    HexTextConcat(a, b);
    HexTextConcat(a + b, c);
    SumConcat(a, b);
    SumConcat(a + b, c);
    assert a + b + c == [5, 0, 0, 0, 0, 0xfa];
  }

  lemma {:induction false} StartText()
    ensures var bs: seq<byte> := [3, 0, 0, 0xfc];
      "S0030000FC" == "S0" + HexText(bs) && Sum(bs) == 255
  {
    hide HexText, Sum;
    var a: seq<byte>, b: seq<byte> := [3, 0], [0, 0xfc];
    HexTwo(3, 0);
    HexTwo(0, 0xfc);
    HexTextConcat(a, b);
    SumConcat(a, b);
    assert a + b == [3, 0, 0, 0xfc];
  }

  lemma {:induction false} ReadsHeader(rest: string)
    ensures ReadAll(START + rest) == ReadAll(rest)
  {
    hide HexParse, Sum, HexText;
    var line, bs: seq<byte> := "S0030000FC", [3, 0, 0, 0xfc];
    StartText();
    HexRoundTrip(bs);
    assert line[2..] == HexText(bs);
    assert ReadLine(line) == Header;
    ReadOneLine(line, rest);
    assert line + "\n" + rest == START + rest;
  }

  /** Whatever is uploaded, a reader of S-records finds every byte of it at its address. */
  lemma {:induction false} UploadIsReadBack(memory: seq<byte>, address: nat, count: nat)
    requires |memory| == LIMIT && address < LIMIT
    ensures ReadAll(Upload(memory, address, count)) == Some(Records(address, Bytes(memory, address, count)))
  {
    hide Text, ReadAll, Records, Bytes;
    var rs := Records(address, Bytes(memory, address, count));
    RecordsHoldTheData(address, Bytes(memory, address, count));
    ReadsRecords(rs);
    ReadsHeader(Text(rs) + END);
    assert START + Text(rs) + END == START + (Text(rs) + END);
  }

  // ----- save_serial ---------------------------------------------------------------------------

  /** Adds the low `n` bytes of a number to a checksum. */
  method AddBytes(checksum: nat, value: nat, n: nat) returns (sum: nat)
    ensures sum == checksum + LowSum(value, n)
  {
    sum := checksum;
    var v := value;
    for i := 0 to n
      invariant sum + LowSum(v, n - i) == checksum + LowSum(value, n)
    {
      sum := sum + v % 256;
      v := v / 256;
    }
  }

  function LowSum(v: nat, n: nat): nat {
    if n == 0 then 0 else v % 256 + LowSum(v / 256, n - 1)
  }

  lemma {:induction false} BodySum(r: Record)
    requires r.address < LIMIT && |r.data| <= BYTES_PER_RECORD
    ensures Sum(Body(r)) == Sum(r.data) + LowSum(5 + |r.data|, 2) + LowSum(r.address, 4)
  {
    hide Sum;
    var a := AddressBytes(r.address);
    SumConcat([5 + |r.data|] + a, r.data);
    SumConcat([5 + |r.data|], a);
    OneSum(5 + |r.data|);
    HexTwo(a[0], a[1]);
    HexTwo(a[2], a[3]);
    SumConcat([a[0], a[1]], [a[2], a[3]]);
    assert a == [a[0], a[1]] + [a[2], a[3]];
    LowSums(5 + |r.data|, r.address);
  }

  lemma {:induction false} OneSum(b: byte)
    ensures Sum([b]) == b
  {
    assert [b][..0] == [];
  }

  lemma {:induction false} LowSums(len: nat, a: nat)
    requires len < 256 && a < LIMIT
    ensures LowSum(len, 2) == len
    ensures var bs := AddressBytes(a); LowSum(a, 4) == bs[0] as int + bs[1] + bs[2] + bs[3]
  {
    assert LowSum(len, 2) == len % 256 + LowSum(len / 256, 1);
    var b := a / 256;
    var c := b / 256;
    assert LowSum(a, 4) == a % 256 + LowSum(b, 3) && LowSum(b, 3) == b % 256 + LowSum(c, 2);
    assert LowSum(c, 2) == c % 256 + LowSum(c / 256, 1);
  }

  /** The strings handed to write_record. */
  function Formats(rs: seq<Record>): (t: seq<string>)
    requires Sound(rs)
    ensures |t| == |rs|
  {
    seq(|rs|, i requires 0 <= i < |rs| => Format(rs[i]))
  }

  function Lines(memory: seq<byte>, address: nat, count: nat): seq<string>
    requires |memory| == LIMIT && address < LIMIT
  {
    var rs := Records(address, Bytes(memory, address, count));
    RecordsHoldTheData(address, Bytes(memory, address, count));
    [START] + Formats(rs) + [END]
  }

  function Join(lines: seq<string>): string {
    if lines == [] then "" else Join(lines[..|lines| - 1]) + lines[|lines| - 1]
  }

  lemma {:induction false} JoinFormats(rs: seq<Record>)
    requires Sound(rs)
    ensures Join([START] + Formats(rs)) == START + Text(rs)
  {
    hide Format;
    if rs == [] {
      assert [START] + Formats(rs) == [START] && [START][..0] == [];
      assert "" + START == START + "";
    } else {
      var n := |rs| - 1;
      JoinFormats(rs[..n]);
      assert ([START] + Formats(rs))[..n + 1] == [START] + Formats(rs[..n]);
      assert START + Text(rs[..n]) + Format(rs[n]) == START + (Text(rs[..n]) + Format(rs[n]));
    }
  }

  /** Together they are the upload. */
  lemma {:induction false} LinesAreTheUpload(memory: seq<byte>, address: nat, count: nat)
    requires |memory| == LIMIT && address < LIMIT
    ensures Join(Lines(memory, address, count)) == Upload(memory, address, count)
  {
    hide Format, Text, Records, Bytes;
    var rs := Records(address, Bytes(memory, address, count));
    RecordsHoldTheData(address, Bytes(memory, address, count));
    JoinFormats(rs);
    var lines := Lines(memory, address, count);
    assert lines[..|lines| - 1] == [START] + Formats(rs);
  }

  /** `interrupts` are the calls of write_record during which ctrl-c is pressed. */
  method WriteRecord(written: seq<string>, text: string, interrupts: set<nat>)
    returns (failed: bool, now: seq<string>)
    ensures now == written + [text] && (failed <==> |written| in interrupts)
  {
    now := written + [text];
    failed := |written| in interrupts;
  }

  /** The lines as far as they go, interrupted at the first opportunity. */
  predicate Sent(written: seq<string>, lines: seq<string>, interrupts: set<nat>) {
    written <= lines && forall i :: 0 <= i < |written| - 1 ==> i !in interrupts
  }

  /** Its checksum and text. */
  lemma {:induction false} RecordText(r: Record, hex: string, sum: nat)
    requires r.address < LIMIT && |r.data| <= BYTES_PER_RECORD
    requires hex == HexText(r.data) && sum == Sum(r.data) + LowSum(5 + |r.data|, 2) + LowSum(r.address, 4)
    ensures
      var a := AddressBytes(r.address);
      Format(r) == "S3" + HexByte(5 + |r.data|) + (HexByte(a[0]) + HexByte(a[1]) + HexByte(a[2]) + HexByte(a[3]))
                   + hex + HexByte(255 - sum % 256) + "\n"
  {
    hide HexText, HexByte, Sum, LowSum, AddressBytes;
    var a := AddressBytes(r.address);
    BodySum(r);
    var check: byte := 255 - sum % 256;
    HexPush(Body(r), check);
    HexTextConcat([5 + |r.data|] + a, r.data);
    HexTextConcat([5 + |r.data|], a);
    HexPush([], 5 + |r.data|);
    EmptyHex();
    HexTwo(a[0], a[1]);
    HexTwo(a[2], a[3]);
    HexTextConcat([a[0], a[1]], [a[2], a[3]]);
    assert a == [a[0], a[1]] + [a[2], a[3]];
    assert [] + [5 + |r.data|] == [5 + |r.data|];
    var h, b0, b1, b2, b3 := HexByte(5 + |r.data|), HexByte(a[0]), HexByte(a[1]), HexByte(a[2]), HexByte(a[3]);
    assert "" + h == h;
    assert (b0 + b1) + (b2 + b3) == b0 + b1 + b2 + b3;
    var whole := h + (b0 + b1 + b2 + b3) + hex + HexByte(check);
    assert "S3" + whole + "\n" == "S3" + h + (b0 + b1 + b2 + b3) + hex + HexByte(check) + "\n";
  }

  lemma {:induction false} EmptyHex()
    ensures HexText([]) == ""
  {
  }

  lemma {:induction false} ByteAt(memory: seq<byte>, start: nat, count: nat, address: nat, pos: nat, n: nat)
    requires |memory| == LIMIT && address == (start + pos) % LIMIT && pos + n < count
    ensures memory[(address + n) % LIMIT] == Bytes(memory, start, count)[pos + n]
  {
    WrapTwice(start + pos, n);
  }

  lemma {:induction false} PendingMore(all: seq<byte>, pos: nat, n: nat)
    requires pos + n < |all|
    ensures all[pos..pos + n + 1] == all[pos..pos + n] + [all[pos + n]]
    ensures HexText(all[pos..pos + n + 1]) == HexText(all[pos..pos + n]) + HexByte(all[pos + n])
    ensures Sum(all[pos..pos + n + 1]) == Sum(all[pos..pos + n]) + all[pos + n]
  {
    hide HexText, Sum, HexByte;
    assert all[pos..pos + n + 1] == all[pos..pos + n] + [all[pos + n]];
    HexPush(all[pos..pos + n], all[pos + n]);
  }

  /** Prints and sends the record that has been collected. */
  method SendRecord(written: seq<string>, address: nat, reclen: nat, hex: string, sum: nat, interrupts: set<nat>,
                    ghost data: seq<byte>) returns (failed: bool, now: seq<string>)
    requires address < LIMIT && 0 < reclen == |data| <= BYTES_PER_RECORD
    requires hex == HexText(data) && sum == Sum(data)
    ensures now == written + [Format(Record(address, data))] && (failed <==> |written| in interrupts)
  {
    hide HexText, HexByte, Sum, LowSum;
    var length := 4 + reclen + 1;
    var checksum := AddBytes(sum, length, 2);
    checksum := AddBytes(checksum, address, 4);
    ghost var total := checksum;
    checksum := 255 - checksum % 256;
    var a := AddressBytes(address);
    var record := "S3" + HexByte(length) + (HexByte(a[0]) + HexByte(a[1]) + HexByte(a[2]) + HexByte(a[3]))
                  + hex + HexByte(checksum) + "\n";
    RecordText(Record(address, data), hex, total);
    failed, now := WriteRecord(written, record, interrupts);
  }

  /** The records of an upload. */
  function Planned(memory: seq<byte>, start: nat, total: nat): (rs: seq<Record>)
    requires |memory| == LIMIT && start < LIMIT
    ensures Sound(rs)
  {
    RecordsHoldTheData(start, Bytes(memory, start, total));
    Records(start, Bytes(memory, start, total))
  }

  /** `sent` records of the plan have been sent; the rest of it starts at `address` with byte `pos`, and
      `reclen` bytes of that are in `hex` and `sum`. */
  predicate Filling(memory: seq<byte>, start: nat, total: nat, sent: nat, address: nat, pos: nat,
                    reclen: nat, hex: string, sum: nat)
    requires |memory| == LIMIT && start < LIMIT
  {
    var rs, all := Planned(memory, start, total), Bytes(memory, start, total);
    && pos + reclen <= total && address == (start + pos) % LIMIT
    && sent <= |rs| && rs[sent..] == Records(address, all[pos..])
    && hex == HexText(all[pos..pos + reclen]) && sum == Sum(all[pos..pos + reclen])
  }

  lemma {:induction false} FillingStarts(memory: seq<byte>, start: nat, total: nat)
    requires |memory| == LIMIT && start < LIMIT
    ensures Filling(memory, start, total, 0, start, 0, 0, "", 0)
  {
    hide Bytes, Records;
    var all := Bytes(memory, start, total);
    assert all[0..] == all && all[0..0] == [];
    assert Planned(memory, start, total)[0..] == Planned(memory, start, total);
  }

  lemma {:induction false} FillingOn(memory: seq<byte>, start: nat, total: nat, sent: nat, address: nat, pos: nat,
                                     reclen: nat, hex: string, sum: nat)
    requires |memory| == LIMIT && start < LIMIT && Filling(memory, start, total, sent, address, pos, reclen, hex, sum)
    requires pos + reclen < total
    ensures
      var c := memory[(address + reclen) % LIMIT];
      Filling(memory, start, total, sent, address, pos, reclen + 1, hex + HexByte(c), sum + c)
  {
    hide HexText, HexByte, Sum, Records, Planned;
    ByteAt(memory, start, total, address, pos, reclen);
    PendingMore(Bytes(memory, start, total), pos, reclen);
  }

  lemma {:induction false} FillingDone(memory: seq<byte>, start: nat, total: nat, sent: nat, address: nat, pos: nat,
                                       reclen: nat, hex: string, sum: nat) returns (data: seq<byte>)
    requires |memory| == LIMIT && start < LIMIT && Filling(memory, start, total, sent, address, pos, reclen, hex, sum)
    requires 0 < reclen == Min(BYTES_PER_RECORD, total - pos)
    ensures |data| == reclen && hex == HexText(data) && sum == Sum(data)
    ensures sent < |Planned(memory, start, total)| && Planned(memory, start, total)[sent] == Record(address, data)
    ensures Filling(memory, start, total, sent + 1, (address + reclen) % LIMIT, pos + reclen, 0, "", 0)
  {
    hide HexText, Sum, Bytes, Planned;
    var rs, all := Planned(memory, start, total), Bytes(memory, start, total);
    data := all[pos..pos + reclen];
    FirstRecord(address, all, pos, reclen);
    assert rs[sent..][0] == rs[sent] && rs[sent..][1..] == rs[sent + 1..];
    WrapTwice(start + pos, reclen);
    hide Records;
    NothingPending(all, pos + reclen);
  }

  lemma {:induction false} FirstRecord(address: nat, all: seq<byte>, pos: nat, reclen: nat)
    requires address < LIMIT && pos < |all| && reclen == Min(BYTES_PER_RECORD, |all| - pos)
    ensures Records(address, all[pos..])
      == [Record(address, all[pos..pos + reclen])] + Records((address + reclen) % LIMIT, all[pos + reclen..])
  {
    var rest := all[pos..];
    assert rest[..reclen] == all[pos..pos + reclen] && rest[reclen..] == all[pos + reclen..];
  }

  lemma {:induction false} FillingEnds(memory: seq<byte>, start: nat, total: nat, sent: nat, address: nat)
    requires |memory| == LIMIT && start < LIMIT
    requires Filling(memory, start, total, sent, address, total, 0, "", 0)
    ensures sent == |Planned(memory, start, total)|
  {
    hide Bytes, Planned;
    assert Bytes(memory, start, total)[total..] == [];
  }

  lemma {:induction false} NothingPending(all: seq<byte>, pos: nat)
    requires pos <= |all|
    ensures HexText(all[pos..pos]) == "" && Sum(all[pos..pos]) == 0
  {
  }

  lemma {:induction false} LinesAre(memory: seq<byte>, start: nat, total: nat)
    requires |memory| == LIMIT && start < LIMIT
    ensures
      var lines, rs := Lines(memory, start, total), Planned(memory, start, total);
      && |lines| == |rs| + 2 && lines[0] == START && lines[|rs| + 1] == END
      && forall i :: 0 <= i < |rs| ==> lines[i + 1] == Format(rs[i])
  {
    hide Format, Records, Bytes;
  }

  lemma {:induction false} OneMoreSent(written: seq<string>, lines: seq<string>, text: string, interrupts: set<nat>)
    requires Sent(written, lines, interrupts) && |written| < |lines| && lines[|written|] == text
    requires written == [] || |written| - 1 !in interrupts
    ensures Sent(written + [text], lines, interrupts)
  {
    var n := |written|;
    assert lines[..n] + [lines[n]] == lines[..n + 1];
    assert lines[..n + 1] <= lines;
  }

  /** save_serial: all the lines in order, or those up to the first during which ctrl-c is pressed. */
  method SaveSerial(memory: seq<byte>, start: nat, total: nat, interrupts: set<nat>)
    returns (rc: int, written: seq<string>)
    requires |memory| == LIMIT && start < LIMIT && total < LIMIT
    ensures Sent(written, Lines(memory, start, total), interrupts) && written != []
    ensures rc == if |written| - 1 in interrupts then -1 else 0
    ensures rc == 0 ==> written == Lines(memory, start, total)
  {
    hide HexText, HexByte, Sum, Format, Bytes, Filling, Planned, Lines, Sent;
    ghost var lines := Lines(memory, start, total);
    LinesAre(memory, start, total);
    NothingSent(lines, interrupts);
    OneMoreSent([], lines, START, interrupts);
    var failed;
    failed, written := WriteRecord([], START, interrupts);
    if failed {
      return -1, written;
    }
    var address: nat, count: nat, reclen: nat, checksum: nat := start, total, 0, 0;
    var data := "";
    ghost var sent: nat, pos: nat := 0, 0;
    FillingStarts(memory, start, total);
    var more := true;
    while more
      invariant Filling(memory, start, total, sent, address, pos, reclen, data, checksum) && address < LIMIT
      invariant pos + reclen + count == total && reclen < BYTES_PER_RECORD && (count == 0 ==> reclen == 0)
      invariant !more ==> pos == total && data == "" && checksum == 0
      invariant Sent(written, lines, interrupts) && |written| == sent + 1 && sent !in interrupts
      decreases count, more
    {
      if count > 0 {
        FillingOn(memory, start, total, sent, address, pos, reclen, data, checksum);
        var c := memory[(address + reclen) % LIMIT];
        checksum := checksum + c;
        data := data + HexByte(c);
        reclen := reclen + 1;
        count := count - 1;
      }
      if reclen == BYTES_PER_RECORD || count == 0 {
        if reclen > 0 {
          ghost var piece := FillingDone(memory, start, total, sent, address, pos, reclen, data, checksum);
          OneMoreSent(written, lines, Format(Record(address, piece)), interrupts);
          failed, written := SendRecord(written, address, reclen, data, checksum, interrupts, piece);
          if failed {
            return -1, written;
          }
          sent := sent + 1;
        } else {
          EmptyFilling(memory, start, total, sent, address, pos, data, checksum);
        }
        pos := pos + reclen;
        address := (address + reclen) % LIMIT;
        checksum, reclen, data := 0, 0, "";
      }
      more := count > 0;
    }
    FillingEnds(memory, start, total, sent, address);
    OneMoreSent(written, lines, END, interrupts);
    failed, written := WriteRecord(written, END, interrupts);
    AllSent(written, lines, interrupts);
    rc := if failed then -1 else 0;
  }

  lemma {:induction false} NothingSent(lines: seq<string>, interrupts: set<nat>)
    ensures Sent([], lines, interrupts)
  {
  }

  lemma {:induction false} AllSent(written: seq<string>, lines: seq<string>, interrupts: set<nat>)
    requires Sent(written, lines, interrupts) && |written| == |lines|
    ensures written == lines
  {
  }

  lemma {:induction false} EmptyFilling(memory: seq<byte>, start: nat, total: nat, sent: nat, address: nat, pos: nat,
                                        hex: string, sum: nat)
    requires |memory| == LIMIT && start < LIMIT && Filling(memory, start, total, sent, address, pos, 0, hex, sum)
    ensures address < LIMIT && address % LIMIT == address
    ensures Filling(memory, start, total, sent, address, pos, 0, "", 0)
  {
    hide Bytes, Records, Planned;
    NothingPending(Bytes(memory, start, total), pos);
  }
}