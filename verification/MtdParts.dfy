/** The text form of the partition tables in common/cmd_mtdparts.c: memsize_parse and memsize_format,
    part_parse, device_parse, parse_mtdparts and generate_mtdparts.

    A cursor into a C string is modelled by the text that is left; the end of it reads as NUL. */
module MtdParts {
  import opened Common
  import V = MtdValidate

  const SIZE_REMAINING: u32 := 0xFFFF_FFFF
  const OFFSET_NOT_SPECIFIED: u32 := 0xFFFF_FFFF
  const MIN_PART_SIZE := 4096
  const NUL: char := '\0'

  datatype Part = Part(size: u32, offset: u32, ro: bool, name: string, autoName: bool)

  datatype MtdId = MtdId(typ: nat, num: nat, size: u32, mtdId: string, flash: Option<V.Mtd>)

  datatype Device = Device(id: MtdId, parts: seq<Part>)

  function First(s: string): char {
    if s == "" then NUL else s[0]
  }

  /** strchr: the index of the first `c`, or the length. */
  function Find(s: string, c: char): (i: nat)
    ensures i <= |s| && c !in s[..i] && (i < |s| ==> s[i] == c)
  {
    if s == "" || s[0] == c then 0
    else
      var i := 1 + Find(s[1..], c);
      assert s[..i] == [s[0]] + s[1..][..i - 1];
      i
  }

  lemma {:induction false} FindIndex(s: string, c: char, i: nat)
    requires i < |s| && s[i] == c && c !in s[..i]
    ensures Find(s, c) == i
  {
  }

  lemma {:induction false} FindIs(a: string, c: char, b: string)
    requires c !in a
    ensures Find(a + [c] + b, c) == |a|
  {
    assert (a + [c] + b)[..|a|] == a;
    FindIndex(a + [c] + b, c, |a|);
  }

  // ----- numbers ------------------------------------------------------------------------------

  /** The value of a digit, 16 when the character is none. */
  function DigitValue(c: char): nat {
    if '0' <= c <= '9' then c as int - '0' as int
    else if 'a' <= c <= 'f' then c as int - 'a' as int + 10
    else if 'A' <= c <= 'F' then c as int - 'A' as int + 10
    else 16
  }

  /** The digit loop of simple_strtoul. */
  function Digits(s: string, base: nat, acc: u32): (r: (u32, string))
    ensures |r.1| <= |s| && (|r.1| == |s| ==> r == (acc, s))
  {
    if s == "" || DigitValue(s[0]) >= base then (acc, s)
    else Digits(s[1..], base, (acc * base + DigitValue(s[0])) % 0x1_0000_0000)
  }

  /** simple_strtoul with base 0 */
  function StrToUL(s: string): (r: (u32, string))
    ensures |r.1| <= |s| && (r.0 > 0 ==> |r.1| < |s|)
  {
    if First(s) == '0' then
      if |s| >= 3 && s[1] == 'x' && DigitValue(s[2]) < 16 then Digits(s[2..], 16, 0)
      else Digits(s[1..], 8, 0)
    else Digits(s, 10, 0)
  }

  /** memsize_parse */
  function MemsizeParse(s: string): (r: (u32, string))
    ensures |r.1| <= |s| && (r.0 > 0 ==> |r.1| < |s|)
  {
    var (v, t) := StrToUL(s);
    match First(t)
    case 'G' | 'g' => (v * 0x4000_0000 % 0x1_0000_0000, t[1..])
    case 'M' | 'm' => (v * 0x10_0000 % 0x1_0000_0000, t[1..])
    case 'K' | 'k' => (v * 0x400 % 0x1_0000_0000, t[1..])
    case _ => (v, t)
  }

  /** %u */
  function Decimal(n: nat): (s: string)
    ensures s != ""
  {
    (if n < 10 then "" else Decimal(n / 10)) + ["0123456789"[n % 10]]
  }

  /** memsize_format */
  function MemsizeFormat(size: u32): string {
    if size % 0x4000_0000 == 0 then Decimal(size / 0x4000_0000) + "g"
    else if size % 0x10_0000 == 0 then Decimal(size / 0x10_0000) + "m"
    else if size % 0x400 == 0 then Decimal(size / 0x400) + "k"
    else Decimal(size)
  }

  /** A number can end here: neither a digit nor a size suffix follows. */
  predicate Stops(s: string) {
    DigitValue(First(s)) >= 10 && First(s) !in {'G', 'g', 'M', 'm', 'K', 'k'}
  }

  lemma {:induction false} DigitChar(d: nat)
    requires d < 10
    ensures DigitValue("0123456789"[d]) == d
    ensures "0123456789"[d] == '0' <==> d == 0
  {
  }

  lemma {:induction false} DigitStep(d: char, t: string, base: nat, acc: u32)
    requires DigitValue(d) < base
    ensures Digits([d] + t, base, acc) == Digits(t, base, (acc * base + DigitValue(d)) % 0x1_0000_0000)
  {
    assert ([d] + t)[1..] == t;
  }

  lemma {:induction false} DecimalStep(n: nat)
    ensures Decimal(n) == (if n < 10 then "" else Decimal(n / 10)) + ["0123456789"[n % 10]]
    ensures n < 10 ==> Decimal(n) == ["0123456789"[n % 10]]
  {
  }

  lemma {:induction false} DigitsOfDecimal(n: u32, t: string)
    ensures Digits(Decimal(n) + t, 10, 0) == Digits(t, 10, n)
  {
    hide Digits, DigitValue;
    DecimalStep(n);
    hide Decimal;
    var d := "0123456789"[n % 10];
    DigitChar(n % 10);
    DigitStep(d, t, 10, n / 10);
    assert n / 10 * 10 + n % 10 == n;
    if n < 10 {
      assert Decimal(n) + t == [d] + t;
    } else {
      Associative(Decimal(n / 10), [d], t);
      DigitsOfDecimal(n / 10, [d] + t);
    }
  }

  lemma {:induction false} Associative(a: string, b: string, c: string)
    ensures a + b + c == a + (b + c)
  {
  }

  lemma {:induction false} DecimalFirst(n: nat)
    ensures Decimal(n)[0] == '0' <==> n == 0
  {
    DigitChar(n % 10);
    if n >= 10 {
      DecimalFirst(n / 10);
    }
  }

  /** memsize_parse undoes memsize_format for every 32-bit number. */
  lemma {:induction false} MemsizeRoundTrip(size: u32, t: string)
    requires Stops(t)
    ensures MemsizeParse(MemsizeFormat(size) + t) == (size, t)
  {
    hide Digits, StrToUL, Decimal, DigitValue;
    if size % 0x4000_0000 == 0 {
      SuffixRoundTrip(size / 0x4000_0000, 'g', t);
      assert Decimal(size / 0x4000_0000) + "g" + t == Decimal(size / 0x4000_0000) + (['g'] + t);
    } else if size % 0x10_0000 == 0 {
      SuffixRoundTrip(size / 0x10_0000, 'm', t);
      assert Decimal(size / 0x10_0000) + "m" + t == Decimal(size / 0x10_0000) + (['m'] + t);
    } else if size % 0x400 == 0 {
      SuffixRoundTrip(size / 0x400, 'k', t);
      assert Decimal(size / 0x400) + "k" + t == Decimal(size / 0x400) + (['k'] + t);
    } else {
      NumberRoundTrip(size, t);
    }
  }

  lemma {:induction false} SuffixRoundTrip(n: u32, suffix: char, t: string)
    requires suffix == 'g' || suffix == 'm' || suffix == 'k'
    ensures MemsizeParse(Decimal(n) + ([suffix] + t)) ==
      (n * (if suffix == 'g' then 0x4000_0000 else if suffix == 'm' then 0x10_0000 else 0x400) % 0x1_0000_0000, t)
  {
    NumberRoundTrip(n, [suffix] + t);
    hide Digits, StrToUL, Decimal;
    assert ([suffix] + t)[1..] == t;
  }

  lemma {:induction false} NumberRoundTrip(n: u32, t: string)
    requires DigitValue(First(t)) >= 10 && (n == 0 ==> First(t) != 'x')
    ensures StrToUL(Decimal(n) + t) == (n, t)
  {
    DecimalFirst(n);
    DigitsOfDecimal(n, t);
    var s := Decimal(n) + t;
    assert s[0] == Decimal(n)[0];
    if n == 0 {
      assert s == "0" + t && s[1..] == t;
    }
  }

  // ----- one partition ------------------------------------------------------------------------

  function Hex8(n: u32, digits: nat): string {
    if digits == 0 then "" else Hex8(n / 16, digits - 1) + ["0123456789abcdef"[n % 16]]
  }

  /** The name a partition gets when the text has none. */
  function GeneratedName(size: u32, offset: u32): string {
    "0x" + Hex8(size, 8) + "@0x" + Hex8(offset, 8)
  }

  /** The name in parentheses: whether one is given, the name, and the text behind it. */
  function NameParse(s: string): (r: Option<(bool, string, string)>)
    ensures r.Some? ==> |r.value.2| <= |s|
  {
    if First(s) != '(' then Some((false, "", s))
    else
      var i := Find(s[1..], ')');
      if i == |s| - 1 || i == 0 then None
      else Some((true, s[1..][..i], s[1..][i + 1..]))
  }

  /** The size and the offset behind it. */
  function RangeParse(s: string): (r: (u32, u32, string))
    ensures |r.2| <= |s| && (r.0 > 0 ==> |r.2| < |s|)
  {
    var (size, s1) := if First(s) == '-' then (SIZE_REMAINING, s[1..]) else MemsizeParse(s);
    var (offset, s2) := if First(s1) == '@' then MemsizeParse(s1[1..]) else (OFFSET_NOT_SPECIFIED, s1);
    (size, offset, s2)
  }

  function RangeText(size: u32, offset: u32, prevEnd: u32): string {
    MemsizeFormat(size) + (if offset != prevEnd then "@" + MemsizeFormat(offset) else "")
  }

  /** part_parse: the partition and the text at the next one, or at the end of the device. */
  function PartParse(s: string): (r: Option<(Part, string)>)
    ensures r.Some? ==> |r.value.1| < |s|
  {
    var (size, offset, s2) := RangeParse(s);
    if size < MIN_PART_SIZE then None
    else
      match NameParse(s2)
      case None => None
      case Some((given, name, s3)) =>
        var ro := |s3| >= 2 && s3[..2] == "ro";
        var s4 := if ro then s3[2..] else s3;
        var part := Part(size, offset, ro, if given then name else GeneratedName(size, offset), !given);
        if First(s4) == ',' then
          if size == SIZE_REMAINING then None else Some((part, s4[1..]))
        else if First(s4) == ';' || First(s4) == NUL then Some((part, s4))
        else None
  }

  /** The text of a partition; the offset is printed only when it is not where the previous ended. */
  function PartText(p: Part, prevEnd: u32): string {
    RangeText(p.size, p.offset, prevEnd) + (if p.autoName then "" else "(" + p.name + ")") + (if p.ro then "ro" else "")
  }

  /** A partition as validation leaves it, with a name the text can carry. */
  predicate Printable(p: Part) {
    && p.size >= 4096 && p.size != 0xFFFF_FFFF && p.offset != 0xFFFF_FFFF
    && p.name != "" && ')' !in p.name && NUL !in p.name && !p.autoName
  }

  predicate EndsPart(s: string) {
    First(s) == ',' || First(s) == ';' || First(s) == NUL
  }

  /** A printed number starts with a digit. */
  lemma {:induction false} FormatFirst(size: u32)
    ensures MemsizeFormat(size) != "" && '0' <= MemsizeFormat(size)[0] <= '9'
  {
    var n := if size % 0x4000_0000 == 0 then size / 0x4000_0000 else if size % 0x10_0000 == 0 then size / 0x10_0000
             else if size % 0x400 == 0 then size / 0x400 else size;
    DecimalDigit(n);
    assert MemsizeFormat(size)[0] == Decimal(n)[0];
  }

  lemma {:induction false} DecimalDigit(n: nat)
    ensures '0' <= Decimal(n)[0] <= '9'
  {
    if n >= 10 {
      DecimalDigit(n / 10);
    }
  }

  lemma {:induction false} NameRoundTrip(name: string, t: string)
    requires name != "" && ')' !in name
    ensures NameParse("(" + name + ")" + t) == Some((true, name, t))
  {
    var s := "(" + name + ")" + t;
    assert s[1..] == name + [')'] + t;
    FindIs(name, ')', t);
    assert s[1..][..|name|] == name && s[1..][|name| + 1..] == t;
  }

  lemma {:induction false} RangeRoundTrip(size: u32, offset: u32, prevEnd: u32, t: string)
    requires First(t) == '('
    ensures RangeParse(RangeText(size, offset, prevEnd) + t) ==
      (size, if offset != prevEnd then offset else OFFSET_NOT_SPECIFIED, t)
  {
    hide MemsizeParse, MemsizeFormat;
    FormatFirst(size);
    if offset != prevEnd {
      var t1 := "@" + MemsizeFormat(offset) + t;
      assert RangeText(size, offset, prevEnd) + t == MemsizeFormat(size) + t1;
      assert t1[1..] == MemsizeFormat(offset) + t;
      MemsizeRoundTrip(size, t1);
      MemsizeRoundTrip(offset, t);
    } else {
      assert RangeText(size, offset, prevEnd) + t == MemsizeFormat(size) + t;
      MemsizeRoundTrip(size, t);
    }
  }

  /** part_parse undoes what generate_mtdparts prints for one partition. */
  lemma {:induction false} PartRoundTrip(p: Part, prevEnd: u32, t: string)
    requires Printable(p) && EndsPart(t)
    ensures PartParse(PartText(p, prevEnd) + t) ==
      Some((if p.offset != prevEnd then p else p.(offset := OFFSET_NOT_SPECIFIED),
            if First(t) == ',' then t[1..] else t))
  {
    hide RangeText, RangeParse, NameParse, MemsizeParse, MemsizeFormat;
    var t3 := (if p.ro then "ro" else "") + t;
    var t2 := "(" + p.name + ")" + t3;
    assert PartText(p, prevEnd) + t == RangeText(p.size, p.offset, prevEnd) + t2;
    RangeRoundTrip(p.size, p.offset, prevEnd, t2);
    NameRoundTrip(p.name, t3);
    if p.ro {
      assert t3[..2] == "ro" && t3[2..] == t;
    } else {
      assert t3 == t;
      assert |t| >= 2 ==> t[..2][0] == First(t);
    }
  }

  // ----- parsing a table ----------------------------------------------------------------------

  function FindId(ids: seq<MtdId>, name: string): Option<MtdId> {
    if ids == [] then None
    else if ids[0].mtdId == name then Some(ids[0])
    else FindId(ids[1..], name)
  }

  /** device_find */
  function FindDevice(devices: seq<Device>, typ: nat, num: nat): (k: nat)
    ensures k <= |devices|
    ensures k < |devices| ==> devices[k].id.typ == typ && devices[k].id.num == num
    ensures forall i | 0 <= i < k :: !(devices[i].id.typ == typ && devices[i].id.num == num)
  {
    if devices == [] || (devices[0].id.typ == typ && devices[0].id.num == num) then 0
    else 1 + FindDevice(devices[1..], typ, num)
  }

  function End(p: Part): u32 {
    (p.offset + p.size) % 0x1_0000_0000
  }

  /** Where the first partition without an offset goes. */
  function StartFor(devices: seq<Device>, id: MtdId): u32 {
    var k := FindDevice(devices, id.typ, id.num);
    if k < |devices| && devices[k].parts != [] then End(devices[k].parts[|devices[k].parts| - 1]) else 0
  }

  ghost predicate Accepted(id: MtdId, p: Part) {
    V.Accepts(id.flash, id.size, p.offset, p.size)
  }

  /** The partition with the offset and the size it gets. */
  function Placed(p: Part, offset: u32, id: MtdId): Part {
    var o := if p.offset == OFFSET_NOT_SPECIFIED then offset else p.offset;
    p.(offset := o, size := V.FinalSize(id.size, o, p.size))
  }

  predicate AtEnd(s: string) {
    s == "" || s[0] == ';'
  }

  /** The loop of device_parse: the partitions up to the end of the device, and the text there. */
  ghost function ParseParts(s: string, offset: u32, id: MtdId): (r: Option<(seq<Part>, string)>)
    ensures r.Some? ==> |r.value.1| <= |s|
    decreases |s|
  {
    if AtEnd(s) then Some(([], s))
    else
      match PartParse(s)
      case None => None
      case Some((p, t)) =>
        var q := Placed(p, offset, id);
        if !V.Accepts(id.flash, id.size, q.offset, p.size) then None
        else
          match ParseParts(t, End(q), id)
          case None => None
          case Some((ps, u)) => Some(([q] + ps, u))
  }

  /** part_sort_add, as far as it changes the list of one device. */
  function SortAdd(list: seq<Part>, p: Part): Option<seq<Part>> {
    if list == [] then Some([p])
    else if p.offset == list[0].offset == 0 then None
    else if p.offset <= list[0].offset then Some([p] + list)
    else
      match SortAdd(list[1..], p)
      case None => None
      case Some(r) => Some([list[0]] + r)
  }

  function SortAll(list: seq<Part>, ps: seq<Part>): Option<seq<Part>>
    decreases |ps|
  {
    if ps == [] then Some(list)
    else
      match SortAdd(list, ps[0])
      case None => None
      case Some(r) => SortAll(r, ps[1..])
  }

  /** device_parse: the device and the text at the next one. */
  ghost function ParseDevice(s: string, ids: seq<MtdId>, devices: seq<Device>): (r: Option<(Device, string)>)
    ensures r.Some? ==> |r.value.1| < |s|
  {
    var i := Find(s, ':');
    if i == |s| then None
    else
      match FindId(ids, s[..i])
      case None => None
      case Some(id) =>
        match ParseParts(s[i + 1..], StartFor(devices, id), id)
        case None => None
        case Some((ps, t)) =>
          if ps == [] then None
          else
            match SortAll([], ps)
            case None => None
            case Some(parts) => Some((Device(id, parts), if First(t) == ';' then t[1..] else t))
  }

  ghost function ParseDevices(s: string, ids: seq<MtdId>, devices: seq<Device>): Option<seq<Device>>
    decreases |s|
  {
    if s == "" then Some(devices)
    else
      match ParseDevice(s, ids, devices)
      case None => None
      case Some((d, t)) =>
        if FindDevice(devices, d.id.typ, d.id.num) < |devices| then None
        else ParseDevices(t, ids, devices + [d])
  }

  /** parse_mtdparts; a table without a device is refused. */
  ghost function ParseTable(s: string, ids: seq<MtdId>): Option<seq<Device>> {
    if |s| < 10 || s[..9] != "mtdparts=" then None else ParseDevices(s[9..], ids, [])
  }

  // ----- printing a table ---------------------------------------------------------------------

  function PartsText(parts: seq<Part>, prevEnd: u32): string {
    if parts == [] then ""
    else PartText(parts[0], prevEnd) + (if |parts| > 1 then "," else "") + PartsText(parts[1..], End(parts[0]))
  }

  function DeviceText(d: Device): string {
    d.id.mtdId + ":" + PartsText(d.parts, 0)
  }

  function DevicesText(ds: seq<Device>): string {
    if ds == [] then ""
    else DeviceText(ds[0]) + (if |ds| > 1 then ";" else "") + DevicesText(ds[1..])
  }

  /** What generate_mtdparts writes. */
  function TableText(ds: seq<Device>): string {
    if ds == [] then "" else "mtdparts=" + DevicesText(ds)
  }

  /** The text of a partition with its separator, put behind `buf` piece by piece. */
  lemma {:induction false} PartPieces(p: Part, prevEnd: u32, last: bool, buf: string)
    ensures
      var name := if p.autoName then "" else "(" + p.name + ")";
      var ro, sep, range := if p.ro then "ro" else "", if last then "" else ",", RangeText(p.size, p.offset, prevEnd);
      var text := PartText(p, prevEnd) + sep;
      |text| == |range| + |name| + |ro| + |sep| && buf + text == buf + range + name + ro + sep
      && (forall b: string :: b + "" == b)
  {
    hide RangeText;
    var range := RangeText(p.size, p.offset, prevEnd);
    var name, ro := if p.autoName then "" else "(" + p.name + ")", if p.ro then "ro" else "";
    assert PartText(p, prevEnd) == range + name + ro;
  }

  // ----- the round trip -----------------------------------------------------------------------

  predicate Ascending(parts: seq<Part>) {
    forall i, j | 0 <= i < j < |parts| :: parts[i].offset < parts[j].offset
  }

  ghost predicate PartsOk(id: MtdId, parts: seq<Part>) {
    forall i | 0 <= i < |parts| :: Printable(parts[i]) && Accepted(id, parts[i])
  }

  ghost predicate DeviceOk(d: Device, ids: seq<MtdId>) {
    && d.parts != [] && Ascending(d.parts) && PartsOk(d.id, d.parts)
    && FindId(ids, d.id.mtdId) == Some(d.id) && ':' !in d.id.mtdId
  }

  predicate DistinctDevices(ds: seq<Device>) {
    forall i, j | 0 <= i < j < |ds| :: !(ds[i].id.typ == ds[j].id.typ && ds[i].id.num == ds[j].id.num)
  }

  /** A printed partition starts with a digit. */
  lemma {:induction false} PartTextFirst(p: Part, prevEnd: u32, t: string)
    ensures !AtEnd(PartText(p, prevEnd) + t)
  {
    FormatFirst(p.size);
    assert (PartText(p, prevEnd) + t)[0] == MemsizeFormat(p.size)[0];
  }

  lemma {:induction false} PartsRoundTrip(parts: seq<Part>, prevEnd: u32, id: MtdId, t: string)
    requires PartsOk(id, parts) && AtEnd(t)
    ensures ParseParts(PartsText(parts, prevEnd) + t, prevEnd, id) == Some((parts, t))
    decreases |parts|
  {
    hide PartsText, PartText, PartParse, ParseParts, PartsOk, Printable, Accepted, EndsPart, AtEnd;
    if parts == [] {
      NoParts(prevEnd, id, t);
    } else {
      var p := parts[0];
      var u := PartsTextSplit(parts, prevEnd, t);
      PartsOkSplit(id, parts);
      PartTextFirst(p, prevEnd, u);
      PartRoundTrip(p, prevEnd, u);
      PartsRoundTrip(parts[1..], End(p), id, t);
      assert [p] + parts[1..] == parts;
      NextParts(parts, prevEnd, id, t, u);
    }
  }

  lemma {:induction false} NoParts(prevEnd: u32, id: MtdId, t: string)
    requires AtEnd(t)
    ensures ParseParts(PartsText([], prevEnd) + t, prevEnd, id) == Some(([], t))
  {
    hide PartParse;
    assert PartsText([], prevEnd) + t == t;
  }

  lemma {:induction false} PartsOkSplit(id: MtdId, parts: seq<Part>)
    requires PartsOk(id, parts) && parts != []
    ensures Printable(parts[0]) && Accepted(id, parts[0]) && PartsOk(id, parts[1..])
  {
  }

  /** The text of several partitions is the text of the first and what follows it. */
  lemma {:induction false} PartsTextSplit(parts: seq<Part>, prevEnd: u32, t: string) returns (u: string)
    requires parts != [] && AtEnd(t)
    ensures PartsText(parts, prevEnd) + t == PartText(parts[0], prevEnd) + u
    ensures EndsPart(u)
    ensures (if First(u) == ',' then u[1..] else u) == PartsText(parts[1..], End(parts[0])) + t
  {
    hide PartText;
    var p, rest := PartText(parts[0], prevEnd), PartsText(parts[1..], End(parts[0]));
    if |parts| == 1 {
      u := t;
      assert rest == "" && PartsText(parts, prevEnd) == p + "" + "";
      assert p + "" + "" + t == p + t && rest + t == t;
    } else {
      u := "," + (rest + t);
      Associative(p, ",", rest);
      Associative(p, "," + rest, t);
      Associative(",", rest, t);
      assert u[1..] == rest + t;
    }
  }

  /** One turn of the loop of device_parse. */
  lemma {:induction false} NextParts(parts: seq<Part>, prevEnd: u32, id: MtdId, t: string, u: string)
    requires parts != [] && Printable(parts[0]) && Accepted(id, parts[0])
    requires var s, p := PartsText(parts, prevEnd) + t, parts[0];
      && !AtEnd(s)
      && PartParse(s) == Some((if p.offset != prevEnd then p else p.(offset := OFFSET_NOT_SPECIFIED),
                               if First(u) == ',' then u[1..] else u))
      && (if First(u) == ',' then u[1..] else u) == PartsText(parts[1..], End(p)) + t
      && ParseParts(PartsText(parts[1..], End(p)) + t, End(p), id) == Some((parts[1..], t))
    ensures ParseParts(PartsText(parts, prevEnd) + t, prevEnd, id) == Some(([parts[0]] + parts[1..], t))
  {
    hide PartsText, PartText, PartParse, V.Accepts;
    var p := parts[0];
    assert Placed(if p.offset != prevEnd then p else p.(offset := OFFSET_NOT_SPECIFIED), prevEnd, id) == p;
  }

  lemma {:induction false} SortAddLast(list: seq<Part>, p: Part)
    requires forall i | 0 <= i < |list| :: list[i].offset < p.offset
    ensures SortAdd(list, p) == Some(list + [p])
  {
    if list != [] {
      SortAddLast(list[1..], p);
      assert list + [p] == [list[0]] + (list[1..] + [p]);
    } else {
      assert list + [p] == [p];
    }
  }

  lemma {:induction false} SortAllAscending(list: seq<Part>, ps: seq<Part>)
    requires Ascending(list + ps)
    ensures SortAll(list, ps) == Some(list + ps)
    decreases |ps|
  {
    if ps == [] {
      assert list + ps == list;
    } else {
      forall i | 0 <= i < |list| ensures list[i].offset < ps[0].offset {
        assert (list + ps)[i] == list[i] && (list + ps)[|list|] == ps[0];
      }
      SortAddLast(list, ps[0]);
      assert list + [ps[0]] + ps[1..] == list + ps;
      SortAllAscending(list + [ps[0]], ps[1..]);
    }
  }

  lemma {:induction false} DeviceRoundTrip(d: Device, ids: seq<MtdId>, devices: seq<Device>, t: string)
    requires DeviceOk(d, ids) && AtEnd(t) && FindDevice(devices, d.id.typ, d.id.num) == |devices|
    ensures ParseDevice(DeviceText(d) + t, ids, devices) == Some((d, if t == "" then t else t[1..]))
  {
    hide PartsText, ParseParts, Find, DeviceText, SortAll;
    var name, body := d.id.mtdId, PartsText(d.parts, 0) + t;
    var s := DeviceText(d) + t;
    DeviceTextIs(d, t);
    FindIs(name, ':', body);
    assert s[..|name|] == name && s[|name| + 1..] == body;
    PartsRoundTrip(d.parts, 0, d.id, t);
    assert [] + d.parts == d.parts;
    SortAllAscending([], d.parts);
  }

  lemma {:induction false} DeviceTextIs(d: Device, t: string)
    ensures DeviceText(d) + t == d.id.mtdId + [':'] + (PartsText(d.parts, 0) + t)
  {
  }

  lemma {:induction false} DevicesRoundTrip(ds: seq<Device>, ids: seq<MtdId>, before: seq<Device>)
    requires (forall i | 0 <= i < |ds| :: DeviceOk(ds[i], ids)) && DistinctDevices(before + ds)
    ensures ParseDevices(DevicesText(ds), ids, before) == Some(before + ds)
    decreases |ds|
  {
    hide DeviceText, DeviceOk, ParseDevice, DistinctDevices, FindDevice;
    if ds == [] {
      assert before + ds == before;
    } else {
      FirstDevice(ds, ids, before);
      hide DevicesText, ParseDevices;
      assert before + [ds[0]] + ds[1..] == before + ds;
      DevicesRoundTrip(ds[1..], ids, before + [ds[0]]);
    }
  }

  lemma {:induction false} FirstDevice(ds: seq<Device>, ids: seq<MtdId>, before: seq<Device>)
    requires ds != [] && DeviceOk(ds[0], ids) && DistinctDevices(before + ds)
    ensures ParseDevices(DevicesText(ds), ids, before) == ParseDevices(DevicesText(ds[1..]), ids, before + [ds[0]])
  {
    hide DeviceText, DeviceOk, ParseDevice, DistinctDevices, FindDevice, DevicesText;
    var t := DevicesTextSplit(ds);
    NotYetThere(ds, before);
    DeviceRoundTrip(ds[0], ids, before, t);
  }

  lemma {:induction false} DevicesTextSplit(ds: seq<Device>) returns (t: string)
    requires ds != []
    ensures DevicesText(ds) == DeviceText(ds[0]) + t && AtEnd(t) && DevicesText(ds) != ""
    ensures (if t == "" then t else t[1..]) == DevicesText(ds[1..])
  {
    hide DeviceText, PartsText;
    DeviceTextIs(ds[0], "");
    var d, rest := DeviceText(ds[0]), DevicesText(ds[1..]);
    assert d + "" == d;
    if |ds| == 1 {
      t := "";
      assert d + "" + "" == d;
    } else {
      t := ";" + rest;
      Associative(d, ";", rest);
      assert t[1..] == rest;
    }
  }

  lemma {:induction false} NotYetThere(ds: seq<Device>, before: seq<Device>)
    requires DistinctDevices(before + ds) && ds != []
    ensures FindDevice(before, ds[0].id.typ, ds[0].id.num) == |before|
  {
    assert forall i | 0 <= i < |before| :: (before + ds)[i] == before[i];
    assert (before + ds)[|before|] == ds[0];
  }

  /** Parsing what generate_mtdparts prints rebuilds the table. */
  lemma {:induction false} TableRoundTrip(ds: seq<Device>, ids: seq<MtdId>)
    requires ds != [] && DistinctDevices(ds) && forall i | 0 <= i < |ds| :: DeviceOk(ds[i], ids)
    ensures ParseTable(TableText(ds), ids) == Some(ds)
  {
    var s := TableText(ds);
    assert s[..9] == "mtdparts=" && s[9..] == DevicesText(ds);
    assert [] + ds == ds;
    DevicesRoundTrip(ds, ids, []);
  }

  // ----- every table that parses is in order --------------------------------------------------

  /** Sorted by offset, at most one partition at offset 0. */
  ghost predicate Sorted(parts: seq<Part>) {
    forall i, j | 0 <= i < j < |parts| :: parts[i].offset <= parts[j].offset && 0 < parts[j].offset
  }

  /** Sorted, and each partition validated at its place. */
  ghost predicate InOrder(parts: seq<Part>, id: MtdId) {
    Sorted(parts) && forall p | p in parts :: Checked(id, p)
  }

  /** The partition passed part_validate: it lies inside the device and cuts no erase block. */
  ghost predicate Checked(id: MtdId, p: Part) {
    && V.InRange(id.size, p.offset, p.size)
    && id.flash.Some? && V.Aligned(id.flash.value, p.offset, p.size)
  }

  lemma {:induction false} AcceptedIsChecked(p: Part, offset: u32, id: MtdId)
    requires V.Accepts(id.flash, id.size, Placed(p, offset, id).offset, p.size)
    ensures Checked(id, Placed(p, offset, id))
  {
    hide V.Aligned;
  }

  lemma {:induction false} ParsedPartsAreChecked(s: string, offset: u32, id: MtdId)
    requires ParseParts(s, offset, id).Some?
    ensures forall p | p in ParseParts(s, offset, id).value.0 :: Checked(id, p)
    decreases |s|
  {
    hide PartParse, V.Accepts, Placed, Checked;
    if !AtEnd(s) {
      var (p, t) := PartParse(s).value;
      AcceptedIsChecked(p, offset, id);
      ParsedPartsAreChecked(t, End(Placed(p, offset, id)), id);
    }
  }

  /** part_sort_add loses nothing and adds nothing else. */
  lemma {:induction false} SortAddMembers(list: seq<Part>, p: Part)
    requires SortAdd(list, p).Some?
    ensures multiset(SortAdd(list, p).value) == multiset(list) + multiset{p}
    decreases |list|
  {
    if list != [] {
      assert list == [list[0]] + list[1..];
      if p.offset > list[0].offset {
        SortAddMembers(list[1..], p);
      }
    }
  }

  lemma {:induction false} SortAddSorted(list: seq<Part>, p: Part)
    requires Sorted(list) && SortAdd(list, p).Some?
    ensures Sorted(SortAdd(list, p).value)
    decreases |list|
  {
    if list != [] && p.offset > list[0].offset {
      SortAddSorted(list[1..], p);
      SortAddMembers(list[1..], p);
      var r := SortAdd(list[1..], p).value;
      assert SortAdd(list, p).value == [list[0]] + r;
      hide SortAdd;
      NotBelowFirst(list, p, r);
    }
  }

  lemma {:induction false} NotBelowFirst(list: seq<Part>, p: Part, r: seq<Part>)
    requires list != [] && Sorted(list) && p.offset > list[0].offset
    requires Sorted(r) && multiset(r) == multiset(list[1..]) + multiset{p}
    ensures Sorted([list[0]] + r)
  {
    forall i | 0 <= i < |r|
      ensures list[0].offset <= r[i].offset && 0 < r[i].offset
    {
      assert r[i] in multiset(r);
      assert r[i] == p || r[i] in list[1..];
    }
  }

  lemma {:induction false} SortAllInOrder(list: seq<Part>, ps: seq<Part>)
    requires Sorted(list) && SortAll(list, ps).Some?
    ensures Sorted(SortAll(list, ps).value)
    ensures multiset(SortAll(list, ps).value) == multiset(list) + multiset(ps)
    decreases |ps|
  {
    hide Sorted, SortAdd;
    if ps != [] {
      assert ps == [ps[0]] + ps[1..];
      SortAddSorted(list, ps[0]);
      SortAddMembers(list, ps[0]);
      SortAllInOrder(SortAdd(list, ps[0]).value, ps[1..]);
    }
  }

  /** Whatever text is parsed: if it is accepted, every device has its partitions in order. */
  lemma {:induction false} ParsedTableIsInOrder(s: string, ids: seq<MtdId>, before: seq<Device>)
    requires ParseDevices(s, ids, before).Some? && forall i | 0 <= i < |before| :: InOrder(before[i].parts, before[i].id)
    ensures forall i | 0 <= i < |ParseDevices(s, ids, before).value| ::
      InOrder(ParseDevices(s, ids, before).value[i].parts, ParseDevices(s, ids, before).value[i].id)
    decreases |s|
  {
    hide InOrder, ParseDevice;
    if s != "" {
      var (d, t) := ParseDevice(s, ids, before).value;
      ParsedDeviceIsInOrder(s, ids, before);
      ParsedTableIsInOrder(t, ids, before + [d]);
    }
  }

  lemma {:induction false} ParsedDeviceIsInOrder(s: string, ids: seq<MtdId>, before: seq<Device>)
    requires ParseDevice(s, ids, before).Some?
    ensures var d := ParseDevice(s, ids, before).value.0; InOrder(d.parts, d.id)
  {
    hide Find, FindId, ParseParts, SortAll, Checked, StartFor;
    var i := Find(s, ':');
    var id := FindId(ids, s[..i]).value;
    ParsedPartsAreChecked(s[i + 1..], StartFor(before, id), id);
    var ps := ParseParts(s[i + 1..], StartFor(before, id), id).value.0;
    SortAllInOrder([], ps);
    var parts := SortAll([], ps).value;
    forall p | p in parts
      ensures Checked(id, p)
    {
      assert p in multiset(parts);
      assert p in multiset(ps);
    }
  }

  // ----- the code -----------------------------------------------------------------------------

  class Partitions {
    const ids: seq<MtdId>        // mtdids
    var devices: seq<Device>

    /** The flash driver reports positive block sizes. */
    ghost predicate Valid() {
      forall i | 0 <= i < |ids| ::
        ids[i].flash.Some? && ids[i].flash.value.regions == [] ==> ids[i].flash.value.erasesize > 0
    }

    constructor (list: seq<MtdId>)
      ensures ids == list && devices == []
    {
      ids, devices := list, [];
    }

    /** id_find_by_mtd_id */
    method IdFindByMtdId(name: string) returns (r: Option<MtdId>)
      ensures r == FindId(ids, name)
      ensures r.None? <==> forall k | 0 <= k < |ids| :: ids[k].mtdId != name
      ensures r.Some? ==> exists k ::
        0 <= k < |ids| && ids[k] == r.value && ids[k].mtdId == name && forall j | 0 <= j < k :: ids[j].mtdId != name
      ensures r.Some? ==> r.value in ids
    {
      var i := 0;
      assert ids[0..] == ids;
      while i < |ids|
        invariant i <= |ids| && FindId(ids[i..], name) == FindId(ids, name)
        invariant forall j | 0 <= j < i :: ids[j].mtdId != name
      {
        assert ids[i..][0] == ids[i] && ids[i..][1..] == ids[i + 1..];
        if ids[i].mtdId == name {
          return Some(ids[i]);
        }
        i := i + 1;
      }
      return None;
    }

    lemma {:induction false} ParsePartsEnd(s: string, offset: u32, id: MtdId)
      requires AtEnd(s)
      ensures ParseParts(s, offset, id) == Some(([], s))
    {
    }

    lemma {:induction false} ParsePartsStep(s: string, offset: u32, id: MtdId)
      requires !AtEnd(s)
      ensures PartParse(s).None? ==> ParseParts(s, offset, id).None?
      ensures PartParse(s).Some? ==>
        var (p, t) := PartParse(s).value;
        var q := Placed(p, offset, id);
        var rest := ParseParts(t, End(q), id);
        ParseParts(s, offset, id) ==
          if !V.Accepts(id.flash, id.size, q.offset, p.size) || rest.None? then None
          else Some(([q] + rest.value.0, rest.value.1))
    {
      hide PartParse, V.Accepts;
    }

    /** The loop of device_parse over the partitions of one device. */
    method PartsParse(s: string, start: u32, id: MtdId) returns (r: Option<(seq<Part>, string)>)
      requires id.flash.Some? && id.flash.value.regions == [] ==> id.flash.value.erasesize > 0
      ensures r == ParseParts(s, start, id)
    {
      hide ParseParts, PartParse, V.Accepts, V.FinalSize;
      var p, list: seq<Part>, offset: u32 := s, [], start;
      if ParseParts(s, start, id).Some? {
        assert [] + ParseParts(s, start, id).value.0 == ParseParts(s, start, id).value.0;
      }
      while !AtEnd(p)
        invariant var rest := ParseParts(p, offset, id);
          ParseParts(s, start, id) == if rest.None? then None else Some((list + rest.value.0, rest.value.1))
        decreases |p|
      {
        ParsePartsStep(p, offset, id);
        var o := PartParse(p);
        if o.None? {
          return None;
        }
        var (part, t) := o.value;
        if part.offset == OFFSET_NOT_SPECIFIED {
          part := part.(offset := offset);
        } else {
          offset := part.offset;
        }
        var rc, size := V.PartValidate(id.flash, id.size, part.offset, part.size);
        if rc != 0 {
          return None;
        }
        part := part.(size := size);
        ghost var was, rest := list, ParseParts(t, End(part), id);
        if rest.Some? {
          assert was + ([part] + rest.value.0) == was + [part] + rest.value.0;
        }
        offset, list, p := (offset + part.size) % 0x1_0000_0000, list + [part], t;
      }
      ParsePartsEnd(p, offset, id);
      assert list + [] == list;
      return Some((list, p));
    }

    /** device_parse */
    method DeviceParse(s: string) returns (r: Option<(Device, string)>)
      requires Valid()
      ensures r == ParseDevice(s, ids, devices)
    {
      hide Find, FindId, ParseParts, SortAdd, StartFor;
      var i := Find(s, ':');
      if i == |s| {
        return None;
      }
      var id := IdFindByMtdId(s[..i]);
      if id.None? {
        return None;
      }
      var list := PartsParse(s[i + 1..], StartFor(devices, id.value), id.value);
      if list.None? {
        return None;
      }
      var (tmp, p) := list.value;
      if |tmp| == 0 {
        return None;
      }
      var parts: seq<Part>, k := [], 0;
      while k < |tmp|
        invariant k <= |tmp| && SortAll(parts, tmp[k..]) == SortAll([], tmp)
      {
        assert tmp[k..][1..] == tmp[k + 1..];
        var o := SortAdd(parts, tmp[k]);
        if o.None? {
          return None;
        }
        parts, k := o.value, k + 1;
      }
      return Some((Device(id.value, parts), if First(p) == ';' then p[1..] else p));
    }

    /** parse_mtdparts */
    method ParseMtdparts(text: string) returns (rc: int)
      requires Valid()
      modifies this
      ensures ParseTable(text, ids) == if rc == 0 then Some(devices) else None
      ensures rc != 0 ==> devices == []
    {
      devices := [];
      if |text| < 9 || text[..9] != "mtdparts=" {
        return 1;
      }
      var p, err := text[9..], 1;
      hide ParseDevice, FindDevice;
      while p != ""
        invariant ParseDevices(text[9..], ids, []) == ParseDevices(p, ids, devices)
        invariant err == if p == text[9..] then 1 else 0
        invariant |p| <= |text| - 9
        decreases |p|
      {
        var o := DeviceParse(p);
        if o.None? {
          devices := [];
          return 1;
        }
        var (dev, t) := o.value;
        if FindDevice(devices, dev.id.typ, dev.id.num) < |devices| {
          devices := [];
          return 1;
        }
        devices, p, err := devices + [dev], t, 0;
      }
      if err == 1 {
        devices := [];
      }
      return err;
    }

    /** Appends a piece of text if it fits into what is left of the buffer. */
    static method Put(buf: string, maxlen: int, piece: string) returns (ok: bool, buf': string, maxlen': int)
      ensures ok == (|piece| <= maxlen)
      ensures ok ==> buf' == buf + piece && maxlen' == maxlen - |piece|
    {
      if |piece| > maxlen {
        return false, buf, maxlen;
      }
      return true, buf + piece, maxlen - |piece|;
    }

    /** The pieces of one partition. */
    static method GeneratePart(part: Part, prevEnd: u32, last: bool, buf0: string, maxlen0: int)
      returns (ok: bool, buf: string, maxlen: int)
      ensures var text := PartText(part, prevEnd) + (if last then "" else ",");
        && ok == (|text| <= maxlen0)
        && (ok ==> buf == buf0 + text && maxlen == maxlen0 - |text|)
    {
      hide RangeText, PartText;
      PartPieces(part, prevEnd, last, buf0);
      ok, buf, maxlen := GenerateRange(part, prevEnd, buf0, maxlen0);
      if !ok { return; }
      if !part.autoName {
        ok, buf, maxlen := Put(buf, maxlen, "(" + part.name + ")");
        if !ok { return; }
      }
      if part.ro {
        ok, buf, maxlen := Put(buf, maxlen, "ro");
        if !ok { return; }
      }
      if !last {
        ok, buf, maxlen := Put(buf, maxlen, ",");
        if !ok { return; }
      }
    }

    /** The size, and the offset where it is needed. */
    static method GenerateRange(part: Part, prevEnd: u32, buf0: string, maxlen0: int)
      returns (ok: bool, buf: string, maxlen: int)
      ensures var text := RangeText(part.size, part.offset, prevEnd);
        && ok == (|text| <= maxlen0)
        && (ok ==> buf == buf0 + text && maxlen == maxlen0 - |text|)
    {
      hide MemsizeFormat;
      ok, buf, maxlen := Put(buf0, maxlen0, MemsizeFormat(part.size));
      if !ok { return; }
      if prevEnd != part.offset {
        ok, buf, maxlen := Put(buf, maxlen, "@" + MemsizeFormat(part.offset));
        if !ok { return; }
      }
      assert buf == buf0 + RangeText(part.size, part.offset, prevEnd);
    }

    /** The inner loop: the partitions of one device. */
    method GenerateParts(parts: seq<Part>, buf0: string, maxlen0: nat) returns (ok: bool, buf: string, maxlen: int)
      ensures ok == (|PartsText(parts, 0)| <= maxlen0)
      ensures ok ==> buf == buf0 + PartsText(parts, 0) && maxlen == maxlen0 - |PartsText(parts, 0)|
    {
      hide PartText;
      ok, buf, maxlen := true, buf0, maxlen0;
      var k: nat, prevEnd: u32 := 0, 0;
      assert parts[0..] == parts;
      while k < |parts|
        invariant k <= |parts| && maxlen >= 0 && |buf| + maxlen == |buf0| + maxlen0
        invariant buf0 + PartsText(parts, 0) == buf + PartsText(parts[k..], prevEnd)
      {
        assert parts[k..][0] == parts[k] && parts[k..][1..] == parts[k + 1..];
        ghost var piece := PartText(parts[k], prevEnd) + (if k + 1 == |parts| then "" else ",");
        ghost var next := PartsText(parts[k + 1..], End(parts[k]));
        assert PartsText(parts[k..], prevEnd) == piece + next;
        assert buf + (piece + next) == buf + piece + next;
        ok, buf, maxlen := GeneratePart(parts[k], prevEnd, k + 1 == |parts|, buf, maxlen);
        if !ok { return; }
        prevEnd, k := End(parts[k]), k + 1;
      }
      assert buf + "" == buf;
    }

    /** generate_mtdparts: it succeeds exactly when the text without its first nine characters, which
        the code does not count, is shorter than the buffer. */
    method GenerateMtdparts(buflen: nat) returns (rc: int, buf: string)
      requires buflen > 0
      ensures rc == 0 ==> buf == TableText(devices)
      ensures rc == 0 <==> devices == [] || |TableText(devices)| - 9 < buflen
    {
      hide PartsText;
      if |devices| == 0 {
        return 0, "";
      }
      buf := "mtdparts=";
      var maxlen, i, ok := buflen - 1, 0, true;
      assert devices[0..] == devices;
      while i < |devices|
        invariant i <= |devices| && maxlen >= 0 && |buf| - 9 + maxlen == buflen - 1
        invariant TableText(devices) == buf + DevicesText(devices[i..])
      {
        var d := devices[i];
        assert devices[i..][0] == d && devices[i..][1..] == devices[i + 1..];
        ghost var sep, rest := if i + 1 < |devices| then ";" else "", DevicesText(devices[i + 1..]);
        assert TableText(devices) == buf + (d.id.mtdId + ":") + PartsText(d.parts, 0) + sep + rest;
        ok, buf, maxlen := Put(buf, maxlen, d.id.mtdId + ":");
        if !ok { return 1, buf; }
        ok, buf, maxlen := GenerateParts(d.parts, buf, maxlen);
        if !ok { return 1, buf; }
        if i + 1 < |devices| {
          ok, buf, maxlen := Put(buf, maxlen, ";");
          if !ok { return 1, buf; }
        }
        i := i + 1;
      }
      assert buf + "" == buf;
      return 0, buf;
    }
  }

  /** A text of 16 characters is accepted for buffers of 8 to 16 characters, without room for its NUL. */
  method TextWithoutRoom(buflen: nat) returns (rc: int, text: string)
    requires 8 <= buflen <= 16
    ensures rc == 0 && text == "mtdparts=a:4k(b)" && |text| == 16
  {
    hide TableText;
    var p := new Partitions([]);
    p.devices := [Device(MtdId(0, 0, 0x1000, "a", None), [Part(0x1000, 0, false, "b", false)])];
    ExampleText(p.devices[0]);
    rc, text := p.GenerateMtdparts(buflen);
  }

  lemma {:induction false} ExamplePart(p: Part)
    requires p == Part(0x1000, 0, false, "b", false)
    ensures PartText(p, 0) == "4k(b)"
  {
    hide MemsizeFormat;
    FourK();
    assert RangeText(p.size, p.offset, 0) == "4k";
  }

  lemma {:induction false} FourK()
    ensures MemsizeFormat(0x1000) == "4k"
  {
    hide Decimal;
    DecimalStep(4);
    assert 0x1000 % 0x4000_0000 == 0x1000 && 0x1000 % 0x10_0000 == 0x1000 && 0x1000 == 4 * 0x400;
  }

  lemma {:induction false} ExampleText(d: Device)
    requires d == Device(MtdId(0, 0, 0x1000, "a", None), [Part(0x1000, 0, false, "b", false)])
    ensures TableText([d]) == "mtdparts=a:4k(b)"
  {
    hide PartText, PartsText, DevicesText;
    ExamplePart(d.parts[0]);
    OneText(d);
    assert DeviceText(d) == "a:4k(b)";
  }

  lemma {:induction false} OneText(d: Device)
    requires |d.parts| == 1
    ensures PartsText(d.parts, 0) == PartText(d.parts[0], 0) && DevicesText([d]) == DeviceText(d)
  {
    hide PartText;
    assert PartText(d.parts[0], 0) + "" + PartsText([], End(d.parts[0])) == PartText(d.parts[0], 0);
    assert DeviceText(d) + "" + DevicesText([]) == DeviceText(d);
  }
}
