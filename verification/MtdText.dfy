/** Partition tables as users write them (common/cmd_mtdparts.c): numbers in any base and with any
    suffix, the fill-up partition `-`, left-out offsets and names, and what is refused. */
module MtdText {
  import opened Common
  import opened MtdParts
  import V = MtdValidate

  // ----- numbers ------------------------------------------------------------------------------

  /** The digits, in either case; everything else is none. */
  lemma {:induction false} DigitTable(c: char)
    ensures forall d | 0 <= d < 16 :: DigitValue("0123456789abcdef"[d]) == d == DigitValue("0123456789ABCDEF"[d])
    ensures c !in "0123456789abcdefABCDEF" ==> DigitValue(c) == 16
  {
  }

  /** Digits of a number to that base. */
  predicate AreDigits(ds: string, base: nat) {
    forall i | 0 <= i < |ds| :: DigitValue(ds[i]) < base
  }

  /** The number they stand for. */
  function ValueOf(ds: string, base: nat): nat {
    if ds == "" then 0 else ValueOf(ds[..|ds| - 1], base) * base + DigitValue(ds[|ds| - 1])
  }

  lemma {:induction false} ValueMore(ds: string, c: char, base: nat)
    ensures ValueOf(ds + [c], base) == ValueOf(ds, base) * base + DigitValue(c)
  {
    assert (ds + [c])[..|ds|] == ds;
  }

  /** The digit loop, when `done` has been read. */
  lemma {:induction false} DigitsAre(done: string, ds: string, base: nat, t: string)
    requires AreDigits(ds, base) && DigitValue(First(t)) >= base
    ensures Digits(ds + t, base, Wrap(ValueOf(done, base))) == (Wrap(ValueOf(done + ds, base)), t)
    decreases |ds|
  {
    hide DigitValue, ValueOf, Wrap;
    if ds == "" {
      assert done + ds == done && ds + t == t;
    } else {
      var c, rest := ds[0], ds[1..];
      DigitStep(c, rest + t, base, Wrap(ValueOf(done, base)));
      WrapTimes(ValueOf(done, base), base, DigitValue(c));
      ValueMore(done, c, base);
      DigitsAre(done + [c], rest, base, t);
      assert ds + t == [c] + (rest + t) && done + [c] + rest == done + ds;
      hide Digits;
    }
  }

  lemma {:induction false} WrapTimes(a: nat, m: nat, d: nat)
    ensures (Wrap(a) * m + d) % 0x1_0000_0000 == Wrap(a * m + d)
  {
    var q, r := a / LIMIT, a % LIMIT;
    assert a == q * LIMIT + r;
    assert a * m + d == q * m * LIMIT + (r * m + d);
    ModPlus(q * m, LIMIT, r * m + d);
  }

  /** A decimal, octal or hexadecimal number, modulo 2^32, up to the first character that is no digit of
      its base; without digits it is 0. */
  lemma {:induction false} Numbers(ds: string, t: string)
    ensures ds != "" && AreDigits(ds, 10) && ds[0] != '0' && DigitValue(First(t)) >= 10 ==>
      StrToUL(ds + t) == (ValueOf(ds, 10) % 0x1_0000_0000, t)
    ensures AreDigits(ds, 8) && DigitValue(First(t)) >= 8 && (ds == "" ==> First(t) != 'x') ==>
      StrToUL("0" + ds + t) == (ValueOf(ds, 8) % 0x1_0000_0000, t)
    ensures ds != "" && AreDigits(ds, 16) && DigitValue(First(t)) >= 16 ==>
      StrToUL("0x" + ds + t) == (ValueOf(ds, 16) % 0x1_0000_0000, t)
    ensures DigitValue(First(t)) >= 16 ==> StrToUL("0x" + t) == (0, "x" + t)
    ensures DigitValue(First(t)) >= 10 ==> StrToUL(t) == (0, t)
  {
    NotDecimal(t);
    NotHex(t);
    if ds != "" && AreDigits(ds, 10) && ds[0] != '0' && DigitValue(First(t)) >= 10 {
      DecimalNumber(ds, t);
    }
    if AreDigits(ds, 8) && DigitValue(First(t)) >= 8 && (ds == "" ==> First(t) != 'x') {
      OctalNumber(ds, t);
    }
    if ds != "" && AreDigits(ds, 16) && DigitValue(First(t)) >= 16 {
      HexNumber(ds, t);
    }
  }

  lemma {:induction false} StartsAtZero(base: nat)
    ensures Wrap(ValueOf("", base)) == 0
  {
  }

  lemma {:induction false} DecimalNumber(ds: string, t: string)
    requires ds != "" && AreDigits(ds, 10) && ds[0] != '0' && DigitValue(First(t)) >= 10
    ensures StrToUL(ds + t) == (ValueOf(ds, 10) % 0x1_0000_0000, t)
  {
    hide DigitValue, Digits, ValueOf;
    StartsAtZero(10);
    DigitsAre("", ds, 10, t);
    assert "" + ds == ds && (ds + t)[0] == ds[0];
  }

  lemma {:induction false} OctalNumber(ds: string, t: string)
    requires AreDigits(ds, 8) && DigitValue(First(t)) >= 8 && (ds == "" ==> First(t) != 'x')
    ensures StrToUL("0" + ds + t) == (ValueOf(ds, 8) % 0x1_0000_0000, t)
  {
    StartsAtZero(8);
    DigitsAre("", ds, 8, t);
    var s := "0" + ds + t;
    assert "" + ds == ds && s[1..] == ds + t;
    if ds != "" {
      assert s[1] == ds[0] && DigitValue(ds[0]) < 8;
    } else {
      assert |s| > 1 ==> s[1] == First(t);
    }
    hide Digits, ValueOf;
  }

  lemma {:induction false} HexNumber(ds: string, t: string)
    requires ds != "" && AreDigits(ds, 16) && DigitValue(First(t)) >= 16
    ensures StrToUL("0x" + ds + t) == (ValueOf(ds, 16) % 0x1_0000_0000, t)
  {
    hide DigitValue, Digits, ValueOf;
    StartsAtZero(16);
    DigitsAre("", ds, 16, t);
    var s := "0x" + ds + t;
    assert "" + ds == ds && s[2..] == ds + t && s[0] == '0' && s[1] == 'x' && s[2] == ds[0];
  }

  lemma {:induction false} NotHex(t: string)
    ensures DigitValue(First(t)) >= 16 ==> StrToUL("0x" + t) == (0, "x" + t)
  {
    var s := "0x" + t;
    assert s[1..] == "x" + t && (|s| >= 3 ==> s[2] == First(t));
    assert DigitValue('x') == 16;
  }

  lemma {:induction false} NotDecimal(t: string)
    ensures DigitValue(First(t)) >= 10 ==> StrToUL(t) == (0, t)
  {
  }

  /** The suffixes, of either case, modulo 2^32. */
  lemma {:induction false} Suffixes(s: string, v: u32, c: char, t: string)
    requires StrToUL(s) == (v, [c] + t)
    ensures c in "kK" ==> MemsizeParse(s) == (v * 1024 % 0x1_0000_0000, t)
    ensures c in "mM" ==> MemsizeParse(s) == (v * 1048576 % 0x1_0000_0000, t)
    ensures c in "gG" ==> MemsizeParse(s) == (v * 1073741824 % 0x1_0000_0000, t)
    ensures c !in "kKmMgG" ==> MemsizeParse(s) == (v, [c] + t)
  {
    hide StrToUL;
    assert ([c] + t)[1..] == t;
  }

  // ----- the fill-up partition ----------------------------------------------------------------

  /** `-`, with or without an offset, a name and the read-only flag. */
  function FillText(at: Option<u32>, name: Option<string>, ro: bool): string {
    "-" + (if at.Some? then "@" + MemsizeFormat(at.value) else "")
      + (if name.Some? then "(" + name.value + ")" else "") + (if ro then "ro" else "")
  }

  predicate NameOk(name: Option<string>) {
    name.Some? ==> name.value != "" && ')' !in name.value
  }

  /** The offset in the text, or 0xffffffff for none. */
  function OffsetOf(at: Option<u32>): u32 {
    if at.Some? then at.value else 0xFFFF_FFFF
  }

  lemma {:induction false} FillRange(at: Option<u32>, t: string)
    requires First(t) != '@' && Stops(t)
    ensures RangeParse("-" + (if at.Some? then "@" + MemsizeFormat(at.value) else "") + t) ==
      (0xFFFF_FFFF, OffsetOf(at), t)
  {
    hide MemsizeParse, MemsizeFormat;
    if at.Some? {
      MemsizeRoundTrip(at.value, t);
      var s := "-" + ("@" + MemsizeFormat(at.value)) + t;
      assert s[1..] == "@" + MemsizeFormat(at.value) + t && s[1..][1..] == MemsizeFormat(at.value) + t;
    } else {
      assert ("-" + "" + t)[1..] == t;
    }
  }

  /** The name, the flag and what ends the partition. */
  lemma {:induction false} FillRest(name: Option<string>, ro: bool, t: string)
    requires NameOk(name) && (t == "" || t[0] in ";,")
    ensures var u := (if name.Some? then "(" + name.value + ")" else "") + ((if ro then "ro" else "") + t);
      && First(u) != '@' && Stops(u)
      && NameParse(u) == Some((name.Some?, if name.Some? then name.value else "", (if ro then "ro" else "") + t))
  {
    var v := (if ro then "ro" else "") + t;
    if name.Some? {
      NameRoundTrip(name.value, v);
    } else {
      assert "" + v == v;
    }
  }

  lemma {:induction false} FillParse(at: Option<u32>, name: Option<string>, ro: bool, t: string)
    requires NameOk(name) && (t == "" || t[0] in ";,")
    ensures PartParse(FillText(at, name, ro) + t) ==
      if t != "" && t[0] == ',' then None
      else Some((Part(0xFFFF_FFFF, OffsetOf(at), ro,
                      if name.Some? then name.value else GeneratedName(0xFFFF_FFFF, OffsetOf(at)), name.None?), t))
  {
    hide RangeParse, NameParse, MemsizeFormat, GeneratedName, PartParse, FillText;
    FillRest(name, ro, t);
    var v := (if ro then "ro" else "") + t;
    var u := (if name.Some? then "(" + name.value + ")" else "") + v;
    FillRange(at, u);
    FillTextIs(at, name, ro, t);
    OptionsParse(FillText(at, name, ro) + t, 0xFFFF_FFFF, OffsetOf(at), u, name.Some?, if name.Some? then name.value else "", ro, t);
  }

  lemma {:induction false} FillTextIs(at: Option<u32>, name: Option<string>, ro: bool, t: string)
    ensures FillText(at, name, ro) + t ==
      "-" + (if at.Some? then "@" + MemsizeFormat(at.value) else "")
        + ((if name.Some? then "(" + name.value + ")" else "") + ((if ro then "ro" else "") + t))
  {
    hide MemsizeFormat;
  }

  /** part_parse behind the size, the offset and the name: what may follow, and what is refused. */
  lemma {:induction false} OptionsParse(s: string, size: u32, offset: u32, u: string, given: bool, name: string, ro: bool, t: string)
    requires RangeParse(s) == (size, offset, u)
    requires NameParse(u) == Some((given, name, (if ro then "ro" else "") + t)) && (ro || t == "" || t[0] != 'r')
    ensures
      var part := Part(size, offset, ro, if given then name else GeneratedName(size, offset), !given);
      PartParse(s) ==
      if size < 4096 then None
      else if t == "" || t[0] in ";\0" then Some((part, t))
      else if t[0] == ',' && size != 0xFFFF_FFFF then Some((part, t[1..]))
      else None
  {
    hide RangeParse, NameParse, GeneratedName;
    var v := (if ro then "ro" else "") + t;
    if ro {
      assert v[..2] == "ro" && v[2..] == t;
    } else {
      assert v == t && (|t| >= 2 ==> t[..2][0] == t[0]);
    }
  }

  /** A partition `-` at the end of a device is accepted exactly if its offset, given or left out, lies
      inside the device and the rest of the device from there on cuts no erase block; it gets all of
      that rest. */
  lemma {:induction false} FillUp(at: Option<u32>, name: Option<string>, ro: bool, t: string, start: u32, id: MtdId)
    requires NameOk(name) && AtEnd(t)
    ensures
      var o := if at.Some? && at.value != 0xFFFF_FFFF then at.value else start;
      ParseParts(FillText(at, name, ro) + t, start, id) ==
      if o < id.size && id.flash.Some? && V.Aligned(id.flash.value, o, id.size - o)
      then
        var n := if name.Some? then name.value else GeneratedName(0xFFFF_FFFF, OffsetOf(at));
        Some(([Part(id.size - o, o, ro, n, name.None?)], t))
      else None
  {
    hide GeneratedName, PartParse, V.Aligned, V.Accepts, FillText, ParseParts;
    FillParse(at, name, ro, t);
    FillNotAtEnd(at, name, ro, t);
    var o := if at.Some? && at.value != 0xFFFF_FFFF then at.value else start;
    var p := PartParse(FillText(at, name, ro) + t).value.0;
    V.RemainingSpace(id.flash, id.size, o);
    RestOfDevice(id.size, o);
    LastPart(FillText(at, name, ro) + t, start, id, p, t);
  }

  /** The last partition of a device. */
  lemma {:induction false} LastPart(s: string, start: u32, id: MtdId, p: Part, t: string)
    requires !AtEnd(s) && AtEnd(t) && PartParse(s) == Some((p, t))
    ensures
      var o := if p.offset != 0xFFFF_FFFF then p.offset else start;
      ParseParts(s, start, id) ==
      if V.Accepts(id.flash, id.size, o, p.size)
      then Some(([p.(offset := o, size := V.FinalSize(id.size, o, p.size))], t)) else None
  {
    hide PartParse, V.Accepts, V.FinalSize;
    var q := Placed(p, start, id);
    NothingLeft(t, End(q), id);
    assert [q] + [] == [q];
  }

  lemma {:induction false} FillNotAtEnd(at: Option<u32>, name: Option<string>, ro: bool, t: string)
    ensures !AtEnd(FillText(at, name, ro) + t)
  {
    assert (FillText(at, name, ro) + t)[0] == '-';
  }

  lemma {:induction false} RestOfDevice(size: u32, o: u32)
    ensures o < size ==> V.FinalSize(size, o, 0xFFFF_FFFF) == size - o
  {
  }

  lemma {:induction false} NothingLeft(t: string, offset: u32, id: MtdId)
    requires AtEnd(t)
    ensures ParseParts(t, offset, id) == Some(([], t))
  {
  }

  /** Nothing may follow it. */
  lemma {:induction false} NothingBehindFillUp(at: Option<u32>, name: Option<string>, ro: bool, t: string, start: u32, id: MtdId)
    requires NameOk(name)
    ensures ParseParts(FillText(at, name, ro) + "," + t, start, id) == None
  {
    hide PartParse, V.Accepts;
    FillParse(at, name, ro, "," + t);
    FillNotAtEnd(at, name, ro, "," + t);
    assert FillText(at, name, ro) + "," + t == FillText(at, name, ro) + ("," + t);
  }

  // ----- several partitions -------------------------------------------------------------------

  /** A printed partition in front of others; one without an offset starts where the last one ended. */
  lemma {:induction false} FirstPart(p: Part, start: u32, rest: string, id: MtdId)
    requires Printable(p) && Accepted(id, p)
    ensures
      var others := ParseParts(rest, (p.offset + p.size) % 0x1_0000_0000, id);
      ParseParts(PartText(p, start) + "," + rest, start, id) ==
      if others.Some? then Some(([p] + others.value.0, others.value.1)) else None
  {
    hide PartText, PartParse, V.Accepts, Printable;
    var t := "," + rest;
    assert PartText(p, start) + "," + rest == PartText(p, start) + t && t[1..] == rest;
    PartTextFirst(p, start, t);
    PartRoundTrip(p, start, t);
    Unchanged(p, start, id);
  }

  lemma {:induction false} Unchanged(p: Part, start: u32, id: MtdId)
    requires Printable(p)
    ensures Placed(if p.offset != start then p else p.(offset := OFFSET_NOT_SPECIFIED), start, id) == p
  {
  }

  function CommaText(ps: seq<Part>, start: u32): string {
    if ps == [] then "" else PartText(ps[0], start) + "," + CommaText(ps[1..], End(ps[0]))
  }

  function EndOf(ps: seq<Part>, start: u32): u32 {
    if ps == [] then start else Wrap(ps[|ps| - 1].offset + ps[|ps| - 1].size)
  }

  /** A fill-up partition behind others starts where the last of them ends, unless its offset is given. */
  lemma {:induction false} FillUpBehind(ps: seq<Part>, start: u32, at: Option<u32>, name: Option<string>, ro: bool, t: string, id: MtdId)
    requires PartsOk(id, ps) && NameOk(name) && AtEnd(t)
    ensures
      var o := if at.Some? && at.value != 0xFFFF_FFFF then at.value else EndOf(ps, start);
      ParseParts(CommaText(ps, start) + (FillText(at, name, ro) + t), start, id) ==
      if o < id.size && id.flash.Some? && V.Aligned(id.flash.value, o, id.size - o)
      then
        var n := if name.Some? then name.value else GeneratedName(0xFFFF_FFFF, OffsetOf(at));
        Some((ps + [Part(id.size - o, o, ro, n, name.None?)], t))
      else None
    decreases |ps|
  {
    hide FillText, GeneratedName, ParseParts, V.Aligned, Printable, Accepted, PartText;
    if ps == [] {
      FillUp(at, name, ro, t, start, id);
      assert CommaText(ps, start) + (FillText(at, name, ro) + t) == FillText(at, name, ro) + t;
      assert forall q: Part :: [] + [q] == [q];
    } else {
      var p, rest := ps[0], CommaText(ps[1..], End(ps[0])) + (FillText(at, name, ro) + t);
      FillUpBehind(ps[1..], End(p), at, name, ro, t, id);
      FirstPart(p, start, rest, id);
      assert CommaText(ps, start) + (FillText(at, name, ro) + t) == PartText(p, start) + "," + rest;
      hide CommaText;
      assert forall q: Part :: [p] + (ps[1..] + [q]) == ps + [q];
    }
  }

  /** The whole table of one device with a fill-up partition. */
  lemma {:induction false} FillUpTable(ids: seq<MtdId>, id: MtdId, ps: seq<Part>, at: Option<u32>, name: Option<string>, ro: bool)
    requires FindId(ids, id.mtdId) == Some(id) && ':' !in id.mtdId && PartsOk(id, ps) && NameOk(name)
    requires
      var o := if at.Some? && at.value != 0xFFFF_FFFF then at.value else EndOf(ps, 0);
      && o < id.size && id.flash.Some? && V.Aligned(id.flash.value, o, id.size - o)
      && Ascending(ps) && forall p | p in ps :: p.offset < o
    ensures
      var o := if at.Some? && at.value != 0xFFFF_FFFF then at.value else EndOf(ps, 0);
      var n := if name.Some? then name.value else GeneratedName(0xFFFF_FFFF, OffsetOf(at));
      ParseTable("mtdparts=" + (id.mtdId + ":" + (CommaText(ps, 0) + FillText(at, name, ro))), ids) ==
      Some([Device(id, ps + [Part(id.size - o, o, ro, n, name.None?)])])
  {
    hide FillText, GeneratedName, ParseParts, V.Aligned, PartsOk, CommaText, EndOf, FindId, SortAll, Find, Ascending,
      ParseTable, NameOk;
    var o := if at.Some? && at.value != 0xFFFF_FFFF then at.value else EndOf(ps, 0);
    var n := if name.Some? then name.value else GeneratedName(0xFFFF_FFFF, OffsetOf(at));
    var q := Part(id.size - o, o, ro, n, name.None?);
    FillUpBehind(ps, 0, at, name, ro, "", id);
    EmptyEnd(CommaText(ps, 0), FillText(at, name, ro));
    OneMoreAscends(ps, q);
    OneDevice(ids, id, CommaText(ps, 0) + FillText(at, name, ro), ps + [q]);
  }

  lemma {:induction false} EmptyEnd(a: string, b: string)
    ensures a + (b + "") == a + b
  {
    assert b + "" == b;
  }

  lemma {:induction false} OneMoreAscends(ps: seq<Part>, q: Part)
    requires Ascending(ps) && forall p | p in ps :: p.offset < q.offset
    ensures SortAll([], ps + [q]) == Some(ps + [q])
  {
    hide SortAll, Ascending;
    AscendsToo(ps, q);
    EmptyFront(ps + [q]);
    SortAllAscending([], ps + [q]);
  }

  lemma {:induction false} EmptyFront(list: seq<Part>)
    ensures [] + list == list
  {
  }

  lemma {:induction false} AscendsToo(ps: seq<Part>, q: Part)
    requires Ascending(ps) && forall p | p in ps :: p.offset < q.offset
    ensures Ascending(ps + [q])
  {
    forall i, j | 0 <= i < j < |ps + [q]|
      ensures (ps + [q])[i].offset < (ps + [q])[j].offset
    {
      assert (ps + [q])[i] == ps[i] && ps[i] in ps;
      if j < |ps| {
        assert (ps + [q])[j] == ps[j];
      }
    }
  }

  /** A table whose one device has these partitions. */
  lemma {:induction false} OneDevice(ids: seq<MtdId>, id: MtdId, body: string, list: seq<Part>)
    requires FindId(ids, id.mtdId) == Some(id) && ':' !in id.mtdId && list != []
    requires ParseParts(body, 0, id) == Some((list, "")) && SortAll([], list) == Some(list)
    ensures ParseTable("mtdparts=" + (id.mtdId + ":" + body), ids) == Some([Device(id, list)])
  {
    hide FindId, ParseParts, SortAll, Find;
    var s := id.mtdId + ":" + body;
    FindIs(id.mtdId, ':', body);
    assert s == id.mtdId + [':'] + body && s[..|id.mtdId|] == id.mtdId && s[|id.mtdId| + 1..] == body;
    var d := Device(id, list);
    assert ParseDevice(s, ids, []) == Some((d, ""));
    var whole := "mtdparts=" + s;
    assert whole[9..] == s && whole[..9] == "mtdparts=";
    assert ParseDevices("", ids, [d]) == Some([d]) && [] + [d] == [d];
    assert ParseDevices(s, ids, []) == ParseDevices("", ids, [] + [d]);
  }

  // ----- generated names ----------------------------------------------------------------------

  function Sixteens(k: nat): (p: nat)
    ensures p > 0
  {
    if k == 0 then 1 else 16 * Sixteens(k - 1)
  }

  lemma {:induction false} HexDigits(n: u32, k: nat)
    requires n < Sixteens(k)
    ensures |Hex8(n, k)| == k && AreDigits(Hex8(n, k), 16) && ValueOf(Hex8(n, k), 16) == n
  {
    if k > 0 {
      HexDigits(n / 16, k - 1);
      var c := "0123456789abcdef"[n % 16];
      DigitTable(c);
      ValueMore(Hex8(n / 16, k - 1), c, 16);
      assert DigitValue(c) == n % 16;
    }
  }

  /** The name of a partition without one: size and offset, each in eight hexadecimal digits. */
  lemma {:induction false} NameSaysRange(size: u32, offset: u32) returns (t: string)
    ensures |GeneratedName(size, offset)| == 21
    ensures StrToUL(GeneratedName(size, offset)) == (size, "@" + t) && StrToUL(t) == (offset, "")
  {
    hide Hex8, StrToUL, DigitValue, GeneratedName, First;
    t := "0x" + Hex8(offset, 8);
    NotADigit(t);
    EightBack(size, "@" + t);
    EightBack(offset, "");
    NameIs(size, offset);
    assert t + "" == t;
  }

  lemma {:induction false} EightBack(n: u32, t: string)
    requires DigitValue(First(t)) >= 16
    ensures |Hex8(n, 8)| == 8 && StrToUL("0x" + Hex8(n, 8) + t) == (n, t)
  {
    hide Hex8, StrToUL, ValueOf, AreDigits, DigitValue, First;
    EightDigits(n);
    HexNumber(Hex8(n, 8), t);
  }

  lemma {:induction false} EightDigits(n: u32)
    ensures |Hex8(n, 8)| == 8 && AreDigits(Hex8(n, 8), 16) && ValueOf(Hex8(n, 8), 16) == n
  {
    hide Hex8;
    assert Sixteens(4) == 0x1_0000;
    assert Sixteens(8) == 0x1_0000_0000;
    HexDigits(n, 8);
  }

  lemma {:induction false} NotADigit(t: string)
    ensures DigitValue(First("")) == 16 && DigitValue(First("@" + t)) == 16
  {
    assert ("@" + t)[0] == '@';
  }

  lemma {:induction false} NameIs(size: u32, offset: u32)
    ensures |GeneratedName(size, offset)| == |Hex8(size, 8)| + |Hex8(offset, 8)| + 5
    ensures GeneratedName(size, offset) == "0x" + Hex8(size, 8) + ("@" + ("0x" + Hex8(offset, 8)))
  {
    hide Hex8;
  }

  // ----- an example ---------------------------------------------------------------------------

  /** The example of the source file, on 16 MiB of flash with blocks of 4 KiB. */
  method DocumentedTable() returns (rc: int, devices: seq<Device>)
    ensures rc == 0 && |devices| == 1 && devices[0].parts ==
      [Part(0x4_0000, 0, true, "ARMboot", false), Part(0xFC_0000, 0x4_0000, false, "root", false)]
  {
    var id := MtdId(1, 0, 0x100_0000, "edb7312-nor", Some(V.Mtd(0x1000, [])));
    ghost var first := Part(0x4_0000, 0, true, "ARMboot", false);
    var table := new Partitions([id]);
    DocumentedText(id, first);
    hide ParseTable;
    rc := table.ParseMtdparts("mtdparts=edb7312-nor:256k(ARMboot)ro,-(root)");
    devices := table.devices;
  }

  lemma {:induction false} DocumentedText(id: MtdId, p: Part)
    requires id == MtdId(1, 0, 0x100_0000, "edb7312-nor", Some(V.Mtd(0x1000, [])))
    requires p == Part(0x4_0000, 0, true, "ARMboot", false)
    ensures ParseTable("mtdparts=edb7312-nor:256k(ARMboot)ro,-(root)", [id]) ==
      Some([Device(id, [p, Part(0xFC_0000, 0x4_0000, false, "root", false)])])
  {
    hide ParseTable, GeneratedName, CommaText, FillText, PartsOk, V.Aligned, FindId, EndOf, Ascending;
    DocumentedOk(id, p);
    FirstText(p);
    LastText();
    WholeText(id.mtdId, CommaText([p], 0), FillText(None, Some("root"), false));
    FillUpTable([id], id, [p], None, Some("root"), false);
    assert [p] + [Part(0xFC_0000, 0x4_0000, false, "root", false)] == [p, Part(0xFC_0000, 0x4_0000, false, "root", false)];
  }

  lemma {:induction false} DocumentedOk(id: MtdId, p: Part)
    requires id == MtdId(1, 0, 0x100_0000, "edb7312-nor", Some(V.Mtd(0x1000, [])))
    requires p == Part(0x4_0000, 0, true, "ARMboot", false)
    ensures FindId([id], id.mtdId) == Some(id) && ':' !in id.mtdId && NameOk(Some("root"))
    ensures PartsOk(id, [p]) && Ascending([p]) && EndOf([p], 0) == 0x4_0000
    ensures V.Aligned(id.flash.value, 0x4_0000, 0xFC_0000)
  {
  }

  lemma {:induction false} FirstText(p: Part)
    requires p == Part(0x4_0000, 0, true, "ARMboot", false)
    ensures CommaText([p], 0) == "256k(ARMboot)ro,"
  {
    hide MemsizeFormat;
    Format256k();
    assert RangeText(p.size, p.offset, 0) == "256k";
    assert PartText(p, 0) == "256k(ARMboot)ro";
    assert CommaText([], End(p)) == "";
    hide PartText;
    assert CommaText([p], 0) == PartText(p, 0) + "," + "";
  }

  lemma {:induction false} Format256k()
    ensures MemsizeFormat(0x4_0000) == "256k"
  {
    hide Decimal;
    Decimal256();
    assert 0x4_0000 % 0x4000_0000 == 0x4_0000 && 0x4_0000 % 0x10_0000 == 0x4_0000 && 0x4_0000 == 256 * 0x400;
  }

  lemma {:induction false} Decimal256()
    ensures Decimal(256) == "256"
  {
    hide Decimal;
    DecimalStep(256);
    DecimalStep(25);
    DecimalStep(2);
  }

  lemma {:induction false} LastText()
    ensures FillText(None, Some("root"), false) == "-(root)"
  {
  }

  lemma {:induction false} WholeText(a: string, b: string, c: string)
    requires a == "edb7312-nor" && b == "256k(ARMboot)ro," && c == "-(root)"
    ensures "mtdparts=" + (a + ":" + (b + c)) == "mtdparts=edb7312-nor:256k(ARMboot)ro,-(root)"
  {
  }
}
