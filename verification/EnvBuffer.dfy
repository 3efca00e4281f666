/** The environment in RAM (common/cmd_nvedit.c): "name=value" strings, each ended by a NUL, the list
    ended by one more NUL, edited in place.

    `EnvBuffer` is the code over the byte array.  `Image` lays a list of variables out as bytes, and
    `Decode` reads such bytes back; the methods are proved against plain list operations. */
module EnvBuffer {
  import opened Common

  type Byte = bv8
  type Bytes = seq<bv8>
  type Crc32 = Bytes -> bv32

  const NUL: Byte := 0
  const SPACE: Byte := 0x20
  const EQ: Byte := 0x3D

  /** The bytes of a text. */
  function Ascii(s: string): Bytes {
    seq(|s|, i requires 0 <= i < |s| => (s[i] as int % 256) as bv8)
  }

  const SERIAL: Bytes := Ascii("serial#")
  const ETHADDR: Bytes := Ascii("ethaddr")
  const BAUDRATE: Bytes := Ascii("baudrate")
  const STDIN: Bytes := Ascii("stdin")
  const STDOUT: Bytes := Ascii("stdout")
  const STDERR: Bytes := Ascii("stderr")

  // ----- variables and their layout ----------------------------------------------------------

  /** A C string: no NUL inside. */
  predicate Text(s: Bytes) {
    NUL !in s
  }

  datatype Var = Var(name: Bytes, value: Bytes) {
    predicate Valid() {
      Text(name) && EQ !in name && Text(value)
    }

    function Entry(): Bytes {
      name + [EQ] + value
    }
  }

  predicate AllValid(vars: seq<Var>) {
    forall i | 0 <= i < |vars| :: vars[i].Valid()
  }

  predicate Unique(vars: seq<Var>) {
    forall i, j | 0 <= i < j < |vars| :: vars[i].name != vars[j].name
  }

  /** The strings with their NULs. */
  function Body(vars: seq<Var>): Bytes {
    if vars == [] then [] else vars[0].Entry() + [NUL] + Body(vars[1..])
  }

  /** The used part of the buffer; it always ends in two NULs. */
  function Image(vars: seq<Var>): Bytes {
    if vars == [] then [NUL, NUL] else Body(vars) + [NUL]
  }

  lemma {:induction false} BodyConcat(a: seq<Var>, b: seq<Var>)
    ensures Body(a + b) == Body(a) + Body(b)
  {
    hide Var.Entry;
    if a == [] {
      assert a + b == b;
    } else {
      BodyConcat(a[1..], b);
      assert (a + b)[0] == a[0] && (a + b)[1..] == a[1..] + b;
      Associative(a[0].Entry() + [NUL], Body(a[1..]), Body(b));
    }
  }

  lemma {:induction false} Associative(x: Bytes, y: Bytes, z: Bytes)
    ensures x + (y + z) == x + y + z
  {
  }

  lemma {:induction false} BodyAt(vars: seq<Var>, k: nat)
    requires k < |vars|
    ensures Body(vars) == Body(vars[..k]) + vars[k].Entry() + [NUL] + Body(vars[k + 1..])
    ensures |Body(vars[..k + 1])| == |Body(vars[..k])| + |vars[k].Entry()| + 1
  {
    assert vars == vars[..k] + vars[k..] && vars[..k + 1] == vars[..k] + [vars[k]];
    BodyConcat(vars[..k], vars[k..]);
    BodyConcat(vars[..k], [vars[k]]);
    assert vars[k..][1..] == vars[k + 1..];
    assert Body([vars[k]]) == vars[k].Entry() + [NUL];
  }

  lemma {:induction false} ImageAt(vars: seq<Var>, k: nat)
    requires k < |vars|
    ensures Image(vars) == Body(vars[..k]) + (vars[k].Entry() + [NUL]) + (Body(vars[k + 1..]) + [NUL])
    ensures |Body(vars[..k + 1])| == |Body(vars[..k])| + |vars[k].Entry()| + 1 && |vars[k].Entry()| > 0
    ensures k + 1 == |vars| ==> Body(vars[k + 1..]) + [NUL] == [NUL]
  {
    BodyAt(vars, k);
    hide Body;
    Regroup(Body(vars[..k]), vars[k].Entry(), Body(vars[k + 1..]));
    if k + 1 == |vars| {
      NoBody();
      assert vars[k + 1..] == [];
    }
  }

  lemma {:induction false} NoBody()
    ensures Body([]) == []
  {
  }

  lemma {:induction false} Regroup(x: Bytes, y: Bytes, z: Bytes)
    ensures x + y + [NUL] + z + [NUL] == x + (y + [NUL]) + (z + [NUL])
  {
  }

  /** Two NULs in a row occur only at the end. */
  lemma {:induction false} NoInnerDoubleNul(vars: seq<Var>)
    requires AllValid(vars)
    ensures forall i | 0 <= i < |Body(vars)| - 1 :: !(Body(vars)[i] == NUL && Body(vars)[i + 1] == NUL)
    ensures vars != [] ==> |Body(vars)| >= 2 && Body(vars)[0] != NUL && Body(vars)[|Body(vars)| - 1] == NUL
  {
    if vars != [] {
      var e, b := vars[0].Entry(), Body(vars[1..]);
      NoInnerDoubleNul(vars[1..]);
      assert vars[0].Valid();
      forall i | 0 <= i < |Body(vars)| - 1
        ensures !(Body(vars)[i] == NUL && Body(vars)[i + 1] == NUL)
      {
        if i < |e| {
          assert Body(vars)[i] == e[i] && e[i] in e;
          assert e[i] != NUL;
        } else if i == |e| {
          assert Body(vars)[i + 1] == b[0];
        } else {
          assert Body(vars)[i] == b[i - |e| - 1] && Body(vars)[i + 1] == b[i - |e|];
        }
      }
      assert Body(vars)[0] == e[0] && e[0] in e;
      if vars[1..] != [] {
        assert Body(vars)[|Body(vars)| - 1] == b[|b| - 1];
      }
    }
  }

  // ----- reading the layout back -------------------------------------------------------------

  /** Index of the first `c` in `b`, or |b|. */
  function Find(b: Bytes, c: Byte): (i: nat)
    ensures i <= |b| && c !in b[..i] && (i < |b| ==> b[i] == c)
  {
    if b == [] || b[0] == c then 0
    else
      var i := 1 + Find(b[1..], c);
      assert b[..i] == [b[0]] + b[1..][..i - 1];
      i
  }

  lemma {:induction false} FindIs(b: Bytes, c: Byte, i: nat)
    requires i < |b| && b[i] == c && c !in b[..i]
    ensures Find(b, c) == i
  {
  }

  /** The variables in a buffer: strings up to the empty one, each split at its first '='. */
  function Decode(b: Bytes): seq<Var> {
    var n := Find(b, NUL);
    if n == 0 || n == |b| then []
    else
      var e := b[..n];
      var m := Find(e, EQ);
      [Var(e[..m], if m < |e| then e[m + 1..] else [])] + Decode(b[n + 1..])
  }

  /** Whatever follows the double NUL, the variables are read back exactly: the layout is injective
      and the bytes determine the list. */
  lemma {:induction false} DecodeImage(vars: seq<Var>, junk: Bytes)
    requires AllValid(vars)
    ensures Decode(Image(vars) + junk) == vars
  {
    if vars == [] {
      FindIs(Image(vars) + junk, NUL, 0);
    } else {
      DecodeBody(vars, [NUL] + junk);
      assert Image(vars) + junk == Body(vars) + ([NUL] + junk);
    }
  }

  lemma {:induction false} DecodeBody(vars: seq<Var>, tail: Bytes)
    requires AllValid(vars) && |tail| > 0 && tail[0] == NUL
    ensures Decode(Body(vars) + tail) == vars
  {
    if vars == [] {
      assert Body(vars) + tail == tail;
      FindIs(tail, NUL, 0);
    } else {
      var rest := Body(vars[1..]);
      assert Body(vars) + tail == vars[0].Entry() + [NUL] + (rest + tail);
      hide Decode, Find, Body, Var.Entry;
      assert vars[0].Valid();
      DecodeBody(vars[1..], tail);
      DecodeEntry(vars[0], rest + tail);
    }
  }

  lemma {:induction false} DecodeEntry(v: Var, tail: Bytes)
    requires v.Valid()
    ensures Decode(v.Entry() + [NUL] + tail) == [v] + Decode(tail)
  {
    var e := v.Entry();
    var b := e + [NUL] + tail;
    assert b[..|e|] == e && b[|e| + 1..] == tail;
    FindIs(b, NUL, |e|);
    assert e[..|v.name|] == v.name && e[|v.name| + 1..] == v.value;
    FindIs(e, EQ, |v.name|);
  }

  /** Where the '=' of an entry is. */
  lemma {:induction false} EntryByte(v: Var, j: nat)
    requires v.Valid() && j <= |v.name|
    ensures v.Entry()[j] != NUL
    ensures v.Entry()[j] == EQ <==> j == |v.name|
    ensures j < |v.name| ==> v.Entry()[j] == v.name[j]
  {
    if j < |v.name| {
      assert v.name[j] in v.name;
    }
  }

  lemma {:induction false} EntryText(v: Var, j: nat)
    requires v.Valid() && j < |v.Entry()|
    ensures v.Entry()[j] != NUL
  {
    assert v.Entry()[j] in v.Entry();
  }

  lemma {:induction false} TextByte(s: Bytes, j: nat)
    requires Text(s) && j < |s|
    ensures s[j] != NUL
  {
    assert s[j] in s;
  }

  // ----- the list operations ------------------------------------------------------------------

  /** The part of a "name" or "name=value" argument that is compared. */
  function NameOf(s: Bytes): Bytes {
    s[..Find(s, EQ)]
  }

  function IndexOf(vars: seq<Var>, name: Bytes): (k: nat)
    ensures k <= |vars|
    ensures k < |vars| ==> vars[k].name == name
    ensures forall i | 0 <= i < k :: vars[i].name != name
  {
    if vars == [] || vars[0].name == name then 0 else 1 + IndexOf(vars[1..], name)
  }

  predicate Defined(vars: seq<Var>, name: Bytes) {
    IndexOf(vars, name) < |vars|
  }

  function Lookup(vars: seq<Var>, name: Bytes): Option<Bytes> {
    var k := IndexOf(vars, name);
    if k < |vars| then Some(vars[k].value) else None
  }

  function Remove(vars: seq<Var>, name: Bytes): seq<Var> {
    var k := IndexOf(vars, name);
    if k < |vars| then vars[..k] + vars[k + 1..] else vars
  }

  /** The arguments of a command, separated by single spaces. */
  function Join(args: seq<Bytes>): Bytes
    requires args != []
  {
    if |args| == 1 then args[0] else args[0] + [SPACE] + Join(args[1..])
  }

  /** What the first `i` arguments add behind the name. */
  function Words(args: seq<Bytes>, i: nat): Bytes
    requires i <= |args|
  {
    if i == 0 then [] else Words(args, i - 1) + [if i == 1 then EQ else SPACE] + args[i - 1]
  }

  lemma {:induction false} WordsAreJoined(args: seq<Bytes>, i: nat)
    requires 0 < i <= |args|
    ensures Words(args, i) == [EQ] + Join(args[..i])
  {
    if i > 1 {
      WordsAreJoined(args, i - 1);
      JoinAppend(args[..i - 1], args[i - 1]);
      assert args[..i] == args[..i - 1] + [args[i - 1]];
    }
  }

  lemma {:induction false} JoinAppend(args: seq<Bytes>, last: Bytes)
    requires args != []
    ensures Join(args + [last]) == Join(args) + [SPACE] + last
  {
    if |args| > 1 {
      JoinAppend(args[1..], last);
      assert (args + [last])[1..] == args[1..] + [last];
    }
  }

  lemma {:induction false} WordsGrow(args: seq<Bytes>, i: nat, n: nat)
    requires i <= n <= |args|
    ensures |Words(args, i)| + (n - i) <= |Words(args, n)|
    ensures i < n ==> |Words(args, i)| + 1 + |args[i]| <= |Words(args, n)|
  {
    if i < n {
      WordsGrow(args, i, n - 1);
    }
  }

  /** One setenv command: the name, the words of the value, and what the console and the baud-rate
      hardware answer when they are asked. */
  datatype Command = Command(name: Bytes, args: seq<Bytes>, consoleOk: bool, baudOk: bool) {
    ghost predicate Valid() {
      Text(name) && forall i | 0 <= i < |args| :: Text(args[i])
    }
  }

  predicate IsConsole(name: Bytes) {
    name == STDIN || name == STDOUT || name == STDERR
  }

  predicate WriteOnce(name: Bytes) {
    name == SERIAL || name == ETHADDR
  }

  /** The command is turned down before the buffer is touched. */
  predicate Refused(vars: seq<Var>, c: Command) {
    || EQ in c.name
    || (IsConsole(c.name) && (c.args == [] || !c.consoleOk))
    || (Defined(vars, c.name) && (WriteOnce(c.name) || (c.name == BAUDRATE && !c.baudOk)))
  }

  predicate Fits(vars: seq<Var>, c: Command, size: nat)
    requires c.args != []
  {
    |Body(vars)| + |Var(c.name, Join(c.args)).Entry()| + 2 <= size
  }

  /** Return code and new list of a command in a buffer of `size` bytes. */
  function Set(vars: seq<Var>, c: Command, size: nat): (int, seq<Var>) {
    if Refused(vars, c) then (1, vars)
    else
      var rest := Remove(vars, c.name);
      if c.args == [] then (0, rest)
      else if !Fits(rest, c, size) then (1, rest)
      else (0, rest + [Var(c.name, Join(c.args))])
  }

  const VER: Bytes := Ascii("ver")

  /** The variable `ver` can be overwritten like any other. */
  lemma {:induction false} VerIsOrdinary(was: Bytes, now: Bytes, consoleOk: bool, baudOk: bool, size: nat)
    requires |now| + 6 <= size
    ensures Set([Var(VER, was)], Command(VER, [now], consoleOk, baudOk), size) == (0, [Var(VER, now)])
  {
    var vars, v := [Var(VER, was)], Var(VER, now);
    var c := Command(VER, [now], consoleOk, baudOk);
    assert EQ !in VER && |VER| == 3 && !Refused(vars, c);
    assert vars[..0] + vars[1..] == [];
    assert Remove(vars, VER) == [];
    assert |Body([])| == 0 && |v.Entry()| == |now| + 4 && Fits([], c, size);
    assert [] + [v] == [v];
  }

  // ----- what setenv promises of the list -----------------------------------------------------

  lemma {:induction false} RemoveKeeps(vars: seq<Var>, name: Bytes)
    requires Unique(vars) && AllValid(vars)
    ensures Unique(Remove(vars, name)) && AllValid(Remove(vars, name))
    ensures !Defined(Remove(vars, name), name)
    ensures !Defined(vars, name) ==> Remove(vars, name) == vars
  {
    var k, r := IndexOf(vars, name), Remove(vars, name);
    if k < |vars| {
      RemoveAtKeeps(vars, k);
      forall i | 0 <= i < |r|
        ensures r[i].name != name
      {
        assert r[i] == vars[if i < k then i else i + 1];
      }
    }
  }

  lemma {:induction false} RemoveAtKeeps(vars: seq<Var>, k: nat)
    requires k < |vars| && AllValid(vars) && Unique(vars)
    ensures AllValid(vars[..k]) && AllValid(vars[k + 1..])
    ensures AllValid(vars[..k] + vars[k + 1..]) && Unique(vars[..k] + vars[k + 1..])
  {
    var r := vars[..k] + vars[k + 1..];
    forall i, j | 0 <= i < j < |r|
      ensures r[i].name != r[j].name
    {
      assert r[i] == vars[if i < k then i else i + 1] && r[j] == vars[if j < k then j else j + 1];
    }
  }

  lemma {:induction false} LookupConcat(a: seq<Var>, b: seq<Var>, name: Bytes)
    ensures IndexOf(a + b, name) == if Defined(a, name) then IndexOf(a, name) else |a| + IndexOf(b, name)
    ensures Lookup(a + b, name) == if Defined(a, name) then Lookup(a, name) else Lookup(b, name)
  {
    var i := if Defined(a, name) then IndexOf(a, name) else |a| + IndexOf(b, name);
    assert forall j | 0 <= j < i :: (a + b)[j].name != name;
    IndexIs(a + b, name, i);
  }

  lemma {:induction false} IndexIs(vars: seq<Var>, name: Bytes, i: nat)
    requires i <= |vars| && (i < |vars| ==> vars[i].name == name)
    requires forall j | 0 <= j < i :: vars[j].name != name
    ensures IndexOf(vars, name) == i
  {
  }

  lemma {:induction false} RemoveOther(vars: seq<Var>, name: Bytes, other: Bytes)
    requires name != other
    ensures Lookup(Remove(vars, name), other) == Lookup(vars, other)
  {
    var k := IndexOf(vars, name);
    if k < |vars| {
      assert vars == vars[..k] + ([vars[k]] + vars[k + 1..]);
      LookupConcat(vars[..k], [vars[k]] + vars[k + 1..], other);
      LookupConcat([vars[k]], vars[k + 1..], other);
      LookupConcat(vars[..k], vars[k + 1..], other);
    }
  }

  lemma {:induction false} JoinText(args: seq<Bytes>)
    requires args != [] && forall i | 0 <= i < |args| :: Text(args[i])
    ensures Text(Join(args))
  {
    if |args| > 1 {
      JoinText(args[1..]);
    }
  }

  /** A command that is not refused leaves every other variable's value and the order of the others
      alone; afterwards the name has the joined words, or is absent: after a delete, and after an
      overflow, which happens exactly when the entry and the two NULs do not fit. */
  lemma {:induction false} SetLaws(vars: seq<Var>, c: Command, size: nat)
    requires Unique(vars) && AllValid(vars) && c.Valid()
    ensures var (rc, after) := Set(vars, c, size);
      && Unique(after) && AllValid(after)
      && Remove(after, c.name) == Remove(vars, c.name)
      && (forall other | other != c.name :: Lookup(after, other) == Lookup(vars, other))
      && (Refused(vars, c) ==> rc == 1 && after == vars)
      && (!Refused(vars, c) ==>
            var fits := c.args != [] && Fits(Remove(vars, c.name), c, size);
            && Lookup(after, c.name) == (if fits then Some(Join(c.args)) else None)
            && (rc == 0 <==> c.args == [] || fits))
  {
    var rest := Remove(vars, c.name);
    hide IndexOf, Find, Join, Body, Var.Entry;
    RemoveKeeps(vars, c.name);
    var (_, after) := Set(vars, c, size);
    forall other | other != c.name
      ensures Lookup(after, other) == Lookup(vars, other)
    {
      RemoveOther(vars, c.name, other);
      if !Refused(vars, c) && after != rest {
        LookupConcat(rest, [Var(c.name, Join(c.args))], other);
      }
    }
    if !Refused(vars, c) && c.args != [] && Fits(rest, c, size) {
      JoinText(c.args);
      AppendFresh(rest, Var(c.name, Join(c.args)));
    }
  }

  lemma {:induction false} CharactersAre()
    ensures [NUL] == Ascii("\0") && [SPACE] == Ascii(" ") && [EQ] == Ascii("=")
  {
  }

  /** Exactly when setenv turns a command down: a name with '=', a console variable that is deleted or
      that the console refuses, a set `serial#` or `ethaddr`, a set `baudrate` that the hardware
      refuses.  Then nothing changes.  Otherwise the variable is deleted, and defined anew as the joined
      words exactly if there are any and "name=value", its NUL and the last NUL fit. */
  lemma {:induction false} SetSpelledOut(vars: seq<Var>, name: Bytes, args: seq<Bytes>, consoleOk: bool, baudOk: bool, size: nat)
    requires Unique(vars) && AllValid(vars) && Text(name) && forall i | 0 <= i < |args| :: Text(args[i])
    ensures
      var console := name in {Ascii("stdin"), Ascii("stdout"), Ascii("stderr")};
      var once, baud := name in {Ascii("serial#"), Ascii("ethaddr")}, name == Ascii("baudrate");
      var refused := Ascii("=")[0] in name || (console && (args == [] || !consoleOk))
        || (Lookup(vars, name).Some? && (once || (baud && !baudOk)));
      var (rc, after) := Set(vars, Command(name, args, consoleOk, baudOk), size);
      var rest := Remove(vars, name);
      if refused then rc == 1 && after == vars
      else if args == [] then rc == 0 && after == rest
      else if |Body(rest)| + |name| + |Join(args)| + 3 <= size
      then rc == 0 && after == rest + [Var(name, Join(args))] && Lookup(after, name) == Some(Join(args))
      else rc == 1 && after == rest && Lookup(after, name) == None
  {
    CharactersAre();
    SetLaws(vars, Command(name, args, consoleOk, baudOk), size);
    hide Ascii, EQ, NUL, SPACE, Join, Remove, Body, IndexOf;
    assert Ascii("=")[0] == [EQ][0];
  }

  lemma {:induction false} AppendFresh(rest: seq<Var>, v: Var)
    requires Unique(rest) && AllValid(rest) && v.Valid() && !Defined(rest, v.name)
    ensures Unique(rest + [v]) && AllValid(rest + [v])
    ensures Lookup(rest + [v], v.name) == Some(v.value) && Remove(rest + [v], v.name) == rest
  {
    LookupConcat(rest, [v], v.name);
    assert (rest + [v])[..|rest|] == rest;
  }

  function SetAll(vars: seq<Var>, cs: seq<Command>, size: nat): seq<Var>
    decreases |cs|
  {
    if cs == [] then vars else SetAll(Set(vars, cs[0], size).1, cs[1..], size)
  }

  /** Once set, serial# and ethaddr keep their value over any run of commands. */
  lemma {:induction false} WriteOnceForever(vars: seq<Var>, cs: seq<Command>, size: nat, name: Bytes)
    requires Unique(vars) && AllValid(vars) && (forall i | 0 <= i < |cs| :: cs[i].Valid())
    requires WriteOnce(name) && Defined(vars, name)
    ensures Lookup(SetAll(vars, cs, size), name) == Lookup(vars, name)
    ensures Defined(SetAll(vars, cs, size), name)
    decreases |cs|
  {
    if cs != [] {
      SetLaws(vars, cs[0], size);
      assert cs[0].Valid();
      var next := Set(vars, cs[0], size).1;
      if cs[0].name == name {
        assert Refused(vars, cs[0]);
      } else {
        assert Lookup(next, name) == Lookup(vars, name);
      }
      assert Lookup(next, name).Some?;
      WriteOnceForever(next, cs[1..], size, name);
    }
  }

  // ----- the code -----------------------------------------------------------------------------

  /** `s` is the C string that starts at index `i` of `b`. */
  ghost predicate StringAt(b: Bytes, i: int, s: Bytes) {
    0 <= i && i + |s| < |b| && b[i..i + |s|] == s && b[i + |s|] == NUL
  }

  class EnvBuffer {
    const crc32: Crc32
    const data: array<Byte>  // ENV_SIZE bytes
    var crc: bv32
    var envId: int
    ghost var vars: seq<Var>

    ghost predicate Valid()
      reads this`vars, data
    {
      AllValid(vars) && Unique(vars) && Reads(0, Image(vars))
    }

    /** The bytes from index `i` on are `s`. */
    ghost predicate Reads(i: nat, s: Bytes)
      reads data
    {
      i + |s| <= data.Length && forall j | i <= j < i + |s| :: data[j] == s[j - i]
    }

    lemma {:induction false} ReadsParts(a: Bytes, b: Bytes, c: Bytes)
      requires Reads(0, a + b + c)
      ensures Reads(0, a) && Reads(|a|, b) && Reads(|a| + |b|, c)
    {
      var s := a + b + c;
      assert forall j | |a| <= j < |a| + |b| :: s[j] == b[j - |a|];
      assert forall j | |a| + |b| <= j < |s| :: s[j] == c[j - |a| - |b|];
    }

    /** Takes over a buffer that holds the given variables. */
    constructor (crc32': Crc32, buffer: array<Byte>, sum: bv32, ghost vs: seq<Var>)
      requires AllValid(vs) && Unique(vs) && Image(vs) <= buffer[..]
      ensures Valid() && data == buffer && crc == sum && vars == vs && crc32 == crc32'
    {
      crc32, data, crc, envId, vars := crc32', buffer, sum, 1, vs;
      assert |Image(vs)| <= buffer.Length;
    }

    /** Index of the k-th entry. */
    ghost function Start(k: nat): nat
      requires k <= |vars|
      reads this
    {
      |Body(vars[..k])|
    }

    /** The bytes from index `i` on are `s`, and none of them is a NUL. */
    ghost predicate Holds(i: nat, s: Bytes)
      reads data
    {
      && i + |s| < data.Length
      && forall j | i <= j < i + |s| :: data[j] == s[j - i] && data[j] != NUL
    }

    lemma {:induction false} EntryAt(k: nat)
      requires Valid() && k < |vars|
      ensures var e := vars[k].Entry();
        && Holds(Start(k), e) && data[Start(k) + |e|] == NUL && vars[k].Valid()
        && Start(k + 1) == Start(k) + |e| + 1 < data.Length
        && |e| > 0 && (k + 1 == |vars| ==> data[Start(k + 1)] == NUL)
    {
      ImageAt(vars, k);
      assert vars[k].Valid();
      var p, e, tail := Body(vars[..k]), vars[k].Entry() + [NUL], Body(vars[k + 1..]) + [NUL];
      forall j | 0 <= j < |e| - 1 ensures e[j] == vars[k].Entry()[j] != NUL {
        EntryText(vars[k], j);
      }
      hide Body, Image, Var.Entry, AllValid, Unique;
      ReadsParts(p, e, tail);
    }

    lemma {:induction false} NoEntry()
      requires Valid() && vars == []
      ensures data.Length >= 2 && data[0] == data[1] == NUL
    {
      assert Image(vars) == [NUL, NUL];
    }

    /** *(s + j) of a C string */
    function CharAt(s: Bytes, j: nat): Byte
      requires j <= |s|
    {
      if j < |s| then s[j] else NUL
    }

    /** The first `j` characters of `s1` and of the entry are the same, and are part of both names. */
    static ghost predicate Matching(s1: Bytes, v: Var, j: nat) {
      j <= |v.name| && j <= Find(s1, EQ) && s1[..j] == v.name[..j]
    }

    static lemma {:induction false} MatchStarts(s1: Bytes, v: Var)
      ensures Matching(s1, v, 0)
    {
    }

    /** One more equal character: another one of both names, or the equals sign behind both. */
    lemma {:induction false} MatchGoesOn(s1: Bytes, v: Var, j: nat)
      requires v.Valid() && Text(s1) && Matching(s1, v, j)
      requires j <= |s1| && |v.name| < |v.Entry()| && CharAt(s1, j) == v.Entry()[j]
      ensures j < |s1|
      ensures if CharAt(s1, j) == EQ then NameOf(s1) == v.name && j == |v.name|
              else j < |v.name| && Matching(s1, v, j + 1)
    {
      EntryByte(v, j);
      if CharAt(s1, j) == EQ {
        FindIs(s1, EQ, j);
      }
    }

    /** The first difference: the end of `s1` and the equals sign, or one between the names. */
    lemma {:induction false} MatchEnds(s1: Bytes, v: Var, j: nat)
      requires v.Valid() && Text(s1) && Matching(s1, v, j)
      requires j <= |s1| && |v.name| < |v.Entry()| && CharAt(s1, j) != v.Entry()[j]
      ensures NameOf(s1) == v.name <==> CharAt(s1, j) == NUL && v.Entry()[j] == EQ
      ensures v.Entry()[j] == EQ ==> j == |v.name|
    {
      EntryByte(v, j);
      if j < |s1| {
        TextByte(s1, j);
      } else {
        assert s1[..j] == s1;
      }
      if j < |v.name| && j < Find(s1, EQ) {
        assert NameOf(s1)[j] != v.name[j];
      }
      assert v.name[..|v.name|] == v.name;
    }

    /** envmatch, called at the start of an entry. */
    method EnvMatch(s1: Bytes, i2: nat, ghost k: nat) returns (r: int)
      requires Valid() && Text(s1) && k < |vars| && i2 == Start(k)
      ensures r == if NameOf(s1) == vars[k].name then i2 + |vars[k].name| + 1 else -1
    {
      hide Body, Image, Valid, Find, NameOf, Matching;
      ghost var v := vars[k];
      EntryByteAt(k, 0);
      var i, j: nat := i2, 0;
      MatchStarts(s1, v);
      while CharAt(s1, j) == data[i]
        invariant i == i2 + j < data.Length && Matching(s1, v, j)
        invariant j <= |s1| && j <= |v.name| < |v.Entry()| && data[i] == v.Entry()[j]
        decreases |s1| - j
      {
        MatchGoesOn(s1, v, j);
        if CharAt(s1, j) == EQ {
          return i + 1;
        }
        EntryByteAt(k, j + 1);
        i, j := i + 1, j + 1;
      }
      MatchEnds(s1, v, j);
      if CharAt(s1, j) == NUL && data[i] == EQ {
        return i + 1;
      }
      return -1;
    }

    lemma {:induction false} EntryByteAt(k: nat, j: nat)
      requires Valid() && k < |vars| && j <= |vars[k].name|
      ensures vars[k].Valid() && |vars[k].name| < |vars[k].Entry()|
      ensures Start(k) + j < data.Length && data[Start(k) + j] == vars[k].Entry()[j]
    {
      hide Body, Image, Valid, Var.Valid;
      EntryAt(k);
      var e := vars[k].Entry();
      assert data[Start(k)..Start(k) + |e|][j] == e[j];
    }

    lemma {:induction false} ValueAt(k: nat)
      requires Valid() && k < |vars|
      ensures StringAt(data[..], Start(k) + |vars[k].name| + 1, vars[k].value)
    {
      hide Body, Image, Valid, Reads, Var.Valid;
      EntryAt(k);
      var e, v, n := vars[k].Entry(), vars[k].value, |vars[k].name| + 1;
      var i := Start(k) + n;
      assert forall j | 0 <= j < |v| :: e[n + j] == v[j];
      assert forall j | i <= j < i + |v| :: data[j] == e[j - Start(k)];
    }

    /** getenv: the index of the value's string. */
    method GetEnv(name: Bytes) returns (r: Option<nat>)
      requires Valid() && Text(name)
      ensures r.None? <==> Lookup(vars, NameOf(name)).None?
      ensures r.Some? ==> StringAt(data[..], r.value, Lookup(vars, NameOf(name)).value)
    {
      hide Body, Image, Find, NameOf, StringAt, Reads, Var.Entry, Valid, Var.Valid, IndexOf;
      ghost var k := 0;
      var i := 0;
      BodyEmpty();
      EntryOrEnd(0);
      while data[i] != NUL
        invariant k <= |vars| && i == Start(k) && i < data.Length
        invariant data[i] != NUL <==> k < |vars|
        invariant forall j | 0 <= j < k :: vars[j].name != NameOf(name)
        decreases |vars| - k
      {
        EntryAt(k);
        ghost var e := vars[k].Entry();
        var nxt := i;
        while data[nxt] != NUL
          invariant i <= nxt <= i + |e|
          decreases i + |e| - nxt
        {
          if nxt >= data.Length {
            return None;
          }
          nxt := nxt + 1;
        }
        var val := EnvMatch(name, i, k);
        if val >= 0 {
          assert IndexOf(vars, NameOf(name)) == k;
          ValueAt(k);
          return Some(val);
        }
        i, k := nxt + 1, k + 1;
        EntryOrEnd(k);
      }
      return None;
    }

    /** The inner loop of the searches: where the entry's NUL is, and what follows it. */
    method EntryEnd(env: nat, ghost k: nat) returns (nxt: nat)
      requires Valid() && k < |vars| && env == Start(k)
      ensures nxt == Start(k) + |vars[k].Entry()| && nxt + 1 == Start(k + 1) < data.Length
    {
      hide Body, Image, Reads, Var.Entry, Valid, Var.Valid;
      EntryAt(k);
      nxt := env;
      while data[nxt] != NUL
        invariant env <= nxt <= env + |vars[k].Entry()|
        decreases env + |vars[k].Entry()| - nxt
      {
        nxt := nxt + 1;
      }
    }

    /** Whether there is an entry at index Start(k). */
    lemma {:induction false} EntryOrEnd(k: nat)
      requires Valid() && k <= |vars|
      ensures Start(k) < data.Length && (data[Start(k)] != NUL <==> k < |vars|)
    {
      if k < |vars| {
        EntryAt(k);
      } else if k == 0 {
        NoEntry();
      } else {
        EntryAt(k - 1);
      }
    }

    /** The search loop of _do_setenv: the entry with that name, where it ends, or -1. */
    method Locate(name: Bytes) returns (env: nat, nxt: nat, oldval: int)
      requires Valid() && Text(name) && EQ !in name
      ensures oldval >= 0 <==> Defined(vars, name)
      ensures Defined(vars, name) ==>
        var k := IndexOf(vars, name); env == Start(k) && nxt == Start(k) + |vars[k].Entry()|
    {
      assert NameOf(name) == name;
      hide Body, Image, Find, NameOf, StringAt, Reads, Var.Entry, Valid, Var.Valid, IndexOf;
      ghost var k := 0;
      env, nxt, oldval := 0, 0, -1;
      BodyEmpty();
      EntryOrEnd(0);
      while data[env] != NUL
        invariant k <= |vars| && env == Start(k) && env < data.Length && oldval == -1
        invariant data[env] != NUL <==> k < |vars|
        invariant forall j | 0 <= j < k :: vars[j].name != name
        decreases |vars| - k
      {
        nxt := EntryEnd(env, k);
        oldval := EnvMatch(name, env, k);
        if oldval >= 0 {
          assert IndexOf(vars, name) == k;
          return;
        }
        env, k := nxt + 1, k + 1;
        EntryOrEnd(k);
      }
    }

    /** A list of bytes that ends in the only double NUL it has. */
    ghost predicate Terminated(s: Bytes) {
      && |s| >= 2 && s[|s| - 2] == s[|s| - 1] == NUL
      && forall i | 0 <= i < |s| - 2 :: !(s[i] == NUL && s[i + 1] == NUL)
    }

    /** What is in front of the k-th entry and what follows it, with the final NUL. */
    lemma {:induction false} Around(k: nat)
      requires Valid() && k < |vars|
      ensures var front, back := vars[..k], vars[k + 1..];
        var tail := Body(back) + [NUL];
        && Start(k + 1) == Start(k) + |vars[k].Entry()| + 1 && |vars[k].Entry()| > 0
        && Reads(0, Body(front)) && Reads(Start(k + 1), tail)
        && AllValid(front + back) && Unique(front + back)
        && (if back == [] then tail == [NUL] else Terminated(tail) && tail[0] != NUL)
        && (front == [] <==> Start(k) == 0)
    {
      hide Body, Image, Var.Entry, AllValid, Unique;
      RemoveAtKeeps(vars, k);
      ImageAt(vars, k);
      NoInnerDoubleNul(vars[k + 1..]);
      NoInnerDoubleNul(vars[..k]);
      ReadsParts(Body(vars[..k]), vars[k].Entry() + [NUL], Body(vars[k + 1..]) + [NUL]);
      BodyEmpty();
    }

    lemma {:induction false} BodyEmpty()
      ensures Body([]) == []
    {
    }

    /** The copy loop: moves the bytes up to the first double NUL from `from` down to `to`. */
    method ShiftDown(to: nat, from: nat, ghost tail: Bytes)
      requires to < from && Terminated(tail) && Reads(from, tail)
      modifies data
      ensures Reads(to, tail)
      ensures forall j | 0 <= j < to :: data[j] == old(data[j])
    {
      var env, nxt := to, from;
      while true
        invariant 0 <= env - to < |tail| - 1 && nxt == from + (env - to)
        invariant forall j | 0 <= j < to :: data[j] == old(data[j])
        invariant forall j | to <= j < env :: data[j] == tail[j - to]
        invariant forall j | nxt <= j < from + |tail| :: data[j] == tail[j - from]
        decreases |tail| + to - env
      {
        data[env], nxt := data[nxt], nxt + 1;
        if data[env] == NUL && data[nxt] == NUL {
          break;
        }
        env := env + 1;
      }
      env := env + 1;
      data[env] := NUL;
    }

    /** Deletes the entry from `env` to its NUL at `nxt` by shifting the rest to the front. */
    method DeleteEntry(env0: nat, nxt0: nat, ghost k: nat)
      requires Valid() && k < |vars| && env0 == Start(k) && nxt0 == Start(k) + |vars[k].Entry()|
      modifies data, this`vars
      ensures Valid() && vars == old(vars)[..k] + old(vars)[k + 1..]
    {
      hide Body, Image, Var.Entry, AllValid, Unique, Valid, Terminated;
      ghost var front, back := vars[..k], vars[k + 1..];
      ghost var tail := Body(back) + [NUL];
      Around(k);
      var env, nxt := env0, nxt0 + 1;
      if data[nxt] == NUL {
        if env > 0 {
          env := env - 1;
        } else {
          data[env] := NUL;
        }
        env := env + 1;
        data[env] := NUL;
      } else {
        ShiftDown(env, nxt, tail);
      }
      vars := front + back;
      Rebuilt(front, back);
    }

    lemma {:induction false} Rebuilt(front: seq<Var>, back: seq<Var>)
      requires vars == front + back && AllValid(vars) && Unique(vars)
      requires Reads(0, Body(front))
      requires if vars == [] then Reads(0, [NUL, NUL]) else Reads(|Body(front)|, Body(back) + [NUL])
      ensures Valid()
    {
      hide Body, Var.Entry, AllValid, Unique;
      BodyConcat(front, back);
      if vars != [] {
        assert Image(vars) == Body(front) + (Body(back) + [NUL]);
      }
    }

    /** The loop that looks for the end: where the next entry goes. */
    method FindEnd() returns (env: nat)
      requires Valid()
      ensures env == |Body(vars)|
    {
      NoInnerDoubleNul(vars);
      assert Image(vars) == if vars == [] then [NUL, NUL] else Body(vars) + [NUL];
      ghost var n := |Body(vars)|;
      assert vars == [] ==> n == 0;
      hide Body, Image, AllValid, Unique;
      env := 0;
      while data[env] != NUL || data[env + 1] != NUL
        invariant if vars == [] then env == 0 else env <= n - 1
        decreases n - env
      {
        assert env < n - 1;
        env := env + 1;
      }
      if env > 0 {
        env := env + 1;
      }
    }

    /** Copies a string with its NUL; returns where the NUL is. */
    method CopyString(to: nat, s: Bytes) returns (env: nat)
      requires Text(s) && to + |s| < data.Length
      modifies data
      ensures env == to + |s| && Reads(to, s) && data[env] == NUL
      ensures forall j | 0 <= j < to :: data[j] == old(data[j])
    {
      env := to;
      data[env] := CharAt(s, 0);
      while data[env] != NUL
        invariant to <= env <= to + |s| && data[env] == CharAt(s, env - to)
        invariant forall j | to <= j < env :: data[j] == s[j - to]
        invariant env < to + |s| ==> data[env] in s
        invariant forall j | 0 <= j < to :: data[j] == old(data[j])
        decreases |s| + to - env
      {
        env := env + 1;
        data[env] := CharAt(s, env - to);
      }
    }

    /** The loop that adds up the space a new entry takes. */
    method Length(name: Bytes, args: seq<Bytes>) returns (len: nat)
      requires args != []
      ensures len == |name| + 2 + |Words(args, |args|)| == |Var(name, Join(args)).Entry()| + 2
    {
      WordsAreJoined(args, |args|);
      assert args[..|args|] == args;
      len := |name| + 2;
      var i := 0;
      while i < |args|
        invariant i <= |args| && len == |name| + 2 + |Words(args, i)|
      {
        len, i := len + |args[i]| + 1, i + 1;
      }
    }

    lemma {:induction false} BodyReads()
      requires Valid()
      ensures Reads(0, Body(vars))
    {
      BodyEmpty();
    }

    lemma {:induction false} ImageAppend(vs: seq<Var>, v: Var)
      ensures Image(vs + [v]) == Body(vs) + (v.Entry() + [NUL, NUL])
    {
      BodyConcat(vs, [v]);
      assert Body([v]) == v.Entry() + [NUL];
    }

    lemma {:induction false} Appended(vs: seq<Var>, v: Var)
      requires vars == vs + [v] && AllValid(vs) && Unique(vs) && !Defined(vs, v.name) && v.Valid()
      requires Reads(0, Body(vs)) && Reads(|Body(vs)|, v.Entry() + [NUL, NUL])
      ensures Valid()
    {
      hide Body, Image, Var.Entry, Var.Valid, AllValid, Unique;
      AppendKeeps(vs, v);
      ImageAppend(vs, v);
    }

    lemma {:induction false} AppendKeeps(vs: seq<Var>, v: Var)
      requires AllValid(vs) && Unique(vs) && !Defined(vs, v.name) && v.Valid()
      ensures AllValid(vs + [v]) && Unique(vs + [v])
    {
      hide Var.Valid;
    }

    /** Writes "name=word word ..." and the two NULs from index `at` on. */
    method WriteEntry(at: nat, name: Bytes, args: seq<Bytes>, ghost kept: Bytes)
      requires |kept| <= at && Reads(0, kept)
      requires Text(name) && args != [] && (forall i | 0 <= i < |args| :: Text(args[i]))
      requires at + |name| + |Words(args, |args|)| + 2 <= data.Length
      modifies data
      ensures Reads(at, name + Words(args, |args|) + [NUL, NUL]) && Reads(0, kept)
    {
      hide Words, Reads;
      WordsGrow(args, 0, |args|);
      WordsStart(name, args);
      var env := WriteName(at, name, kept);
      var i := 0;
      while i < |args|
        invariant i <= |args| && env == at + |name| + |Words(args, i)| < data.Length - 1
        invariant Reads(at, name + Words(args, i)) && data[env] == NUL && Reads(0, kept)
      {
        WordsGrow(args, i, |args|);
        WordsGrow(args, i + 1, |args|);
        env := WriteWord(at, env, name + Words(args, i), if i == 0 then EQ else SPACE, args[i], kept);
        WordsStep(name, args, i);
        i := i + 1;
      }
      EndEntry(at, env, name + Words(args, i), kept);
    }

    method WriteName(at: nat, name: Bytes, ghost kept: Bytes) returns (env: nat)
      requires |kept| <= at && Reads(0, kept) && Text(name) && at + |name| < data.Length
      modifies data
      ensures env == at + |name| && Reads(at, name) && data[env] == NUL && Reads(0, kept)
    {
      env := CopyString(at, name);
    }

    /** One separator and one argument behind what has been written from `at` on. */
    method WriteWord(at: nat, env: nat, ghost written: Bytes, sep: Byte, arg: Bytes, ghost kept: Bytes)
      returns (end: nat)
      requires |kept| <= at && Reads(0, kept) && Reads(at, written) && env == at + |written|
      requires Text(arg) && env + 1 + |arg| < data.Length
      modifies data
      ensures end == env + 1 + |arg| && data[end] == NUL
      ensures Reads(at, written + [sep] + arg) && Reads(0, kept)
    {
      data[env] := sep;
      end := CopyString(env + 1, arg);
    }

    /** The second NUL. */
    method EndEntry(at: nat, env: nat, ghost written: Bytes, ghost kept: Bytes)
      requires |kept| <= at && Reads(0, kept) && Reads(at, written) && env == at + |written|
      requires env + 1 < data.Length && data[env] == NUL
      modifies data
      ensures Reads(at, written + [NUL, NUL]) && Reads(0, kept)
    {
      data[env + 1] := NUL;
    }

    lemma {:induction false} WordsStart(name: Bytes, args: seq<Bytes>)
      ensures Words(args, 0) == [] && name + Words(args, 0) == name
    {
    }

    lemma {:induction false} WordsStep(name: Bytes, args: seq<Bytes>, i: nat)
      requires i < |args|
      ensures name + Words(args, i + 1) == name + Words(args, i) + [if i == 0 then EQ else SPACE] + args[i]
    {
    }

    /** The new entry may be appended: its name is not in the list, its words make it up. */
    lemma {:induction false} Ready(rest: seq<Var>, was: seq<Var>, c: Command)
      requires rest == Remove(was, c.name) && AllValid(was) && Unique(was) && c.Valid()
      requires c.args != [] && EQ !in c.name
      ensures var v := Var(c.name, Join(c.args));
        && AllValid(rest) && Unique(rest) && !Defined(rest, c.name) && v.Valid()
        && v.Entry() == c.name + Words(c.args, |c.args|)
    {
      RemoveKeeps(was, c.name);
      JoinText(c.args);
      WordsAreJoined(c.args, |c.args|);
      assert c.args[..|c.args|] == c.args;
    }

    /** Appends the new entry if it fits. */
    method AppendEntry(c: Command) returns (ok: bool)
      requires Valid() && c.Valid() && c.args != []
      requires var v := Var(c.name, Join(c.args));
        !Defined(vars, c.name) && v.Valid() && v.Entry() == c.name + Words(c.args, |c.args|)
      modifies data, this`vars
      ensures Valid() && ok == Fits(old(vars), c, data.Length)
      ensures vars == if ok then old(vars) + [Var(c.name, Join(c.args))] else old(vars)
      ensures !ok ==> data[..] == old(data[..])
    {
      hide Body, Image, Words, Join, Find, Var.Entry, Var.Valid;
      var env := FindEnd();
      var len := Length(c.name, c.args);
      if len > data.Length - env {
        return false;
      }
      ghost var rest, entry := vars, Var(c.name, Join(c.args));
      BodyReads();
      WriteEntry(env, c.name, c.args, Body(rest));
      vars := rest + [entry];
      Appended(rest, entry);
      return true;
    }

    /** _do_setenv without its effects outside the buffer. */
    method SetEnv(c: Command) returns (rc: int)
      requires Valid() && c.Valid()
      modifies this, data
      ensures Valid()
      ensures (rc, vars) == Set(old(vars), c, data.Length)
      ensures rc == 0 ==> crc == crc32(data[..])
      ensures rc != 0 ==> crc == old(crc)
      ensures rc != 0 && vars == old(vars) ==> data[..] == old(data[..])
      ensures envId == old(envId) + if EQ in c.name then 0 else 1
    {
      if EQ in c.name {
        return 1;
      }
      envId := envId + 1;
      var env, nxt, oldval := Locate(c.name);
      if IsConsole(c.name) {
        if c.args == [] {
          return 1;
        }
        if !c.consoleOk {
          return 1;
        }
      }
      if oldval >= 0 {
        if WriteOnce(c.name) {
          return 1;
        }
        if c.name == BAUDRATE && !c.baudOk {
          return 1;
        }
      }
      hide Valid, Image, Body, Join, Remove;
      ghost var rest := Remove(vars, c.name);
      assert rest + [] == rest;
      rc := Replace(c, env, nxt, oldval);
    }

    lemma {:induction false} RemoveIs(was: seq<Var>, name: Bytes)
      ensures var k := IndexOf(was, name);
        if Defined(was, name) then Remove(was, name) == was[..k] + was[k + 1..] && |Remove(was, name)| < |was|
        else Remove(was, name) == was
    {
    }

    lemma {:induction false} ListIsValid()
      requires Valid()
      ensures AllValid(vars) && Unique(vars)
    {
    }

    /** The old entry is deleted, and the new one, if there is one, appended. */
    method Replace(c: Command, env: nat, nxt: nat, oldval: int) returns (rc: int)
      requires Valid() && c.Valid() && EQ !in c.name
      requires oldval >= 0 <==> Defined(vars, c.name)
      requires Defined(vars, c.name) ==>
        var k := IndexOf(vars, c.name); env == Start(k) && nxt == Start(k) + |vars[k].Entry()|
      modifies data, this`vars, this`crc
      ensures Valid() && rc == (if c.args == [] || Fits(Remove(old(vars), c.name), c, data.Length) then 0 else 1)
      ensures vars == Remove(old(vars), c.name) + if c.args == [] || rc != 0 then [] else [Var(c.name, Join(c.args))]
      ensures crc == if rc == 0 then crc32(data[..]) else old(crc)
      ensures rc != 0 && vars == old(vars) ==> data[..] == old(data[..])
    {
      hide Body, Image, AllValid, Unique, Reads, Valid, Words, Join, Find, Var.Entry, Remove, Fits, IndexOf, Command.Valid;
      ListIsValid();
      ghost var was, k := vars, IndexOf(vars, c.name);
      RemoveIs(vars, c.name);
      if oldval >= 0 {
        DeleteEntry(env, nxt, k);
      }
      rc := AddNew(c, was);
    }

    /** What follows the deletion: `was` is the list before it. */
    method AddNew(c: Command, ghost was: seq<Var>) returns (rc: int)
      requires Valid() && c.Valid() && EQ !in c.name && vars == Remove(was, c.name) && AllValid(was) && Unique(was)
      modifies data, this`vars, this`crc
      ensures Valid() && rc == (if c.args == [] || Fits(old(vars), c, data.Length) then 0 else 1)
      ensures vars == old(vars) + if c.args == [] || rc != 0 then [] else [Var(c.name, Join(c.args))]
      ensures crc == if rc == 0 then crc32(data[..]) else old(crc)
      ensures rc != 0 ==> data[..] == old(data[..])
    {
      hide Body, Image, AllValid, Unique, Reads, Valid, Words, Join, Find, Var.Entry, Remove, Fits;
      if |c.args| == 0 {
        crc := crc32(data[..]);
        assert vars + [] == vars;
        return 0;
      }
      Ready(vars, was, c);
      var ok := AppendEntry(c);
      if !ok {
        assert vars + [] == vars;
        return 1;
      }
      crc := crc32(data[..]);
      return 0;
    }
  }
}
