/** The log buffer (common/cmd_log.c): two layouts of one ring, and the level tags of logged lines. */
module LogBuffer {
  import opened Common

  const LEN: nat := 16384

  // ----- the ring ------------------------------------------------------------------------------

  function Oldest(n: nat): nat {
    if n <= LEN then 0 else n - LEN
  }

  /** The last LEN characters. */
  function Last(s: string): string {
    s[Oldest(|s|)..]
  }

  /** Character number `n` of the stream is at index n & LOGBUFF_MASK, for the last LEN of them. */
  predicate Holds(ring: seq<char>, s: string) {
    |ring| == LEN && forall n :: Oldest(|s|) <= n < |s| ==> ring[n % LEN] == s[n]
  }

  /** A counter kept in 32 bits, as an index into the ring. */
  lemma {:induction false} CounterIndex(x: nat)
    ensures (x % LIMIT) % LEN == x % LEN
  {
    var q := x / LIMIT;
    assert x == LIMIT * q + x % LIMIT;
    assert LIMIT * q == 262144 * q * LEN;
    ModPlus(262144 * q, LEN, x % LIMIT);
  }

  lemma {:induction false} Apart(m: nat, n: nat)
    requires m < n < m + LEN
    ensures m % LEN != n % LEN
  {
    var p, q := m / LEN, n / LEN;
    assert m == LEN * p + m % LEN && n == LEN * q + n % LEN;
  }

  lemma {:induction false} HoldsMore(ring: seq<char>, s: string, c: char)
    requires Holds(ring, s)
    ensures Holds(ring[|s| % LEN := c], s + [c])
  {
    var t := s + [c];
    forall n | Oldest(|t|) <= n < |t|
      ensures ring[|s| % LEN := c][n % LEN] == t[n]
    {
      if n < |s| {
        Apart(n, |s|);
      }
    }
  }

  // ----- the tags ------------------------------------------------------------------------------

  const DEFAULT_LEVEL: nat := 4

  predicate HasTag(s: string) {
    |s| >= 3 && s[0] == '<' && '0' <= s[1] <= '7' && s[2] == '>'
  }

  function DefaultTag(): string {
    ['<', '0' + DEFAULT_LEVEL as char, '>']
  }

  /** The end of the first line, behind its newline if there is one. */
  function LineEnd(s: string): (k: nat)
    ensures k <= |s|
    ensures forall i :: 0 <= i < k - 1 ==> s[i] != '\n'
    ensures k > 0 && s[k - 1] != '\n' ==> k == |s|
    ensures s != "" ==> k > 0
  {
    if s == "" then 0 else if s[0] == '\n' then 1 else 1 + LineEnd(s[1..])
  }

  /** What is logged, and the level afterwards: negative at the start of a line. */
  datatype Emitted = Emitted(text: string, level: int)

  function Head(level: int, s: string): string {
    if level < 0 && !HasTag(s) then DefaultTag() else ""
  }

  function LevelOf(level: int, s: string): int {
    if level >= 0 then level
    else if HasTag(s) then s[1] as int - '0' as int
    else DEFAULT_LEVEL
  }

  function Ends(s: string): bool {
    s != "" && s[|s| - 1] == '\n'
  }

  function Emit(level: int, s: string): Emitted
    decreases |s|
  {
    if s == "" then Emitted("", level)
    else
      var k := LineEnd(s);
      var rest := Emit(NextLevel(level, s), s[k..]);
      Emitted(Head(level, s) + s[..k] + rest.text, rest.level)
  }

  /** A line starts at `i`. */
  predicate LineStart(s: string, i: nat) {
    i < |s| && (i == 0 || s[i - 1] == '\n')
  }

  /** Every line that starts at or after `from` carries a level tag. */
  predicate TaggedFrom(s: string, from: nat) {
    forall i :: from <= i < |s| && LineStart(s, i) ==> HasTag(s[i..])
  }

  /** A newline at most at the end. */
  predicate Single(line: string) {
    forall i :: 0 <= i < |line| - 1 ==> line[i] != '\n'
  }

  function NextLevel(level: int, s: string): int {
    if Ends(s[..LineEnd(s)]) then -1 else LevelOf(level, s)
  }

  lemma {:induction false} FirstLine(level: int, s: string)
    requires s != ""
    ensures
      var line := Head(level, s) + s[..LineEnd(s)];
      && line != "" && (level < 0 ==> HasTag(line)) && Single(line)
      && (NextLevel(level, s) < 0 <==> Ends(line))
  {
    var k := LineEnd(s);
    if level < 0 && HasTag(s) {
      assert k >= 3;
      assert HasTag(s[..k]);
    }
    assert Ends(s[..k]) <==> Ends(Head(level, s) + s[..k]);
  }

  /** The first place that has to be tagged: an open line that began before a reset is not. */
  function From(level: int, before: string): nat {
    if before == "" && level >= 0 then 1 else |before|
  }

  /** If the level says whether a line is open at the end of `before`, all lines that start in what is
      printed next are tagged, and the level goes on saying it. */
  lemma {:induction false} EmitTags(level: int, before: string, s: string)
    requires before != "" ==> (level < 0 <==> Ends(before))
    ensures
      var e := Emit(level, s);
      && TaggedFrom(before + e.text, From(level, before))
      && (if before + e.text == "" then e.level == level else e.level < 0 <==> Ends(before + e.text))
    decreases |s|
  {
    hide Head, LevelOf, NextLevel, HasTag, Single, TaggedFrom;
    if s == "" {
      assert before + "" == before;
      NothingTagged(before);
    } else {
      var line := Head(level, s) + s[..LineEnd(s)];
      FirstLine(level, s);
      NextEmit(level, s);
      var e := Emit(NextLevel(level, s), s[LineEnd(s)..]);
      assert Ends(before + line) <==> Ends(line);
      EmitTags(NextLevel(level, s), before + line, s[LineEnd(s)..]);
      OneMoreLine(level, before, line, e.text);
    }
  }

  lemma {:induction false} NothingTagged(s: string)
    ensures TaggedFrom(s, |s|) && TaggedFrom(s, |s| + 1)
  {
  }

  lemma {:induction false} NextEmit(level: int, s: string)
    requires s != ""
    ensures
      var k := LineEnd(s);
      var rest := Emit(NextLevel(level, s), s[k..]);
      Emit(level, s) == Emitted(Head(level, s) + s[..k] + rest.text, rest.level)
  {
  }

  lemma {:induction false} OneMoreLine(level: int, before: string, line: string, rest: string)
    requires before != "" ==> (level < 0 <==> Ends(before))
    requires line != "" && (level < 0 ==> HasTag(line)) && Single(line)
    requires TaggedFrom(before + line + rest, |before + line|)
    ensures before + line + rest == before + (line + rest)
    ensures TaggedFrom(before + line + rest, From(level, before))
  {
    var all := before + line + rest;
    forall i | From(level, before) <= i < |all| && LineStart(all, i)
      ensures HasTag(all[i..])
    {
      if i == |before| {
        assert all[i..][..3] == line[..3];
      }
    }
  }

  // ----- one message in two calls --------------------------------------------------------------

  function Then(a: Emitted, b: Emitted): Emitted {
    Emitted(a.text + b.text, b.level)
  }

  /** The line that a message leaves open. */
  function Tail(s: string): string
    decreases |s|
  {
    if s == "" then "" else if Ends(s[..LineEnd(s)]) then Tail(s[LineEnd(s)..]) else s
  }

  /** The second part completes a tag that the first part ends in the middle of. */
  predicate SplitsTag(level: int, s: string, t: string) {
    (level < 0 || Tail(s) != s) && 0 < |Tail(s)| < 3 && HasTag(Tail(s) + t)
  }

  /** A message logged in two calls leaves the same as in one exactly if no level tag is split. */
  lemma {:induction false} SplitMessage(level: int, s: string, t: string)
    ensures Then(Emit(level, s), Emit(Emit(level, s).level, t)) == Emit(level, s + t) <==> !SplitsTag(level, s, t)
    decreases |s|
  {
    hide Head, LevelOf, HasTag, Ends;
    if s == "" {
      assert s + t == t;
      assert Then(Emit(level, ""), Emit(level, t)) == Emit(level, t);
    } else if Ends(s[..LineEnd(s)]) {
      SplitLater(level, s, t);
    } else {
      SplitOpen(level, s, t);
    }
  }

  /** Split inside its tag, a line gets the default tag in front and stays one line. */
  lemma {:induction false} SplitTagExample()
    ensures SplitsTag(-1, "<", "4>x")
    ensures Then(Emit(-1, "<"), Emit(Emit(-1, "<").level, "4>x")).text == "<4><4>x"
    ensures Emit(-1, "<4>x").text == "<4>x"
  {
    OpenLine(-1, "<");
    OpenLine(DEFAULT_LEVEL, "4>x");
    OpenLine(-1, "<4>x");
  }

  lemma {:induction false} LineEndMore(s: string, t: string)
    requires s != ""
    ensures Ends(s[..LineEnd(s)]) ==> LineEnd(s + t) == LineEnd(s)
    ensures !Ends(s[..LineEnd(s)]) ==> LineEnd(s) == |s| && LineEnd(s + t) == |s| + LineEnd(t)
  {
    if s[0] != '\n' {
      assert (s + t)[1..] == s[1..] + t;
      if s[1..] == "" {
        assert LineEnd(s) == 1;
        assert s[1..] + t == t;
      } else {
        LineEndMore(s[1..], t);
        assert s[..LineEnd(s)][|s[..LineEnd(s)]| - 1] == s[1..][..LineEnd(s[1..])][LineEnd(s[1..]) - 1];
      }
    }
  }

  lemma {:induction false} HasTagMore(s: string, t: string)
    requires s != "" && Ends(s[..LineEnd(s)])
    ensures HasTag(s + t) <==> HasTag(s)
  {
    var k := LineEnd(s);
    assert s[k - 1] == '\n';
    assert forall i :: 0 <= i < |s| ==> (s + t)[i] == s[i];
  }

  /** A closed first line is logged on its own. */
  lemma {:induction false} ClosedLine(level: int, s: string)
    requires s != "" && Ends(s[..LineEnd(s)])
    ensures
      var rest := Emit(-1, s[LineEnd(s)..]);
      Emit(level, s) == Emitted(Head(level, s) + s[..LineEnd(s)] + rest.text, rest.level)
  {
    hide Ends, Head;
  }

  lemma {:induction false} SameHead(level: int, s: string, t: string)
    requires HasTag(s + t) <==> HasTag(s)
    requires s != "" && (level < 0 && HasTag(s) ==> |s| >= 2)
    ensures Head(level, s + t) == Head(level, s) && LevelOf(level, s + t) == LevelOf(level, s)
  {
  }

  lemma {:induction false} SplitLater(level: int, s: string, t: string)
    requires s != "" && Ends(s[..LineEnd(s)])
    ensures Then(Emit(level, s), Emit(Emit(level, s).level, t)) == Emit(level, s + t) <==> !SplitsTag(level, s, t)
    decreases |s|, 0
  {
    hide Ends, HasTag, Emit, Head, LevelOf, LineEnd;
    var k := LineEnd(s);
    LineEndMore(s, t);
    assert (s + t)[..k] == s[..k] && (s + t)[k..] == s[k..] + t;
    ClosedLine(level, s);
    ClosedLine(level, s + t);
    HasTagMore(s, t);
    HasTagLong(s);
    SameHead(level, s, t);
    SplitMessage(-1, s[k..], t);
    var a, all := Emit(-1, s[k..]), Emit(-1, s[k..] + t);
    Prefixed(Head(level, s) + s[..k], a.text, Emit(a.level, t).text, all.text);
    ShorterTail(s[k..]);
    assert Tail(s) == Tail(s[k..]);
  }

  lemma {:induction false} HasTagLong(s: string)
    ensures HasTag(s) ==> |s| >= 3
  {
  }

  /** A line that stays open. */
  lemma {:induction false} OpenLine(level: int, s: string)
    requires s != "" && !Ends(s[..LineEnd(s)])
    ensures Emit(level, s) == Emitted(Head(level, s) + s, LevelOf(level, s)) && LineEnd(s) == |s|
  {
    hide Head, LevelOf;
    assert s[LineEnd(s)..] == "";
    assert s[..LineEnd(s)] == s;
    assert Emit(LevelOf(level, s), "") == Emitted("", LevelOf(level, s));
    assert Head(level, s) + s + "" == Head(level, s) + s;
  }

  /** With the line open already, the first part of a message is just put in front. */
  lemma {:induction false} OpenMore(level: int, m: int, s: string, t: string)
    requires s != "" && t != "" && !Ends(s[..LineEnd(s)]) && m >= 0
    ensures
      var e, f := Emit(level, s + t), Emit(m, t);
      && e.text == Head(level, s + t) + s + f.text
      && (LevelOf(level, s + t) == m ==> e.level == f.level)
  {
    hide Head, LevelOf, HasTag, Emit, Ends, LineEnd;
    var j, h := LineEnd(t), Head(level, s + t);
    LineEndMore(s, t);
    var k := LineEnd(s + t);
    assert (s + t)[..k] == s + t[..j] && (s + t)[k..] == t[j..];
    EndsMore(s, t[..j]);
    OpenFacts(m, t);
    if Ends(t[..j]) {
      ClosedLine(level, s + t);
      ClosedLine(m, t);
      var rest := Emit(-1, t[j..]).text;
      assert h + (s + t[..j]) + rest == h + s + (t[..j] + rest);
      assert "" + t[..j] + rest == t[..j] + rest;
    } else {
      OpenLine(level, s + t);
      OpenLine(m, t);
      assert h + (s + t) == h + s + t;
      assert "" + t == t;
    }
  }

  lemma {:induction false} EndsMore(s: string, t: string)
    ensures t != "" ==> (Ends(s + t) <==> Ends(t))
  {
  }

  lemma {:induction false} OpenFacts(m: int, t: string)
    requires m >= 0
    ensures Head(m, t) == "" && LevelOf(m, t) == m
  {
  }

  lemma {:induction false} SplitOpen(level: int, s: string, t: string)
    requires s != "" && !Ends(s[..LineEnd(s)])
    ensures Then(Emit(level, s), Emit(Emit(level, s).level, t)) == Emit(level, s + t) <==> !SplitsTag(level, s, t)
  {
    hide Ends, Emit, LineEnd;
    OpenLine(level, s);
    if t == "" {
      assert s + t == s;
      NothingEmitted(LevelOf(level, s));
    } else {
      var m := LevelOf(level, s);
      OpenMore(level, m, s, t);
      var f := Emit(m, t);
      assert Tail(s) == s;
      assert |s| >= 3 ==> (s + t)[..3] == s[..3];
      if SplitsTag(level, s, t) {
        assert Head(level, s + t) == "" && |Head(level, s)| == 3;
        assert |Emit(level, s + t).text| + 3 == |Head(level, s) + s + f.text|;
      } else {
        assert |s| < 3 && level < 0 ==> !HasTag(s + t);
      }
    }
  }

  lemma {:induction false} NothingEmitted(level: int)
    ensures Emit(level, "") == Emitted("", level)
  {
  }

  lemma {:induction false} ShorterTail(s: string)
    ensures |Tail(s)| <= |s|
    decreases |s|
  {
    if s != "" && Ends(s[..LineEnd(s)]) {
      ShorterTail(s[LineEnd(s)..]);
    }
  }

  lemma {:induction false} Prefixed(p: string, a: string, b: string, c: string)
    ensures p + a + b == p + c <==> a + b == c
  {
    assert p + a + b == p + (a + b);
    assert (p + (a + b))[|p|..] == a + b && (p + c)[|p|..] == c;
  }

  // ----- any run of messages -------------------------------------------------------------------

  /** What a run of calls leaves in the log. */
  function LogAll(level: int, lines: seq<string>): Emitted {
    if lines == [] then Emitted("", level)
    else
      var a := LogAll(level, lines[..|lines| - 1]);
      Then(a, Emit(a.level, lines[|lines| - 1]))
  }

  /** The messages as one text. */
  function Flat(lines: seq<string>): string {
    if lines == [] then "" else Flat(lines[..|lines| - 1]) + lines[|lines| - 1]
  }

  /** Over every run of messages, however lines are split over calls, each line of the log starts with a
      tag, except for the rest of a line that was open when the log was reset: that is tagged only if
      the messages themselves begin with a tag. */
  lemma {:induction false} EveryLineIsTagged(level: int, lines: seq<string>)
    ensures
      var e := LogAll(level, lines);
      && TaggedFrom(e.text, if level < 0 then 0 else 1)
      && (TaggedFrom(e.text, 0) <==> level < 0 || Flat(lines) == "" || HasTag(Flat(lines)))
      && (if e.text == "" then e.level == level else e.level < 0 <==> Ends(e.text))
  {
    hide Emit, HasTag, Ends, LogAll, Flat;
    TaggedAfterFirst(level, lines);
    if level >= 0 {
      FirstLineStays(level, lines);
      var text := LogAll(level, lines).text;
      SameTag(level, Flat(lines), LogAll(level, lines));
      if text != "" {
        assert LineStart(text, 0) && text[0..] == text;
      }
    }
  }

  /** A line left open before `log reset`: the level stays, and the next message is not tagged. */
  lemma {:induction false} ResetInsideLine()
    ensures LogAll(-1, ["a"]).level == DEFAULT_LEVEL
    ensures var text := LogAll(DEFAULT_LEVEL, ["x\n"]).text; text == "x\n" && !TaggedFrom(text, 0)
  {
    OpenLine(-1, "a");
    ClosedLine(DEFAULT_LEVEL, "x\n");
    NothingEmitted(-1);
    assert LogAll(-1, [] + ["a"]) == Emit(-1, "a");
    var text := LogAll(DEFAULT_LEVEL, [] + ["x\n"]).text;
    assert text == "x\n" && LineStart(text, 0) && text[0..] == text;
  }

  /** The text of a run that starts inside a line begins with the first line of the messages, and it is
      the messages as long as that line is open. */
  predicate FirstKept(level: int, f: string, e: Emitted) {
    var k := LineEnd(f);
    && k <= |e.text| && e.text[..k] == f[..k]
    && (!Ends(f[..k]) ==> e.text == f && e.level == level)
  }

  lemma {:induction false} OneFirstKept(level: int, s: string)
    requires level >= 0
    ensures FirstKept(level, s, Emit(level, s))
  {
    hide Ends, Emit, HasTag;
    var k := LineEnd(s);
    NothingEmitted(level);
    if s != "" {
      OpenFacts(level, s);
      if Ends(s[..k]) {
        ClosedLine(level, s);
        assert (s[..k] + Emit(-1, s[k..]).text)[..k] == s[..k];
      } else {
        OpenLine(level, s);
      }
    }
  }

  lemma {:induction false} MoreKept(level: int, f: string, e: Emitted, t: string)
    requires level >= 0 && FirstKept(level, f, e)
    ensures FirstKept(level, f + t, Then(e, Emit(e.level, t)))
  {
    hide Ends, Emit, LineEnd;
    var k := LineEnd(f);
    EmptyLine(f, t);
    if Ends(f[..k]) {
      LineEndMore(f, t);
      assert (f + t)[..k] == f[..k];
      assert (e.text + Emit(e.level, t).text)[..k] == e.text[..k];
    } else {
      MoreOpen(level, f, t);
    }
  }

  lemma {:induction false} MoreOpen(level: int, f: string, t: string)
    requires level >= 0 && !Ends(f[..LineEnd(f)])
    ensures FirstKept(level, f + t, Emitted(f + Emit(level, t).text, Emit(level, t).level))
  {
    hide Ends, Emit, LineEnd;
    var j, e := LineEnd(t), Emit(level, t);
    OneFirstKept(level, t);
    EmptyLine(f, t);
    if f != "" {
      LineEndMore(f, t);
      EndsMore(f, t[..j]);
      assert (f + t)[..|f| + j] == f + t[..j];
      assert (f + e.text)[..|f| + j] == f + e.text[..j];
      if t == "" {
        NothingEmitted(level);
      }
    } else {
      assert f + t == t && f + e.text == e.text;
    }
  }

  lemma {:induction false} EmptyLine(f: string, t: string)
    ensures f == "" ==> f + t == t && LineEnd(f) == 0 && !Ends(f[..LineEnd(f)])
    ensures LineEnd(t) == 0 <==> t == ""
  {
  }

  lemma {:induction false} FirstLineStays(level: int, lines: seq<string>)
    requires level >= 0
    ensures FirstKept(level, Flat(lines), LogAll(level, lines))
  {
    hide FirstKept, Emit;
    if lines == [] {
      OneFirstKept(level, "");
      NothingEmitted(level);
    } else {
      var n := |lines| - 1;
      FirstLineStays(level, lines[..n]);
      MoreKept(level, Flat(lines[..n]), LogAll(level, lines[..n]), lines[n]);
    }
  }

  lemma {:induction false} SameTag(level: int, f: string, e: Emitted)
    requires FirstKept(level, f, e)
    ensures (HasTag(e.text) <==> HasTag(f)) && (e.text == "" <==> f == "")
  {
    var k := LineEnd(f);
    if k > 0 && f[k - 1] == '\n' {
      assert e.text[k - 1] == '\n';
    } else {
      assert f[..k] == f;
    }
  }

  lemma {:induction false} TaggedAfterFirst(level: int, lines: seq<string>)
    ensures
      var e := LogAll(level, lines);
      && TaggedFrom(e.text, if level < 0 then 0 else 1)
      && (if e.text == "" then e.level == level else e.level < 0 <==> Ends(e.text))
  {
    hide Emit, HasTag, Ends;
    if lines != [] {
      var n := |lines| - 1;
      var a := LogAll(level, lines[..n]);
      TaggedAfterFirst(level, lines[..n]);
      EmitTags(a.level, a.text, lines[n]);
      TagsJoin(a.text, Emit(a.level, lines[n]).text, if level < 0 then 0 else 1, From(a.level, a.text));
    }
  }

  lemma {:induction false} TagsJoin(s: string, t: string, from: nat, mid: nat)
    requires TaggedFrom(s, from) && TaggedFrom(s + t, mid) && mid <= |s| + from && (s != "" ==> mid <= |s|)
    ensures TaggedFrom(s + t, from)
  {
    forall i | from <= i < |s + t| && LineStart(s + t, i)
      ensures HasTag((s + t)[i..])
    {
      if i < mid {
        assert LineStart(s, i);
        assert HasTag(s[i..]);
        assert (s + t)[i..][..3] == s[i..][..3];
      }
    }
  }

  // ----- the log itself ------------------------------------------------------------------------

  lemma {:induction false} HeadLine(level: int, s: string)
    requires s != ""
    ensures
      var text, k := Head(level, s) + s, LineEnd(s);
      && LineEnd(text) == |Head(level, s)| + k
      && text[..LineEnd(text)] == Head(level, s) + s[..k] && text[LineEnd(text)..] == s[k..]
      && (Ends(Head(level, s) + s[..k]) <==> Ends(s[..k]))
  {
    hide LineEnd, Ends;
    var h := Head(level, s);
    EndsMore(h, s[..LineEnd(s)]);
    if h == "" {
      assert h + s == s && h + s[..LineEnd(s)] == s[..LineEnd(s)];
    } else {
      TagLine();
      LineEndMore(h, s);
    }
  }

  lemma {:induction false} LineEndAt(s: string, n: nat)
    requires n < |s| && s[n] == '\n' && forall i :: 0 <= i < n ==> s[i] != '\n'
    ensures LineEnd(s) == n + 1 && Ends(s[..n + 1])
  {
    if n > 0 {
      LineEndAt(s[1..], n - 1);
    }
  }

  lemma {:induction false} NoLineEnd(s: string)
    requires forall i :: 0 <= i < |s| ==> s[i] != '\n'
    ensures LineEnd(s) == |s| && !Ends(s)
  {
    if s != "" {
      NoLineEnd(s[1..]);
    }
  }

  lemma {:induction false} OldestStep(n: nat)
    ensures Oldest(n) <= n <= Oldest(n) + LEN
    ensures Oldest(n + 1) == if n - Oldest(n) < LEN then Oldest(n) else Oldest(n) + 1
  {
  }

  lemma {:induction false} TagLine()
    ensures LineEnd(DefaultTag()) == 3 && !Ends(DefaultTag()[..3])
  {
    assert DefaultTag()[1..][1..] == [DefaultTag()[2]];
    assert DefaultTag()[1..][1..][1..] == "";
  }

  function RingText(ring: seq<char>, start: nat, n: nat): (t: string)
    requires |ring| == LEN
    ensures |t| == n
  {
    seq(n, i requires 0 <= i < n => ring[((start + i) % LIMIT) % LEN])
  }

  /** The first three characters in memory, a NUL behind the last one of the message. */
  lemma {:induction false} TagInPlace(s: string, second: char, third: char)
    requires s != "" && IsText(s)
    requires second == if |s| > 1 then s[1] else '\0'
    requires |s| > 1 ==> third == if |s| > 2 then s[2] else '\0'
    ensures HasTag(s) <==> s[0] == '<' && '0' <= second <= '7' && third == '>'
    ensures HasTag(s) ==> |s| > 2
  {
  }

  lemma {:induction false} HeadIs(level: int, s: string)
    ensures level >= 0 ==> Head(level, s) + s == s && LevelOf(level, s) == level
    ensures level < 0 && HasTag(s) ==>
      Head(level, s) + s == s && |s| > 2 && LevelOf(level, s) == s[1] as int - '0' as int
    ensures level < 0 && !HasTag(s) ==> Head(level, s) == DefaultTag() && LevelOf(level, s) == DEFAULT_LEVEL
  {
  }

  lemma {:induction false} RingTextAt(ring: seq<char>, start: nat, n: nat, i: nat)
    requires |ring| == LEN && i < n
    ensures RingText(ring, start, n)[i] == ring[((start + i) % LIMIT) % LEN]
  {
  }

  /** The counters in 32 bits when character number `n` is put into the ring. */
  lemma {:induction false} CounterStep(n: nat)
    ensures
      var from := Oldest(n);
      && from <= n && Oldest(n + 1) == (if n - from < LEN then from else from + 1)
      && (n % LIMIT) % LEN == n % LEN == ((from % LIMIT + (n - from)) % LIMIT) % LEN
      && (n % LIMIT + 1) % LIMIT == (n + 1) % LIMIT && (from % LIMIT + 1) % LIMIT == (from + 1) % LIMIT
      && ((n % LIMIT + 1) % LIMIT - from % LIMIT) % LIMIT == n + 1 - from
  {
    hide Oldest;
    var from := Oldest(n);
    OldestStep(n);
    CounterIndex(n);
    WrapTwice(n, 1);
    WrapTwice(from, 1);
    WrapTwice(from, n - from);
    Difference(from, n + 1);
  }

  /** The characters of a C string. */
  predicate IsText(s: string) {
    forall i :: 0 <= i < |s| ==> s[i] != '\0'
  }

  lemma {:induction false} RestIsText(s: string, k: nat)
    requires IsText(s) && k <= |s|
    ensures IsText(s[k..])
  {
  }

  lemma {:induction false} AllEmitted(level0: int, line: string, done: string, level: int)
    requires Remaining(level0, line, done, level, "")
    ensures Emit(level0, line) == Emitted(done, level)
  {
    assert done + "" == done;
  }

  class LogBuffer {
    const v2: bool
    const lbuf: array<char>
    const buf: array<char>
    var start: nat
    var size: nat
    var end: nat
    var chars: nat
    var msgLevel: int
    ghost var stream: string

    constructor (v2: bool)
      ensures this.v2 == v2 && fresh(lbuf) && fresh(buf)
      ensures Valid() && stream == "" && msgLevel == -1
    {
      this.v2 := v2;
      lbuf, buf := new char[LEN], new char[1024];
      start, size, end, chars := 0, 0, 0, 0;
      msgLevel := -1;
      stream := "";
    }

    /** The counters of either layout stand for the same stream, here without the bound of 32 bits. */
    ghost predicate Counters()
      reads this`start, this`size, this`end, this`chars, this`stream
    {
      && chars == |stream| % LIMIT && start == Oldest(|stream|) % LIMIT
      && if v2 then end == |stream| % LIMIT else size == |stream| - Oldest(|stream|)
    }

    ghost predicate Ring()
      reads this`start, this`size, this`end, this`chars, this`stream, lbuf
    {
      Counters() && Holds(lbuf[..], stream)
    }

    ghost predicate Valid()
      reads this`start, this`size, this`end, this`chars, this`stream, lbuf
    {
      lbuf != buf && buf.Length == 1024 && lbuf.Length == LEN && Ring()
    }

    /** How many characters a reader of the buffer finds in it. */
    function Length(): nat
      reads this
    {
      if v2 then (end - start) % LIMIT else size
    }

    /** What a reader of the buffer finds in it. */
    function Shown(): string
      requires lbuf.Length == LEN
      reads this, lbuf
    {
      RingText(lbuf[..], start, Length())
    }

    /** Whichever the layout, that is the last LEN characters logged since the last reset. */
    lemma {:induction false} ShownIsLast()
      requires Valid()
      ensures lbuf.Length == LEN && Shown() == Last(stream)
    {
      hide Holds;
      HeldLength(lbuf[..], stream);
      var from, n := Oldest(|stream|), |stream| - Oldest(|stream|);
      if v2 {
        Difference(from, |stream|);
      }
      assert Length() == n;
      forall i | 0 <= i < n
        ensures Shown()[i] == Last(stream)[i]
      {
        WrapTwice(from, i);
        CounterIndex(from + i);
        HeldAt(lbuf[..], stream, from + i);
      }
    }

    method Put(c: char)
      requires Valid()
      modifies this`start, this`size, this`end, this`chars, this`stream, lbuf
      ensures Valid() && stream == old(stream) + [c]
    {
      hide Holds, Oldest;
      HoldsMore(lbuf[..], stream, c);
      CounterStep(|stream|);
      if v2 {
        lbuf[end % LEN] := c;
        end := (end + 1) % LIMIT;
        if (end - start) % LIMIT > LEN {
          start := (start + 1) % LIMIT;
        }
      } else {
        lbuf[((start + size) % LIMIT) % LEN] := c;
        if size < LEN {
          size := size + 1;
        } else {
          start := (start + 1) % LIMIT;
        }
      }
      chars := (chars + 1) % LIMIT;
      stream := stream + [c];
    }

    /** The inner loop: from `p` up to a newline or the end of the message. */
    method PutLine(p: nat, bufEnd: nat) returns (q: nat, lineFeed: bool)
      requires Valid() && p < bufEnd <= buf.Length
      modifies this`start, this`size, this`end, this`chars, this`stream, lbuf
      ensures Valid()
      ensures
        var text := buf[p..bufEnd];
        var k := LineEnd(text);
        && stream == old(stream) + text[..k]
        && (lineFeed <==> Ends(text[..k]))
        && q == if lineFeed then p + k - 1 else bufEnd
    {
      hide Ring, LineEnd, Ends;
      lineFeed, q := false, p;
      ghost var text := buf[p..bufEnd];
      while q < bufEnd
        invariant p <= q <= bufEnd
        invariant Valid() && buf[p..bufEnd] == text && stream == old(stream) + text[..q - p]
        invariant forall i :: 0 <= i < q - p ==> text[i] != '\n'
      {
        Put(buf[q]);
        assert old(stream) + text[..q - p] + [buf[q]] == old(stream) + text[..q + 1 - p];
        if buf[q] == '\n' {
          lineFeed := true;
          LineEndAt(text, q - p);
          return;
        }
        q := q + 1;
      }
      NoLineEnd(text);
      assert text[..|text|] == text;
    }

    /** The tag of a line that begins: the one it has, or the default one, put in front in place. */
    method StartLine(p: nat, bufEnd: nat) returns (q: nat)
      requires buf.Length == 1024 && 3 <= p < bufEnd < buf.Length && buf[bufEnd] == '\0' && lbuf != buf
      requires IsText(buf[p..bufEnd])
      modifies this`msgLevel, buf
      ensures q <= p && q + 3 >= p && buf[bufEnd] == '\0'
      ensures
        var s, level := old(buf[p..bufEnd]), old(msgLevel);
        buf[q..bufEnd] == Head(level, s) + s && msgLevel == LevelOf(level, s)
    {
      hide HasTag, DefaultTag, Head, LevelOf;
      ghost var s := buf[p..bufEnd];
      HeadIs(msgLevel, s);
      q := p;
      if msgLevel < 0 {
        TagInBuffer(p, bufEnd);
        if buf[q] != '<' || buf[q + 1] < '0' || buf[q + 1] > '7' || buf[q + 2] != '>' {
          PutTag(q, bufEnd);
          q := q - 3;
          assert buf[q..bufEnd] == DefaultTag() + s;
        } else {
          assert buf[q..bufEnd] == s && buf[q + 1] == s[1];
        }
        msgLevel := buf[q + 1] as int - '0' as int;
      }
    }

    /** The test on the buffer is that of the text, which may be shorter than a tag. */
    lemma {:induction false} TagInBuffer(p: nat, bufEnd: nat)
      requires 3 <= p < bufEnd < buf.Length == 1024 && buf[bufEnd] == '\0' && IsText(buf[p..bufEnd])
      ensures
        var s := buf[p..bufEnd];
        && p + 1 < buf.Length && (buf[p + 1] == '\0' || p + 2 < buf.Length)
        && (HasTag(s) ==> p + 2 < bufEnd)
        && (HasTag(s) <==>
              buf[p] == '<' && '0' <= buf[p + 1] && buf[p + 1] <= '7' && p + 2 < buf.Length && buf[p + 2] == '>')
    {
      hide HasTag, IsText;
      var s := buf[p..bufEnd];
      assert s[0] == buf[p] && (|s| > 1 ==> s[1] == buf[p + 1]) && (|s| > 2 ==> s[2] == buf[p + 2]);
      TagInPlace(s, buf[p + 1], if |s| > 1 then buf[p + 2] else '\0');
      if |s| == 1 {
        assert buf[p + 1] == '\0';
      }
    }

    method PutTag(p: nat, bufEnd: nat)
      requires 3 <= p < bufEnd < buf.Length
      modifies buf
      ensures buf[p - 3..bufEnd] == DefaultTag() + old(buf[p..bufEnd]) && buf[bufEnd] == old(buf[bufEnd])
      ensures buf[p - 2] as int - '0' as int == DEFAULT_LEVEL
    {
      buf[p - 3] := '<';
      buf[p - 2] := '0' + DEFAULT_LEVEL as char;
      buf[p - 1] := '>';
    }

    /** The body of the outer loop. */
    method PrintLine(p: nat, bufEnd: nat) returns (next: nat)
      requires Valid() && 3 <= p < bufEnd < buf.Length && buf[bufEnd] == '\0' && IsText(buf[p..bufEnd])
      modifies this`start, this`size, this`end, this`chars, this`stream, this`msgLevel, lbuf, buf
      ensures Valid() && buf[bufEnd] == '\0' && next >= 3
      ensures
        var s, level := old(buf[p..bufEnd]), old(msgLevel);
        var k := LineEnd(s);
        && stream == old(stream) + (Head(level, s) + s[..k])
        && msgLevel == NextLevel(level, s)
        && s[k..] == if next < bufEnd then buf[next..bufEnd] else ""
    {
      hide Ring, LineEnd, Ends, LevelOf, Head, HasTag;
      ghost var level, s := msgLevel, buf[p..bufEnd];
      HeadLine(level, s);
      var q := StartLine(p, bufEnd);
      ghost var text := buf[q..bufEnd];
      ghost var k := LineEnd(text);
      var lineFeed;
      next, lineFeed := PutLine(q, bufEnd);
      if lineFeed {
        msgLevel := -1;
        assert buf[q + k..bufEnd] == text[k..];
      } else {
        OpenLine(level, s);
      }
      next := next + 1;
    }

    method CopyLine(line: string)
      requires buf.Length == 1024 && |line| <= 1020
      modifies buf
      ensures buf[3..3 + |line|] == line && buf[3 + |line|] == '\0'
    {
      for i := 0 to |line|
        invariant buf[3..3 + i] == line[..i]
      {
        buf[3 + i] := line[i];
      }
      buf[3 + |line|] := '\0';
    }

    method LogbuffPrintk(line: string) returns (i: nat)
      requires Valid() && |line| <= 1020 && IsText(line)
      modifies this`start, this`size, this`end, this`chars, this`stream, this`msgLevel, lbuf, buf
      ensures Valid() && i == |line|
      ensures
        var e := Emit(old(msgLevel), line);
        stream == old(stream) + e.text && msgLevel == e.level
    {
      hide Ring, Emit, LineEnd, Ends, Head, LevelOf, NextLevel, Then, IsText, Remaining;
      CopyLine(line);
      i := |line|;
      var bufEnd, p := 3 + i, 3;
      ghost var rest, done := line, "";
      NothingDone(msgLevel, line);
      assert stream + done == stream;
      while p < bufEnd
        invariant 3 <= p && rest == if p < bufEnd then buf[p..bufEnd] else ""
        invariant Valid() && buf[bufEnd] == '\0' && IsText(rest)
        invariant stream == old(stream) + done
        invariant Remaining(old(msgLevel), line, done, msgLevel, rest)
        decreases |rest|
      {
        ghost var level, s := msgLevel, rest;
        LineStep(old(msgLevel), line, done, level, s);
        RestIsText(s, LineEnd(s));
        p := PrintLine(p, bufEnd);
        Longer(old(stream), done, Head(level, s) + s[..LineEnd(s)]);
        done, rest := done + (Head(level, s) + s[..LineEnd(s)]), s[LineEnd(s)..];
      }
      AllEmitted(old(msgLevel), line, done, msgLevel);
    }

    /** `log reset`: the level, and with it an open line, survives. */
    method LogbuffReset()
      requires Valid()
      modifies this`start, this`size, this`end, this`chars, this`stream
      ensures Valid() && stream == "" && msgLevel == old(msgLevel)
    {
      start, size, end, chars := 0, 0, 0, 0;
      stream := "";
    }

    /** `log show`: the count is masked, so that a full buffer shows nothing. */
    method LogShow() returns (out: string)
      requires Valid()
      ensures out == if |stream| < LEN then stream else ""
    {
      hide Ring, Counters, RingText;
      ShownIsLast();
      var length := if v2 then (end - start) % LIMIT else size;
      out := "";
      for i := 0 to length % LEN
        invariant out == Shown()[..i]
      {
        RingTextAt(lbuf[..], start, Length(), i);
        out := out + [lbuf[((start + i) % LIMIT) % LEN]];
      }
    }
  }

  lemma {:induction false} Longer(stream: string, done: string, line: string)
    ensures stream + done + line == stream + (done + line)
  {
  }

  /** What a message logs is `done` and what the rest of it logs. */
  predicate Remaining(level0: int, line: string, done: string, level: int, rest: string) {
    Emit(level0, line) == Then(Emitted(done, level), Emit(level, rest))
  }

  lemma {:induction false} NothingDone(level: int, line: string)
    ensures Remaining(level, line, "", level, line)
  {
    hide Emit;
    assert "" + Emit(level, line).text == Emit(level, line).text;
  }

  lemma {:induction false} LineStep(level0: int, line: string, done: string, level: int, s: string)
    requires s != "" && Remaining(level0, line, done, level, s)
    ensures var k := LineEnd(s);
      k > 0 && Remaining(level0, line, done + (Head(level, s) + s[..k]), NextLevel(level, s), s[k..])
  {
    hide Head, LevelOf, Ends, Emit;
    NextEmit(level, s);
    var k := LineEnd(s);
    var first, rest := Head(level, s) + s[..k], Emit(NextLevel(level, s), s[k..]);
    assert done + (first + rest.text) == done + first + rest.text;
  }

  lemma {:induction false} Difference(from: nat, to: nat)
    requires from <= to <= from + LEN + 1
    ensures (to % LIMIT - from % LIMIT) % LIMIT == to - from
  {
  }

  lemma {:induction false} HeldAt(ring: seq<char>, s: string, n: nat)
    requires Holds(ring, s) && Oldest(|s|) <= n < |s|
    ensures |ring| == LEN && ring[n % LEN] == s[n]
  {
  }

  lemma {:induction false} HeldLength(ring: seq<char>, s: string)
    requires Holds(ring, s)
    ensures |ring| == LEN
  {
  }
}