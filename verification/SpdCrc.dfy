/** The CRC-16 of DDR3 SPD contents (common/ddr_spd.c; JEDEC Standard No. 21-C, section 4.1.2.11,
    Annex K, bytes 126-127): the remainder of the message, followed by 16 zero bits, modulo
    x^16 + x^12 + x^5 + 1 over the two-element field. */
module SpdCrc {

  const POLY: bv16 := 0x1021

  type Bits = seq<bool>

  // ----- the register, one bit at a time -------------------------------------------------------

  function Top(c: bv16): bool {
    c & 0x8000 != 0
  }

  /** The sum of two polynomials. */
  function Add(a: bv16, b: bv16): bv16 {
    a ^ b
  }

  /** The product with x, less its highest term. */
  function Twice(c: bv16): bv16 {
    c << 1
  }

  /** The product with x, modulo the polynomial. */
  function Shift(c: bv16): bv16 {
    if Top(c) then Add(Twice(c), POLY) else Twice(c)
  }

  /** The register after one more message bit. */
  function Feed(c: bv16, b: bool): bv16 {
    if Top(c) != b then Add(Twice(c), POLY) else Twice(c)
  }

  function FeedAll(c: bv16, m: Bits): bv16 {
    if m == [] then c else Feed(FeedAll(c, m[..|m| - 1]), m[|m| - 1])
  }

  function CrcBits(m: Bits): bv16 {
    FeedAll(0, m)
  }

  lemma {:induction false} FeedConcat(c: bv16, s: Bits, t: Bits)
    ensures FeedAll(c, s + t) == FeedAll(FeedAll(c, s), t)
  {
    hide Feed;
    if t == [] {
      assert s + t == s;
    } else {
      var u := t[..|t| - 1];
      assert (s + t)[..|s + t| - 1] == s + u;
      FeedConcat(c, s, u);
    }
  }

  // ----- the facts about single words ----------------------------------------------------------

  lemma {:induction false} AddTop(a: bv16, b: bv16)
    ensures Top(Add(a, b)) <==> (Top(a) != Top(b))
    ensures Twice(Add(a, b)) == Add(Twice(a), Twice(b))
  {
    hide Top, Add, Twice;
    AddTopBit(a, b);
    AddTwice(a, b);
  }

  lemma {:induction false} AddTopBit(a: bv16, b: bv16)
    ensures Top(Add(a, b)) <==> (Top(a) != Top(b))
  {
  }

  lemma {:induction false} AddTwice(a: bv16, b: bv16)
    ensures Twice(Add(a, b)) == Add(Twice(a), Twice(b))
  {
  }

  lemma {:induction false} AddPoly(u: bv16, v: bv16)
    ensures Add(Add(u, POLY), Add(v, POLY)) == Add(u, v)
  {
  }

  lemma {:induction false} AddPolyOnce(u: bv16, v: bv16)
    ensures Add(Add(u, POLY), v) == Add(Add(u, v), POLY)
  {
  }

  lemma {:induction false} AddPolyAfter(u: bv16, v: bv16)
    ensures Add(u, Add(v, POLY)) == Add(Add(u, v), POLY)
  {
  }

  lemma {:induction false} AddZero(u: bv16)
    ensures Add(u, 0) == u && Add(0, u) == u
  {
  }

  lemma {:induction false} AddBack(u: bv16, v: bv16)
    ensures Add(Add(u, v), v) == u
  {
  }

  lemma {:induction false} AddIsZero(u: bv16, v: bv16)
    ensures Add(u, v) == 0 <==> u == v
  {
    hide Add;
    AddBack(u, v);
    AddBack(0, v);
    AddZero(v);
  }

  lemma {:induction false} IsZero(c: bv16)
    ensures !Top(c) && Twice(c) == 0 <==> c == 0
    ensures Shift(c) == 0 <==> c == 0
  {
  }

  lemma {:induction false} FeedAdd(a: bv16, b: bv16, x: bool, y: bool)
    ensures Feed(Add(a, b), x != y) == Add(Feed(a, x), Feed(b, y))
  {
    hide Top, Add, Twice;
    AddTop(a, b);
    AddPoly(Twice(a), Twice(b));
    AddPolyOnce(Twice(a), Twice(b));
    AddPolyAfter(Twice(a), Twice(b));
  }

  /** Bits waiting in the high end of the register are the next bits fed. */
  lemma {:induction false} FeedPending(c: bv16, p: bv16)
    ensures Shift(Add(c, p)) == Add(Feed(c, Top(p)), Twice(p))
  {
    hide Top, Add, Twice;
    AddTop(c, p);
    AddPoly(Twice(c), Twice(p));
    AddPolyOnce(Twice(c), Twice(p));
    AddPolyAfter(Twice(c), Twice(p));
  }

  // ----- the bits of a word, highest first -----------------------------------------------------

  function Digits(c: bv16, n: nat): (r: Bits)
    ensures |r| == n
    decreases n
  {
    if n == 0 then [] else [Top(c)] + Digits(Twice(c), n - 1)
  }

  function ShiftOut(c: bv16, n: nat): bv16
    decreases n
  {
    if n == 0 then c else ShiftOut(Twice(c), n - 1)
  }

  /** The sixteen coefficients of a register value. */
  function Coefficients(c: bv16): (r: Bits)
    ensures |r| == 16
  {
    Digits(c, 16)
  }

  lemma {:induction false} DigitsXor(a: bv16, b: bv16, n: nat)
    ensures Digits(Add(a, b), n) == Xor(Digits(a, n), Digits(b, n))
    decreases n
  {
    hide Top, Add, Twice;
    if n > 0 {
      AddTop(a, b);
      DigitsXor(Twice(a), Twice(b), n - 1);
    }
  }

  lemma {:induction false} DigitsGrow(c: bv16, n: nat)
    ensures Digits(c, n + 1) == Digits(c, n) + [Top(ShiftOut(c, n))]
    decreases n
  {
    hide Top;
    if n > 0 {
      DigitsGrow(Twice(c), n - 1);
    } else {
      assert Digits(Twice(c), 0) == [];
    }
  }

  lemma {:induction false} CoefficientsXor(a: bv16, b: bv16)
    ensures Coefficients(Add(a, b)) == Xor(Coefficients(a), Coefficients(b))
  {
    DigitsXor(a, b, 16);
  }

  lemma {:induction false} TwiceFour(c: bv16)
    ensures Twice(Twice(Twice(Twice(c)))) == c << 4
  {
  }

  lemma {:induction false} ShiftOutThree(c: bv16)
    ensures ShiftOut(c, 3) == Twice(Twice(Twice(c)))
  {
    hide Twice;
    assert ShiftOut(c, 3) == ShiftOut(Twice(c), 2) == ShiftOut(Twice(Twice(c)), 1);
  }

  lemma {:induction false} ShiftOutFour(c: bv16)
    ensures ShiftOut(c, 4) == c << 4
  {
    TwiceFour(c);
    ShiftOutThree(Twice(c));
    assert ShiftOut(c, 4) == ShiftOut(Twice(c), 3);
  }

  lemma {:induction false} ShiftOutMore(c: bv16, m: nat, n: nat)
    ensures ShiftOut(c, m + n) == ShiftOut(ShiftOut(c, m), n)
    decreases m
  {
    if m > 0 {
      ShiftOutMore(Twice(c), m - 1, n);
    }
  }

  lemma {:induction false} ShiftOutEight(c: bv16)
    ensures ShiftOut(c, 8) == c << 8
  {
    ShiftOutFour(c);
    ShiftOutFour(c << 4);
    ShiftOutMore(c, 4, 4);
    assert c << 4 << 4 == c << 8;
  }

  lemma {:induction false} ShiftOutAll(c: bv16)
    ensures ShiftOut(c, 16) == 0
  {
    ShiftOutEight(c);
    ShiftOutEight(c << 8);
    ShiftOutMore(c, 8, 8);
  }

  lemma {:induction false} ZeroDigits(n: nat)
    ensures Digits(0, n) == Zeros(n)
  {
    if n > 0 {
      ZeroDigits(n - 1);
    }
  }

  lemma {:induction false} DigitsZero(c: bv16, n: nat)
    requires Digits(c, n) == Zeros(n) && ShiftOut(c, n) == 0
    ensures c == 0
    decreases n
  {
    hide Top;
    if n > 0 {
      assert Digits(c, n)[0] == false;
      assert Digits(Twice(c), n - 1) == Digits(c, n)[1..] == Zeros(n - 1);
      DigitsZero(Twice(c), n - 1);
      IsZero(c);
    }
  }

  lemma {:induction false} CoefficientsZero(c: bv16)
    ensures Coefficients(c) == Zeros(16) <==> c == 0
  {
    ShiftOutAll(c);
    ZeroDigits(16);
    if Coefficients(c) == Zeros(16) {
      DigitsZero(c, 16);
    }
  }

  /** One more bit, coefficient by coefficient. */
  lemma {:induction false} FeedCoefficients(r: bv16, b: bool)
    ensures
      var g := if Top(r) != b then Coefficients(POLY) else Zeros(16);
      Coefficients(Feed(r, b)) == Xor(Coefficients(r)[1..] + [false], g)
  {
    hide Top, Digits;
    ShiftedCoefficients(r);
    DigitsXor(Twice(r), POLY, 16);
  }

  lemma {:induction false} ShiftedCoefficients(r: bv16)
    ensures Coefficients(r)[0] == Top(r)
    ensures Coefficients(Twice(r)) == Coefficients(r)[1..] + [false]
  {
    hide Top;
    DigitsGrow(Twice(r), 15);
    ShiftOutAll(r);
    assert ShiftOut(Twice(r), 15) == 0;
    IsZero(0);
    assert Digits(r, 16) == [Top(r)] + Digits(Twice(r), 15);
  }

  // ----- polynomials over the two-element field, highest coefficient first --------------------

  function Xor(a: Bits, b: Bits): (r: Bits)
    requires |a| == |b|
    ensures |r| == |a|
    ensures forall i :: 0 <= i < |a| ==> r[i] == (a[i] != b[i])
  {
    seq(|a|, i requires 0 <= i < |a| => a[i] != b[i])
  }

  function Zeros(n: nat): (r: Bits)
    ensures |r| == n && forall i :: 0 <= i < n ==> !r[i]
  {
    seq(n, _ => false)
  }

  /** x^16 + x^12 + x^5 + 1 */
  function Generator(): (r: Bits)
    ensures |r| == 17 && r[0]
  {
    [true] + Coefficients(POLY)
  }

  /** The product of a polynomial with the generator: schoolbook multiplication. */
  function TimesGenerator(q: Bits): (r: Bits)
    ensures |r| == |q| + 16
  {
    if q == [] then Zeros(16)
    else
      var shifted := TimesGenerator(q[..|q| - 1]) + [false];
      if q[|q| - 1] then Xor(shifted, Zeros(|q| - 1) + Generator()) else shifted
  }

  /** m * x^16 == q * generator + r, with r of degree below 16. */
  ghost predicate IsDivision(m: Bits, q: Bits, r: bv16) {
    |q| == |m| && m + Zeros(16) == Xor(TimesGenerator(q), Zeros(|m|) + Coefficients(r))
  }

  ghost predicate IsRemainder(m: Bits, r: bv16) {
    exists q: Bits :: IsDivision(m, q, r)
  }

  lemma {:induction false} DivisionStep(m: Bits, b: bool, q: Bits, r: bv16)
    requires IsDivision(m, q, r)
    ensures IsDivision(m + [b], q + [Top(r) != b], Feed(r, b))
  {
    hide Coefficients, Top, Feed, Generator;
    var t := Top(r) != b;
    var n := |m|;
    assert (q + [t])[..n] == q;
    FeedCoefficients(r, b);
    ShiftedCoefficients(r);
    var g := if t then Generator() else Zeros(17);
    GeneratorTail();
    assert TimesGenerator(q + [t]) == Xor(TimesGenerator(q) + [false], Zeros(n) + g);
    Rearrange(m, b, TimesGenerator(q), Coefficients(r), g, Coefficients(Feed(r, b)));
  }

  lemma {:induction false} GeneratorTail()
    ensures Generator()[1..] == Coefficients(POLY)
  {
  }

  /** Subtracting the generator, or not, from a partial remainder and moving on one place. */
  lemma {:induction false} Rearrange(m: Bits, b: bool, times: Bits, c: Bits, g: Bits, d: Bits)
    requires |times| == |m| + 16 && |c| == |d| == 16 && |g| == 17
    requires m + Zeros(16) == Xor(times, Zeros(|m|) + c)
    requires g[0] == (c[0] != b) && d == Xor(c[1..] + [false], g[1..])
    ensures m + [b] + Zeros(16) == Xor(Xor(times + [false], Zeros(|m|) + g), Zeros(|m| + 1) + d)
  {
    var n := |m|;
    var lhs, rhs := m + [b] + Zeros(16), Xor(Xor(times + [false], Zeros(n) + g), Zeros(n + 1) + d);
    forall i | 0 <= i < n + 17
      ensures lhs[i] == rhs[i]
    {
      if i < n + 16 {
        assert (m + Zeros(16))[i] == (times[i] != (Zeros(n) + c)[i]);
      }
      if n < i {
        assert d[i - n - 1] == ((c[1..] + [false])[i - n - 1] != g[1..][i - n - 1]);
      }
    }
  }

  /** The register holds the remainder of what it has been fed. */
  lemma {:induction false} CrcDivides(m: Bits) returns (q: Bits)
    ensures IsDivision(m, q, CrcBits(m))
  {
    hide IsDivision, Feed, Top;
    if m == [] {
      q := [];
      EmptyDivision();
    } else {
      var front, b := m[..|m| - 1], m[|m| - 1];
      var p := CrcDivides(front);
      q := p + [Top(CrcBits(front)) != b];
      DivisionStep(front, b, p, CrcBits(front));
      assert m == front + [b];
    }
  }

  lemma {:induction false} EmptyDivision()
    ensures IsDivision([], [], 0)
  {
    CoefficientsZero(0);
  }

  lemma {:induction false} TimesGeneratorXor(p: Bits, q: Bits)
    requires |p| == |q|
    ensures TimesGenerator(Xor(p, q)) == Xor(TimesGenerator(p), TimesGenerator(q))
  {
    hide Generator;
    if p != [] {
      var n := |p| - 1;
      TimesGeneratorXor(p[..n], q[..n]);
      assert Xor(p, q)[..n] == Xor(p[..n], q[..n]);
    }
  }

  lemma {:induction false} TimesGeneratorZeros(n: nat)
    ensures TimesGenerator(Zeros(n)) == Zeros(n + 16)
  {
    if n > 0 {
      TimesGeneratorZeros(n - 1);
      assert Zeros(n)[..n - 1] == Zeros(n - 1);
    }
  }

  /** A multiple of the generator of degree below 16 is zero. */
  lemma {:induction false} LowMultipleIsZero(q: Bits)
    requires TimesGenerator(q)[..|q|] == Zeros(|q|)
    ensures q == Zeros(|q|)
  {
    hide Coefficients;
    if q != [] {
      var n := |q| - 1;
      var front := TimesGenerator(q[..n]);
      forall i | 0 <= i < n
        ensures front[i] == false
      {
        assert TimesGenerator(q)[..n + 1][i] == false;
      }
      assert front[..n] == Zeros(n);
      LowMultipleIsZero(q[..n]);
      TimesGeneratorZeros(n);
      assert front[n] == false;
      assert TimesGenerator(q)[..n + 1][n] == false;
      assert q == q[..n] + [q[n]];
    }
  }

  /** A multiple of the generator by fewer than `n` coefficients, all of whose last `n` are zero, is zero. */
  lemma {:induction false} HighMultipleIsZero(q: Bits, n: nat)
    requires |q| <= n <= |q| + 16
    requires TimesGenerator(q)[|q| + 16 - n..] == Zeros(n)
    ensures q == Zeros(|q|)
  {
    hide Coefficients;
    if q != [] {
      var k := |q| - 1;
      var product, front := TimesGenerator(q), TimesGenerator(q[..k]);
      assert product[k + 16] == product[|q| + 16 - n..][n - 1] == false;
      GeneratorIsOdd();
      assert !q[k];
      forall i | k + 17 - n <= i < k + 16
        ensures front[i] == false
      {
        assert product[i] == product[|q| + 16 - n..][i - (|q| + 16 - n)];
      }
      assert front[k + 16 - (n - 1)..] == Zeros(n - 1);
      HighMultipleIsZero(q[..k], n - 1);
      assert q == q[..k] + [q[k]];
    }
  }

  lemma {:induction false} GeneratorIsOdd()
    ensures Generator()[16]
  {
    hide Top, Twice;
    DigitsGrow(POLY, 15);
    var eight, twelve, last: bv16 := 0x2100, 0x1000, 0x8000;
    ShiftOutMore(POLY, 8, 7);
    ShiftOutMore(eight, 4, 3);
    ShiftOutEight(POLY);
    ShiftOutFour(eight);
    ShiftOutThree(twelve);
    assert POLY << 8 == eight && eight << 4 == twelve;
    TwiceThree();
    TopBit();
    assert ShiftOut(POLY, 15) == last;
  }

  lemma {:induction false} TwiceThree()
    ensures Twice(Twice(Twice(0x1000))) == 0x8000
  {
  }

  lemma {:induction false} TopBit()
    ensures Top(0x8000)
  {
  }

  /** Quotient and remainder are unique. */
  lemma {:induction false} DivisionIsUnique(m: Bits, p: Bits, r: bv16, q: Bits, s: bv16)
    requires IsDivision(m, p, r) && IsDivision(m, q, s)
    ensures r == s && p == q
  {
    hide Coefficients, TimesGenerator;
    var n := |m|;
    var d := Xor(p, q);
    TimesGeneratorXor(p, q);
    CoefficientsXor(r, s);
    assert TimesGenerator(d) == Zeros(n) + Coefficients(Add(r, s));
    assert TimesGenerator(d)[..n] == Zeros(n);
    LowMultipleIsZero(d);
    TimesGeneratorZeros(n);
    assert Coefficients(Add(r, s)) == TimesGenerator(d)[n..] == Zeros(16);
    CoefficientsZero(Add(r, s));
    assert r == s;
    forall i | 0 <= i < n
      ensures p[i] == q[i]
    {
      assert d[i] == Zeros(n)[i];
    }
  }

  /** The CRC is exactly the remainder of the message times x^16. */
  lemma {:induction false} CrcIsRemainder(m: Bits, r: bv16)
    ensures IsRemainder(m, r) <==> r == CrcBits(m)
  {
    hide IsDivision, CrcBits;
    var q := CrcDivides(m);
    forall p: Bits | IsDivision(m, p, r)
      ensures r == CrcBits(m)
    {
      DivisionIsUnique(m, p, r, q, CrcBits(m));
    }
  }

  // ----- error detection -----------------------------------------------------------------------

  /** Linearity on messages of one length. */
  lemma {:induction false} CrcXor(m: Bits, e: Bits)
    requires |m| == |e|
    ensures CrcBits(Xor(m, e)) == Add(CrcBits(m), CrcBits(e))
  {
    hide Feed;
    if m == [] {
      AddZero(0);
    } else {
      var n := |m| - 1;
      assert Xor(m, e)[..n] == Xor(m[..n], e[..n]);
      CrcXor(m[..n], e[..n]);
      FeedAdd(CrcBits(m[..n]), CrcBits(e[..n]), m[n], e[n]);
    }
  }

  lemma {:induction false} ZerosKeep(c: bv16, n: nat)
    ensures FeedAll(c, Zeros(n)) == 0 <==> c == 0
  {
    hide Feed;
    if n > 0 {
      assert Zeros(n)[..n - 1] == Zeros(n - 1);
      ZerosKeep(c, n - 1);
      var d := FeedAll(c, Zeros(n - 1));
      FeedZero(d);
    }
  }

  lemma {:induction false} FeedZero(c: bv16)
    ensures Feed(c, false) == 0 <==> c == 0
  {
    IsZero(c);
  }

  lemma {:induction false} ShortCrc(w: Bits)
    requires |w| <= 16 && CrcBits(w) == 0
    ensures w == Zeros(|w|)
  {
    hide Coefficients, TimesGenerator, CrcBits;
    var q := CrcDivides(w);
    CoefficientsZero(0);
    var n := |w|;
    assert TimesGenerator(q) == w + Zeros(16) by {
      var product := TimesGenerator(q);
      assert w + Zeros(16) == Xor(product, Zeros(n) + Coefficients(0));
      assert Zeros(n) + Coefficients(0) == Zeros(n + 16);
      forall i | 0 <= i < n + 16
        ensures product[i] == (w + Zeros(16))[i]
      {
        assert Zeros(n + 16)[i] == false;
      }
    }
    assert TimesGenerator(q)[n + 16 - 16..] == Zeros(16);
    HighMultipleIsZero(q, 16);
    TimesGeneratorZeros(n);
    assert w == TimesGenerator(q)[..n];
  }

  lemma {:induction false} ShortCrcIsNonzero(w: Bits, k: nat)
    requires k < |w| <= 16 && w[k]
    ensures CrcBits(w) != 0
  {
    hide CrcBits;
    if CrcBits(w) == 0 {
      ShortCrc(w);
      assert false;
    }
  }

  lemma {:induction false} EmbeddedCrc(p: nat, w: Bits, n: nat)
    ensures CrcBits(Zeros(p) + w + Zeros(n)) == 0 <==> CrcBits(w) == 0
  {
    hide FeedAll;
    FeedConcat(0, Zeros(p) + w, Zeros(n));
    FeedConcat(0, Zeros(p), w);
    ZerosKeep(0, p);
    ZerosKeep(CrcBits(w), n);
  }

  lemma {:induction false} BurstShape(e: Bits, p: nat, hi: nat)
    requires p <= hi <= |e|
    requires forall i :: 0 <= i < |e| && !(p <= i < hi) ==> !e[i]
    ensures e == Zeros(p) + e[p..hi] + Zeros(|e| - hi)
  {
  }

  /** Messages that differ, but only within sixteen consecutive bits, have different CRCs. */
  lemma {:induction false} BurstIsDetected(a: Bits, b: Bits, p: nat)
    requires |a| == |b| && a != b
    requires forall i :: 0 <= i < |a| && !(p <= i < p + 16) ==> a[i] == b[i]
    ensures CrcBits(a) != CrcBits(b)
  {
    hide CrcBits, Xor, Zeros, Add;
    var hi, k := BurstBounds(a, b, p);
    var e := Xor(a, b);
    var w := e[p..hi];
    CrcXor(a, b);
    assert w[k - p];
    ShortCrcIsNonzero(w, k - p);
    EmbeddedCrc(p, w, |a| - hi);
    AddIsZero(CrcBits(a), CrcBits(b));
  }

  lemma {:induction false} BurstBounds(a: Bits, b: Bits, p: nat) returns (hi: nat, k: nat)
    requires |a| == |b| && a != b
    requires forall i :: 0 <= i < |a| && !(p <= i < p + 16) ==> a[i] == b[i]
    ensures p <= k < hi <= |a| && hi <= p + 16 && Xor(a, b)[k]
    ensures Xor(a, b) == Zeros(p) + Xor(a, b)[p..hi] + Zeros(|a| - hi)
  {
    hide Xor, Zeros;
    k :| 0 <= k < |a| && a[k] != b[k];
    hi := if p + 16 < |a| then p + 16 else |a|;
    var e := Xor(a, b);
    assert e[k] && forall i :: 0 <= i < |e| && !(p <= i < hi) ==> !e[i];
    BurstShape(e, p, hi);
  }

  // ----- the byte-wise loop --------------------------------------------------------------------

  /** The bits of one byte, most significant first. */
  function ByteBits(b: bv8): (r: Bits)
    ensures |r| == 8
  {
    Digits((b as bv16) << 8, 8)
  }

  function MessageBits(m: seq<bv8>): (r: Bits)
    ensures |r| == 8 * |m|
  {
    if m == [] then [] else MessageBits(m[..|m| - 1]) + ByteBits(m[|m| - 1])
  }

  function Crc(m: seq<bv8>): bv16 {
    CrcBits(MessageBits(m))
  }

  /** `n` steps of the inner loop, on sixteen bits. */
  function Steps(c: bv16, n: nat): bv16 {
    if n == 0 then c else Shift(Steps(c, n - 1))
  }

  /** Bits put into the high end of the register at once count as if fed one by one. */
  lemma {:induction false} StepsFeed(c: bv16, p: bv16, n: nat)
    ensures Steps(Add(c, p), n) == Add(FeedAll(c, Digits(p, n)), ShiftOut(p, n))
  {
    hide Add, Shift, Feed, Top, Twice;
    if n > 0 {
      StepsFeed(c, p, n - 1);
      DigitsGrow(p, n - 1);
      ShiftOutMore(p, n - 1, 1);
      var d := Digits(p, n);
      assert d[..n - 1] == Digits(p, n - 1);
      FeedPending(FeedAll(c, Digits(p, n - 1)), ShiftOut(p, n - 1));
      ShiftOutOne(ShiftOut(p, n - 1));
    }
  }

  lemma {:induction false} ShiftOutOne(c: bv16)
    ensures ShiftOut(c, 1) == Twice(c)
  {
    hide Twice;
    assert ShiftOut(Twice(c), 0) == Twice(c);
  }

  lemma {:induction false} ByteSteps(c: bv16, b: bv8)
    ensures Steps(Add(c, (b as bv16) << 8), 8) == FeedAll(c, ByteBits(b))
  {
    hide Add, FeedAll, Steps;
    var p := (b as bv16) << 8;
    StepsFeed(c, p, 8);
    ShiftOutEight(p);
    ByteIsGone(b);
    AddZero(FeedAll(c, ByteBits(b)));
  }

  lemma {:induction false} ByteIsGone(b: bv8)
    ensures (b as bv16) << 8 << 8 == 0
  {
  }

  /** The low sixteen bits of the C register. */
  function Low(c: bv32): bv16 {
    (c & 0xffff) as bv16
  }

  /** A byte fetched through `char *` and widened to `int`. */
  function Widened(b: bv8, signedChar: bool): bv32 {
    if signedChar && b & 0x80 != 0 then 0xffff_ff00 | b as bv32 else b as bv32
  }

  lemma {:induction false} LowByte(c: bv32, b: bv8, signedChar: bool)
    ensures Low(c ^ (Widened(b, signedChar) << 8)) == Add(Low(c), (b as bv16) << 8)
  {
  }

  lemma {:induction false} LowStep(c: bv32)
    ensures Low(if c & 0x8000 != 0 then (c << 1) ^ 0x1021 else c << 1) == Shift(Low(c))
  {
  }

  /** crc16: an unmasked 32-bit register, a byte at a time. */
  method Crc16(p: array<bv8>, count: nat, signedChar: bool) returns (r: bv16)
    requires count <= p.Length
    ensures r == Crc(p[..count])
  {
    hide FeedAll, Steps, Low, Shift, Widened, Digits;
    var crc: bv32 := 0;
    LowZero();
    var k := 0;
    while k < count
      invariant k <= count
      invariant Low(crc) == Crc(p[..k])
    {
      ghost var before := Crc(p[..k]);
      LowByte(crc, p[k], signedChar);
      crc := crc ^ (Widened(p[k], signedChar) << 8);
      ghost var start := Low(crc);
      StepsZero(start);
      for i := 0 to 8
        invariant Low(crc) == Steps(start, i)
      {
        StepsMore(start, i);
        LowStep(crc);
        if crc & 0x8000 != 0 {
          crc := (crc << 1) ^ 0x1021;
        } else {
          crc := crc << 1;
        }
      }
      ByteSteps(before, p[k]);
      CrcMore(p[..k], p[k]);
      assert p[..k + 1] == p[..k] + [p[k]];
      k := k + 1;
    }
    r := Low(crc);
  }

  lemma {:induction false} LowZero()
    ensures Low(0) == Crc([])
  {
  }

  lemma {:induction false} StepsZero(c: bv16)
    ensures Steps(c, 0) == c
  {
  }

  lemma {:induction false} StepsMore(c: bv16, n: nat)
    ensures Steps(c, n + 1) == Shift(Steps(c, n))
  {
  }

  lemma {:induction false} CrcMore(m: seq<bv8>, b: bv8)
    ensures Crc(m + [b]) == FeedAll(Crc(m), ByteBits(b))
  {
    hide FeedAll, ByteBits;
    assert (m + [b])[..|m|] == m;
    FeedConcat(0, MessageBits(m), ByteBits(b));
  }

  // ----- the check -----------------------------------------------------------------------------

  function Lsb(c: bv16): bv8 {
    (c & 0xff) as bv8
  }

  function Msb(c: bv16): bv8 {
    (c >> 8) as bv8
  }

  /** Bytes 126 and 127 hold the CRC of the covered range, low byte first: with bit 7 of byte 0 set that
      is bytes 0 to 116, otherwise bytes 0 to 125. */
  predicate StoredCrcIsRight(spd: seq<bv8>)
    requires |spd| >= 128
  {
    var c := Crc(if spd[0] & 0x80 != 0 then spd[..117] else spd[..126]);
    spd[126] == Lsb(c) && spd[127] == Msb(c)
  }

  /** A `char` as an `int`. */
  function CharValue(b: bv8, signedChar: bool): int {
    if signedChar && b & 0x80 != 0 then b as int - 256 else b as int
  }

  /** ddr3_spd_check: the stored bytes are unsigned, the computed ones plain `char`; where `char` is
      signed a correct CRC is accepted only if both of its bytes are below 0x80. */
  method Ddr3SpdCheck(spd: array<bv8>, signedChar: bool) returns (rc: int)
    requires spd.Length >= 128
    ensures rc == 0 || rc == 1
    ensures spd[0] & 0x80 != 0 ==>
      (rc == 0 <==>
        var c := Crc(spd[..117]);
        Pair(spd[126], spd[127]) == c && (signedChar ==> spd[126] < 0x80 && spd[127] < 0x80))
    ensures spd[0] & 0x80 == 0 ==>
      (rc == 0 <==>
        var c := Crc(spd[..126]);
        Pair(spd[126], spd[127]) == c && (signedChar ==> spd[126] < 0x80 && spd[127] < 0x80))
  {
    hide Crc, Lsb, Msb, Pair, CharValue;
    var len := if spd[0] & 0x80 == 0 then 126 else 117;
    var csum16 := Crc16(spd, len, signedChar);
    var crcLsb, crcMsb := Lsb(csum16), Msb(csum16);
    SameChar(spd[126], crcLsb, signedChar);
    SameChar(spd[127], crcMsb, signedChar);
    BytesOf(spd[126], spd[127], csum16);
    if spd[126] as int == CharValue(crcLsb, signedChar) && spd[127] as int == CharValue(crcMsb, signedChar) {
      rc := 0;
    } else {
      rc := 1;
    }
  }

  /** The low and the high byte together. */
  function Pair(low: bv8, high: bv8): bv16 {
    ((high as bv16) << 8) | (low as bv16)
  }

  lemma {:induction false} LsbOfPair(low: bv8, high: bv8)
    ensures Lsb(Pair(low, high)) == low
  {
  }

  lemma {:induction false} MsbOfPair(low: bv8, high: bv8)
    ensures Msb(Pair(low, high)) == high
  {
  }

  /** The two bytes of a CRC. */
  lemma {:induction false} BytesOf(low: bv8, high: bv8, c: bv16)
    ensures low == Lsb(c) && high == Msb(c) <==> Pair(low, high) == c
  {
    hide Lsb, Msb, Pair;
    LsbOfPair(low, high);
    MsbOfPair(low, high);
    TwoBytes(Pair(low, high), c);
  }

  lemma {:induction false} SameChar(a: bv8, b: bv8, signedChar: bool)
    ensures a as int == CharValue(b, signedChar) <==> a == b && (signedChar ==> a < 0x80)
  {
  }

  /** An SPD accepted once is refused after any damage confined to sixteen consecutive bits of the
      covered range that leaves bit 7 of byte 0 alone. */
  lemma {:induction false} DamageIsNoticed(good: seq<bv8>, bad: seq<bv8>, n: nat, p: nat)
    requires |good| == |bad| >= 128 && StoredCrcIsRight(good)
    requires good[126] == bad[126] && good[127] == bad[127] && good[0] & 0x80 == bad[0] & 0x80
    requires n == if good[0] & 0x80 != 0 then 117 else 126
    requires
      var a, b := MessageBits(good[..n]), MessageBits(bad[..n]);
      a != b && forall i :: 0 <= i < 8 * n && !(p <= i < p + 16) ==> a[i] == b[i]
    ensures !StoredCrcIsRight(bad)
  {
    hide CrcBits, MessageBits;
    BurstIsDetected(MessageBits(good[..n]), MessageBits(bad[..n]), p);
    TwoBytes(Crc(good[..n]), Crc(bad[..n]));
  }

  /** In particular the last covered byte, 116 or 125, matters. */
  lemma {:induction false} LastByteMatters(good: seq<bv8>, b: bv8)
    requires |good| >= 128 && StoredCrcIsRight(good)
    ensures good[0] & 0x80 != 0 && b != good[116] ==> !StoredCrcIsRight(good[116 := b])
    ensures good[0] & 0x80 == 0 && b != good[125] ==> !StoredCrcIsRight(good[125 := b])
  {
    hide StoredCrcIsRight;
    if good[0] & 0x80 != 0 {
      if b != good[116] { OneByteDamaged(good, b, 117); }
    } else {
      if b != good[125] { OneByteDamaged(good, b, 126); }
    }
  }

  lemma {:induction false} OneByteDamaged(good: seq<bv8>, b: bv8, n: nat)
    requires |good| >= 128 && StoredCrcIsRight(good)
    requires n == if good[0] & 0x80 != 0 then 117 else 126
    requires b != good[n - 1]
    ensures !StoredCrcIsRight(good[n - 1 := b])
  {
    hide StoredCrcIsRight, MessageBits;
    var bad := good[n - 1 := b];
    ByteDiffers(good[..n - 1], good[n - 1], b);
    assert good[..n] == good[..n - 1] + [good[n - 1]] && bad[..n] == good[..n - 1] + [b];
    DamageIsNoticed(good, bad, n, 8 * (n - 1));
  }

  lemma {:induction false} ByteDiffers(front: seq<bv8>, a: bv8, b: bv8)
    requires a != b
    ensures var x, y := MessageBits(front + [a]), MessageBits(front + [b]);
      && |x| == |y| == 8 * |front| + 8 && x != y
      && forall i :: 0 <= i < 8 * |front| ==> x[i] == y[i]
  {
    hide MessageBits, ByteBits;
    MessageMore(front, a);
    MessageMore(front, b);
    BitsDiffer(a, b);
    var p := MessageBits(front);
    assert (p + ByteBits(a))[|p|..] == ByteBits(a) && (p + ByteBits(b))[|p|..] == ByteBits(b);
  }

  lemma {:induction false} MessageMore(front: seq<bv8>, b: bv8)
    ensures MessageBits(front + [b]) == MessageBits(front) + ByteBits(b)
  {
    assert (front + [b])[..|front|] == front;
  }

  lemma {:induction false} BitsDiffer(a: bv8, b: bv8)
    requires a != b
    ensures ByteBits(a) != ByteBits(b)
  {
    hide Digits, ShiftOut, Xor, Zeros;
    var x, y := (a as bv16) << 8, (b as bv16) << 8;
    if ByteBits(a) == ByteBits(b) {
      DigitsXor(x, y, 8);
      XorSame(Digits(x, 8));
      HighByte(a, b);
      ShiftedOut(Add(x, y));
      DigitsZero(Add(x, y), 8);
      assert false;
    }
  }

  lemma {:induction false} XorSame(a: Bits)
    ensures Xor(a, a) == Zeros(|a|)
  {
  }

  lemma {:induction false} HighByte(a: bv8, b: bv8)
    ensures var c := Add((a as bv16) << 8, (b as bv16) << 8);
      c & 0xff == 0 && (a != b ==> c != 0)
  {
  }

  /** Eight shifts leave nothing of a high byte. */
  lemma {:induction false} ShiftedOut(c: bv16)
    requires c & 0xff == 0
    ensures ShiftOut(c, 8) == 0
  {
    EightTimes(c);
    hide Twice;
    assert ShiftOut(c, 8) == ShiftOut(Twice(Twice(c)), 6);
    assert ShiftOut(Twice(Twice(c)), 6) == ShiftOut(Twice(Twice(Twice(Twice(c)))), 4);
    assert ShiftOut(Twice(Twice(Twice(Twice(c)))), 4) == ShiftOut(Twice(Twice(Twice(Twice(Twice(Twice(c)))))), 2);
  }

  lemma {:induction false} EightTimes(c: bv16)
    requires c & 0xff == 0
    ensures Twice(Twice(Twice(Twice(Twice(Twice(Twice(Twice(c)))))))) == 0
  {
  }

  /** With bit 7 of byte 0 set, nothing but bytes 0 to 116 and the stored CRC counts. */
  lemma {:induction false} RestIsIgnored(a: seq<bv8>, b: seq<bv8>)
    requires |a| >= 128 && |b| >= 128 && a[0] & 0x80 != 0
    requires a[..117] == b[..117] && a[126] == b[126] && a[127] == b[127]
    ensures StoredCrcIsRight(a) <==> StoredCrcIsRight(b)
  {
    hide Crc;
    assert a[0] == a[..117][0] && b[0] == b[..117][0];
  }

  lemma {:induction false} TwoBytes(c: bv16, d: bv16)
    ensures Lsb(c) == Lsb(d) && Msb(c) == Msb(d) ==> c == d
  {
  }

  /** Contents whose CRC, 0x9188, is stored correctly and which a signed `char` makes the check refuse. */
  function HighCrc(): (spd: seq<bv8>)
    ensures |spd| == 128
  {
    seq(125, _ => 0) + [0x80, 0x88, 0x91]
  }

  lemma {:induction false} CorrectCrcRefused()
    ensures StoredCrcIsRight(HighCrc()) && HighCrc()[126] & 0x80 != 0
  {
    hide Crc;
    var spd := HighCrc();
    var blank := seq(125, _ => 0 as bv8);
    assert spd[..126] == blank + [0x80];
    CrcOfZeros(125);
    CrcMore(blank, 0x80);
    OneBitCrc();
    var c: bv16 := 0x9188;
    assert Lsb(c) == 0x88 && Msb(c) == 0x91;
  }

  lemma {:induction false} CrcOfZeros(n: nat)
    ensures Crc(seq(n, _ => 0)) == 0
  {
    hide FeedAll, ByteBits;
    if n == 0 {
      EmptyCrc();
    } else {
      var front: seq<bv8> := seq(n - 1, _ => 0);
      assert seq(n, _ => 0) == front + [0];
      CrcOfZeros(n - 1);
      CrcMore(front, 0);
      ZeroByte();
    }
  }

  lemma {:induction false} EmptyCrc()
    ensures Crc([]) == 0
  {
  }

  lemma {:induction false} ZeroByte()
    ensures FeedAll(0, ByteBits(0)) == 0
  {
    ZeroDigits(8);
    ZerosKeep(0, 8);
  }

  lemma {:induction false} OneBitCrc()
    ensures FeedAll(0, ByteBits(0x80)) == 0x9188
  {
    hide FeedAll, Shift, Top;
    ByteSteps(0, 0x80);
    var p: bv16 := 0x8000;
    assert ((0x80 as bv8) as bv16) << 8 == p;
    AddZero(p);
    ShiftTable();
    var first, third, sixth: bv16 := 0x1021, 0x4084, 0x2462;
    assert Steps(p, 1) == first;
    assert Steps(p, 3) == third;
    assert Steps(p, 6) == sixth;
  }

  lemma {:induction false} ShiftTable()
    ensures Shift(0x8000) == 0x1021 && Shift(0x1021) == 0x2042 && Shift(0x2042) == 0x4084
    ensures Shift(0x4084) == 0x8108 && Shift(0x8108) == 0x1231 && Shift(0x1231) == 0x2462
    ensures Shift(0x2462) == 0x48c4 && Shift(0x48c4) == 0x9188
  {
  }
}
