/** The checksum of the bus frames: the byte step against the bit-serial division by x^16 + x^12 + x^5 + 1, and the
    errors that it cannot miss. */
module Crc {

  const POLYNOMIAL: bv16 := 0x1021

  type Octet = b: bv16 | b <= 0xff

  // ---------------- the byte step, statement by statement ----------------

  function Swapped(crc: bv16, data: bv16): bv16 { ((crc >> 8) | (crc << 8)) ^ data }
  function Folded4(crc: bv16): bv16 { crc ^ ((crc & 0xff) >> 4) }
  function Folded12(crc: bv16): bv16 { crc ^ ((crc << 8) << 4) }
  function Folded5(crc: bv16): bv16 { crc ^ (((crc & 0xff) << 4) << 1) }

  // crc16_ccitt
  function Step(crc: bv16, data: bv16): bv16 { Folded5(Folded12(Folded4(Swapped(crc, data)))) }

  function CrcFrom(crc: bv16, s: seq<bv16>): bv16 {
    if s == [] then crc else Step(CrcFrom(crc, s[..|s| - 1]), s[|s| - 1])
  }

  function Crc16(s: seq<bv16>): bv16 { CrcFrom(0, s) }

  // crc16
  method ComputeCrc(p: seq<bv16>) returns (crc: bv16)
    ensures crc == Crc16(p)
  {
    crc := 0;
    hide Step;
    for i := 0 to |p|
      invariant crc == CrcFrom(0, p[..i])
    {
      assert p[..i + 1][..i] == p[..i];
      crc := StepByStep(crc, p[i]);
    }
    assert p[..|p|] == p;
  }

  lemma MoreBytes(s: seq<bv16>, b: bv16)
    ensures Crc16(s + [b]) == Step(Crc16(s), b)
  {
    assert (s + [b])[..|s|] == s;
  }

  lemma Steps()
    ensures Step(0, 0x31) == 0x2672
    ensures Step(0x2672, 0x32) == 0x20B5
    ensures Step(0x20B5, 0x33) == 0x9752
    ensures Step(0x9752, 0x34) == 0xD789
    ensures Step(0xD789, 0x35) == 0x546C
    ensures Step(0x546C, 0x36) == 0x20E4
    ensures Step(0x20E4, 0x37) == 0x86D6
    ensures Step(0x86D6, 0x38) == 0x9015
    ensures Step(0x9015, 0x39) == 0x31C3
  {
  }

  // The check value of the generator with initial value 0: the checksum of the digits 1 to 9
  lemma CheckValue()
    ensures Crc16([0x31, 0x32, 0x33, 0x34, 0x35, 0x36, 0x37, 0x38, 0x39]) == 0x31C3
  {
    Steps();
    hide Step;
    var s0: seq<bv16> := [];
    var s1: seq<bv16> := s0 + [0x31];
    MoreBytes(s0, 0x31);
    var s2: seq<bv16> := s1 + [0x32];
    MoreBytes(s1, 0x32);
    var s3: seq<bv16> := s2 + [0x33];
    MoreBytes(s2, 0x33);
    var s4: seq<bv16> := s3 + [0x34];
    MoreBytes(s3, 0x34);
    var s5: seq<bv16> := s4 + [0x35];
    MoreBytes(s4, 0x35);
    var s6: seq<bv16> := s5 + [0x36];
    MoreBytes(s5, 0x36);
    var s7: seq<bv16> := s6 + [0x37];
    MoreBytes(s6, 0x37);
    var s8: seq<bv16> := s7 + [0x38];
    MoreBytes(s7, 0x38);
    var s9: seq<bv16> := s8 + [0x39];
    MoreBytes(s8, 0x39);
    assert s9 == [0x31, 0x32, 0x33, 0x34, 0x35, 0x36, 0x37, 0x38, 0x39];
  }

  method StepByStep(crc: bv16, data: bv16) returns (r: bv16)
    ensures r == Step(crc, data)
  {
    r := ((crc >> 8) | (crc << 8)) ^ data;
    assert r == Swapped(crc, data);
    hide Swapped;
    r := Folded4(r);
    r := Folded12(r);
    r := Folded5(r);
    hide Folded4, Folded12, Folded5;
  }

  // ---------------- words as polynomials ----------------

  function Plus(a: bv16, b: bv16): bv16 { a ^ b }
  function Double(a: bv16): bv16 { a << 1 }                 // times x, without reduction
  function Up5(a: bv16): bv16 { a << 5 }
  function Up8(a: bv16): bv16 { a << 8 }
  function Up12(a: bv16): bv16 { a << 12 }
  function Reduction(m: bv16): bv16 { Plus(Plus(m, Up5(m)), Up12(m)) }
  predicate Top(c: bv16) { (c & 0x8000) != 0 }
  function AtTop(bit: bool): bv16 { if bit then 0x8000 else 0 }

  // Times x, modulo the polynomial
  function Times(c: bv16): bv16 { if Top(c) then Plus(Double(c), POLYNOMIAL) else Double(c) }

  function TimesPow(c: bv16, k: nat): bv16
    decreases k
  {
    if k == 0 then c else TimesPow(Times(c), k - 1)
  }

  // One step of the division: the next bit joins the top coefficient
  function BitStep(c: bv16, bit: bool): bv16 { Times(Plus(c, AtTop(bit))) }

  function Divide(c: bv16, bits: seq<bool>): bv16
    decreases bits
  {
    if bits == [] then c else Divide(BitStep(c, bits[0]), bits[1..])
  }

  // The first k bits of a word, the most significant one first
  function TopBits(w: bv16, k: nat): (bits: seq<bool>)
    ensures |bits| == k
    decreases k
  {
    if k == 0 then [] else [Top(w)] + TopBits(Double(w), k - 1)
  }

  function Bits(s: seq<bv16>): (bits: seq<bool>)
    ensures |bits| == 8 * |s|
  {
    if s == [] then [] else Bits(s[..|s| - 1]) + TopBits(Up8(s[|s| - 1]), 8)
  }

  lemma Assoc(a: bv16, b: bv16, c: bv16) ensures Plus(Plus(a, b), c) == Plus(a, Plus(b, c)) { }
  lemma Comm(a: bv16, b: bv16) ensures Plus(a, b) == Plus(b, a) { }
  lemma Self(a: bv16) ensures Plus(a, a) == 0 && Plus(a, 0) == a && Plus(0, a) == a { }

  lemma Exchange(a: bv16, b: bv16, c: bv16, d: bv16)
    ensures Plus(Plus(a, b), Plus(c, d)) == Plus(Plus(a, c), Plus(b, d))
  {
    hide Plus;
    Assoc(a, b, Plus(c, d));
    Assoc(b, c, d);
    Comm(b, c);
    Assoc(c, b, d);
    Assoc(a, c, Plus(b, d));
  }

  // ---------------- the byte step is eight steps of the division ----------------

  function Up4(a: bv16): bv16 { a << 4 }
  function Down4(a: bv16): bv16 { a >> 4 }
  function Down8(a: bv16): bv16 { a >> 8 }
  function Down12(a: bv16): bv16 { a >> 12 }
  function Low4(a: bv16): bv16 { a & 0xf }

  // One, two, four and eight steps with zero bits
  function One(c: bv16): bv16 { (c << 1) ^ Reduction(c >> 15) }
  function Two(c: bv16): bv16 { (c << 2) ^ Reduction(c >> 14) }
  function Four(c: bv16): bv16 { Plus(Up4(c), Reduction(Down12(c))) }
  function Nibbles(x: bv16): bv16 { Plus(x, Down4(x)) }
  function Eight(c: bv16): bv16 { Plus(Up8(c), Reduction(Nibbles(Down8(c)))) }

  lemma TimesIsOne(c: bv16)
    ensures Times(c) == One(c)
  {
    assert c >> 15 == if Top(c) then 1 else 0;
    assert Reduction(1) == POLYNOMIAL && Reduction(0) == 0;
  }

  lemma OneOne(c: bv16) ensures One(One(c)) == Two(c) { }
  lemma TwoTwo(c: bv16) ensures Two(Two(c)) == Four(c) { }

  function Carried(n: bv16): bv16 { (n << 4) ^ (n << 9) }

  lemma FourUp(c: bv16) ensures Up4(Four(c)) == Plus(Up8(c), Carried(Down12(c))) { }
  lemma FourTop(c: bv16) ensures Down12(Four(c)) == Low4(Nibbles(Down8(c))) { }
  lemma FourParts(c: bv16) ensures Down4(Nibbles(Down8(c))) == Down12(c) && Nibbles(Down8(c)) <= 0xff { }
  lemma ReductionParts(t: bv16)
    requires t <= 0xff
    ensures Reduction(t) == Plus(Carried(Down4(t)), Reduction(Low4(t)))
  { }

  lemma FourFour(c: bv16)
    ensures Four(Four(c)) == Eight(c)
  {
    FourParts(c);
    hide Plus, Up4, Up8, Down4, Down8, Down12, Low4, Carried, Reduction, Nibbles;
    var t, u := Nibbles(Down8(c)), Four(c);
    FourUp(c);
    FourTop(c);
    ReductionParts(t);
    Assoc(Up8(c), Carried(Down12(c)), Reduction(Low4(t)));
    assert Four(u) == Plus(Up4(u), Reduction(Down12(u)));
    hide Four;
  }

  lemma TimesEight(c: bv16)
    ensures TimesPow(c, 8) == Eight(c)
  {
    TimesFour(c);
    TimesFour(Four(c));
    FourFour(c);
    hide Times, Four, Eight;
    TimesAdds(c, 4, 4);
  }

  lemma TimesFour(c: bv16)
    ensures TimesPow(c, 4) == Four(c)
  {
    TimesTwo(c);
    TimesTwo(Two(c));
    TwoTwo(c);
    hide Times, Two, Four;
    TimesAdds(c, 2, 2);
  }

  lemma TimesTwo(c: bv16)
    ensures TimesPow(c, 2) == Two(c)
  {
    TimesIsOne(c);
    TimesIsOne(Times(c));
    OneOne(c);
    hide Times, One, Two;
    assert TimesPow(c, 2) == TimesPow(Times(c), 1) == TimesPow(Times(Times(c)), 0);
  }

  lemma {:induction false} TimesAdds(c: bv16, k: nat, l: nat)
    ensures TimesPow(c, k + l) == TimesPow(TimesPow(c, k), l)
    decreases k
  {
    hide Times;
    if k > 0 { TimesAdds(Times(c), k - 1, l); }
  }

  // ---- a word that is fed in bit by bit ----

  function By(a: bv16, k: nat): bv16
    decreases k
  {
    if k == 0 then a else By(Double(a), k - 1)
  }

  // Feeding the first bit of w: the rest of w moves up behind it
  lemma FeedOne(c: bv16, w: bv16)
    ensures Times(Plus(c, w)) == Plus(BitStep(c, Top(w)), Double(w))
  {
    TopApart(w);
    hide Plus, AtTop, Top, Double, Times;
    var t := AtTop(Top(w));
    var v := Plus(t, w);
    Assoc(c, t, v);
    Assoc(t, t, w);
    Self(t);
    Self(w);
    TimesOfLow(Plus(c, t), v);
  }

  lemma TopApart(w: bv16)
    ensures !Top(Plus(AtTop(Top(w)), w)) && Double(Plus(AtTop(Top(w)), w)) == Double(w)
  {
    if Top(w) { TopSet(w); } else { Self(w); }
  }

  lemma TopSet(w: bv16)
    requires Top(w)
    ensures !Top(Plus(0x8000, w)) && Double(Plus(0x8000, w)) == Double(w)
  { }

  lemma TopOfLow(a: bv16, v: bv16)
    requires !Top(v)
    ensures Top(Plus(a, v)) == Top(a)
  { }

  lemma DoubleLinear(a: bv16, b: bv16)
    ensures Double(Plus(a, b)) == Plus(Double(a), Double(b))
  { }

  lemma TimesOfLow(a: bv16, v: bv16)
    requires !Top(v)
    ensures Times(Plus(a, v)) == Plus(Times(a), Double(v))
  {
    TopOfLow(a, v);
    DoubleLinear(a, v);
    hide Top, Plus, Double;
    Assoc(Double(a), Double(v), POLYNOMIAL);
    Comm(Double(v), POLYNOMIAL);
    Assoc(Double(a), POLYNOMIAL, Double(v));
  }

  lemma {:induction false} Fed(c: bv16, w: bv16, k: nat)
    ensures Divide(c, TopBits(w, k)) == Plus(TimesPow(Plus(c, w), k), By(w, k))
    decreases k
  {
    hide Times, BitStep, Double, Top, Plus;
    if k == 0 {
      Assoc(c, w, w);
      Self(w);
      Self(c);
    } else {
      FeedOne(c, w);
      var d := BitStep(c, Top(w));
      Fed(d, Double(w), k - 1);
      assert TopBits(w, k)[0] == Top(w) && TopBits(w, k)[1..] == TopBits(Double(w), k - 1);
    }
  }

  lemma SwappedIs(crc: bv16, data: bv16)
    requires data <= 0xff
    ensures var e := Plus(crc, Up8(data)); Swapped(crc, data) == Plus(Up8(e), Down8(e))
  { }

  lemma Folded4Is(e: bv16) ensures Folded4(Plus(Up8(e), Down8(e))) == Plus(Up8(e), Nibbles(Down8(e))) { }
  lemma NibblesSmall(e: bv16) ensures Nibbles(Down8(e)) <= 0xff { }
  lemma Folded12Is(e: bv16, t: bv16) ensures Folded12(Plus(Up8(e), t)) == Plus(Plus(Up8(e), t), Up12(t)) { }
  lemma Folded5Is(e: bv16, t: bv16)
    requires t <= 0xff
    ensures Folded5(Plus(Plus(Up8(e), t), Up12(t))) == Plus(Up8(e), Reduction(t))
  { }

  lemma StepIsEight(crc: bv16, data: bv16)
    requires data <= 0xff
    ensures Step(crc, data) == Eight(Plus(crc, Up8(data)))
  {
    var e := Plus(crc, Up8(data));
    NibblesSmall(e);
    hide Swapped, Folded4, Folded12, Folded5, Plus, Up8, Up12, Down8, Nibbles, Reduction;
    var t := Nibbles(Down8(e));
    SwappedIs(crc, data);
    Folded4Is(e);
    Folded12Is(e, t);
    Folded5Is(e, t);
  }

  lemma EightOut(w: bv16)
    requires w <= 0xff
    ensures By(Up8(w), 8) == 0
  {
  }

  // The shifts and xors of the source are the division by the polynomial, bit by bit
  lemma StepDivides(crc: bv16, data: Octet)
    ensures Step(crc, data) == Divide(crc, TopBits(Up8(data), 8))
  {
    StepIsEight(crc, data);
    EightOut(data);
    hide Step, Eight, Up8, Plus;
    Fed(crc, Up8(data), 8);
    TimesEight(Plus(crc, Up8(data)));
    Self(Eight(Plus(crc, Up8(data))));
  }

  lemma {:induction false} DivideConcat(c: bv16, a: seq<bool>, b: seq<bool>)
    ensures Divide(c, a + b) == Divide(Divide(c, a), b)
    decreases a
  {
    hide BitStep;
    if a == [] {
      assert a + b == b;
    } else {
      assert (a + b)[1..] == a[1..] + b;
      DivideConcat(BitStep(c, a[0]), a[1..], b);
    }
  }

  // The checksum is the remainder of the whole message
  lemma {:induction false} CrcIsRemainder(s: seq<bv16>)
    requires forall i :: 0 <= i < |s| ==> s[i] <= 0xff
    ensures Crc16(s) == Divide(0, Bits(s))
  {
    hide Step, BitStep, TopBits;
    if s != [] {
      var n := |s| - 1;
      CrcIsRemainder(s[..n]);
      StepDivides(Crc16(s[..n]), s[n]);
      DivideConcat(0, Bits(s[..n]), TopBits(Up8(s[n]), 8));
    }
  }

  // ---------------- linearity ----------------

  lemma TopLinear(a: bv16, b: bv16) ensures Top(Plus(a, b)) == (Top(a) != Top(b)) { }

  lemma TimesLinear(a: bv16, b: bv16)
    ensures Times(Plus(a, b)) == Plus(Times(a), Times(b))
  {
    TopLinear(a, b);
    DoubleLinear(a, b);
    hide Top, Plus, Double;
    if Top(b) {
      Exchange(Double(a), POLYNOMIAL, Double(b), POLYNOMIAL);
      Self(POLYNOMIAL);
      Self(Plus(Double(a), Double(b)));
      Assoc(Double(a), Double(b), POLYNOMIAL);
    } else {
      TimesOfLow(a, b);
    }
  }

  lemma AtTopLinear(p: bool, q: bool) ensures AtTop(p != q) == Plus(AtTop(p), AtTop(q)) { }

  lemma BitStepLinear(a: bv16, b: bv16, p: bool, q: bool)
    ensures BitStep(Plus(a, b), p != q) == Plus(BitStep(a, p), BitStep(b, q))
  {
    AtTopLinear(p, q);
    hide Plus, Times, AtTop;
    Exchange(a, b, AtTop(p), AtTop(q));
    TimesLinear(Plus(a, AtTop(p)), Plus(b, AtTop(q)));
  }

  function Differences(p: seq<bool>, q: seq<bool>): (d: seq<bool>)
    requires |p| == |q|
    ensures |d| == |p| && forall i :: 0 <= i < |d| ==> d[i] == (p[i] != q[i])
  {
    seq(|p|, i requires 0 <= i < |p| == |q| => p[i] != q[i])
  }

  lemma {:induction false} DivideLinear(a: bv16, b: bv16, p: seq<bool>, q: seq<bool>)
    requires |p| == |q|
    ensures Divide(Plus(a, b), Differences(p, q)) == Plus(Divide(a, p), Divide(b, q))
    decreases |p|
  {
    hide Plus, BitStep;
    if p != [] {
      BitStepLinear(a, b, p[0], q[0]);
      assert Differences(p, q)[1..] == Differences(p[1..], q[1..]);
      DivideLinear(BitStep(a, p[0]), BitStep(b, q[0]), p[1..], q[1..]);
    }
  }

  function Xor(s: seq<bv16>, t: seq<bv16>): (u: seq<bv16>)
    requires |s| == |t|
    ensures |u| == |s| && forall i :: 0 <= i < |u| ==> u[i] == Plus(s[i], t[i])
  {
    seq(|s|, i requires 0 <= i < |s| == |t| => Plus(s[i], t[i]))
  }

  lemma SmallPlus(a: bv16, b: bv16)
    requires a <= 0xff && b <= 0xff
    ensures Plus(a, b) <= 0xff
  { }

  lemma DifferencesCons(p: bool, ps: seq<bool>, q: bool, qs: seq<bool>)
    requires |ps| == |qs|
    ensures Differences([p] + ps, [q] + qs) == [p != q] + Differences(ps, qs)
  { }

  lemma Up8Linear(a: bv16, b: bv16) ensures Up8(Plus(a, b)) == Plus(Up8(a), Up8(b)) { }

  lemma {:induction false} TopBitsLinear(a: bv16, b: bv16, k: nat)
    ensures TopBits(Plus(a, b), k) == Differences(TopBits(a, k), TopBits(b, k))
    decreases k
  {
    hide Top, Plus, Double, Differences;
    if k > 0 {
      TopLinear(a, b);
      DoubleLinear(a, b);
      var a', b' := Double(a), Double(b);
      TopBitsLinear(a', b', k - 1);
      DifferencesCons(Top(a), TopBits(a', k - 1), Top(b), TopBits(b', k - 1));
      assert TopBits(Plus(a, b), k) == [Top(Plus(a, b))] + TopBits(Plus(a', b'), k - 1);
    }
  }

  lemma {:induction false} BitsLinear(s: seq<bv16>, t: seq<bv16>)
    requires |s| == |t|
    ensures Bits(Xor(s, t)) == Differences(Bits(s), Bits(t))
  {
    hide Plus, TopBits, Up8;
    if s != [] {
      var n := |s| - 1;
      BitsLinear(s[..n], t[..n]);
      assert Xor(s, t)[..n] == Xor(s[..n], t[..n]);
      Up8Linear(s[n], t[n]);
      TopBitsLinear(Up8(s[n]), Up8(t[n]), 8);
    }
  }

  // Over messages of equal length, the checksum of the difference is the difference of the checksums
  lemma CrcLinear(s: seq<bv16>, t: seq<bv16>)
    requires |s| == |t| && forall i :: 0 <= i < |s| ==> s[i] <= 0xff && t[i] <= 0xff
    ensures Crc16(Xor(s, t)) == Plus(Crc16(s), Crc16(t))
  {
    forall i | 0 <= i < |s| ensures Xor(s, t)[i] <= 0xff { SmallPlus(s[i], t[i]); }
    hide Plus, CrcFrom;
    CrcIsRemainder(s);
    CrcIsRemainder(t);
    CrcIsRemainder(Xor(s, t));
    BitsLinear(s, t);
    DivideLinear(0, 0, Bits(s), Bits(t));
    Self(0);
  }

  // ---------------- a message with its checksum ----------------

  function High(crc: bv16): bv16 { crc >> 8 }
  function Low(crc: bv16): bv16 { crc & 0xff }

  // ---------------- bursts ----------------

  lemma TimesZero(c: bv16) ensures Times(c) == 0 <==> c == 0 { }

  lemma {:induction false} TimesPowZero(c: bv16, k: nat)
    ensures TimesPow(c, k) == 0 <==> c == 0
    decreases k
  {
    hide Times;
    if k > 0 {
      TimesZero(c);
      TimesPowZero(Times(c), k - 1);
    }
  }

  ghost predicate NoneSet(bits: seq<bool>) { forall i :: 0 <= i < |bits| ==> !bits[i] }

  lemma {:induction false} DivideZeros(c: bv16, bits: seq<bool>)
    requires NoneSet(bits)
    ensures Divide(c, bits) == TimesPow(c, |bits|)
    decreases bits
  {
    if bits != [] {
      Self(c);
      hide Times, Plus;
      DivideZeros(Times(c), bits[1..]);
    }
  }

  function Packed(bit: bool, rest: bv16): bv16 { AtTop(bit) | (rest >> 1) }

  lemma PackedBit(bit: bool, rest: bv16)
    requires rest & 1 == 0
    ensures Top(Packed(bit, rest)) == bit && Double(Packed(bit, rest)) == rest
  {
    HalfDoubled(rest);
    if bit { WithTop(rest >> 1); } else { WithoutTop(rest >> 1); }
  }

  lemma HalfDoubled(w: bv16)
    requires w & 1 == 0
    ensures Double(w >> 1) == w && !Top(w >> 1)
  { }

  lemma WithTop(v: bv16)
    requires !Top(v)
    ensures Top(0x8000 | v) && Double(0x8000 | v) == Double(v)
  { }

  lemma WithoutTop(v: bv16) ensures 0 | v == v { }

  lemma {:induction false} ByZero(k: nat)
    ensures By(0, k) == 0
    decreases k
  {
    if k > 0 {
      assert Double(0) == 0;
      ByZero(k - 1);
    }
  }

  lemma {:induction false} ByAdds(w: bv16, k: nat, l: nat)
    ensures By(w, k + l) == By(By(w, k), l)
    decreases k
  {
    hide Double;
    if k > 0 { ByAdds(Double(w), k - 1, l); }
  }

  lemma ByFour(w: bv16) ensures By(w, 4) == Up4(w) { }
  lemma ByThree(w: bv16) ensures By(w, 3) == w << 3 { }
  lemma LowestBit(w: bv16)
    requires Up4(Up4(Up4(w))) << 3 == 0
    ensures w & 1 == 0
  { }

  lemma ByFifteen(w: bv16)
    requires By(w, 15) == 0
    ensures w & 1 == 0
  {
    hide By, Up4;
    ByAdds(w, 4, 11);
    ByFour(w);
    var a := Up4(w);
    ByAdds(a, 4, 7);
    ByFour(a);
    var b := Up4(a);
    ByAdds(b, 4, 3);
    ByFour(b);
    ByThree(Up4(b));
    LowestBit(w);
  }

  // Up to sixteen bits are the first bits of a word
  lemma {:induction false} Pack(bits: seq<bool>) returns (w: bv16)
    requires |bits| <= 16
    ensures TopBits(w, |bits|) == bits && By(w, |bits|) == 0
    decreases bits
  {
    if bits == [] {
      w := 0;
    } else {
      var rest := Pack(bits[1..]);
      LastIsZero(rest, |bits| - 1);
      PackedBit(bits[0], rest);
      hide Packed, Top, Double;
      w := Packed(bits[0], rest);
    }
  }

  // A word of no more than fifteen bits from the top does not end in a one
  lemma LastIsZero(w: bv16, n: nat)
    requires n <= 15 && By(w, n) == 0
    ensures w & 1 == 0
  {
    ByZero(15 - n);
    ByAdds(w, n, 15 - n);
    hide By;
    ByFifteen(w);
  }

  // Sixteen bits that are not all zero leave a remainder
  lemma SixteenBits(bits: seq<bool>)
    requires |bits| == 16 && Divide(0, bits) == 0
    ensures NoneSet(bits)
  {
    var w := Pack(bits);
    Fed(0, w, 16);
    Self(w);
    Self(TimesPow(w, 16));
    TimesPowZero(w, 16);
    NoTopBits(16);
  }

  lemma {:induction false} NoTopBits(k: nat)
    ensures NoneSet(TopBits(0, k))
    decreases k
  {
    if k > 0 {
      assert Double(0) == 0 && !Top(0);
      NoTopBits(k - 1);
    }
  }

  // A difference that is not zero and lies within sixteen consecutive bits is never divisible
  lemma BurstLeavesRemainder(d: seq<bool>, i: nat)
    requires i + 16 <= |d| && Divide(0, d) == 0
    requires forall j :: 0 <= j < |d| && !(i <= j < i + 16) ==> !d[j]
    ensures NoneSet(d)
  {
    hide Divide, Times;
    var before, burst, behind := d[..i], d[i..i + 16], d[i + 16..];
    assert d == before + burst + behind;
    DivideConcat(0, before + burst, behind);
    DivideConcat(0, before, burst);
    DivideZeros(0, before);
    TimesPowZero(0, i);
    DivideZeros(Divide(0, burst), behind);
    TimesPowZero(Divide(0, burst), |behind|);
    SixteenBits(burst);
    forall j | 0 <= j < |d| ensures !d[j] {
      if i <= j < i + 16 { assert d[j] == burst[j - i]; }
    }
  }

  lemma ByteOfBits(x: Octet, y: Octet)
    requires TopBits(Up8(x), 8) == TopBits(Up8(y), 8)
    ensures x == y
  {
    EightOut(x);
    EightOut(y);
    Fed(0, Up8(x), 8);
    Fed(0, Up8(y), 8);
    Self(Up8(x));
    Self(Up8(y));
    Self(TimesPow(Up8(x), 8));
    Self(TimesPow(Up8(y), 8));
    TimesPowInjective(Up8(x), Up8(y), 8);
    Up8Injective(x, y);
  }

  lemma Up8Injective(x: bv16, y: bv16)
    requires x <= 0xff && y <= 0xff && Up8(x) == Up8(y)
    ensures x == y
  { }

  lemma EqualPlus(a: bv16, b: bv16)
    ensures Plus(a, b) == 0 <==> a == b
  {
    Self(a);
    Self(b);
    hide Plus;
    Assoc(a, a, b);
  }

  lemma TimesPowInjective(a: bv16, b: bv16, k: nat)
    requires TimesPow(a, k) == TimesPow(b, k)
    ensures a == b
    decreases k
  {
    if k > 0 {
      TimesLinear(a, b);
      TimesZero(Plus(a, b));
      EqualPlus(a, b);
      EqualPlus(Times(a), Times(b));
      hide Times, Plus;
      TimesPowInjective(Times(a), Times(b), k - 1);
    }
  }

  lemma {:induction false} BitsInjective(f: seq<bv16>, g: seq<bv16>)
    requires |f| == |g| && Bits(f) == Bits(g) && forall i :: 0 <= i < |f| ==> f[i] <= 0xff && g[i] <= 0xff
    ensures f == g
  {
    hide TopBits, Up8;
    if f != [] {
      var n := |f| - 1;
      assert Bits(f)[..8 * n] == Bits(f[..n]) && Bits(g)[..8 * n] == Bits(g[..n]);
      assert Bits(f)[8 * n..] == TopBits(Up8(f[n]), 8) && Bits(g)[8 * n..] == TopBits(Up8(g[n]), 8);
      BitsInjective(f[..n], g[..n]);
      ByteOfBits(f[n], g[n]);
      assert f == f[..n] + [f[n]] && g == g[..n] + [g[n]];
    }
  }

  // Two valid frames of equal length never differ only within sixteen consecutive bits
  lemma BurstDetected(f: seq<bv16>, g: seq<bv16>, i: nat)
    requires |f| == |g| && i + 16 <= 8 * |f| && forall j :: 0 <= j < |f| ==> f[j] <= 0xff && g[j] <= 0xff
    requires Crc16(f) == 0 && Crc16(g) == 0
    requires forall j :: 0 <= j < 8 * |f| && !(i <= j < i + 16) ==> Bits(f)[j] == Bits(g)[j]
    ensures f == g
  {
    hide CrcFrom, Divide, Bits;
    CrcIsRemainder(f);
    CrcIsRemainder(g);
    var d := Differences(Bits(f), Bits(g));
    DivideLinear(0, 0, Bits(f), Bits(g));
    Self(0);
    BurstLeavesRemainder(d, i);
    assert Bits(f) == Bits(g) by {
      forall j | 0 <= j < |d| ensures Bits(f)[j] == Bits(g)[j] { assert !d[j]; }
    }
    BitsInjective(f, g);
  }

  // ---------------- valid frames ----------------

  lemma EightZero(e: bv16)
    ensures Eight(e) == 0 <==> e == 0
  {
    TimesEight(e);
    TimesPowZero(e, 8);
  }

  lemma AddedHigh(crc: bv16) ensures Plus(crc, Up8(High(crc))) == Low(crc) { }
  lemma EightOfLow(l: bv16)
    requires l <= 0xff
    ensures Eight(l) == Up8(l)
  { }
  lemma LowSmall(crc: bv16) ensures Low(crc) <= 0xff && High(crc) <= 0xff { }

  // After the high byte of the checksum only the low byte is left, and nothing after that
  lemma SelfChecks(crc: bv16)
    ensures Step(Step(crc, High(crc)), Low(crc)) == 0
  {
    LowSmall(crc);
    var l := Low(crc);
    AddedHigh(crc);
    EightOfLow(l);
    EqualPlus(Up8(l), Up8(l));
    EightZero(0);
    hide Step, Eight, Low, High, Up8, Plus;
    StepIsEight(crc, High(crc));
    StepIsEight(Up8(l), l);
  }

  // No other two bytes do
  lemma OnlySelfChecks(crc: bv16, h: bv16, l: bv16)
    requires h <= 0xff && l <= 0xff && Step(Step(crc, h), l) == 0
    ensures h == High(crc) && l == Low(crc)
  {
    StepIsEight(crc, h);
    var e := Plus(crc, Up8(h));
    StepIsEight(Eight(e), l);
    EightZero(Plus(Eight(e), Up8(l)));
    EqualPlus(Eight(e), Up8(l));
    assert Eight(e) == Up8(l);
    EightIsHigh(e, l);
    OnlyHigh(crc, h, l);
  }

  lemma EightIsHigh(e: bv16, l: bv16)
    requires l <= 0xff && Eight(e) == Up8(l)
    ensures e == l
  {
    EightOfLow(l);
    TimesEight(e);
    TimesEight(l);
    TimesPowInjective(e, l, 8);
  }

  lemma OnlyHigh(crc: bv16, h: bv16, l: bv16)
    requires h <= 0xff && l <= 0xff && Plus(crc, Up8(h)) == l
    ensures h == High(crc) && l == Low(crc)
  { }

  // The remainder of a message followed by two bytes is zero exactly when they are its checksum
  lemma ValidExactly(s: seq<bv16>, h: bv16, l: bv16)
    requires h <= 0xff && l <= 0xff
    ensures Crc16(s + [h, l]) == 0 <==> h == High(Crc16(s)) && l == Low(Crc16(s))
  {
    var t := s + [h, l];
    assert t[..|t| - 1] == s + [h] && (s + [h])[..|s|] == s;
    hide Step;
    assert CrcFrom(0, s + [h]) == Step(CrcFrom(0, s), h);
    assert CrcFrom(0, t) == Step(CrcFrom(0, s + [h]), l);
    hide Step, CrcFrom, High, Low;
    SelfChecks(Crc16(s));
    if Step(Step(Crc16(s), h), l) == 0 { OnlySelfChecks(Crc16(s), h, l); }
  }
}
