/** Acceptance of UTF-8 strings by the table of byte ranges. */
module Utf8 {
  import opened Wire

  datatype Range = Range(lower: int, upper: int)

  // The rows of the table; the length of a row is the number of its ranges
  const VALID_RANGES: seq<seq<Range>> := [
    [Range(0x00, 0x7F)],
    [Range(0xC2, 0xDF), Range(0x80, 0xBF)],
    [Range(0xE0, 0xE0), Range(0xA0, 0xBF), Range(0x80, 0xBF)],
    [Range(0xE1, 0xEC), Range(0x80, 0xBF), Range(0x80, 0xBF)],
    [Range(0xED, 0xED), Range(0x80, 0x9F), Range(0x80, 0xBF)],
    [Range(0xEE, 0xEF), Range(0x80, 0xBF), Range(0x80, 0xBF)],
    [Range(0xF0, 0xF0), Range(0x90, 0xBF), Range(0x80, 0xBF), Range(0x80, 0xBF)],
    [Range(0xF1, 0xF3), Range(0x80, 0xBF), Range(0x80, 0xBF), Range(0x80, 0xBF)],
    [Range(0xF4, 0xF4), Range(0x80, 0x8F), Range(0x80, 0xBF), Range(0x80, 0xBF)]
  ]

  // ---------------- what UTF-8 is ----------------

  // Surrogates and values above 0x10FFFF are no scalar values
  predicate Scalar(c: int) { 0 <= c < 0xD800 || 0xE000 <= c <= 0x10FFFF }

  // The shortest form
  function EncodeChar(c: int): (s: seq<Byte>)
    requires Scalar(c)
    ensures 1 <= |s| <= 4
  {
    if c < 0x80 then [c]
    else if c < 0x800 then [0xC0 + c / 64, 0x80 + c % 64]
    else if c < 0x10000 then [0xE0 + c / 4096, 0x80 + c / 64 % 64, 0x80 + c % 64]
    else [0xF0 + c / 262144, 0x80 + c / 4096 % 64, 0x80 + c / 64 % 64, 0x80 + c % 64]
  }

  ghost predicate AllScalar(cs: seq<int>) { forall i :: 0 <= i < |cs| ==> Scalar(cs[i]) }

  ghost function EncodeAll(cs: seq<int>): seq<Byte>
    requires AllScalar(cs)
  {
    if cs == [] then [] else EncodeChar(cs[0]) + EncodeAll(cs[1..])
  }

  ghost predicate WellFormed(s: seq<Byte>) {
    exists cs :: AllScalar(cs) && EncodeAll(cs) == s
  }

  // ---------------- a row of the table ----------------

  // The value of a char, where it is signed and where it is not
  function CharOf(b: int, signed: bool): int
    requires 0 <= b < 256
  {
    if signed && b >= 128 then b - 256 else b
  }

  predicate InRange(b: Byte, r: Range) { r.lower <= b <= r.upper }

  ghost predicate MatchesRow(s: seq<Byte>, row: seq<Range>) {
    |s| == |row| && forall j :: 0 <= j < |row| ==> InRange(s[j], row[j])
  }

  ghost predicate MatchesSome(s: seq<Byte>) {
    exists i :: 0 <= i < |VALID_RANGES| && MatchesRow(s, VALID_RANGES[i])
  }

  // The number of bytes that the first one announces
  function CharLen(b: Byte): int {
    if b < 128 then 1 else if b >= 0xF0 then 4 else if b >= 0xE0 then 3 else 2
  }

  lemma EncodedMatches(c: int)
    requires Scalar(c)
    ensures MatchesSome(EncodeChar(c)) && CharLen(EncodeChar(c)[0]) == |EncodeChar(c)|
  {
    var s := EncodeChar(c);
    var i := if c < 0x80 then 0 else if c < 0x800 then 1 else if c < 0x1000 then 2 else if c < 0xD000 then 3
             else if c < 0xD800 then 4 else if c < 0x10000 then 5 else if c < 0x40000 then 6
             else if c < 0x100000 then 7 else 8;
    assert MatchesRow(s, VALID_RANGES[i]);
  }

  lemma Digits(x: nat, y: nat)
    requires y < 64
    ensures (64 * x + y) / 64 == x && (64 * x + y) % 64 == y
  { }

  lemma Quotients(c: nat)
    ensures c / 4096 == c / 64 / 64 && c / 262144 == c / 64 / 64 / 64
  { }

  lemma Decode2(a: int, b: int)
    requires 0xC2 <= a <= 0xDF && 0x80 <= b <= 0xBF
    ensures var c := 64 * (a - 0xC0) + (b - 0x80); Scalar(c) && EncodeChar(c) == [a, b]
  {
    Digits(a - 0xC0, b - 0x80);
  }

  lemma Decode3(a: int, b: int, d: int)
    requires 0xE0 <= a <= 0xEF && 0x80 <= b <= 0xBF && 0x80 <= d <= 0xBF
    requires (a == 0xE0 ==> b >= 0xA0) && (a == 0xED ==> b <= 0x9F)
    ensures var c := 64 * (64 * (a - 0xE0) + (b - 0x80)) + (d - 0x80); Scalar(c) && EncodeChar(c) == [a, b, d]
  {
    var m := 64 * (a - 0xE0) + (b - 0x80);
    var c := 64 * m + (d - 0x80);
    Digits(a - 0xE0, b - 0x80);
    Digits(m, d - 0x80);
    Quotients(c);
    assert 0x800 <= c < 0x10000;
  }

  lemma Decode4(a: int, b: int, d: int, e: int)
    requires 0xF0 <= a <= 0xF4 && 0x80 <= b <= 0xBF && 0x80 <= d <= 0xBF && 0x80 <= e <= 0xBF
    requires (a == 0xF0 ==> b >= 0x90) && (a == 0xF4 ==> b <= 0x8F)
    ensures var c := 64 * (64 * (64 * (a - 0xF0) + (b - 0x80)) + (d - 0x80)) + (e - 0x80);
      Scalar(c) && EncodeChar(c) == [a, b, d, e]
  {
    var l := 64 * (a - 0xF0) + (b - 0x80);
    var m := 64 * l + (d - 0x80);
    var c := 64 * m + (e - 0x80);
    Digits(a - 0xF0, b - 0x80);
    Digits(l, d - 0x80);
    Digits(m, e - 0x80);
    Quotients(c);
    assert 0x10000 <= c <= 0x10FFFF;
  }

  // What the rows of each length allow
  lemma MatchedBytes(s: seq<Byte>)
    requires MatchesSome(s)
    ensures 1 <= |s| <= 4
    ensures |s| == 1 ==> s[0] < 0x80
    ensures |s| == 2 ==> 0xC2 <= s[0] <= 0xDF
    ensures |s| == 3 ==> 0xE0 <= s[0] <= 0xEF && (s[0] == 0xE0 ==> s[1] >= 0xA0) && (s[0] == 0xED ==> s[1] <= 0x9F)
    ensures |s| == 4 ==> 0xF0 <= s[0] <= 0xF4 && (s[0] == 0xF0 ==> s[1] >= 0x90) && (s[0] == 0xF4 ==> s[1] <= 0x8F)
    ensures forall j :: 1 <= j < |s| ==> 0x80 <= s[j] <= 0xBF
  {
  }

  lemma MatchedDecodes(s: seq<Byte>) returns (c: int)
    requires MatchesSome(s)
    ensures Scalar(c) && EncodeChar(c) == s
  {
    MatchedBytes(s);
    hide EncodeChar, Scalar, MatchesSome, VALID_RANGES;
    if |s| == 1 {
      c := s[0];
      OneByte(c);
    } else if |s| == 2 {
      c := 64 * (s[0] as int - 0xC0) + (s[1] as int - 0x80);
      Decode2(s[0], s[1]);
    } else if |s| == 3 {
      c := 64 * (64 * (s[0] as int - 0xE0) + (s[1] as int - 0x80)) + (s[2] as int - 0x80);
      Decode3(s[0], s[1], s[2]);
    } else {
      c := 64 * (64 * (64 * (s[0] as int - 0xF0) + (s[1] as int - 0x80)) + (s[2] as int - 0x80)) + (s[3] as int - 0x80);
      Decode4(s[0], s[1], s[2], s[3]);
    }
  }

  lemma OneByte(c: int)
    requires 0 <= c < 0x80
    ensures Scalar(c) && EncodeChar(c) == [c]
  { }

  // ---------------- the characters of a string ----------------

  ghost predicate NoNul(s: seq<Byte>) { forall i :: 0 <= i < |s| ==> s[i] != 0 }

  // The bytes at p begin with one well-formed character of n bytes
  ghost predicate CharAt(s: seq<Byte>, p: nat, n: nat) {
    p + n <= |s| && n > 0 && MatchesSome(s[p..p + n])
  }

  lemma FirstChar(s: seq<Byte>, p: nat)
    requires p < |s| && WellFormed(s[p..])
    ensures var n := CharLen(s[p]); CharAt(s, p, n) && WellFormed(s[p + n..])
  {
    hide MatchesSome;
    var cs :| AllScalar(cs) && EncodeAll(cs) == s[p..];
    var first, rest := EncodeChar(cs[0]), EncodeAll(cs[1..]);
    EncodedMatches(cs[0]);
    hide EncodeChar, CharLen;
    assert s[p..] == first + rest;
    var n := |first|;
    assert s[p] == first[0] && s[p..p + n] == first && s[p + n..] == rest;
    assert AllScalar(cs[1..]);
  }

  lemma CharBefore(s: seq<Byte>, p: nat, n: nat)
    requires p < |s| && CharAt(s, p, n) && WellFormed(s[p + n..])
    ensures WellFormed(s[p..])
  {
    hide MatchesSome;
    var c := MatchedDecodes(s[p..p + n]);
    var cs :| AllScalar(cs) && EncodeAll(cs) == s[p + n..];
    Extended(c, cs);
    assert s[p..] == s[p..p + n] + s[p + n..];
  }

  // Both ways: the rest is well formed exactly when it is a character and a well-formed rest
  lemma WellFormedStep(s: seq<Byte>, p: nat)
    requires p < |s|
    ensures WellFormed(s[p..]) <==> var n := CharLen(s[p]); CharAt(s, p, n) && WellFormed(s[p + n..])
  {
    if WellFormed(s[p..]) { FirstChar(s, p); }
    if CharAt(s, p, CharLen(s[p])) && WellFormed(s[p + CharLen(s[p])..]) { CharBefore(s, p, CharLen(s[p])); }
    hide WellFormed;
  }

  lemma Extended(c: int, cs: seq<int>)
    requires Scalar(c) && AllScalar(cs)
    ensures WellFormed(EncodeChar(c) + EncodeAll(cs))
  {
    var ds := [c] + cs;
    assert ds[1..] == cs;
    assert AllScalar(ds) && EncodeAll(ds) == EncodeChar(c) + EncodeAll(cs);
  }

  lemma EmptyIsWellFormed()
    ensures WellFormed([])
  {
    assert AllScalar([]) && EncodeAll([]) == [];
  }

  // The comparisons of chars give the same answer whether char is signed or not
  lemma SignMakesNoDifference(b: Byte, r: Range, j: nat, signed: bool)
    requires 0 <= r.lower <= r.upper < 256 && (r.upper < 128 || r.lower >= 128)
    requires j == 0 && r.lower < 128 ==> b < 128
    requires r.lower < 128 ==> j == 0
    ensures CharOf(r.lower, signed) <= CharOf(b, signed) <= CharOf(r.upper, signed) <==> InRange(b, r)
  { }

  // The byte at k; the terminator stands behind the last one
  function At(s: seq<Byte>, k: nat): Byte
    requires k <= |s|
  {
    if k < |s| then s[k] else 0
  }

  // The loop over the bytes of one row; never looks behind the terminator
  method MatchRow(s: seq<Byte>, p: nat, row: seq<Range>, signed: bool) returns (good: bool)
    requires NoNul(s) && p < |s| && row in VALID_RANGES && CharLen(s[p]) == |row|
    ensures good <==> p + |row| <= |s| && MatchesRow(s[p..p + |row|], row)
  {
    good := true;
    var j := 0;
    RowRanges(row);
    while j < |row|
      invariant 0 <= j <= |row| && p + j <= |s| && good
      invariant forall k :: 0 <= k < j ==> InRange(s[p + k], row[k])
    {
      var b := At(s, p + j);
      SignMakesNoDifference(b, row[j], j, signed);
      if CharOf(b, signed) < CharOf(row[j].lower, signed) || CharOf(b, signed) > CharOf(row[j].upper, signed) {
        good := false;
        break;
      }
      assert b != 0;
      j := j + 1;
    }
  }

  lemma RowRanges(row: seq<Range>)
    requires row in VALID_RANGES
    ensures forall j :: 0 <= j < |row| ==> 0 <= row[j].lower <= row[j].upper < 256
    ensures forall j :: 0 <= j < |row| ==> if |row| == 1 then row[j].upper < 128 &&
      row[j].lower == 0 else row[j].lower >= 128
  { }

  // UTF8_char_validate: the place of the next character, if there is a good one here. `len` is the length of the
  // whole string, wherever the character is.
  method CharValidate(s: seq<Byte>, len: nat, p: nat, signed: bool) returns (next: nat, ok: bool)
    requires NoNul(s) && len == |s| && p < |s|
    ensures ok <==> CharAt(s, p, CharLen(s[p]))
    ensures ok ==> next == p + CharLen(s[p]) <= |s|
  {
    var charlen := CharLen(s[p]);
    next, ok := p, false;
    if charlen > len {
      return;
    }
    var i := 0;
    while i < |VALID_RANGES| && !ok
      invariant 0 <= i <= |VALID_RANGES|
      invariant !ok ==> forall k :: 0 <= k < i ==>
        !(p + charlen <= |s| && MatchesRow(s[p..p + charlen], VALID_RANGES[k]))
      invariant ok ==> CharAt(s, p, charlen)
    {
      if |VALID_RANGES[i]| == charlen {
        ok := MatchRow(s, p, VALID_RANGES[i], signed);
      }
      i := i + 1;
    }
    if ok {
      next := p + charlen;
    }
  }

  // UTF8_validate on a NUL-terminated string, and UTF8_validateString: exactly the well-formed strings are accepted
  method ValidateString(s: seq<Byte>, signed: bool) returns (rc: bool)
    requires NoNul(s)
    ensures rc <==> WellFormed(s)
  {
    EmptyIsWellFormed();
    hide WellFormed, CharAt, NoNul;
    if |s| == 0 {
      return true;
    }
    assert s[0..] == s;
    WellFormedStep(s, 0);
    var cur, ok := CharValidate(s, |s|, 0, signed);
    while ok && cur < |s|
      invariant ok ==> cur <= |s| && (WellFormed(s) <==> WellFormed(s[cur..]))
      invariant !ok ==> !WellFormed(s)
      decreases |s| - cur, ok
    {
      WellFormedStep(s, cur);
      ghost var was := cur;
      var next;
      next, ok := CharValidate(s, |s|, cur, signed);
      if ok {
        cur := next;
      }
    }
    assert ok ==> s[cur..] == [];
    rc := ok;
  }
}
