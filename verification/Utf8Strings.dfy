/** The UTF-16 to UTF-8 encoder of Memory.allocUtf8String (memory.ts), against RFC 3629. */
module Utf8Strings {
  import opened Results
  import opened Words

  type unit16 = x: int | 0 <= x < 0x10000
  type CodePoint = x: int | 0 <= x < 0x110000

  predicate IsHigh(u: int) {
    0xD800 <= u < 0xDC00
  }

  predicate IsLow(u: int) {
    0xDC00 <= u < 0xE000
  }

  predicate IsScalar(cp: int) {
    0 <= cp < 0x110000 && !(0xD800 <= cp < 0xE000)
  }

  // ---------- The source string ----------

  function Combine(high: int, low: int): int {
    0x10000 + (high - 0xD800) * 0x400 + (low - 0xDC00)
  }

  /** String.prototype.codePointAt: a surrogate pair gives its code point, any other unit itself. */
  function CodePointAt(s: seq<unit16>, i: nat): CodePoint
    requires i < |s|
  {
    if IsHigh(s[i]) && i + 1 < |s| && IsLow(s[i + 1])
    then Combine(s[i], s[i + 1])
    else s[i]
  }

  /** Number of code units a code point takes. */
  function Width(cp: int): nat {
    if cp < 0x10000 then 1 else 2
  }

  function CodePoints(s: seq<unit16>): seq<CodePoint>
    decreases |s|
  {
    if s == [] then [] else [CodePointAt(s, 0)] + CodePoints(s[Width(CodePointAt(s, 0))..])
  }

  /** UTF-16 of one code point; a lone surrogate stands for itself. */
  function Utf16Of(cp: CodePoint): seq<unit16> {
    if cp < 0x10000 then [cp]
    else [0xD800 + (cp - 0x10000) / 0x400, 0xDC00 + (cp - 0x10000) % 0x400]
  }

  function Utf16(cps: seq<CodePoint>): seq<unit16> {
    if cps == [] then [] else Utf16Of(cps[0]) + Utf16(cps[1..])
  }

  /** Every surrogate belongs to a pair. */
  ghost predicate WellFormed(s: seq<unit16>) {
    forall i :: 0 <= i < |s| ==> UnitOk(s, i)
  }

  ghost predicate UnitOk(s: seq<unit16>, i: int)
    requires 0 <= i < |s|
  {
    && (IsHigh(s[i]) ==> i + 1 < |s| && IsLow(s[i + 1]))
    && (IsLow(s[i]) ==> i > 0 && IsHigh(s[i - 1]))
  }

  lemma {:induction false} PairsConsumedOnce(s: seq<unit16>)
    ensures Utf16(CodePoints(s)) == s
    decreases |s|
  {
    hide CodePointAt, Utf16Of;
    if s != [] {
      var cp := CodePointAt(s, 0);
      FirstUnits(s);
      var rest := s[Width(cp)..];
      PairsConsumedOnce(rest);
      assert CodePoints(s)[1..] == CodePoints(rest);
      assert s == s[..Width(cp)] + rest;
    }
  }

  lemma FirstUnits(s: seq<unit16>)
    requires s != []
    ensures var cp := CodePointAt(s, 0); Width(cp) <= |s| && Utf16Of(cp) == s[..Width(cp)]
  {
  }

  /** A string is well formed exactly when its code points are scalar values. */
  lemma {:induction false} WellFormedIffScalars(s: seq<unit16>)
    ensures WellFormed(s) <==> forall k :: 0 <= k < |CodePoints(s)| ==> IsScalar(CodePoints(s)[k])
    decreases |s|
  {
    if s != [] {
      var cp := CodePointAt(s, 0);
      var w := Width(cp);
      var rest, cps := s[w..], CodePoints(s);
      WellFormedIffScalars(rest);
      assert cps[0] == cp && cps[1..] == CodePoints(rest);
      assert (forall k :: 0 <= k < |cps| ==> IsScalar(cps[k])) <==>
        IsScalar(cp) && forall k :: 0 <= k < |cps[1..]| ==> IsScalar(cps[1..][k]) by {
        assert forall k :: 0 < k < |cps| ==> cps[k] == cps[1..][k - 1];
      }
      WellFormedSplit(s, w);
    }
  }

  lemma WellFormedSplit(s: seq<unit16>, w: nat)
    requires s != [] && w == Width(CodePointAt(s, 0))
    ensures w <= |s|
    ensures WellFormed(s) <==> IsScalar(CodePointAt(s, 0)) && WellFormed(s[w..])
  {
    var rest := s[w..];
    assert forall i :: w <= i < |s| ==> s[i] == rest[i - w];
    assert forall i :: 0 <= i < |rest| ==> rest[i] == s[i + w];
    if WellFormed(s) {
      assert UnitOk(s, 0);
      forall i | 0 <= i < |rest|
        ensures UnitOk(rest, i)
      {
        assert UnitOk(s, i + w);
      }
    }
    if IsScalar(CodePointAt(s, 0)) && WellFormed(rest) {
      forall i | 0 <= i < |s|
        ensures UnitOk(s, i)
      {
        if i >= w {
          assert UnitOk(rest, i - w);
        }
      }
    }
  }

  // ---------- The encoder ----------

  /** The bytes pushed for one code point.  The bit fields or-ed together do not overlap, so `|` is `+`. */
  function EncodeOne(cp: CodePoint): seq<byte> {
    if cp < 0x80 then [cp]
    else if cp < 0x800 then [0xC0 + cp / 0x40, 0x80 + cp % 0x40]
    else if cp < 0x10000 then [0xE0 + cp / 0x1000, 0x80 + cp / 0x40 % 0x40, 0x80 + cp % 0x40]
    else [0xF0 + cp / 0x40000, 0x80 + cp / 0x1000 % 0x40, 0x80 + cp / 0x40 % 0x40, 0x80 + cp % 0x40]
  }

  function EncodeAll(cps: seq<CodePoint>): seq<byte> {
    if cps == [] then [] else EncodeOne(cps[0]) + EncodeAll(cps[1..])
  }

  /** Bytes already pushed, and those still to come from offset `i` on. */
  function Pending(done: seq<byte>, str: seq<unit16>, i: nat): seq<byte>
    requires i <= |str|
  {
    done + EncodeAll(CodePoints(str[i..]))
  }

  lemma EncodeTurn(done: seq<byte>, str: seq<unit16>, i: nat)
    requires i < |str|
    ensures var cp := CodePointAt(str, i);
            i + Width(cp) <= |str| &&
            Pending(done, str, i) == Pending(done + EncodeOne(cp), str, i + Width(cp))
  {
    var cp, rest := CodePointAt(str, i), str[i..];
    assert CodePointAt(rest, 0) == cp;
    assert rest[Width(cp)..] == str[i + Width(cp)..];
    assert CodePoints(rest)[1..] == CodePoints(rest[Width(cp)..]);
    hide CodePointAt, EncodeOne, CodePoints;
    var tail := EncodeAll(CodePoints(rest[Width(cp)..]));
    assert done + (EncodeOne(cp) + tail) == done + EncodeOne(cp) + tail;
  }

  lemma EncodeBounds(done: seq<byte>, str: seq<unit16>)
    ensures Pending([], str, 0) == EncodeAll(CodePoints(str)) && Pending(done, str, |str|) == done
  {
    assert str[0..] == str;
  }

  /** The bytes written for a string: its encoded code points and one terminating NUL. */
  method AllocUtf8String(str: seq<unit16>) returns (encoded: seq<byte>)
    ensures encoded == EncodeAll(CodePoints(str)) + [0]
  {
    hide Pending, CodePoints, EncodeAll, CodePointAt;
    encoded := [];
    EncodeBounds([], str);
    var i: nat := 0;
    while i < |str|
      invariant i <= |str|
      invariant Pending([], str, 0) == Pending(encoded, str, i)
    {
      var cp := CodePointAt(str, i);
      EncodeTurn(encoded, str, i);
      if cp < 0x80 {
        encoded := encoded + [cp];
      } else if cp < 0x800 {
        encoded := encoded + [0xC0 + cp / 0x40, 0x80 + cp % 0x40];
      } else if cp < 0x10000 {
        encoded := encoded + [0xE0 + cp / 0x1000, 0x80 + cp / 0x40 % 0x40, 0x80 + cp % 0x40];
      } else {
        encoded := encoded + [0xF0 + cp / 0x40000, 0x80 + cp / 0x1000 % 0x40, 0x80 + cp / 0x40 % 0x40,
          0x80 + cp % 0x40];
        i := i + 1;
      }
      i := i + 1;
    }
    EncodeBounds(encoded, str);
    encoded := encoded + [0];
  }

  // ---------- RFC 3629 ----------

  predicate IsTail(b: byte) {
    0x80 <= b <= 0xBF
  }

  /** Value of a lead byte's and the tails' payload bits. */
  function Payload2(a: int, b: int): int {
    (a - 0xC0) * 0x40 + (b - 0x80)
  }

  function Payload3(a: int, b: int, c: int): int {
    (a - 0xE0) * 0x1000 + (b - 0x80) * 0x40 + (c - 0x80)
  }

  function Payload4(a: int, b: int, c: int, d: int): int {
    (a - 0xF0) * 0x40000 + (b - 0x80) * 0x1000 + (c - 0x80) * 0x40 + (d - 0x80)
  }

  datatype Decoded = Decoded(cp: CodePoint, size: nat)

  /** The first character of a byte string, by the syntax of RFC 3629 section 4. */
  function DecodeOne(b: seq<byte>): (d: Option<Decoded>)
    ensures d.Some? ==> 1 <= d.value.size <= |b| && IsScalar(d.value.cp)
  {
    if b == [] then None
    else if b[0] <= 0x7F then Some(Decoded(b[0], 1))
    else if 0xC2 <= b[0] <= 0xDF && |b| >= 2 && IsTail(b[1]) then
      Some(Decoded(Payload2(b[0], b[1]), 2))
    else if 0xE0 <= b[0] <= 0xEF && |b| >= 3 && IsTail(b[1]) && IsTail(b[2])
            && (b[0] == 0xE0 ==> b[1] >= 0xA0) && (b[0] == 0xED ==> b[1] <= 0x9F) then
      Some(Decoded(Payload3(b[0], b[1], b[2]), 3))
    else if 0xF0 <= b[0] <= 0xF4 && |b| >= 4 && IsTail(b[1]) && IsTail(b[2]) && IsTail(b[3])
            && (b[0] == 0xF0 ==> b[1] >= 0x90) && (b[0] == 0xF4 ==> b[1] <= 0x8F) then
      Some(Decoded(Payload4(b[0], b[1], b[2], b[3]), 4))
    else None
  }

  /** All characters, or None if the bytes are not UTF-8. */
  function DecodeAll(b: seq<byte>): Option<seq<CodePoint>>
    decreases |b|
  {
    if b == [] then Some([])
    else
      match DecodeOne(b)
      case None => None
      case Some(d) =>
        match DecodeAll(b[d.size..])
        case None => None
        case Some(cps) => Some([d.cp] + cps)
  }

  /** The emitted bytes decode to their code point, unless it is a surrogate, which UTF-8 cannot encode. */
  lemma EncodedDecodes(cp: CodePoint, rest: seq<byte>)
    ensures DecodeOne(EncodeOne(cp) + rest) == if IsScalar(cp) then Some(Decoded(cp, |EncodeOne(cp)|)) else None
  {
    var e := EncodeOne(cp);
    var b := e + rest;
    assert forall i :: 0 <= i < |e| ==> b[i] == e[i];
    if 0x800 <= cp < 0x10000 {
      Decodes3(cp, b);
    } else if cp >= 0x10000 {
      Decodes4(cp, b);
    }
  }

  lemma Decodes3(cp: CodePoint, b: seq<byte>)
    requires 0x800 <= cp < 0x10000 && |b| >= 3 && b[..3] == EncodeOne(cp)
    ensures DecodeOne(b) == if IsScalar(cp) then Some(Decoded(cp, 3)) else None
  {
    Digits3(cp);
    assert b[0] == b[..3][0] && b[1] == b[..3][1] && b[2] == b[..3][2];
  }

  lemma Decodes4(cp: CodePoint, b: seq<byte>)
    requires cp >= 0x10000 && |b| >= 4 && b[..4] == EncodeOne(cp)
    ensures DecodeOne(b) == Some(Decoded(cp, 4))
  {
    Digits4(cp);
    assert b[0] == b[..4][0] && b[1] == b[..4][1] && b[2] == b[..4][2] && b[3] == b[..4][3];
  }

  lemma Digits3(cp: nat)
    ensures cp == cp / 0x1000 * 0x1000 + cp / 0x40 % 0x40 * 0x40 + cp % 0x40
  {
    assert cp / 0x40 / 0x40 == cp / 0x1000;
  }

  lemma Digits4(cp: nat)
    ensures cp == cp / 0x40000 * 0x40000 + cp / 0x1000 % 0x40 * 0x1000 + cp / 0x40 % 0x40 * 0x40 + cp % 0x40
  {
    Digits3(cp);
    assert cp / 0x1000 / 0x40 == cp / 0x40000;
  }

  lemma {:induction false} EncodedAllDecodes(cps: seq<CodePoint>)
    ensures DecodeAll(EncodeAll(cps)) ==
              if forall k :: 0 <= k < |cps| ==> IsScalar(cps[k]) then Some(cps) else None
  {
    if cps != [] {
      var cp, rest := cps[0], EncodeAll(cps[1..]);
      EncodedDecodes(cp, rest);
      EncodedAllDecodes(cps[1..]);
      assert (EncodeOne(cp) + rest)[|EncodeOne(cp)|..] == rest;
      assert cps == [cp] + cps[1..];
      assert (forall k :: 0 <= k < |cps| ==> IsScalar(cps[k])) <==>
        IsScalar(cp) && forall k :: 0 <= k < |cps[1..]| ==> IsScalar(cps[1..][k]) by {
        assert forall k :: 0 < k < |cps| ==> cps[k] == cps[1..][k - 1];
      }
    }
  }

  /** The text written is UTF-8 exactly when the string is well-formed UTF-16; decoding it then gives the code
      points of the string, and those determine the string. */
  lemma Utf8RoundTrip(str: seq<unit16>)
    ensures DecodeAll(EncodeAll(CodePoints(str))) == if WellFormed(str) then Some(CodePoints(str)) else None
    ensures Utf16(CodePoints(str)) == str
  {
    EncodedAllDecodes(CodePoints(str));
    WellFormedIffScalars(str);
    PairsConsumedOnce(str);
  }

  /** No code point's bytes begin another's, surrogates included. */
  lemma PrefixFree(a: CodePoint, b: CodePoint)
    requires EncodeOne(a) <= EncodeOne(b)
    ensures a == b
  {
    var x, y := EncodeOne(a), EncodeOne(b);
    assert x[0] == y[0];
    assert |x| == |y|;
    assert x == y[..|x|] && y[..|y|] == y;
    if 0x800 <= a < 0x10000 {
      Digits3(a);
      Digits3(b);
      assert x[1] == y[1] && x[2] == y[2];
    } else if a >= 0x10000 {
      Digits4(a);
      Digits4(b);
      assert x[1] == y[1] && x[2] == y[2] && x[3] == y[3];
    } else if a >= 0x80 {
      assert x[1] == y[1];
    }
  }

  /** The terminator is the only NUL, so a C reader sees the whole text, exactly when the string has no U+0000. */
  lemma {:induction false} OnlyTerminatorIsNul(str: seq<unit16>)
    ensures 0 in EncodeAll(CodePoints(str)) <==> 0 in str
    decreases |str|
  {
    if str != [] {
      var cp := CodePointAt(str, 0);
      var rest := str[Width(cp)..];
      OnlyTerminatorIsNul(rest);
      assert CodePoints(str)[1..] == CodePoints(rest);
      assert str == str[..Width(cp)] + rest;
      assert EncodeAll(CodePoints(str)) == EncodeOne(cp) + EncodeAll(CodePoints(rest));
      assert 0 in EncodeOne(cp) <==> cp == 0;
      assert 0 in str[..Width(cp)] <==> cp == 0;
    }
  }

  /** A lone surrogate comes out as three bytes that no UTF-8 decoder accepts. */
  lemma LoneSurrogateIsNotUtf8()
    ensures !WellFormed([0xD800]) && EncodeAll(CodePoints([0xD800])) == [0xED, 0xA0, 0x80]
    ensures DecodeAll([0xED, 0xA0, 0x80]) == None
  {
    var s: seq<unit16> := [0xD800];
    assert CodePointAt(s, 0) == 0xD800;
    assert s[1..] == [];
    var cps := CodePoints(s);
    assert cps == [0xD800];
    assert cps[1..] == [];
    assert EncodeAll(cps) == EncodeOne(0xD800) + EncodeAll([]);
    assert IsHigh(s[0]) && !UnitOk(s, 0);
  }
}
