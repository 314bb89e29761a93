/** The hexadecimal text of identifiers and pattern bytes, as the C++ library prints and reads it. */
module HexText {
  import opened Results
  import opened Words

  datatype ParseError = InvalidArgument | OutOfRange

  // ---------- Printing ----------

  const DIGITS := "0123456789abcdef"

  function HexDigits(n: nat): (s: string)
    ensures |s| > 0
  {
    if n < 16 then [DIGITS[n]] else HexDigits(n / 16) + [DIGITS[n % 16]]
  }

  /** `"0x" << std::hex << n`. */
  function ToHexAddr(n: nat): string {
    "0x" + HexDigits(n)
  }

  // ---------- Reading ----------

  predicate IsSpace(c: char) {
    c in " \t\n\r" || c as int == 11 || c as int == 12
  }

  function DigitValue(c: char): Option<nat> {
    if '0' <= c <= '9' then Some(c as int - '0' as int)
    else if 'a' <= c <= 'f' then Some(c as int - 'a' as int + 10)
    else if 'A' <= c <= 'F' then Some(c as int - 'A' as int + 10)
    else None
  }

  predicate IsHexDigit(c: char) {
    DigitValue(c).Some?
  }

  function SkipSpaces(s: string): (r: string)
    ensures |r| <= |s|
  {
    if s != "" && IsSpace(s[0]) then SkipSpaces(s[1..]) else s
  }

  /** Length of the longest prefix of hexadecimal digits. */
  function DigitRun(s: string): (n: nat)
    ensures n <= |s|
    ensures forall i :: 0 <= i < n ==> IsHexDigit(s[i])
    ensures n < |s| ==> !IsHexDigit(s[n])
  {
    if s != "" && IsHexDigit(s[0]) then 1 + DigitRun(s[1..]) else 0
  }

  predicate AllHex(s: string) {
    forall i :: 0 <= i < |s| ==> IsHexDigit(s[i])
  }

  function HexValue(s: string): nat
    requires AllHex(s)
  {
    if s == "" then 0
    else
      assert IsHexDigit(s[|s| - 1]);
      16 * HexValue(s[..|s| - 1]) + DigitValue(s[|s| - 1]).value
  }

  datatype Scanned = Scanned(negative: bool, magnitude: nat)

  /** strtoull/strtol in base 16: spaces, a sign, an optional "0x", then the longest run of digits. */
  function ScanHex(text: string): Option<Scanned> {
    var s := SkipSpaces(text);
    var signed := s != "" && (s[0] == '-' || s[0] == '+');
    var t := if signed then s[1..] else s;
    var prefixed := |t| > 2 && t[0] == '0' && (t[1] == 'x' || t[1] == 'X') && IsHexDigit(t[2]);
    var u := if prefixed then t[2..] else t;
    var n := DigitRun(u);
    if n == 0 then None else Some(Scanned(signed && s[0] == '-', HexValue(u[..n])))
  }

  /** `std::stoull(text, nullptr, 16)`: a minus sign negates modulo 2^64. */
  function ParseHexAddr(text: string): Result<u64, ParseError> {
    match ScanHex(text)
    case None => Failure(InvalidArgument)
    case Some(v) =>
      if v.magnitude >= TWO_64 then Failure(OutOfRange)
      else Success(if v.negative then Wrap(0 - v.magnitude) else v.magnitude)
  }

  /** `std::stoi(text, nullptr, 16)`. */
  function ParseHexInt(text: string): Result<int, ParseError> {
    match ScanHex(text)
    case None => Failure(InvalidArgument)
    case Some(v) =>
      var x := if v.negative then 0 - v.magnitude else v.magnitude;
      if -TWO_31 <= x < TWO_31 then Success(x) else Failure(OutOfRange)
  }

  // ---------- Round trips ----------

  lemma DigitBack(d: nat)
    requires d < 16
    ensures DigitValue(DIGITS[d]) == Some(d)
  {
    assert DIGITS[d] == (if d < 10 then d as char + '0' else (d - 10) as char + 'a');
  }

  lemma {:induction false} HexDigitsBack(n: nat)
    ensures AllHex(HexDigits(n))
    ensures HexValue(HexDigits(n)) == n
  {
    DigitBack(n % 16);
    var s := HexDigits(n);
    if n >= 16 {
      HexDigitsBack(n / 16);
      assert s[..|s| - 1] == HexDigits(n / 16);
    }
  }

  predicate EndsNumber(rest: string) {
    rest == "" || (!IsHexDigit(rest[0]) && rest[0] != 'x' && rest[0] != 'X')
  }

  lemma DigitRunStops(digits: string, rest: string)
    requires AllHex(digits) && EndsNumber(rest)
    ensures DigitRun(digits + rest) == |digits|
    ensures (digits + rest)[..|digits|] == digits
  {
    var t := digits + rest;
    assert forall i :: 0 <= i < |digits| ==> t[i] == digits[i];
    assert rest != "" ==> t[|digits|] == rest[0];
  }

  /** A run of digits that ends the text, or is followed by a non-digit, scans to its value. */
  lemma ScanDigits(digits: string, rest: string)
    requires digits != "" && AllHex(digits) && EndsNumber(rest)
    ensures ScanHex(digits + rest) == Some(Scanned(false, HexValue(digits)))
  {
    var t := digits + rest;
    DigitRunStops(digits, rest);
    assert t[0] == digits[0] && IsHexDigit(t[0]);
    assert SkipSpaces(t) == t;
    if |t| > 2 && |digits| > 1 {
      assert t[1] == digits[1];
    } else if |t| > 2 {
      assert t[1] == rest[0];
    }
  }

  lemma ScanPrefixed(digits: string)
    requires digits != "" && AllHex(digits)
    ensures ScanHex("0x" + digits) == Some(Scanned(false, HexValue(digits)))
  {
    var p := "0x" + digits;
    assert p[2] == digits[0] && p[2..] == digits;
    assert SkipSpaces(p) == p;
    assert digits + "" == digits;
    DigitRunStops(digits, "");
  }

  /** An identifier handed to a script as text names the same entry when the script hands it back. */
  lemma HexRoundTrip(n: u64)
    ensures ParseHexAddr(ToHexAddr(n)) == Success(n)
  {
    HexDigitsBack(n);
    ScanPrefixed(HexDigits(n));
  }

  lemma {:induction false} HexDigitsSpell(n: nat)
    ensures Spells(HexDigits(n), n)
    ensures forall i :: 0 <= i < |HexDigits(n)| ==> HexDigits(n)[i] in "0123456789abcdef"
    ensures n > 0 ==> HexDigits(n)[0] != '0'
  {
    var s := HexDigits(n);
    if n >= 16 {
      HexDigitsSpell(n / 16);
      assert s[..|s| - 1] == HexDigits(n / 16);
    }
  }

  /** The text of an identifier: its hexadecimal digits in lower case without leading zeros, behind "0x". */
  lemma HexTextExact(n: nat)
    ensures var s := ToHexAddr(n);
            && s[..2] == "0x" && Spells(s[2..], n)
            && (forall i :: 2 <= i < |s| ==> s[i] in "0123456789abcdef")
            && (if n == 0 then s == "0x0" else s[2] != '0')
  {
    HexDigitsSpell(n);
    hide Spells;
    var s := ToHexAddr(n);
    assert s[2..] == HexDigits(n);
  }

  lemma HexTextInjective(a: u64, b: u64)
    requires ToHexAddr(a) == ToHexAddr(b)
    ensures a == b
  {
    HexRoundTrip(a);
    HexRoundTrip(b);
  }

  // ---------- Every notation of a number ----------

  /** A character that writes the digit `d`, in lower or upper case. */
  predicate SpellsDigit(c: char, d: nat) {
    d < 16 && (c == "0123456789abcdef"[d] || c == "0123456789ABCDEF"[d])
  }

  lemma DigitValueExact(c: char, d: nat)
    ensures DigitValue(c) == Some(d) <==> SpellsDigit(c, d)
  {
    if d < 16 {
      assert "0123456789abcdef"[d] == (if d < 10 then d as char + '0' else (d - 10) as char + 'a');
      assert "0123456789ABCDEF"[d] == (if d < 10 then d as char + '0' else (d - 10) as char + 'A');
    }
  }

  /** The digits write `v`, most significant first, each in either case, with any number of leading zeros. */
  predicate Spells(digits: string, v: nat) {
    digits != "" && SpellsDigit(digits[|digits| - 1], v % 16) &&
    if |digits| == 1 then v < 16 else Spells(digits[..|digits| - 1], v / 16)
  }

  lemma {:induction false} SpellsExact(digits: string, v: nat)
    ensures Spells(digits, v) <==> digits != "" && AllHex(digits) && HexValue(digits) == v
  {
    hide SpellsDigit, DigitValue;
    if digits != "" {
      var before, last := digits[..|digits| - 1], digits[|digits| - 1];
      DigitValueExact(last, v % 16);
      assert AllHex(digits) <==> AllHex(before) && IsHexDigit(last) by {
        assert digits == before + [last];
      }
      if IsHexDigit(last) {
        DigitBelow16(last);
      }
      if |digits| > 1 {
        SpellsExact(before, v / 16);
      }
    }
  }

  lemma DigitBelow16(c: char)
    requires IsHexDigit(c)
    ensures DigitValue(c).value < 16
  {
  }

  /** A number as it may be written: blanks, a sign, a prefix, digits in either case, and whatever follows them. */
  datatype Notation = Notation(pad: string, sign: string, prefix: string, digits: string, junk: string) {
    function Text(): string {
      pad + sign + prefix + digits + junk
    }

    /** The digits are as many as can be taken. */
    predicate Longest() {
      junk != "" ==>
        && junk[0] !in "0123456789abcdefABCDEF"
        && !(prefix == "" && digits == "0" && |junk| >= 2 && junk[0] in "xX" && junk[1] in "0123456789abcdefABCDEF")
    }

    predicate Writes(negative: bool, v: nat) {
      && (forall i :: 0 <= i < |pad| ==> IsSpace(pad[i]))
      && sign in {"", "+", "-"} && prefix in {"", "0x", "0X"} && Spells(digits, v) && Longest()
      && (negative <==> sign == "-")
    }
  }

  ghost predicate WrittenAs(text: string, negative: bool, v: nat) {
    exists n: Notation :: n.Text() == text && n.Writes(negative, v)
  }

  lemma HexChar(i: nat)
    requires i < 22
    ensures "0123456789abcdefABCDEF"[i] ==
              if i < 10 then i as char + '0' else if i < 16 then (i - 10) as char + 'a' else (i - 16) as char + 'A'
  {
  }

  lemma HexDigitsAre(c: char)
    ensures IsHexDigit(c) <==> c in "0123456789abcdefABCDEF"
    ensures IsHexDigit(c) ==> !IsSpace(c) && c != '-' && c != '+' && c != 'x' && c != 'X'
  {
    DigitIsNoSpace(c);
    hide IsSpace;
    if IsHexDigit(c) {
      var d := DigitValue(c).value;
      HexChar(if 'A' <= c <= 'F' then d + 6 else d);
    }
    if i :| 0 <= i < 22 && c == "0123456789abcdefABCDEF"[i] {
      HexChar(i);
    }
  }

  lemma DigitIsNoSpace(c: char)
    ensures IsHexDigit(c) ==> !IsSpace(c)
  {
  }

  lemma {:induction false} BlanksSkipped(pad: string, rest: string)
    requires (forall i :: 0 <= i < |pad| ==> IsSpace(pad[i])) && (rest != "" ==> !IsSpace(rest[0]))
    ensures SkipSpaces(pad + rest) == rest
    decreases |pad|
  {
    hide IsSpace;
    if pad == "" {
      assert pad + rest == rest;
    } else {
      assert (pad + rest)[1..] == pad[1..] + rest;
      BlanksSkipped(pad[1..], rest);
    }
  }

  lemma {:induction false} BlanksBefore(text: string) returns (pad: string)
    ensures text == pad + SkipSpaces(text) && forall i :: 0 <= i < |pad| ==> IsSpace(pad[i])
    ensures SkipSpaces(text) != "" ==> !IsSpace(SkipSpaces(text)[0])
    decreases |text|
  {
    hide IsSpace;
    if text != "" && IsSpace(text[0]) {
      var more := BlanksBefore(text[1..]);
      pad := [text[0]] + more;
      assert text == [text[0]] + text[1..];
    } else {
      pad := "";
      assert text == pad + text;
    }
  }

  /** The scan of a number in three parts: what is left after the blanks, after the sign and after the prefix. */
  function AfterSign(s: string): string {
    if s != "" && (s[0] == '-' || s[0] == '+') then s[1..] else s
  }

  predicate HasPrefix(t: string) {
    |t| > 2 && t[0] == '0' && (t[1] == 'x' || t[1] == 'X') && IsHexDigit(t[2])
  }

  function AfterPrefix(t: string): string {
    if HasPrefix(t) then t[2..] else t
  }

  lemma ScanParts(text: string)
    ensures var s := SkipSpaces(text);
            var u := AfterPrefix(AfterSign(s));
            ScanHex(text) == if DigitRun(u) == 0 then None
                             else Some(Scanned(s != "" && s[0] == '-', HexValue(u[..DigitRun(u)])))
  {
  }

  /** Where the number stands in a text that scans. */
  lemma ScannedIsWritten(text: string)
    requires ScanHex(text).Some?
    ensures WrittenAs(text, ScanHex(text).value.negative, ScanHex(text).value.magnitude)
  {
    hide IsSpace, IsHexDigit, DigitValue, Spells, ScanHex, AfterSign, AfterPrefix, SignOf, PrefixOf, SkipSpaces,
      HexValue, Notation.Longest;
    ScanParts(text);
    var pad := BlanksBefore(text);
    var s := SkipSpaces(text);
    var t := AfterSign(s);
    var u := AfterPrefix(t);
    var n := DigitRun(u);
    var sign, prefix := SignOf(s), PrefixOf(t);
    var whole := Notation(pad, sign, prefix, u[..n], u[n..]);
    assert u == u[..n] + u[n..];
    SignAndRest(s);
    PrefixAndRest(t);
    FiveParts(pad, sign, prefix, u[..n], u[n..]);
    SpellsExact(u[..n], HexValue(u[..n]));
    RunIsLongest(t, whole);
    assert whole.Writes(s != "" && s[0] == '-', HexValue(u[..n]));
  }

  function SignOf(s: string): string {
    if s != "" && (s[0] == '-' || s[0] == '+') then [s[0]] else ""
  }

  function PrefixOf(t: string): string {
    if HasPrefix(t) then t[..2] else ""
  }

  lemma FiveParts(a: string, b: string, c: string, d: string, e: string)
    ensures a + b + c + d + e == a + (b + (c + (d + e)))
  {
  }

  lemma SignAndRest(s: string)
    ensures s == SignOf(s) + AfterSign(s) && SignOf(s) in {"", "+", "-"}
    ensures SignOf(s) == "-" <==> s != "" && s[0] == '-'
  {
  }

  lemma PrefixAndRest(t: string)
    ensures t == PrefixOf(t) + AfterPrefix(t) && PrefixOf(t) in {"", "0x", "0X"}
  {
    hide IsHexDigit;
    if HasPrefix(t) {
      assert t[..2] == [t[0], t[1]];
    }
  }

  lemma RunIsLongest(t: string, n: Notation)
    requires var u := AfterPrefix(t);
             n.prefix == PrefixOf(t) && n.digits == u[..DigitRun(u)] && n.junk == u[DigitRun(u)..]
    ensures n.Longest()
  {
    hide DigitValue;
    var u := AfterPrefix(t);
    if n.junk != "" {
      assert n.junk[0] == u[DigitRun(u)];
      HexDigitsAre(n.junk[0]);
      if n.prefix == "" && n.digits == "0" && |n.junk| >= 2 {
        assert t[0] == n.digits[0] && t[1] == n.junk[0] && t[2] == n.junk[1];
        HexDigitsAre(t[2]);
      }
    }
  }

  /** A number written in whatever notation scans to what it says. */
  lemma WrittenIsScanned(n: Notation, negative: bool, v: nat)
    requires n.Writes(negative, v)
    ensures ScanHex(n.Text()) == Some(Scanned(negative, v))
  {
    SpellsExact(n.digits, v);
    hide Spells, IsSpace, IsHexDigit, DigitValue, ScanHex, HasPrefix, AfterPrefix, SkipSpaces;
    var u := n.digits + n.junk;
    var t := n.prefix + u;
    var s := n.sign + t;
    FiveParts(n.pad, n.sign, n.prefix, n.digits, n.junk);
    HexDigitsAre(n.digits[0]);
    SignsAreNoBlanks();
    assert s != "" && !IsSpace(s[0]);
    BlanksSkipped(n.pad, s);
    assert AfterSign(s) == t;
    if n.junk != "" {
      HexDigitsAre(n.junk[0]);
    }
    PrefixTaken(n);
    assert AfterPrefix(t) == u;
    RunOfDigits(n.digits, n.junk);
    ScanParts(n.Text());
  }

  /** The blanks of the C locale: space, and tab to carriage return. */
  lemma SpacesExact(c: char)
    ensures IsSpace(c) <==> c as int == 32 || 9 <= c as int <= 13
  {
    var blanks := " \t\n\r";
    assert c in blanks <==> c == blanks[0] || c == blanks[1] || c == blanks[2] || c == blanks[3];
  }

  lemma SignsAreNoBlanks()
    ensures !IsSpace('+') && !IsSpace('-') && !IsSpace('0')
  {
  }

  lemma PrefixTaken(n: Notation)
    requires AllHex(n.digits) && n.digits != "" && n.prefix in {"", "0x", "0X"} && n.Longest()
    ensures AfterPrefix(n.prefix + (n.digits + n.junk)) == n.digits + n.junk
  {
    hide DigitValue;
    var u := n.digits + n.junk;
    var t := n.prefix + u;
    assert u[0] == n.digits[0];
    if n.prefix != "" {
      assert t[2] == u[0] && t[2..] == u;
    } else {
      assert t == u;
      if |n.digits| > 1 {
        assert t[1] == n.digits[1];
        HexDigitsAre(n.digits[1]);
      } else if |n.junk| > 1 {
        assert t[1] == n.junk[0] && t[2] == n.junk[1];
        HexDigitsAre(n.junk[1]);
        assert n.digits == [n.digits[0]];
      }
    }
  }

  lemma RunOfDigits(digits: string, junk: string)
    requires AllHex(digits) && (junk != "" ==> !IsHexDigit(junk[0]))
    ensures DigitRun(digits + junk) == |digits| && (digits + junk)[..|digits|] == digits
  {
    var t := digits + junk;
    assert forall i :: 0 <= i < |digits| ==> t[i] == digits[i];
    assert junk != "" ==> t[|digits|] == junk[0];
  }

  /** What scanning finds is exactly what is written, in any of the notations. */
  lemma ScanExact(text: string, negative: bool, v: nat)
    ensures ScanHex(text) == Some(Scanned(negative, v)) <==> WrittenAs(text, negative, v)
  {
    hide ScanHex;
    if ScanHex(text).Some? {
      ScannedIsWritten(text);
    }
    if WrittenAs(text, negative, v) {
      var n: Notation :| n.Text() == text && n.Writes(negative, v);
      WrittenIsScanned(n, negative, v);
    }
  }

  /** std::stoull in base 16, by what the text says: a value below 2^64 is read, negated modulo 2^64 after a minus
      sign; a larger one is out of range; and a text in none of the notations is an invalid argument. */
  lemma ParseHexAddrExact(text: string)
    ensures forall negative: bool, v: nat :: WrittenAs(text, negative, v) ==>
              ParseHexAddr(text) ==
                if v >= 0x1_0000_0000_0000_0000 then Failure(OutOfRange)
                else Success(if negative && v != 0 then 0x1_0000_0000_0000_0000 - v else v)
    ensures (forall negative: bool, v: nat :: !WrittenAs(text, negative, v)) <==>
              ParseHexAddr(text) == Failure(InvalidArgument)
  {
    hide ScanHex, WrittenAs;
    forall negative: bool, v: nat | WrittenAs(text, negative, v)
      ensures ScanHex(text) == Some(Scanned(negative, v))
    {
      ScanExact(text, negative, v);
    }
    if ScanHex(text).Some? {
      ScanExact(text, ScanHex(text).value.negative, ScanHex(text).value.magnitude);
    }
  }

  /** std::stoi in base 16, for 32-bit ints. */
  lemma ParseHexIntExact(text: string)
    ensures forall negative: bool, v: nat :: WrittenAs(text, negative, v) ==>
              ParseHexInt(text) ==
                var x: int := if negative then 0 - v else v;
                if -0x8000_0000 <= x <= 0x7FFF_FFFF then Success(x) else Failure(OutOfRange)
    ensures (forall negative: bool, v: nat :: !WrittenAs(text, negative, v)) <==>
              ParseHexInt(text) == Failure(InvalidArgument)
  {
    hide ScanHex, WrittenAs;
    forall negative: bool, v: nat | WrittenAs(text, negative, v)
      ensures ScanHex(text) == Some(Scanned(negative, v))
    {
      ScanExact(text, negative, v);
    }
    if ScanHex(text).Some? {
      ScanExact(text, ScanHex(text).value.negative, ScanHex(text).value.magnitude);
    }
  }
}
