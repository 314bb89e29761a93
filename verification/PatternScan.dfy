/** The pattern parser and the wildcard Boyer-Moore-Horspool scan of native_memory.cc. */
module PatternScan {
  import opened Results
  import opened Words
  import opened HexText

  /** `mask[j]` is true where byte `j` must match and false at a wildcard. */
  datatype Pattern = Pattern(bytes: seq<byte>, mask: seq<bool>) {
    ghost predicate Valid() {
      |bytes| == |mask|
    }
  }

  datatype ScanMatch = ScanMatch(address: int, size: nat)

  // ---------- The pattern parser ----------

  /** Length of the leading run of characters that are not spaces. */
  function WordRun(s: string): (n: nat)
    ensures n <= |s|
    ensures s != "" && !IsSpace(s[0]) ==> n > 0
  {
    if s != "" && !IsSpace(s[0]) then 1 + WordRun(s[1..]) else 0
  }

  /** The words that `stream >> token` extracts. */
  function Tokens(s: string): seq<string>
    decreases |s|
  {
    var t := SkipSpaces(s);
    if t == "" then []
    else
      SkipSpacesStops(s);
      [t[..WordRun(t)]] + Tokens(t[WordRun(t)..])
  }

  lemma SkipSpacesStops(s: string)
    ensures SkipSpaces(s) != "" ==> !IsSpace(SkipSpaces(s)[0])
  {
  }

  predicate IsWildcard(token: string) {
    token == "??" || token == "?"
  }

  /** The byte of a token: a wildcard stores 0, a number is cut to its low 8 bits. */
  function TokenByte(token: string): Result<byte, ParseError> {
    if IsWildcard(token) then Success(0)
    else
      match ParseHexInt(token)
      case Failure(e) => Failure(e)
      case Success(v) => Success(v % 256)
  }

  function Append(pat: Pattern, b: byte, fixed: bool): Pattern {
    Pattern(pat.bytes + [b], pat.mask + [fixed])
  }

  function ParseTokens(tokens: seq<string>, pat: Pattern): Result<Pattern, ParseError> {
    if tokens == [] then Success(pat)
    else
      match TokenByte(tokens[0])
      case Failure(e) => Failure(e)
      case Success(b) => ParseTokens(tokens[1..], Append(pat, b, !IsWildcard(tokens[0])))
  }

  function Parse(text: string): Result<Pattern, ParseError> {
    ParseTokens(Tokens(text), Pattern([], []))
  }

  method ParsePattern(text: string) returns (r: Result<Pattern, ParseError>)
    ensures r == Parse(text)
    ensures r.Success? ==> r.value.Valid()
  {
    var p := Pattern([], []);
    var rest := SkipSpaces(text);
    SkipSpacesStops(text);
    SkipTwice(text);
    while rest != ""
      invariant p.Valid()
      invariant SkipSpaces(rest) == rest && (rest != "" ==> !IsSpace(rest[0]))
      invariant Parse(text) == ParseTokens(Tokens(rest), p)
      decreases |rest|
    {
      var n := WordRun(rest);
      var token := rest[..n];
      var b := TokenByte(token);
      if b.Failure? {
        return Failure(b.error);
      }
      p := Append(p, b.value, !IsWildcard(token));
      SkipTwice(rest[n..]);
      SkipSpacesStops(rest[n..]);
      rest := SkipSpaces(rest[n..]);
    }
    return Success(p);
  }

  lemma SkipTwice(s: string)
    ensures SkipSpaces(SkipSpaces(s)) == SkipSpaces(s)
    ensures Tokens(SkipSpaces(s)) == Tokens(s)
  {
  }

  function RenderItem(b: byte, fixed: bool): string {
    if fixed then [DIGITS[b / 16], DIGITS[b % 16]] else "??"
  }

  /** The documented notation: two hexadecimal digits or `??` per position, separated by spaces. */
  function Render(pat: Pattern): string
    requires pat.Valid()
    decreases |pat.bytes|
  {
    if pat.bytes == [] then ""
    else RenderItem(pat.bytes[0], pat.mask[0]) + " " + Render(Rest(pat))
  }

  /** Parsing forgets the byte under a wildcard. */
  ghost predicate Canonical(pat: Pattern) {
    pat.Valid() && forall j :: 0 <= j < |pat.bytes| && !pat.mask[j] ==> pat.bytes[j] == 0
  }

  lemma TwoDigits(x: char, y: char)
    requires IsHexDigit(x) && IsHexDigit(y)
    ensures AllHex([x, y]) && HexValue([x, y]) == 16 * DigitValue(x).value + DigitValue(y).value
    ensures ScanHex([x, y]) == Some(Scanned(false, HexValue([x, y])))
  {
    var s := [x, y];
    assert s[..1] == [x] && [x][..0] == "";
    assert HexValue([x]) == DigitValue(x).value;
    assert HexValue(s) == 16 * HexValue(s[..1]) + DigitValue(s[1]).value;
    assert s + "" == s;
    ScanDigits(s, "");
  }

  lemma ByteParses(b: byte, x: char, y: char)
    requires DigitValue(x) == Some(b / 16) && DigitValue(y) == Some(b % 16)
    ensures !IsWildcard([x, y]) && TokenByte([x, y]) == Success(b)
  {
    TwoDigits(x, y);
    DigitIsNoMark(x);
    hide HexValue, ScanHex, IsSpace, DigitValue, IsHexDigit;
    assert 16 * (b / 16) + b % 16 == b;
  }

  lemma ItemParses(b: byte, fixed: bool)
    requires !fixed ==> b == 0
    ensures var item := RenderItem(b, fixed);
            && |item| == 2 && !IsSpace(item[0]) && !IsSpace(item[1])
            && TokenByte(item) == Success(b) && IsWildcard(item) == !fixed
  {
    if fixed {
      var x, y := DIGITS[b / 16], DIGITS[b % 16];
      DigitBack(b / 16);
      DigitBack(b % 16);
      DigitIsNoMark(x);
      DigitIsNoMark(y);
      ByteParses(b, x, y);
      hide *;
      assert RenderItem(b, fixed) == [x, y] by { ItemIs(b); }
    }
  }

  lemma ItemIs(b: byte)
    ensures RenderItem(b, true) == [DIGITS[b / 16], DIGITS[b % 16]]
  {
  }

  lemma DigitIsNoMark(c: char)
    requires IsHexDigit(c)
    ensures !IsSpace(c) && c != '?'
  {
  }

  lemma TokensHead(item: string, rest: string)
    requires |item| == 2 && !IsSpace(item[0]) && !IsSpace(item[1])
    ensures Tokens(item + " " + rest) == [item] + Tokens(rest)
  {
    var t := item + " " + rest;
    assert t[0] == item[0] && t[1..][0] == item[1] && t[1..][1..][0] == ' ';
    assert WordRun(t[1..][1..]) == 0;
    assert WordRun(t[1..]) == 1 && WordRun(t) == 2;
    assert t[..2] == item && t[2..] == " " + rest;
    assert SkipSpaces(" " + rest) == SkipSpaces(rest) by { assert (" " + rest)[1..] == rest; }
  }

  lemma ParseHead(item: string, rest: seq<string>, b: byte, fixed: bool, done: Pattern)
    requires TokenByte(item) == Success(b) && IsWildcard(item) == !fixed
    ensures ParseTokens([item] + rest, done) == ParseTokens(rest, Append(done, b, fixed))
  {
    hide TokenByte, IsWildcard;
    assert ([item] + rest)[1..] == rest;
  }

  lemma RenderHead(pat: Pattern, done: Pattern)
    requires Canonical(pat) && pat.bytes != []
    ensures ParseTokens(Tokens(Render(pat)), done)
         == ParseTokens(Tokens(Render(Rest(pat))), Append(done, pat.bytes[0], pat.mask[0]))
  {
    hide Tokens, TokenByte, RenderItem, IsSpace, IsWildcard, ParseTokens;
    var b, fixed := pat.bytes[0], pat.mask[0];
    var item := RenderItem(b, fixed);
    ItemParses(b, fixed);
    TokensHead(item, Render(Rest(pat)));
    ParseHead(item, Tokens(Render(Rest(pat))), b, fixed, done);
  }

  function Rest(pat: Pattern): (r: Pattern)
    requires pat.Valid() && pat.bytes != []
    ensures r.Valid()
  {
    Pattern(pat.bytes[1..], pat.mask[1..])
  }

  lemma {:induction false} RenderParsesFrom(pat: Pattern, done: Pattern)
    requires pat.Valid() && done.Valid() && Canonical(pat)
    ensures ParseTokens(Tokens(Render(pat)), done) == Success(Pattern(done.bytes + pat.bytes, done.mask + pat.mask))
    decreases |pat.bytes|
  {
    hide Tokens, ParseTokens, Render, Canonical;
    if pat.bytes == [] {
      RenderNothing(pat, done);
    } else {
      RenderHead(pat, done);
      RestCanonical(pat);
      RenderParsesFrom(Rest(pat), Append(done, pat.bytes[0], pat.mask[0]));
      assert done.bytes + [pat.bytes[0]] + pat.bytes[1..] == done.bytes + pat.bytes;
      assert done.mask + [pat.mask[0]] + pat.mask[1..] == done.mask + pat.mask;
    }
  }

  lemma RenderNothing(pat: Pattern, done: Pattern)
    requires pat.Valid() && pat.bytes == [] && done.Valid()
    ensures ParseTokens(Tokens(Render(pat)), done) == Success(Pattern(done.bytes + pat.bytes, done.mask + pat.mask))
  {
    assert done.bytes + [] == done.bytes && done.mask + [] == done.mask;
  }

  lemma RestCanonical(pat: Pattern)
    requires Canonical(pat) && pat.bytes != []
    ensures Canonical(Rest(pat))
  {
  }

  /** The parser inverts the documented notation. */
  lemma RenderParses(pat: Pattern)
    requires Canonical(pat)
    ensures Parse(Render(pat)) == Success(pat)
  {
    RenderParsesFrom(pat, Pattern([], []));
    assert [] + pat.bytes == pat.bytes && [] + pat.mask == pat.mask;
  }

  // ---------- Every notation the parser accepts ----------

  /** A word stands for a byte: a number in any notation that an int holds, cut to its low 8 bits; or for a wildcard. */
  ghost predicate Notes(word: string, b: byte, fixed: bool) {
    if fixed then
      exists negative: bool, v: nat :: WrittenAs(word, negative, v) && FitsByte(negative, v, b)
    else (word == "?" || word == "??") && b == 0
  }

  predicate FitsByte(negative: bool, v: nat, b: byte) {
    var x: int := if negative then 0 - v else v;
    -0x8000_0000 <= x <= 0x7FFF_FFFF && b == x % 0x100
  }

  predicate AllBlank(s: string) {
    forall i :: 0 <= i < |s| ==> IsSpace(s[i])
  }

  predicate NoBlank(s: string) {
    forall i :: 0 <= i < |s| ==> !IsSpace(s[i])
  }

  /** A text that begins with a word. */
  datatype Cut = Cut(pad: string, word: string, rest: string) {
    function Text(): string {
      pad + word + rest
    }

    predicate Valid() {
      && AllBlank(pad) && word != "" && NoBlank(word)
      && (rest == "" || IsSpace(rest[0]))
    }
  }

  /** The text is a list of words, set apart by blanks, one for each position of the pattern. */
  ghost predicate Notates(text: string, pat: Pattern)
    requires pat.Valid()
    decreases |pat.bytes|
  {
    if pat.bytes == [] then AllBlank(text)
    else
      exists c: Cut :: c.Text() == text && c.Valid() &&
        Notes(c.word, pat.bytes[0], pat.mask[0]) && Notates(c.rest, Rest(pat))
  }

  lemma TokenExact(word: string, b: byte, fixed: bool)
    ensures Notes(word, b, fixed) <==> TokenByte(word) == Success(b) && fixed == !IsWildcard(word)
  {
    hide WrittenAs, ParseHexInt;
    ParseHexIntExact(word);
    MarksAreNoNumbers();
    if fixed && !IsWildcard(word) && ParseHexInt(word).Success? {
      var negative: bool, v: nat :| WrittenAs(word, negative, v);
    }
  }

  lemma MarksAreNoNumbers()
    ensures forall negative: bool, v: nat :: !WrittenAs("?", negative, v) && !WrittenAs("??", negative, v)
  {
    assert ScanHex("?") == None && ScanHex("??") == None;
    forall negative: bool, v: nat
      ensures !WrittenAs("?", negative, v) && !WrittenAs("??", negative, v)
    {
      ScanExact("?", negative, v);
      ScanExact("??", negative, v);
    }
  }

  lemma {:induction false} RunOfWord(word: string, rest: string)
    requires NoBlank(word) && (rest == "" || IsSpace(rest[0]))
    ensures WordRun(word + rest) == |word|
    decreases |word|
  {
    hide IsSpace;
    if word == "" {
      assert word + rest == rest;
    } else {
      assert (word + rest)[1..] == word[1..] + rest;
      RunOfWord(word[1..], rest);
    }
  }

  lemma TokensOfCut(c: Cut)
    requires c.Valid()
    ensures Tokens(c.Text()) == [c.word] + Tokens(c.rest)
  {
    var t := c.word + c.rest;
    assert c.Text() == c.pad + t;
    BlanksSkipped(c.pad, t);
    RunOfWord(c.word, c.rest);
    hide IsSpace;
    assert t[..|c.word|] == c.word && t[|c.word|..] == c.rest;
  }

  lemma TokensOfBlanks(text: string)
    requires AllBlank(text)
    ensures Tokens(text) == []
  {
    BlanksSkipped(text, "");
    assert text + "" == text;
  }

  lemma WordRunStops(s: string)
    ensures NoBlank(s[..WordRun(s)]) && (s[WordRun(s)..] == "" || IsSpace(s[WordRun(s)..][0]))
  {
    hide IsSpace;
  }

  lemma FirstWord(text: string) returns (c: Cut)
    requires SkipSpaces(text) != ""
    ensures c.Valid() && c.Text() == text && |c.rest| < |text|
  {
    hide IsSpace;
    var pad := BlanksBefore(text);
    var t := SkipSpaces(text);
    WordRunStops(t);
    c := Cut(pad, t[..WordRun(t)], t[WordRun(t)..]);
    assert t == c.word + c.rest;
  }

  lemma {:induction false} NotatesParses(text: string, pat: Pattern, done: Pattern)
    requires pat.Valid() && done.Valid() && Notates(text, pat)
    ensures ParseTokens(Tokens(text), done) == Success(Pattern(done.bytes + pat.bytes, done.mask + pat.mask))
    decreases |pat.bytes|
  {
    hide Tokens, Notes, IsSpace, IsWildcard, TokenByte;
    if pat.bytes == [] {
      TokensOfBlanks(text);
      assert done.bytes + pat.bytes == done.bytes && done.mask + pat.mask == done.mask;
    } else {
      var b, fixed := pat.bytes[0], pat.mask[0];
      var c: Cut :| c.Text() == text && c.Valid() && Notes(c.word, b, fixed) && Notates(c.rest, Rest(pat));
      TokensOfCut(c);
      TokenExact(c.word, b, fixed);
      hide ParseTokens;
      ParseHead(c.word, Tokens(c.rest), b, fixed, done);
      NotatesParses(c.rest, Rest(pat), Append(done, b, fixed));
      assert done.bytes + [b] + pat.bytes[1..] == done.bytes + pat.bytes;
      assert done.mask + [fixed] + pat.mask[1..] == done.mask + pat.mask;
    }
  }

  lemma ParsedHead(word: string, rest: seq<string>, done: Pattern)
    requires done.Valid() && ParseTokens([word] + rest, done).Success?
    ensures TokenByte(word).Success?
  {
  }

  lemma WordThenRest(c: Cut, b: byte, fixed: bool, more: Pattern)
    requires c.Valid() && more.Valid() && Notes(c.word, b, fixed) && Notates(c.rest, more)
    ensures var pat := Pattern([b] + more.bytes, [fixed] + more.mask); pat.Valid() && Notates(c.Text(), pat)
  {
    hide Notes, IsSpace;
    assert Rest(Pattern([b] + more.bytes, [fixed] + more.mask)) == more;
  }

  lemma {:induction false} ParsedIsNotated(text: string, done: Pattern) returns (pat: Pattern)
    requires done.Valid() && ParseTokens(Tokens(text), done).Success?
    ensures pat.Valid() && Notates(text, pat)
    decreases |text|
  {
    hide Tokens, Notes, IsSpace, IsWildcard, TokenByte, ParseTokens, Notates;
    if SkipSpaces(text) == "" {
      pat := Pattern([], []);
      var pad := BlanksBefore(text);
      BlankNotates(text);
    } else {
      var c := FirstWord(text);
      TokensOfCut(c);
      ParsedHead(c.word, Tokens(c.rest), done);
      var b, fixed := TokenByte(c.word).value, !IsWildcard(c.word);
      ParseHead(c.word, Tokens(c.rest), b, fixed, done);
      var more := ParsedIsNotated(c.rest, Append(done, b, fixed));
      pat := Pattern([b] + more.bytes, [fixed] + more.mask);
      TokenExact(c.word, b, fixed);
      WordThenRest(c, b, fixed, more);
    }
  }

  lemma BlankNotates(text: string)
    requires AllBlank(text)
    ensures Notates(text, Pattern([], []))
  {
  }

  /** Parsing gives a pattern exactly when the text notates it: digits in either case, one or more of them, a prefix, a
      sign, one or two question marks, any spacing. */
  lemma ParseExact(text: string, pat: Pattern)
    requires pat.Valid()
    ensures Parse(text) == Success(pat) <==> Notates(text, pat)
  {
    hide ParseTokens, Tokens, Notates;
    var none := Pattern([], []);
    if Parse(text).Success? {
      var found := ParsedIsNotated(text, none);
      NotatesParses(text, found, none);
      assert none.bytes + found.bytes == found.bytes && none.mask + found.mask == found.mask;
    }
    if Notates(text, pat) {
      NotatesParses(text, pat, none);
      assert none.bytes + pat.bytes == pat.bytes && none.mask + pat.mask == pat.mask;
    }
  }

  // ---------- The naive scan ----------

  predicate Agrees(pat: Pattern, j: nat, b: byte)
    requires pat.Valid() && j < |pat.bytes|
  {
    pat.mask[j] ==> b == pat.bytes[j]
  }

  /** Pattern byte `j` agrees with the haystack when the pattern is laid at offset `i`. */
  ghost predicate AgreesAt(h: seq<byte>, pat: Pattern, i: nat, j: nat)
    requires pat.Valid()
  {
    j < |pat.bytes| && i + j < |h| && Agrees(pat, j, h[i + j])
  }

  ghost predicate MatchAt(h: seq<byte>, pat: Pattern, i: nat)
    requires pat.Valid()
  {
    i + |pat.bytes| <= |h| && forall j :: 0 <= j < |pat.bytes| ==> AgreesAt(h, pat, i, j)
  }

  /** All offsets from `i` on at which the pattern matches, ascending. */
  ghost function NaiveFrom(h: seq<byte>, pat: Pattern, i: nat): seq<nat>
    requires pat.Valid()
    decreases |h| - i
  {
    if i + |pat.bytes| > |h| then []
    else (if MatchAt(h, pat, i) then [i] else []) + NaiveFrom(h, pat, i + 1)
  }

  /** The scan's specification; the empty pattern is answered with no match. */
  ghost function NaiveScan(h: seq<byte>, pat: Pattern): seq<nat>
    requires pat.Valid()
  {
    if pat.bytes == [] then [] else NaiveFrom(h, pat, 0)
  }

  lemma {:induction false} NaiveFromExact(h: seq<byte>, pat: Pattern, i: nat)
    requires pat.Valid()
    ensures var r := NaiveFrom(h, pat, i);
            && (forall k: nat :: k in r <==> i <= k && MatchAt(h, pat, k))
            && (forall a, b :: 0 <= a < b < |r| ==> r[a] < r[b])
    decreases |h| - i
  {
    if i + |pat.bytes| <= |h| {
      NaiveFromExact(h, pat, i + 1);
      var rest := NaiveFrom(h, pat, i + 1);
      assert forall a :: 0 <= a < |rest| ==> rest[a] in rest;
    }
  }

  /** The pattern fits at an offset: it ends inside the bytes, and every byte it fixes is there. */
  ghost predicate FitsAt(h: seq<byte>, pat: Pattern, k: int)
    requires |pat.mask| == |pat.bytes|
  {
    0 <= k && k + |pat.bytes| <= |h| && forall j :: 0 <= j < |pat.bytes| && pat.mask[j] ==> h[k + j] == pat.bytes[j]
  }

  /** The reference result lists exactly the offsets at which the pattern fits, overlaps included, in ascending order.
      */
  lemma NaiveScanExact(h: seq<byte>, pat: Pattern)
    requires pat.Valid()
    ensures |pat.mask| == |pat.bytes|
    ensures var r := NaiveScan(h, pat);
            && (forall k: nat :: k in r <==> |pat.bytes| > 0 && FitsAt(h, pat, k))
            && (forall a, b :: 0 <= a < b < |r| ==> r[a] < r[b])
  {
    NaiveFromExact(h, pat, 0);
    forall k: nat
      ensures MatchAt(h, pat, k) <==> FitsAt(h, pat, k)
    {
      if MatchAt(h, pat, k) {
        forall j | 0 <= j < |pat.bytes| && pat.mask[j]
          ensures h[k + j] == pat.bytes[j]
        {
          assert AgreesAt(h, pat, k, j);
        }
      }
    }
  }

  lemma {:induction false} NaiveSkip(h: seq<byte>, pat: Pattern, i: nat, k: nat)
    requires pat.Valid() && i <= k
    requires forall x :: i <= x < k ==> !MatchAt(h, pat, x)
    ensures NaiveFrom(h, pat, i) == NaiveFrom(h, pat, k)
    decreases k - i
  {
    if i < k {
      NaiveSkip(h, pat, i + 1, k);
    }
  }

  // ---------- The shift table ----------

  /** A shift is safe when every smaller one would put a fixed, different byte under the last byte seen. */
  ghost predicate SafeShift(pat: Pattern, c: byte, s: nat)
    requires pat.Valid() && pat.bytes != []
  {
    1 <= s <= |pat.bytes| &&
    forall j :: |pat.bytes| - 1 - s < j < |pat.bytes| - 1 ==> !Agrees(pat, j, c)
  }

  /** One more would not be safe: it would skip an alignment that the last byte seen does not rule out. */
  ghost predicate LargestShift(pat: Pattern, c: byte, s: nat)
    requires pat.Valid() && pat.bytes != []
  {
    s == |pat.bytes| || (s < |pat.bytes| && Agrees(pat, |pat.bytes| - 1 - s, c))
  }

  /** No alignment that a safe shift skips can match. */
  lemma SkippedCannotMatch(h: seq<byte>, pat: Pattern, i: nat, s: nat)
    requires pat.Valid() && pat.bytes != [] && i + |pat.bytes| <= |h|
    requires SafeShift(pat, h[i + |pat.bytes| - 1], s)
    requires !MatchAt(h, pat, i)
    ensures forall x :: i <= x < i + s ==> !MatchAt(h, pat, x)
  {
    var last := i + |pat.bytes| - 1;
    forall x | i < x < i + s
      ensures !MatchAt(h, pat, x)
    {
      var j := last - x;
      assert x + j == last;
      assert !AgreesAt(h, pat, x, j);
    }
  }

  method BuildShiftTable(pat: Pattern) returns (shift: array<nat>)
    requires pat.Valid() && pat.bytes != []
    ensures fresh(shift) && shift.Length == 256
    ensures forall c: byte :: SafeShift(pat, c, shift[c])
    ensures forall c: byte :: if pat.mask[|pat.bytes| - 1] then LargestShift(pat, c, shift[c]) else shift[c] == 1
  {
    var m := |pat.bytes|;
    shift := new nat[256];
    for i := 0 to 256
      invariant forall c :: 0 <= c < i ==> shift[c] == m
    {
      shift[i] := m;
    }
    for j := 0 to m - 1
      invariant forall c: byte :: 1 <= shift[c] <= m
      invariant forall c: byte, k :: m - 1 - shift[c] < k < j ==> !Agrees(pat, k, c)
      invariant forall c: byte :: LargestShift(pat, c, shift[c])
    {
      var s := m - 1 - j;
      if !pat.mask[j] {
        ghost var before := shift[..];
        for c := 0 to 256
          invariant forall d :: 0 <= d < c ==> shift[d] == if before[d] > s then s else before[d]
          invariant forall d :: c <= d < 256 ==> shift[d] == before[d]
        {
          if shift[c] > s {
            shift[c] := s;
          }
        }
      } else {
        var b := pat.bytes[j];
        if shift[b] > s {
          shift[b] := s;
        }
      }
    }
    if !pat.mask[m - 1] {
      ghost var before := shift[..];
      for c := 0 to 256
        invariant forall d :: 0 <= d < c ==> shift[d] == 1
        invariant forall d :: c <= d < 256 ==> shift[d] == before[d]
      {
        if shift[c] > 1 {
          shift[c] := 1;
        }
      }
    }
  }

  // ---------- The search ----------

  function Found(base: int, offsets: seq<nat>, size: nat): seq<ScanMatch> {
    seq(|offsets|, i requires 0 <= i < |offsets| => ScanMatch(base + offsets[i], size))
  }

  /** A scan's answer: by ascending address, every place at which the pattern fits, and no other, each with the
      pattern's length. */
  ghost predicate Lists(hits: seq<ScanMatch>, base: int, h: seq<byte>, pat: Pattern)
    requires |pat.mask| == |pat.bytes|
  {
    && (forall i, j :: 0 <= i < j < |hits| ==> hits[i].address < hits[j].address)
    && forall a, n :: ScanMatch(a, n) in hits <==> n == |pat.bytes| > 0 && FitsAt(h, pat, a - base)
  }

  lemma FoundLists(base: int, h: seq<byte>, pat: Pattern)
    requires pat.Valid()
    ensures |pat.mask| == |pat.bytes| && Lists(Found(base, NaiveScan(h, pat), |pat.bytes|), base, h, pat)
  {
    hide NaiveScan, FitsAt, Found;
    NaiveScanExact(h, pat);
    var offsets := NaiveScan(h, pat);
    FoundExact(base, offsets, |pat.bytes|);
    forall a, n
      ensures ScanMatch(a, n) in Found(base, offsets, |pat.bytes|) <==>
                n == |pat.bytes| > 0 && FitsAt(h, pat, a - base)
    {
      if a >= base {
        assert a - base in offsets <==> |pat.bytes| > 0 && FitsAt(h, pat, a - base);
      } else if n == |pat.bytes| > 0 && FitsAt(h, pat, a - base) {
        FitsSomewhere(h, pat, a - base);
      }
    }
  }

  lemma FoundExact(base: int, offsets: seq<nat>, size: nat)
    ensures |Found(base, offsets, size)| == |offsets|
    ensures forall i :: 0 <= i < |offsets| ==> Found(base, offsets, size)[i].address == base + offsets[i]
    ensures forall a, n :: ScanMatch(a, n) in Found(base, offsets, size) <==> n == size && a - base in offsets
  {
    var hits := Found(base, offsets, size);
    forall a, n
      ensures ScanMatch(a, n) in hits <==> n == size && a - base in offsets
    {
      if n == size && a - base in offsets {
        var i :| 0 <= i < |offsets| && offsets[i] == a - base;
        assert hits[i] == ScanMatch(a, n);
      }
    }
  }

  lemma FitsSomewhere(h: seq<byte>, pat: Pattern, k: int)
    requires |pat.mask| == |pat.bytes| && FitsAt(h, pat, k)
    ensures k >= 0
  {
  }

  /** The fast scan of the bytes at `base` reports exactly what the naive scan reports. */
  method BmhScan(base: int, haystack: seq<byte>, pat: Pattern) returns (results: seq<ScanMatch>)
    requires pat.Valid()
    ensures results == Found(base, NaiveScan(haystack, pat), |pat.bytes|)
  {
    results := [];
    var m := |pat.bytes|;
    if m == 0 || m > |haystack| {
      return;
    }
    var shift := BuildShiftTable(pat);
    var i := 0;
    ghost var offsets: seq<nat> := [];
    while i + m <= |haystack|
      invariant 0 <= i <= |haystack|
      invariant forall c: byte :: SafeShift(pat, c, shift[c])
      invariant results == Found(base, offsets, m)
      invariant NaiveScan(haystack, pat) == offsets + NaiveFrom(haystack, pat, i)
      decreases |haystack| - i
    {
      var match_ := true;
      var j := m;
      while j > 0
        invariant 0 <= j <= m
        invariant match_ ==> forall k :: j <= k < m ==> AgreesAt(haystack, pat, i, k)
        invariant !match_ ==> !MatchAt(haystack, pat, i)
      {
        j := j - 1;
        if pat.mask[j] && haystack[i + j] != pat.bytes[j] {
          match_ := false;
          assert !AgreesAt(haystack, pat, i, j);
          break;
        }
      }
      if match_ {
        results := results + [ScanMatch(base + i, m)];
        offsets := offsets + [i];
        i := i + 1;
      } else {
        var s := shift[haystack[i + m - 1]];
        SkippedCannotMatch(haystack, pat, i, s);
        NaiveSkip(haystack, pat, i, i + s);
        i := i + s;
      }
    }
  }

  /** A pattern text is parsed and looked for: the answer lists the places at which the pattern the text notates fits.
      A malformed pattern is an error and nothing is scanned. */
  method ScanMemory(base: int, haystack: seq<byte>, text: string) returns (r: Result<seq<ScanMatch>, ParseError>)
    ensures r.Failure? ==> Parse(text) == Failure(r.error) && forall pat: Pattern :: pat.Valid() ==> !Notates(text, pat)
    ensures r.Success? ==> exists pat: Pattern {:trigger Notates(text, pat)} ::
                             pat.Valid() && Notates(text, pat) && |pat.mask| == |pat.bytes| &&
                             Lists(r.value, base, haystack, pat)
  {
    hide Parse, Notates, NaiveScan, FitsAt, Lists;
    var p := ParsePattern(text);
    if p.Failure? {
      forall pat: Pattern | pat.Valid()
        ensures !Notates(text, pat)
      {
        ParseExact(text, pat);
      }
      return Failure(p.error);
    }
    ParseExact(text, p.value);
    var hits := BmhScan(base, haystack, p.value);
    FoundLists(base, haystack, p.value);
    return Success(hits);
  }
}
