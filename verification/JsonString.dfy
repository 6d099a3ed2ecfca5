/** JSON string literals (section 7 of RFC 8259) as the docker credential
    helper prints and parses them by hand, byte by byte.

    A literal's body is a sequence of items. `PrintAll` writes items down,
    `Parse` reads them back, `MeanAll` says which bytes they denote. The two
    methods work on raw bytes and are proved against these. */
module JsonString {
  import opened Bytes
  import opened Utf8

  const QUOTE: byte := 0x22
  const BACKSLASH: byte := 0x5C
  const LOWER_U: byte := 0x75

  datatype Item =
    | Raw(c: byte)                  // a byte that stands for itself
    | Short(c: byte)                // one of the two-character escapes
    | Unicode(hex: bytes)           // \uXXXX that is no surrogate
    | Pair(high: bytes, low: bytes) // \uXXXX\uXXXX, a surrogate pair

  datatype Error = NotAString | DanglingEscape | BadEscape | BadUnicode | LoneSurrogate | BadPair

  // ----- Hex digits and surrogates -----

  predicate IsHex(c: byte) {
    0x30 <= c <= 0x39 || 0x61 <= c <= 0x66 || 0x41 <= c <= 0x46
  }

  function HexDigit(c: byte): (v: int)
    requires IsHex(c)
    ensures 0 <= v < 16
  {
    var x: int := c;
    if c <= 0x39 then x - 0x30 else if c >= 0x61 then x - 0x61 + 10 else x - 0x41 + 10
  }

  predicate IsHex4(d: bytes) {
    |d| == 4 && forall i :: 0 <= i < 4 ==> IsHex(d[i])
  }

  /** The number the first n of the four digits d write. */
  function HexPrefix(d: bytes, n: nat): (v: nat)
    requires IsHex4(d) && n <= 4
    ensures n == 0 ==> v == 0
    ensures n == 1 ==> v < 0x10
    ensures n == 2 ==> v < 0x100
    ensures n == 3 ==> v < 0x1000
    ensures n == 4 ==> v < 0x10000
  {
    if n == 0 then 0 else HexPrefix(d, n - 1) * 16 + HexDigit(d[n - 1])
  }

  function HexValue(d: bytes): (v: nat)
    requires IsHex4(d)
    ensures v < 0x10000
  {
    HexPrefix(d, 4)
  }

  predicate IsSurrogate(v: int) { 0xD800 <= v < 0xE000 }
  predicate IsHigh(v: int) { 0xD800 <= v < 0xDC00 }
  predicate IsLow(v: int) { 0xDC00 <= v < 0xE000 }

  /** utf16.DecodeRune (section 2.2 of RFC 2781). */
  function DecodePair(r1: int, r2: int): rune {
    if IsHigh(r1) && IsLow(r2) then 0x10000 + (r1 - 0xD800) * 1024 + (r2 - 0xDC00) else RUNE_ERROR
  }

  // ----- Items -----

  predicate IsShort(c: byte) {
    c == QUOTE || c == BACKSLASH || c == SLASH || c == 0x62 || c == 0x66 || c == 0x6E || c == 0x72 || c == 0x74
  }

  /** The byte a two-character escape denotes: b, f, n, r and t are control
      characters, the rest stand for themselves. */
  function ShortByte(c: byte): byte {
    if c == 0x62 then 0x08
    else if c == 0x66 then 0x0C
    else if c == 0x6E then 0x0A
    else if c == 0x72 then 0x0D
    else if c == 0x74 then 0x09
    else c
  }

  predicate ValidItem(it: Item) {
    match it
    case Raw(c) => c != BACKSLASH
    case Short(c) => IsShort(c)
    case Unicode(d) => IsHex4(d) && !IsSurrogate(HexValue(d))
    case Pair(h, l) => IsHex4(h) && IsHex4(l) && IsHigh(HexValue(h)) && IsLow(HexValue(l))
  }

  /** The scalar value a \u escape denotes. */
  function Value(it: Item): rune
    requires ValidItem(it) && (it.Unicode? || it.Pair?)
  {
    if it.Unicode? then HexValue(it.hex) else DecodePair(HexValue(it.high), HexValue(it.low))
  }

  function Print(it: Item): (p: bytes)
    ensures p != []
    ensures it.Raw? ==> |p| == 1
  {
    match it
    case Raw(c) => [c]
    case Short(c) => [BACKSLASH, c]
    case Unicode(d) => [BACKSLASH, LOWER_U] + d
    case Pair(h, l) => [BACKSLASH, LOWER_U] + h + [BACKSLASH, LOWER_U] + l
  }

  function Mean(it: Item): (m: bytes)
    requires ValidItem(it)
    ensures |m| <= |Print(it)|
  {
    match it
    case Raw(c) => [c]
    case Short(c) => [ShortByte(c)]
    case _ => Encode(Value(it))
  }

  predicate ValidItems(items: seq<Item>) {
    forall i :: 0 <= i < |items| ==> ValidItem(items[i])
  }

  function PrintAll(items: seq<Item>): bytes {
    if items == [] then [] else Print(items[0]) + PrintAll(items[1..])
  }

  function MeanAll(items: seq<Item>): (m: bytes)
    requires ValidItems(items)
    ensures |m| <= |PrintAll(items)|
  {
    if items == [] then [] else Mean(items[0]) + MeanAll(items[1..])
  }

  // ----- Parsing -----

  /** The \u escape s starts with, if it is one that denotes a scalar. */
  function ReadUnicode(s: bytes): (r: Option<Item>)
    requires |s| >= 2 && s[0] == BACKSLASH && s[1] == LOWER_U
    ensures r.Some? ==> ValidItem(r.value) && Print(r.value) <= s && (r.value.Unicode? || r.value.Pair?)
  {
    if |s| < 6 || !IsHex4(s[2..6]) then None
    else if !IsSurrogate(HexValue(s[2..6])) then
      assert Print(Unicode(s[2..6])) == s[..6];
      Some(Unicode(s[2..6]))
    else if |s| < 12 || s[6] != BACKSLASH || s[7] != LOWER_U || !IsHex4(s[8..12]) then None
    else if !IsHigh(HexValue(s[2..6])) || !IsLow(HexValue(s[8..12])) then None
    else
      assert Print(Pair(s[2..6], s[8..12])) == s[..12];
      Some(Pair(s[2..6], s[8..12]))
  }

  function ReadItem(s: bytes): (r: Option<Item>)
    requires s != []
    ensures r.Some? ==> ValidItem(r.value) && Print(r.value) <= s
  {
    if s[0] != BACKSLASH then Some(Raw(s[0]))
    else if |s| == 1 then None
    else if IsShort(s[1]) then Some(Short(s[1]))
    else if s[1] == LOWER_U then ReadUnicode(s)
    else None
  }

  function Parse(body: bytes): (r: Option<seq<Item>>)
    ensures r.Some? ==> ValidItems(r.value)
    decreases |body|
  {
    if body == [] then Some([])
    else
      match ReadItem(body)
      case None => None
      case Some(it) =>
        match Parse(body[|Print(it)|..])
        case None => None
        case Some(rest) => Some([it] + rest)
  }

  lemma ConsItems(it: Item, rest: seq<Item>)
    ensures PrintAll([it] + rest) == Print(it) + PrintAll(rest)
    ensures ValidItem(it) && ValidItems(rest) ==>
              ValidItems([it] + rest) && MeanAll([it] + rest) == Mean(it) + MeanAll(rest)
  {
    assert ([it] + rest)[1..] == rest;
  }

  lemma ReadPrinted(it: Item, rest: bytes)
    requires ValidItem(it)
    ensures ReadItem(Print(it) + rest) == Some(it)
  {
    var s := Print(it) + rest;
    if it.Unicode? {
      assert s[2..6] == it.hex;
    } else if it.Pair? {
      assert s[2..6] == it.high && s[8..12] == it.low;
      assert s[6] == BACKSLASH && s[7] == LOWER_U;
    }
  }

  /** Parsing inverts printing: the text determines the items. */
  lemma {:induction false} ParsePrinted(items: seq<Item>)
    requires ValidItems(items)
    ensures Parse(PrintAll(items)) == Some(items)
    decreases items
  {
    hide ReadItem, Print, ValidItem, Parse;
    if items == [] {
      NothingParses();
    } else {
      var rest := PrintAll(items[1..]);
      ReadPrinted(items[0], rest);
      ParsePrinted(items[1..]);
      ParseCons(items[0], rest, items[1..]);
      assert items == [items[0]] + items[1..];
    }
  }

  lemma NothingParses()
    ensures Parse(PrintAll([])) == Some([])
  {
  }

  lemma ParseCons(it: Item, rest: bytes, items: seq<Item>)
    requires ReadItem(Print(it) + rest) == Some(it) && Parse(rest) == Some(items)
    ensures Parse(Print(it) + rest) == Some([it] + items)
  {
    hide ReadItem, Print;
    var s := Print(it) + rest;
    assert s[|Print(it)|..] == rest;
  }

  /** Printing inverts parsing: nothing but printed items parses. */
  lemma {:induction false} PrintParsed(body: bytes)
    requires Parse(body).Some?
    ensures PrintAll(Parse(body).value) == body
    decreases |body|
  {
    hide ReadItem, Print, ValidItems;
    if body != [] {
      var it := ReadItem(body).value;
      var rest := body[|Print(it)|..];
      PrintParsed(rest);
      ConsItems(it, Parse(rest).value);
      assert body == Print(it) + rest;
    }
  }

  /** What unquote accepts: a body of valid items between two quotes. */
  ghost predicate Denotes(raw: bytes, b: bytes) {
    exists items :: ValidItems(items) && raw == Literal(items) && MeanAll(items) == b
  }

  function Literal(items: seq<Item>): bytes {
    [QUOTE] + PrintAll(items) + [QUOTE]
  }

  predicate Quoted(raw: bytes) {
    |raw| >= 2 && raw[0] == QUOTE && raw[|raw| - 1] == QUOTE
  }

  /** unquote as a function: the bytes raw denotes, if any. */
  function Unquoted(raw: bytes): Option<bytes> {
    if !Quoted(raw) then None
    else
      match Parse(raw[1..|raw| - 1])
      case None => None
      case Some(items) => Some(MeanAll(items))
  }

  /** unquote accepts exactly the literals made of valid items, and yields
      exactly what they denote. */
  lemma UnquotedIffDenotes(raw: bytes, b: bytes)
    ensures Unquoted(raw) == Some(b) <==> Denotes(raw, b)
  {
    if Unquoted(raw) == Some(b) {
      LiteralOfParsed(raw);
    }
    if Denotes(raw, b) {
      var items :| ValidItems(items) && raw == Literal(items) && MeanAll(items) == b;
      UnquotedLiteral(items);
    }
  }

  lemma LiteralOfParsed(raw: bytes)
    requires Quoted(raw) && Parse(raw[1..|raw| - 1]).Some?
    ensures raw == Literal(Parse(raw[1..|raw| - 1]).value)
  {
    hide Parse, PrintAll;
    var body := raw[1..|raw| - 1];
    PrintParsed(body);
    assert raw == [QUOTE] + body + [QUOTE];
  }

  lemma UnquotedLiteral(items: seq<Item>)
    requires ValidItems(items)
    ensures Unquoted(Literal(items)) == Some(MeanAll(items))
  {
    var raw := Literal(items);
    assert raw[1..|raw| - 1] == PrintAll(items);
    ParsePrinted(items);
  }

  // ----- \u escapes of every scalar value -----

  const LOWER_DIGITS: bytes :=
    [0x30, 0x31, 0x32, 0x33, 0x34, 0x35, 0x36, 0x37, 0x38, 0x39, 0x61, 0x62, 0x63, 0x64, 0x65, 0x66]
  const UPPER_DIGITS: bytes :=
    [0x30, 0x31, 0x32, 0x33, 0x34, 0x35, 0x36, 0x37, 0x38, 0x39, 0x41, 0x42, 0x43, 0x44, 0x45, 0x46]

  /** c is the digit of v, in either letter case. */
  predicate DigitOf(c: byte, v: int)
    requires 0 <= v < 16
  {
    c == LOWER_DIGITS[v] || c == UPPER_DIGITS[v]
  }

  /** d writes v in four digits, the most significant first. */
  predicate Spells(d: bytes, v: int)
    requires 0 <= v < 0x10000
  {
    && |d| == 4 && DigitOf(d[0], v / 0x1000) && DigitOf(d[1], v / 0x100 % 0x10)
    && DigitOf(d[2], v / 0x10 % 0x10) && DigitOf(d[3], v % 0x10)
  }

  lemma DigitValue(c: byte, v: int)
    requires 0 <= v < 16
    ensures DigitOf(c, v) <==> IsHex(c) && HexDigit(c) == v
  {
  }

  /** Four digits are read as the number they spell. */
  lemma SpelledValue(d: bytes, v: int)
    requires 0 <= v < 0x10000
    ensures Spells(d, v) <==> IsHex4(d) && HexValue(d) == v
  {
    hide DigitOf, HexDigit, HexValue;
    if |d| == 4 {
      DigitValue(d[0], v / 0x1000);
      DigitValue(d[1], v / 0x100 % 0x10);
      DigitValue(d[2], v / 0x10 % 0x10);
      DigitValue(d[3], v % 0x10);
      if IsHex4(d) {
        FourDigits(d);
        Base16(v, HexDigit(d[0]), HexDigit(d[1]), HexDigit(d[2]), HexDigit(d[3]));
      }
    }
  }

  lemma Base16(v: int, a: int, b: int, c: int, d: int)
    requires 0 <= v < 0x10000 && 0 <= a < 16 && 0 <= b < 16 && 0 <= c < 16 && 0 <= d < 16
    ensures v == a * 0x1000 + b * 0x100 + c * 0x10 + d <==>
            a == v / 0x1000 && b == v / 0x100 % 0x10 && c == v / 0x10 % 0x10 && d == v % 0x10
  {
    var x, y := v / 0x10, v / 0x100;
    LastDigit(v, a * 0x100 + b * 0x10 + c, d);
    LastDigit(x, a * 0x10 + b, c);
    LastDigit(y, a, b);
    assert y == x / 0x10 && v / 0x1000 == y / 0x10;
  }

  lemma LastDigit(v: int, q: int, d: int)
    requires 0 <= d < 16
    ensures v == q * 0x10 + d <==> q == v / 0x10 && d == v % 0x10
  {
  }

  lemma FourDigits(d: bytes)
    requires IsHex4(d)
    ensures HexValue(d) == HexDigit(d[0]) * 0x1000 + HexDigit(d[1]) * 0x100 + HexDigit(d[2]) * 0x10 + HexDigit(d[3])
  {
    assert HexPrefix(d, 1) == HexDigit(d[0]);
    assert HexPrefix(d, 2) == HexPrefix(d, 1) * 16 + HexDigit(d[1]);
    assert HexPrefix(d, 3) == HexPrefix(d, 2) * 16 + HexDigit(d[2]);
  }

  /** Every scalar below U+10000 decodes from its escape, whatever case the
      digits have. */
  lemma ShortEscapeDecodes(r: rune, d: bytes, rest: bytes)
    requires r < 0x10000 && Spells(d, r)
    ensures ReadUnicode([BACKSLASH, LOWER_U] + d + rest) == Some(Unicode(d))
    ensures Value(Unicode(d)) == r && |Print(Unicode(d))| == 6
    ensures Unquoted([QUOTE] + [BACKSLASH, LOWER_U] + d + [QUOTE]) == Some(Encode(r))
  {
    SpelledValue(d, r);
    ReadPrinted(Unicode(d), rest);
    assert Print(Unicode(d)) + rest == [BACKSLASH, LOWER_U] + d + rest;
    OneItem(Unicode(d));
    assert Literal([Unicode(d)]) == [QUOTE] + [BACKSLASH, LOWER_U] + d + [QUOTE];
  }

  /** Every scalar from U+10000 on decodes from its surrogate pair. */
  lemma PairEscapeDecodes(high: int, low: int, h: bytes, l: bytes, rest: bytes)
    requires 0xD800 <= high < 0xDC00 && Spells(h, high)
    requires 0xDC00 <= low < 0xE000 && Spells(l, low)
    ensures ReadUnicode(Print(Pair(h, l)) + rest) == Some(Pair(h, l))
    ensures Value(Pair(h, l)) == 0x10000 + (high - 0xD800) * 0x400 + (low - 0xDC00) && |Print(Pair(h, l))| == 12
    ensures Unquoted([QUOTE] + ([BACKSLASH, LOWER_U] + h + [BACKSLASH, LOWER_U] + l) + [QUOTE]) ==
            Some(Encode(0x10000 + (high - 0xD800) * 0x400 + (low - 0xDC00)))
  {
    SpelledValue(h, high);
    SpelledValue(l, low);
    ReadPrinted(Pair(h, l), rest);
    OneItem(Pair(h, l));
  }

  lemma OneItem(it: Item)
    requires ValidItem(it)
    ensures Unquoted(Literal([it])) == Some(Mean(it)) && Literal([it]) == [QUOTE] + Print(it) + [QUOTE]
  {
    hide Mean, Print, Parse;
    UnquotedLiteral([it]);
    MeanOne(it);
    PrintOne([it]);
  }

  /** The two-character escapes, and what they stand for (section 7 of
      RFC 8259): quotation mark, backslash and slash for themselves, b, f, n, r
      and t for backspace, form feed, line feed, carriage return and tab; no
      other character may follow a backslash alone. */
  lemma ShortEscapes(c: byte)
    ensures Unquoted([QUOTE, BACKSLASH, c, QUOTE]) ==
            match c
            case 0x22 => Some([0x22])
            case 0x5C => Some([0x5C])
            case 0x2F => Some([0x2F])
            case 0x62 => Some([0x08])
            case 0x66 => Some([0x0C])
            case 0x6E => Some([0x0A])
            case 0x72 => Some([0x0D])
            case 0x74 => Some([0x09])
            case _ => None
  {
    var raw := [QUOTE, BACKSLASH, c, QUOTE];
    assert raw[1..|raw| - 1] == [BACKSLASH, c];
    if IsShort(c) {
      OneItem(Short(c));
      assert Literal([Short(c)]) == raw;
    }
  }

  /** A surrogate is accepted only as the first half of a well-ordered pair. */
  lemma SurrogateNeedsPair(s: bytes, v: int)
    requires |s| >= 6 && s[0] == BACKSLASH && s[1] == LOWER_U
    requires 0xD800 <= v < 0xE000 && Spells(s[2..6], v)
    ensures ReadItem(s).Some? <==>
            && v < 0xDC00 && |s| >= 12 && s[6] == BACKSLASH && s[7] == LOWER_U
            && exists low :: 0xDC00 <= low < 0xE000 && Spells(s[8..12], low)
  {
    SpelledValue(s[2..6], v);
    if |s| >= 12 {
      if IsHex4(s[8..12]) {
        SpelledValue(s[8..12], HexValue(s[8..12]));
      }
      forall low | 0xDC00 <= low < 0xE000 && Spells(s[8..12], low) ensures IsHex4(s[8..12]) && IsLow(HexValue(s[8..12])) {
        SpelledValue(s[8..12], low);
      }
    }
  }

  // ----- The parser -----

  /** The hex4 closure: the value of a \uXXXX at the start of b. */
  method Hex4(b: bytes) returns (r: Option<int>)
    ensures r.Some? <==> |b| >= 6 && b[0] == BACKSLASH && b[1] == LOWER_U && IsHex4(b[2..6])
    ensures r.Some? ==> r.value == HexValue(b[2..6])
    ensures r.Some? ==> 0 <= r.value < 0x10000 && Spells(b[2..6], r.value)
  {
    if |b| < 6 || b[0] != BACKSLASH || b[1] != LOWER_U {
      return None;
    }
    var d := b[2..6];
    var v: int := 0;
    for i := 0 to 4
      invariant forall j :: 0 <= j < i ==> IsHex(d[j])
      invariant IsHex4(d) ==> v == HexPrefix(d, i)
    {
      if !IsHex(d[i]) {
        return None;
      }
      v := v * 16 + HexDigit(d[i]);
    }
    SpelledValue(d, HexValue(d));
    return Some(v);
  }

  method UnquoteRune(s: bytes) returns (r: Result<(rune, nat), Error>)
    requires |s| >= 2 && s[0] == BACKSLASH && s[1] == LOWER_U
    ensures r.Ok? <==> ReadUnicode(s).Some?
    ensures r.Ok? ==> r.value == (Value(ReadUnicode(s).value), |Print(ReadUnicode(s).value)|)
  {
    var u := Hex4(s);
    if u.None? {
      return Err(BadUnicode);
    }
    if !IsSurrogate(u.value) {
      return Ok((u.value, 6));
    }
    var u2 := Hex4(s[6..]);
    if |s| >= 12 {
      assert s[6..][2..6] == s[8..12];
    }
    if u2.None? {
      return Err(LoneSurrogate);
    }
    var x := DecodePair(u.value, u2.value);
    if x == RUNE_ERROR {
      return Err(BadPair);
    }
    return Ok((x, 12));
  }

  /** One turn of unquote's loop: the bytes the item at the start of s adds
      to the output, and how many bytes it takes up. */
  method UnquoteItem(s: bytes) returns (r: Result<(bytes, nat), Error>)
    requires s != []
    ensures r.Ok? <==> ReadItem(s).Some?
    ensures r.Ok? ==> r.value == (Mean(ReadItem(s).value), |Print(ReadItem(s).value)|)
  {
    var c := s[0];
    if c != BACKSLASH {
      return Ok(([c], 1));
    }
    if |s| == 1 {
      return Err(DanglingEscape);
    }
    if IsShort(s[1]) {
      return Ok(([ShortByte(s[1])], 2));
    }
    if s[1] == LOWER_U {
      var u := UnquoteRune(s);
      if u.Err? {
        return Err(u.error);
      }
      return Ok((Encode(u.value.0), u.value.1));
    }
    return Err(BadEscape);
  }

  /** unquote. The result is shorter than the literal. */
  method Unquote(raw: bytes) returns (r: Result<bytes, Error>)
    ensures r.Ok? <==> Unquoted(raw).Some?
    ensures r.Ok? ==> Unquoted(raw) == Some(r.value) && |r.value| <= |raw| - 2
  {
    hide Parse, MeanAll;
    if |raw| < 2 || raw[0] != QUOTE || raw[|raw| - 1] != QUOTE {
      return Err(NotAString);
    }
    r := UnquoteBody(raw[1..|raw| - 1]);
  }

  /** unquote's loop. `out` never holds more bytes than were consumed, so it
      stays within the capacity it was made with. */
  method UnquoteBody(body: bytes) returns (r: Result<bytes, Error>)
    ensures r.Ok? <==> Parse(body).Some?
    ensures r.Ok? ==> r.value == MeanAll(Parse(body).value) && |r.value| <= |body|
  {
    hide Parse, MeanAll, ReadItem, Mean, Print, Continues;
    var out: bytes := [];
    var i := 0;
    ContinuesStart(body);
    while i < |body|
      invariant 0 <= i <= |body|
      invariant |out| <= i
      invariant Continues(body, i, out)
    {
      var u := UnquoteItem(body[i..]);
      if u.Err? {
        ContinueFails(body, i, out);
        return Err(u.error);
      }
      ContinueStep(body, i, out, u.value.0, u.value.1);
      out := out + u.value.0;
      i := i + u.value.1;
    }
    ContinuesEnd(body, out);
    return Ok(out);
  }

  /** After consuming body[..i] the parser has produced exactly the bytes of
      the items so far. */
  ghost predicate Continues(body: bytes, i: nat, out: bytes)
    requires i <= |body|
  {
    && (Parse(body).Some? <==> Parse(body[i..]).Some?)
    && (Parse(body).Some? ==> MeanAll(Parse(body).value) == out + MeanAll(Parse(body[i..]).value))
  }

  lemma ContinuesStart(body: bytes)
    ensures Continues(body, 0, [])
  {
    assert body[0..] == body;
    if Parse(body).Some? {
      assert [] + MeanAll(Parse(body).value) == MeanAll(Parse(body).value);
    }
  }

  lemma ContinuesEnd(body: bytes, out: bytes)
    requires Continues(body, |body|, out)
    ensures Parse(body).Some? && MeanAll(Parse(body).value) == out
  {
    assert body[|body|..] == [];
    assert out + [] == out;
  }

  lemma ContinueFails(body: bytes, i: nat, out: bytes)
    requires i < |body| && Continues(body, i, out) && ReadItem(body[i..]).None?
    ensures Parse(body).None?
  {
  }

  lemma ContinueStep(body: bytes, i: nat, out: bytes, m: bytes, n: nat)
    requires i < |body| && Continues(body, i, out) && ReadItem(body[i..]).Some?
    requires m == Mean(ReadItem(body[i..]).value) && n == |Print(ReadItem(body[i..]).value)|
    ensures i + n <= |body| && Continues(body, i + n, out + m)
  {
    hide Parse, MeanAll, ReadItem, Mean, Print;
    ParseStep(body, i);
    if Parse(body[i + n..]).Some? {
      Associate(out, m, MeanAll(Parse(body[i + n..]).value));
    }
  }

  /** One turn of the parser's loop. */
  lemma ParseStep(body: bytes, i: nat)
    requires i < |body|
    ensures var s := body[i..];
            match ReadItem(s)
            case None => Parse(s).None?
            case Some(it) =>
              var j := i + |Print(it)|;
              && j <= |body|
              && (Parse(s).Some? <==> Parse(body[j..]).Some?)
              && (Parse(s).Some? ==> MeanAll(Parse(s).value) == Mean(it) + MeanAll(Parse(body[j..]).value))
  {
    var s := body[i..];
    if ReadItem(s).Some? {
      var it := ReadItem(s).value;
      var j := i + |Print(it)|;
      assert s[|Print(it)|..] == body[j..];
      if Parse(s).Some? {
        ConsItems(it, Parse(body[j..]).value);
      }
    }
  }

  // ----- The printer -----

  function LowerHex(v: int): byte
    requires 0 <= v < 16
  {
    if v < 10 then 0x30 + v else 0x61 + v - 10
  }

  function RawItems(b: bytes): (items: seq<Item>)
    ensures |items| == |b|
    ensures forall i :: 0 <= i < |b| ==> items[i] == Raw(b[i])
  {
    if b == [] then [] else [Raw(b[0])] + RawItems(b[1..])
  }

  /** The first rune of b, with a bad byte replaced. */
  function RuneBytes(b: bytes): bytes
    requires b != []
  {
    if Bad(b) then REPLACEMENT else b[..DecodeRune(b).1]
  }

  /** The items quote prints for the first rune, or bad byte, of b. */
  function QuoteHead(b: bytes): (items: seq<Item>)
    requires b != []
    ensures b[0] < 0x80 ==> |items| == 1
  {
    var c: int := b[0];
    if c == QUOTE || c == BACKSLASH then [Short(b[0])]
    else if c == LF then [Short(0x6E)]
    else if c == 0x0D then [Short(0x72)]
    else if c == 0x09 then [Short(0x74)]
    else if c < 0x20 then [Unicode([0x30, 0x30, LowerHex(c / 16), LowerHex(c % 16)])]
    else if c < 0x80 then [Raw(b[0])]
    else RawItems(RuneBytes(b))
  }

  function QuoteItems(b: bytes): seq<Item>
    decreases |b|
  {
    if b == [] then [] else QuoteHead(b) + QuoteItems(b[DecodeRune(b).1..])
  }

  function Quoting(b: bytes): bytes {
    Literal(QuoteItems(b))
  }

  /** One turn of quote's loop: what it prints for the start of b, and how
      many bytes that covers. */
  method QuoteRune(b: bytes) returns (p: bytes, n: nat)
    requires b != []
    ensures p == PrintAll(QuoteHead(b)) && n == DecodeRune(b).1
  {
    PrintHead(b);
    var c: int := b[0];
    n := 1;
    if c == QUOTE || c == BACKSLASH {
      p := [BACKSLASH, b[0]];
    } else if c == LF {
      p := [BACKSLASH, 0x6E];
    } else if c == 0x0D {
      p := [BACKSLASH, 0x72];
    } else if c == 0x09 {
      p := [BACKSLASH, 0x74];
    } else if c < 0x20 {
      p := [BACKSLASH, LOWER_U, 0x30, 0x30, LowerHex(c / 16), LowerHex(c % 16)];
    } else if c < 0x80 {
      p := [b[0]];
    } else {
      var (x, w) := DecodeRune(b);
      if x == RUNE_ERROR && w == 1 {
        p := REPLACEMENT;
      } else {
        p := b[..w];
      }
      n := w;
    }
  }

  method Quote(b: bytes) returns (out: bytes)
    ensures out == Quoting(b)
  {
    hide QuoteItems, QuoteHead, PrintAll, DecodeRune;
    out := [QUOTE];
    var i := 0;
    PrintedStart(b);
    while i < |b|
      invariant i <= |b|
      invariant Printed(b, i, out)
    {
      var p, n := QuoteRune(b[i..]);
      PrintedStep(b, i, out, p, n);
      out := out + p;
      i := i + n;
    }
    PrintedEnd(b, out);
    out := out + [QUOTE];
  }

  /** With b[..i] printed, what is missing from `out` is the rest of b. */
  ghost predicate Printed(b: bytes, i: nat, out: bytes)
    requires i <= |b|
  {
    out + PrintAll(QuoteItems(b[i..])) == [QUOTE] + PrintAll(QuoteItems(b))
  }

  lemma PrintedStart(b: bytes)
    ensures Printed(b, 0, [QUOTE])
  {
    assert b[0..] == b;
  }

  lemma PrintedStep(b: bytes, i: nat, out: bytes, p: bytes, n: nat)
    requires i < |b| && Printed(b, i, out)
    requires p == PrintAll(QuoteHead(b[i..])) && n == DecodeRune(b[i..]).1
    ensures Printed(b, i + n, out + p)
  {
    hide QuoteItems, QuoteHead, PrintAll, DecodeRune;
    QuoteStep(b, i);
    Associate(out, p, PrintAll(QuoteItems(b[i + n..])));
  }

  lemma PrintedEnd(b: bytes, out: bytes)
    requires Printed(b, |b|, out)
    ensures out == [QUOTE] + PrintAll(QuoteItems(b))
  {
    assert b[|b|..] == [] && out + [] == out;
  }

  lemma QuoteStep(b: bytes, i: nat)
    requires i < |b|
    ensures var j := i + DecodeRune(b[i..]).1;
            PrintAll(QuoteItems(b[i..])) == PrintAll(QuoteHead(b[i..])) + PrintAll(QuoteItems(b[j..]))
  {
    var s := b[i..];
    var n := DecodeRune(s).1;
    var rest := b[i + n..];
    assert s[n..] == rest;
    assert QuoteItems(s) == QuoteHead(s) + QuoteItems(rest);
    PrintAppend(QuoteHead(s), QuoteItems(rest));
  }

  /** The bytes quote prints for the first rune, or bad byte, of b. */
  lemma PrintHead(b: bytes)
    requires b != []
    ensures PrintAll(QuoteHead(b)) ==
            if b[0] < 0x80 then Print(QuoteHead(b)[0]) else RuneBytes(b)
  {
    hide DecodeRune, Encode, Print;
    if b[0] < 0x80 {
      PrintOne(QuoteHead(b));
    } else {
      var raw := RuneBytes(b);
      assert QuoteHead(b) == RawItems(raw);
      RawItemsPrint(raw);
    }
  }

  lemma PrintOne(items: seq<Item>)
    requires |items| == 1
    ensures PrintAll(items) == Print(items[0])
  {
    assert items[1..] == [];
  }

  lemma {:induction false} PrintAppend(a: seq<Item>, b: seq<Item>)
    ensures PrintAll(a + b) == PrintAll(a) + PrintAll(b)
    decreases a
  {
    hide Print;
    if a == [] {
      assert a + b == b;
    } else {
      var t := a[1..];
      assert (a + b)[1..] == t + b;
      calc {
        PrintAll(a + b);
        Print(a[0]) + PrintAll(t + b);
        { PrintAppend(t, b); }
        Print(a[0]) + (PrintAll(t) + PrintAll(b));
        { Associate(Print(a[0]), PrintAll(t), PrintAll(b)); }
        (Print(a[0]) + PrintAll(t)) + PrintAll(b);
      }
    }
  }

  lemma {:induction false} MeanAppend(a: seq<Item>, b: seq<Item>)
    requires ValidItems(a) && ValidItems(b)
    ensures MeanAll(a + b) == MeanAll(a) + MeanAll(b)
    decreases a
  {
    if a == [] {
      assert a + b == b;
    } else {
      var t := a[1..];
      assert (a + b)[1..] == t + b;
      calc {
        MeanAll(a + b);
        Mean(a[0]) + MeanAll(t + b);
        { MeanAppend(t, b); }
        Mean(a[0]) + (MeanAll(t) + MeanAll(b));
        { Associate(Mean(a[0]), MeanAll(t), MeanAll(b)); }
        (Mean(a[0]) + MeanAll(t)) + MeanAll(b);
      }
    }
  }

  lemma {:induction false} RawItemsPrint(b: bytes)
    ensures PrintAll(RawItems(b)) == b
    ensures BACKSLASH !in b ==> ValidItems(RawItems(b)) && MeanAll(RawItems(b)) == b
    decreases b
  {
    if b != [] {
      RawItemsPrint(b[1..]);
      assert RawItems(b)[1..] == RawItems(b[1..]);
      assert b == [b[0]] + b[1..];
    }
  }

  /** A raw byte a JSON string may hold unescaped. */
  predicate StrictItem(it: Item) {
    it.Raw? ==> it.c >= 0x20 && it.c != QUOTE && it.c != BACKSLASH
  }

  lemma MultibyteStrict(b: bytes)
    requires b != [] && b[0] >= 0x80 && !Bad(b)
    ensures forall i :: 0 <= i < DecodeRune(b).1 ==> b[i] >= 0x80
  {
  }

  /** The escape quote prints for a control byte stands for that byte. */
  lemma ControlValue(c: int)
    requires 0 <= c < 0x20
    ensures var d := [0x30, 0x30, LowerHex(c / 16), LowerHex(c % 16)];
            IsHex4(d) && HexValue(d) == c
  {
    var d := [0x30, 0x30, LowerHex(c / 16), LowerHex(c % 16)];
    assert HexPrefix(d, 2) == HexPrefix(d, 1) == 0;
    assert HexPrefix(d, 3) == c / 16;
  }

  lemma MeanOne(it: Item)
    requires ValidItem(it)
    ensures MeanAll([it]) == Mean(it)
  {
  }

  /** What quote prints for one rune is well-formed and denotes that rune, or
      U+FFFD for a bad byte. */
  lemma LowHeadSound(b: bytes)
    requires b != [] && b[0] < 0x80
    ensures ValidItem(QuoteHead(b)[0]) && StrictItem(QuoteHead(b)[0])
    ensures Mean(QuoteHead(b)[0]) == [b[0]]
  {
    var c: int := b[0];
    if c < 0x20 {
      ControlValue(c);
    }
  }

  lemma HighHeadSound(b: bytes)
    requires b != [] && b[0] >= 0x80
    ensures QuoteHead(b) == RawItems(RuneBytes(b)) && forall i :: 0 <= i < |RuneBytes(b)| ==> RuneBytes(b)[i] >= 0x80
  {
    if !Bad(b) {
      MultibyteStrict(b);
    }
  }

  lemma QuoteHeadSound(b: bytes)
    requires b != []
    ensures ValidItems(QuoteHead(b))
    ensures forall i :: 0 <= i < |QuoteHead(b)| ==> StrictItem(QuoteHead(b)[i])
    ensures MeanAll(QuoteHead(b)) == RuneBytes(b)
  {
    hide DecodeRune, Encode, Print, MeanAll, Mean, IsShort, HexValue;
    LowRune(b);
    if b[0] < 0x80 {
      LowHeadSound(b);
      MeanOne(QuoteHead(b)[0]);
      assert QuoteHead(b) == [QuoteHead(b)[0]];
      assert RuneBytes(b) == [b[0]];
    } else {
      HighHeadSound(b);
      RawItemsPrint(RuneBytes(b));
    }
  }

  /** quote prints a single JSON string token: no raw control byte, and no
      raw quote or backslash inside, so only the outer two quotes delimit. */
  lemma {:induction false} QuotingIsToken(b: bytes)
    ensures ValidItems(QuoteItems(b))
    ensures forall i :: 0 <= i < |QuoteItems(b)| ==> StrictItem(QuoteItems(b)[i])
    ensures MeanAll(QuoteItems(b)) == Sanitize(b)
    decreases |b|
  {
    if b != [] {
      var rest := b[DecodeRune(b).1..];
      QuoteHeadSound(b);
      QuotingIsToken(rest);
      MeanAppend(QuoteHead(b), QuoteItems(rest));
    }
  }

  /** Byte by byte: nothing below 0x20, and every quote inside follows a
      backslash. */
  predicate StrictBytes(p: bytes) {
    && (forall i :: 0 <= i < |p| ==> p[i] >= 0x20)
    && (forall i :: 0 <= i < |p| && p[i] == QUOTE ==> i > 0 && p[i - 1] == BACKSLASH)
  }

  lemma ItemIsStrict(it: Item)
    requires ValidItem(it) && StrictItem(it)
    ensures StrictBytes(Print(it))
  {
  }

  lemma StrictJoin(p: bytes, q: bytes)
    requires StrictBytes(p) && StrictBytes(q)
    ensures StrictBytes(p + q)
  {
  }

  lemma {:induction false} ItemsAreStrict(items: seq<Item>)
    requires ValidItems(items) && forall i :: 0 <= i < |items| ==> StrictItem(items[i])
    ensures StrictBytes(PrintAll(items))
    decreases items
  {
    if items != [] {
      ItemIsStrict(items[0]);
      ItemsAreStrict(items[1..]);
      StrictJoin(Print(items[0]), PrintAll(items[1..]));
    }
  }

  lemma QuotingIsStrict(b: bytes)
    ensures var q := Quoting(b);
            && |q| >= 2 && q[0] == QUOTE && q[|q| - 1] == QUOTE
            && StrictBytes(q[1..|q| - 1])
  {
    QuotingIsToken(b);
    ItemsAreStrict(QuoteItems(b));
    var q := Quoting(b);
    assert q[1..|q| - 1] == PrintAll(QuoteItems(b));
  }

  lemma HeadIsText(b: bytes)
    requires b != []
    ensures Valid(PrintAll(QuoteHead(b)))
  {
    hide DecodeRune, Encode, PrintAll;
    PrintHead(b);
    if b[0] < 0x80 {
      LowHeadAscii(b);
      AsciiIsText(Print(QuoteHead(b)[0]));
    } else if Bad(b) {
      ReplacementEncodes();
      RuneIsText(RUNE_ERROR);
    } else {
      EncodeDecode(b);
      RuneIsText(DecodeRune(b).0);
    }
  }

  lemma LowHeadAscii(b: bytes)
    requires b != [] && b[0] < 0x80
    ensures forall i :: 0 <= i < |Print(QuoteHead(b)[0])| ==> Print(QuoteHead(b)[0])[i] < 0x80
  {
  }

  lemma {:induction false} QuotedIsText(b: bytes)
    ensures Valid(PrintAll(QuoteItems(b)))
    decreases |b|
  {
    hide DecodeRune, Encode, QuoteHead, PrintAll, Valid;
    if b == [] {
      NothingIsText();
    } else {
      var n := DecodeRune(b).1;
      HeadIsText(b);
      QuotedIsText(b[n..]);
      assert b[0..] == b;
      QuoteStep(b, 0);
      JoinText(PrintAll(QuoteHead(b)), PrintAll(QuoteItems(b[n..])));
    }
  }

  lemma NothingIsText()
    ensures Valid(PrintAll(QuoteItems([])))
  {
  }

  /** And the literal is text, as a JSON document has to be. */
  lemma QuotingIsText(b: bytes)
    ensures Valid(Quoting(b))
  {
    hide Valid, PrintAll, QuoteItems;
    QuotedIsText(b);
    AsciiIsText([QUOTE]);
    JoinText([QUOTE], PrintAll(QuoteItems(b)));
    JoinText([QUOTE] + PrintAll(QuoteItems(b)), [QUOTE]);
  }

  /** The round trip docker relies on: whatever bytes the secret has, the
      quoted form parses back to them with bad bytes replaced, and exactly
      to them when they are text. */
  lemma QuoteRoundTrip(b: bytes)
    ensures Unquoted(Quoting(b)) == Some(Sanitize(b))
    ensures Unquoted(Quoting(b)) == Some(b) <==> ValidUtf8(b)
  {
    QuotingIsToken(b);
    UnquotedLiteral(QuoteItems(b));
    SanitizeFixesText(b);
    ValidIffText(b);
  }
}
