/** UTF-8 as sections 3 and 4 of RFC 3629 define it, in the shape Go's
    unicode/utf8 exposes it. */
module Utf8 {
  import opened Bytes

  /** A Unicode scalar value: a code point that is no surrogate. */
  type rune = r: int | 0 <= r < 0xD800 || 0xE000 <= r <= 0x10FFFF

  const RUNE_ERROR: rune := 0xFFFD

  const REPLACEMENT: bytes := [0xEF, 0xBF, 0xBD]

  /** utf8.AppendRune, as the bytes it appends (RFC 3629, section 3). */
  function Encode(r: rune): (b: bytes)
    ensures 1 <= |b| <= 4
  {
    if r < 0x80 then
      var b0: byte := r;
      [b0]
    else if r < 0x800 then
      var b0: byte := 0xC0 + r / 64;
      [b0, Continuation(r)]
    else if r < 0x10000 then
      var b0: byte := 0xE0 + r / 64 / 64;
      [b0, Continuation(r / 64), Continuation(r)]
    else
      var b0: byte := 0xF0 + r / 64 / 64 / 64;
      [b0, Continuation(r / 64 / 64), Continuation(r / 64), Continuation(r)]
  }

  /** The low six bits of r as a continuation byte. */
  function Continuation(r: int): byte
    requires 0 <= r
  {
    0x80 + r % 64
  }

  /** Six more bits below the bits decoded so far. */
  function Shift(high: int, c: byte): int {
    high * 64 + (c as int - 0x80)
  }

  predicate Tail(b: bytes, i: nat) {
    i < |b| && 0x80 <= b[i] <= 0xBF
  }

  /** The second byte's range depends on the first (RFC 3629, section 4). */
  predicate SecondOk(first: byte, second: byte) {
    if first == 0xE0 then 0xA0 <= second <= 0xBF
    else if first == 0xED then 0x80 <= second <= 0x9F
    else if first == 0xF0 then 0x90 <= second <= 0xBF
    else if first == 0xF4 then 0x80 <= second <= 0x8F
    else 0x80 <= second <= 0xBF
  }

  /** utf8.DecodeRune: the first rune and its width, or RUNE_ERROR and 1
      when b starts no valid sequence. */
  function DecodeRune(b: bytes): (d: (rune, nat))
    requires b != []
    ensures 1 <= d.1 <= 4 && d.1 <= |b|
  {
    var c: int := b[0];
    if c < 0x80 then (c, 1)
    else if 0xC2 <= c <= 0xDF && Tail(b, 1) then
      (Shift(c - 0xC0, b[1]), 2)
    else if 0xE0 <= c <= 0xEF && Tail(b, 1) && SecondOk(c, b[1]) && Tail(b, 2) then
      (Shift(Shift(c - 0xE0, b[1]), b[2]), 3)
    else if 0xF0 <= c <= 0xF4 && Tail(b, 1) && SecondOk(c, b[1]) && Tail(b, 2) && Tail(b, 3) then
      (Shift(Shift(Shift(c - 0xF0, b[1]), b[2]), b[3]), 4)
    else (RUNE_ERROR, 1)
  }

  /** Only a low byte decodes to a low rune, and then it is that byte. */
  lemma LowRune(b: bytes)
    requires b != []
    ensures b[0] < 0x80 ==> DecodeRune(b) == (b[0], 1)
    ensures b[0] >= 0x80 ==> DecodeRune(b).0 >= 0x80
  {
  }

  predicate Bad(b: bytes)
    requires b != []
  {
    DecodeRune(b) == (RUNE_ERROR, 1)
  }

  /** Division by 64 as an equation, so that the rest is linear. */
  lemma Divides(r: int, q: int, m: int)
    requires r == 64 * q + m && 0 <= m < 64
    ensures r / 64 == q && r % 64 == m
  {
  }

  lemma Divided(r: int)
    ensures r == 64 * (r / 64) + r % 64 && 0 <= r % 64 < 64
  {
  }

  /** What the bytes of a sequence of each length are and when they are one. */
  predicate Two(b: bytes, r: int, q: int, m: int) {
    && |b| >= 2 && b[0] == 0xC0 + q && b[1] == 0x80 + m
    && r == 64 * q + m && 0 <= m < 64
  }

  predicate Three(b: bytes, r: int, q: int, m1: int, m: int) {
    && |b| >= 3 && b[0] == 0xE0 + q && b[1] == 0x80 + m1 && b[2] == 0x80 + m
    && r == 64 * (64 * q + m1) + m && 0 <= m1 < 64 && 0 <= m < 64
  }

  predicate Four(b: bytes, r: int, q: int, m2: int, m1: int, m: int) {
    && |b| >= 4 && b[0] == 0xF0 + q && b[1] == 0x80 + m2 && b[2] == 0x80 + m1 && b[3] == 0x80 + m
    && r == 64 * (64 * (64 * q + m2) + m1) + m && 0 <= m2 < 64 && 0 <= m1 < 64 && 0 <= m < 64
  }

  lemma DecodeTwo(b: bytes, r: rune, q: int, m: int)
    requires Two(b, r, q, m) && 0x80 <= r < 0x800
    ensures DecodeRune(b) == (r, 2)
  {
  }

  lemma DecodeThree(b: bytes, r: rune, q: int, m1: int, m: int)
    requires Three(b, r, q, m1, m) && 0x800 <= r < 0x10000
    ensures DecodeRune(b) == (r, 3)
  {
  }

  lemma DecodeFour(b: bytes, r: rune, q: int, m2: int, m1: int, m: int)
    requires Four(b, r, q, m2, m1, m) && 0x10000 <= r
    ensures DecodeRune(b) == (r, 4)
  {
  }

  lemma DecodeEncode(r: rune, rest: bytes)
    ensures DecodeRune(Encode(r) + rest) == (r, |Encode(r)|) && !Bad(Encode(r) + rest)
  {
    hide DecodeRune;
    var b := Encode(r) + rest;
    var q1, q2, q3 := r / 64, r / 64 / 64, r / 64 / 64 / 64;
    Divided(r);
    Divided(q1);
    Divided(q2);
    if r < 0x80 {
      DecodeAscii(b, r);
    } else if r < 0x800 {
      DecodeTwo(b, r, q1, r % 64);
    } else if r < 0x10000 {
      DecodeThree(b, r, q2, q1 % 64, r % 64);
    } else {
      DecodeFour(b, r, q3, q2 % 64, q1 % 64, r % 64);
    }
  }

  lemma DecodeAscii(b: bytes, r: rune)
    requires r < 0x80 && |b| >= 1 && b[0] == r
    ensures DecodeRune(b) == (r, 1)
  {
  }

  lemma EncodeTwo(b: bytes, r: rune, q: int, m: int)
    requires Two(b, r, q, m) && 0x80 <= r < 0x800
    ensures Encode(r) == b[..2]
  {
    Divides(r, q, m);
  }

  lemma EncodeThree(b: bytes, r: rune, q: int, m1: int, m: int)
    requires Three(b, r, q, m1, m) && 0x800 <= r < 0x10000
    ensures Encode(r) == b[..3]
  {
    Divides(r, 64 * q + m1, m);
    Divides(64 * q + m1, q, m1);
  }

  lemma EncodeFour(b: bytes, r: rune, q: int, m2: int, m1: int, m: int)
    requires Four(b, r, q, m2, m1, m) && 0x10000 <= r
    ensures Encode(r) == b[..4]
  {
    Divides(r, 64 * (64 * q + m2) + m1, m);
    Divides(64 * (64 * q + m2) + m1, 64 * q + m2, m1);
    Divides(64 * q + m2, q, m2);
  }

  lemma EncodeDecode(b: bytes)
    requires b != [] && !Bad(b)
    ensures Encode(DecodeRune(b).0) == b[..DecodeRune(b).1]
  {
    hide Encode;
    var (r, n) := DecodeRune(b);
    var c: int := b[0];
    if n == 1 {
      EncodeAscii(b, r);
    } else if n == 2 {
      EncodeTwo(b, r, c - 0xC0, b[1] as int - 0x80);
    } else if n == 3 {
      EncodeThree(b, r, c - 0xE0, b[1] as int - 0x80, b[2] as int - 0x80);
    } else {
      EncodeFour(b, r, c - 0xF0, b[1] as int - 0x80, b[2] as int - 0x80, b[3] as int - 0x80);
    }
  }

  lemma EncodeAscii(b: bytes, r: rune)
    requires r < 0x80 && |b| >= 1 && b[0] == r
    ensures Encode(r) == b[..1]
  {
  }

  /** Decoding fails exactly where no scalar value's encoding starts. */
  lemma BadIffNoRune(b: bytes)
    requires b != []
    ensures Bad(b) <==> forall r: rune :: !(Encode(r) <= b)
  {
    if !Bad(b) {
      EncodeDecode(b);
      assert Encode(DecodeRune(b).0) <= b;
    }
    forall r: rune | Encode(r) <= b ensures !Bad(b) {
      DecodeEncode(r, b[|Encode(r)|..]);
      assert b == Encode(r) + b[|Encode(r)|..];
    }
  }

  lemma ReplacementEncodes()
    ensures Encode(RUNE_ERROR) == REPLACEMENT
  {
  }

  function EncodeAll(rs: seq<rune>): bytes {
    if rs == [] then [] else Encode(rs[0]) + EncodeAll(rs[1..])
  }

  /** b is the encoding of some text. */
  ghost predicate ValidUtf8(b: bytes) {
    exists rs :: EncodeAll(rs) == b
  }

  /** utf8.Valid. */
  predicate Valid(b: bytes) {
    b == [] || (!Bad(b) && Valid(b[DecodeRune(b).1..]))
  }

  /** The runes of a Go string, as ranging over it yields them. */
  function Runes(b: bytes): seq<rune> {
    if b == [] then [] else [DecodeRune(b).0] + Runes(b[DecodeRune(b).1..])
  }

  lemma {:induction false} RunesEncode(rs: seq<rune>)
    ensures Valid(EncodeAll(rs)) && Runes(EncodeAll(rs)) == rs
    decreases rs
  {
    hide DecodeRune, Encode;
    if rs != [] {
      var b, rest := EncodeAll(rs), EncodeAll(rs[1..]);
      DecodeEncode(rs[0], rest);
      assert b[|Encode(rs[0])|..] == rest;
      RunesEncode(rs[1..]);
    }
  }

  lemma EncodeAllCons(r: rune, rs: seq<rune>)
    ensures EncodeAll([r] + rs) == Encode(r) + EncodeAll(rs)
  {
    assert ([r] + rs)[1..] == rs;
  }

  lemma {:induction false} EncodeRunes(b: bytes)
    requires Valid(b)
    ensures EncodeAll(Runes(b)) == b
    decreases |b|
  {
    hide DecodeRune, Encode;
    if b != [] {
      var n := DecodeRune(b).1;
      EncodeDecode(b);
      var rest := b[n..];
      EncodeRunes(rest);
      assert Runes(b) == [DecodeRune(b).0] + Runes(rest);
      EncodeAllCons(DecodeRune(b).0, Runes(rest));
      assert b == b[..n] + rest;
    }
  }

  lemma ValidIffText(b: bytes)
    ensures Valid(b) <==> ValidUtf8(b)
  {
    if Valid(b) {
      EncodeRunes(b);
    }
    if ValidUtf8(b) {
      var rs :| EncodeAll(rs) == b;
      RunesEncode(rs);
    }
  }

  /** b with every byte that starts no valid sequence replaced by U+FFFD:
      what a string becomes when encoding/json carries it. */
  function Sanitize(b: bytes): bytes
    decreases |b|
  {
    if b == [] then []
    else if Bad(b) then REPLACEMENT + Sanitize(b[1..])
    else b[..DecodeRune(b).1] + Sanitize(b[DecodeRune(b).1..])
  }

  lemma {:induction false} SanitizeIsText(b: bytes)
    ensures Valid(Sanitize(b))
    decreases |b|
  {
    hide DecodeRune, Encode;
    if b != [] {
      var n := DecodeRune(b).1;
      var r := if Bad(b) then RUNE_ERROR else DecodeRune(b).0;
      if !Bad(b) { EncodeDecode(b); }
      ReplacementEncodes();
      SanitizeIsText(b[n..]);
      DecodeEncode(r, Sanitize(b[n..]));
      assert Sanitize(b)[|Encode(r)|..] == Sanitize(b[n..]);
    }
  }

  /** Text, and only text, passes through unchanged. */
  lemma {:induction false} SanitizeFixesText(b: bytes)
    ensures Sanitize(b) == b <==> Valid(b)
    decreases |b|
  {
    hide DecodeRune, Encode;
    if b != [] {
      var n := DecodeRune(b).1;
      if Bad(b) {
        BadIffNoRune(b);
        ReplacementEncodes();
        assert REPLACEMENT <= Sanitize(b);
      } else {
        SanitizeFixesText(b[n..]);
        assert b == b[..n] + b[n..];
        assert Sanitize(b)[n..] == Sanitize(b[n..]);
      }
    }
  }

  /** Text is carried as it is, whatever comes after it; and a byte that starts
      no sequence is replaced alone. */
  lemma {:induction false} SanitizeByParts(a: bytes, b: bytes)
    requires Valid(a)
    ensures Sanitize(a + b) == a + Sanitize(b)
    ensures b != [] && Bad(b) ==> Sanitize(b) == Encode(0xFFFD) + Sanitize(b[1..])
    decreases |a|
  {
    hide DecodeRune, Encode, Sanitize;
    if b != [] && Bad(b) {
      BadReplaced(b);
    }
    if a == [] {
      assert a + b == b;
    } else {
      var e, rest := Encode(DecodeRune(a).0), a[DecodeRune(a).1..];
      EncodeDecode(a);
      assert a == e + rest;
      SanitizeByParts(rest, b);
      SanitizeRune(DecodeRune(a).0, rest + b);
      Associate(e, rest, b);
      Associate(e, rest, Sanitize(b));
    }
  }

  lemma BadReplaced(b: bytes)
    requires b != [] && Bad(b)
    ensures Sanitize(b) == Encode(0xFFFD) + Sanitize(b[1..])
  {
    hide DecodeRune;
    ReplacementEncodes();
  }

  lemma SanitizeRune(r: rune, rest: bytes)
    ensures Sanitize(Encode(r) + rest) == Encode(r) + Sanitize(rest)
  {
    hide DecodeRune, Encode;
    var b := Encode(r) + rest;
    DecodeEncode(r, rest);
    BadIffNoRune(b);
    assert b[..|Encode(r)|] == Encode(r) && b[|Encode(r)|..] == rest;
  }

  /** Sorting texts by their bytes sorts them by their code points (section 1
      of RFC 3629). */
  lemma EncodeOrder(x: rune, y: rune)
    requires x < y
    ensures exists k :: 0 <= k < |Encode(x)| && k < |Encode(y)| && Encode(x)[..k] == Encode(y)[..k] && Encode(x)[k] < Encode(y)[k]
  {
    var a, b := Encode(x), Encode(y);
    if |a| < |b| {
      assert a[..0] == b[..0] && a[0] < b[0];
    } else if x < 0x80 {
      assert a[..0] == b[..0];
    } else if y < 0x800 {
      OrderTwo(x, y);
    } else if y < 0x10000 {
      OrderThree(x, y);
    } else {
      OrderFour(x, y);
    }
  }

  lemma OrderTwo(x: rune, y: rune)
    requires 0x80 <= x < y < 0x800
    ensures exists k :: 0 <= k < 2 && Encode(x)[..k] == Encode(y)[..k] && Encode(x)[k] < Encode(y)[k]
  {
    DigitOrder(x, y);
    var k := if x / 64 < y / 64 then 0 else 1;
    assert Encode(x)[..k] == Encode(y)[..k];
  }

  lemma OrderThree(x: rune, y: rune)
    requires 0x800 <= x < y < 0x10000
    ensures exists k :: 0 <= k < 3 && Encode(x)[..k] == Encode(y)[..k] && Encode(x)[k] < Encode(y)[k]
  {
    DigitOrder(x, y);
    DigitOrder(x / 64, y / 64);
    var k := if x / 64 / 64 < y / 64 / 64 then 0 else if x / 64 < y / 64 then 1 else 2;
    assert Encode(x)[..k] == Encode(y)[..k];
  }

  lemma OrderFour(x: rune, y: rune)
    requires 0x10000 <= x < y
    ensures exists k :: 0 <= k < 4 && Encode(x)[..k] == Encode(y)[..k] && Encode(x)[k] < Encode(y)[k]
  {
    DigitOrder(x, y);
    DigitOrder(x / 64, y / 64);
    DigitOrder(x / 64 / 64, y / 64 / 64);
    var k := if x / 64 / 64 / 64 < y / 64 / 64 / 64 then 0 else if x / 64 / 64 < y / 64 / 64 then 1
             else if x / 64 < y / 64 then 2 else 3;
    assert Encode(x)[..k] == Encode(y)[..k];
  }

  lemma DigitOrder(x: int, y: int)
    requires x <= y
    ensures x / 64 < y / 64 || (x / 64 == y / 64 && (x < y ==> x % 64 < y % 64))
  {
  }

  lemma RuneIsText(r: rune)
    ensures Valid(Encode(r))
  {
    hide DecodeRune, Encode;
    DecodeEncode(r, []);
    assert Encode(r) + [] == Encode(r);
  }

  /** Text put together from texts is text. */
  lemma {:induction false} JoinText(a: bytes, b: bytes)
    requires Valid(a) && Valid(b)
    ensures Valid(a + b)
    decreases |a|
  {
    hide DecodeRune, Encode;
    if a == [] {
      assert a + b == b;
    } else {
      var n := DecodeRune(a).1;
      EncodeDecode(a);
      DecodeEncode(DecodeRune(a).0, a[n..] + b);
      assert a + b == a[..n] + (a[n..] + b);
      JoinText(a[n..], b);
      assert (a + b)[n..] == a[n..] + b;
    }
  }

  lemma {:induction false} AsciiIsText(b: bytes)
    requires forall i :: 0 <= i < |b| ==> b[i] < 0x80
    ensures Valid(b)
    decreases b
  {
    if b != [] {
      AsciiIsText(b[1..]);
    }
  }
}
