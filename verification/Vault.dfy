/** The decrypted vault: which secrets are valid, and what the operations do
    to it, on values. */
module Vaults {
  import opened Bytes
  import opened Utf8

  const MAX_NAME_LEN := 256
  const MAX_KIND_LEN := 64
  const MAX_VALUE_LEN := 1024 * 1024

  datatype Secret = Secret(
    kind: bytes,
    value: bytes,
    attributes: map<bytes, bytes>,
    created: int,
    updated: int)

  type Vault = map<bytes, Secret>

  datatype Error =
    | Locked            // no identity is held
    | Invalid           // ErrInvalidArgument
    | NotFound          // no secret of that name
    | WrongIdentity     // the vault is sealed to another key
    | NoVault           // the vault file does not exist
    | Malformed         // not a secret key
    | Broken            // I/O, encryption or decoding failed
    | Protocol          // a message between client and daemon is too long

  // ----- Validity -----

  /** unicode.IsControl. */
  predicate IsControl(r: int) {
    0 <= r < 0x20 || 0x7F <= r < 0xA0
  }

  /** unicode.IsSpace. */
  predicate IsSpace(r: int) {
    || 0x09 <= r <= 0x0D || r == 0x20 || r == 0x85 || r == 0xA0 || r == 0x1680
    || 0x2000 <= r <= 0x200A || r == 0x2028 || r == 0x2029 || r == 0x202F || r == 0x205F || r == 0x3000
  }

  /** b ends with the encoding of a space that is k bytes long. */
  predicate SpaceTail(b: bytes, k: nat) {
    0 < k <= |b| && DecodeRune(b[|b| - k..]).1 == k && !Bad(b[|b| - k..]) && IsSpace(DecodeRune(b[|b| - k..]).0)
  }

  function TrimLeft(b: bytes): bytes
    decreases |b|
  {
    if b != [] && IsSpace(DecodeRune(b).0) then TrimLeft(b[DecodeRune(b).1..]) else b
  }

  function TrimRight(b: bytes): bytes
    decreases |b|
  {
    if SpaceTail(b, 1) then TrimRight(b[..|b| - 1])
    else if SpaceTail(b, 2) then TrimRight(b[..|b| - 2])
    else if SpaceTail(b, 3) then TrimRight(b[..|b| - 3])
    else b
  }

  /** strings.TrimSpace. */
  function TrimSpace(b: bytes): bytes {
    TrimRight(TrimLeft(b))
  }

  predicate HasControl(b: bytes) {
    exists i :: 0 <= i < |Runes(b)| && IsControl(Runes(b)[i])
  }

  /** validateText. */
  predicate ValidText(b: bytes) {
    && b != []
    && |b| <= MAX_NAME_LEN
    && Valid(b)
    && !HasControl(b)
    && TrimSpace(b) == b
  }

  predicate IsSlugByte(c: byte) {
    0x61 <= c <= 0x7A || 0x30 <= c <= 0x39 || c == 0x2D
  }

  /** isSlug: [a-z0-9-]{1,64}. */
  predicate IsSlug(b: bytes) {
    b != [] && |b| <= MAX_KIND_LEN && forall i :: 0 <= i < |b| ==> IsSlugByte(b[i])
  }

  predicate ValidAttributes(attrs: map<bytes, bytes>) {
    forall k :: k in attrs ==> IsSlug(k) && ValidText(attrs[k])
  }

  /** ValidateSecret. */
  predicate ValidSecret(name: bytes, kind: bytes, attrs: map<bytes, bytes>, value: bytes) {
    ValidText(name) && IsSlug(kind) && ValidAttributes(attrs) && |value| <= MAX_VALUE_LEN
  }

  predicate AllValid(v: Vault) {
    forall n :: n in v ==> ValidSecret(n, v[n].kind, v[n].attributes, v[n].value)
  }

  /** The control characters (category Cc) are the 32 below the space, delete,
      and the 32 from U+0080 on. */
  lemma ControlsAre(r: int)
    requires 0 <= r
    ensures IsControl(r) <==> r / 32 == 0 || r == 127 || r / 32 == 4
  {
  }

  /** The characters with the property White_Space. */
  lemma SpacesAre(r: int)
    ensures IsSpace(r) <==>
            r in {0x0009, 0x000A, 0x000B, 0x000C, 0x000D, 0x0020, 0x0085, 0x00A0, 0x1680, 0x2000, 0x2001, 0x2002, 0x2003,
                  0x2004, 0x2005, 0x2006, 0x2007, 0x2008, 0x2009, 0x200A, 0x2028, 0x2029, 0x202F, 0x205F, 0x3000}
  {
  }

  /** Kinds and attribute keys are 1 to 64 lower-case letters, digits and
      hyphens; a value has up to 1 MiB. */
  lemma SlugsAre(b: bytes)
    ensures IsSlug(b) <==>
            && 1 <= |b| <= 64
            && forall i :: 0 <= i < |b| ==> 0x61 <= b[i] <= 0x7A || 0x30 <= b[i] <= 0x39 || b[i] == 0x2D
    ensures MAX_VALUE_LEN == 1_048_576
  {
  }

  /** What validateText is for: a text of 1 to 256 bytes of printable runes
      that neither starts nor ends with a space. */
  ghost predicate PrintableText(b: bytes) {
    exists rs: seq<rune> ::
      && EncodeAll(rs) == b
      && 1 <= |b| <= 256
      && (forall i :: 0 <= i < |rs| ==> !IsControl(rs[i]))
      && !IsSpace(rs[0]) && !IsSpace(rs[|rs| - 1])
  }

  predicate IsContinuation(c: byte) { 0x80 <= c < 0xC0 }

  lemma EncodeShape(r: rune)
    ensures !IsContinuation(Encode(r)[0])
    ensures forall i :: 1 <= i < |Encode(r)| ==> IsContinuation(Encode(r)[i])
  {
  }

  /** The trailing space TrimRight looks for is the last rune, if that is a
      space: no other length fits. */
  lemma LastRuneTail(b: bytes, front: bytes, r: rune, k: nat)
    requires b == front + Encode(r)
    requires 1 <= k <= 3
    ensures SpaceTail(b, k) <==> k == |Encode(r)| && IsSpace(r)
  {
    var e := Encode(r);
    EncodeShape(r);
    if k == |e| {
      assert b[|b| - k..] == e + [];
      DecodeEncode(r, []);
    } else if k < |e| {
      assert b[|b| - k] == e[|e| - k];
      assert IsContinuation(b[|b| - k..][0]);
    } else if k <= |b| {
      var t := b[|b| - k..];
      assert t[k - |e|] == e[0];
    }
  }

  lemma {:induction false} EncodeAllAppend(init: seq<rune>, r: rune)
    ensures EncodeAll(init + [r]) == EncodeAll(init) + Encode(r)
    decreases init
  {
    if init == [] {
      assert [] + [r] == [r];
      assert EncodeAll([r]) == Encode(r) + EncodeAll([]);
    } else {
      EncodeAllAppend(init[1..], r);
      assert (init + [r])[1..] == init[1..] + [r];
      assert Encode(init[0]) + (EncodeAll(init[1..]) + Encode(r)) == (Encode(init[0]) + EncodeAll(init[1..])) + Encode(r);
    }
  }

  lemma ValidTextIffPrintable(b: bytes)
    ensures ValidText(b) <==> PrintableText(b)
  {
    if b != [] && Valid(b) {
      EncodeRunes(b);
      TrimKeeps(b, Runes(b));
    }
    if PrintableText(b) {
      var rs: seq<rune> :| EncodeAll(rs) == b && 1 <= |b| <= 256
        && (forall i :: 0 <= i < |rs| ==> !IsControl(rs[i])) && !IsSpace(rs[0]) && !IsSpace(rs[|rs| - 1]);
      RunesEncode(rs);
    }
  }

  predicate HasSpaceTail(b: bytes) {
    SpaceTail(b, 1) || SpaceTail(b, 2) || SpaceTail(b, 3)
  }

  lemma {:induction false} TrimRightShrinks(b: bytes)
    ensures |TrimRight(b)| <= |b|
    ensures TrimRight(b) == b <==> !HasSpaceTail(b)
    decreases |b|
  {
    if SpaceTail(b, 1) {
      TrimRightShrinks(b[..|b| - 1]);
    } else if SpaceTail(b, 2) {
      TrimRightShrinks(b[..|b| - 2]);
    } else if SpaceTail(b, 3) {
      TrimRightShrinks(b[..|b| - 3]);
    }
  }

  lemma TrimLeftShrinks(b: bytes)
    ensures |TrimLeft(b)| <= |b|
    ensures |TrimLeft(b)| == |b| ==> TrimLeft(b) == b
    ensures TrimLeft(b) == b <==> b == [] || !IsSpace(DecodeRune(b).0)
  {
  }

  lemma TrimSpaceFixes(b: bytes)
    requires b != []
    ensures TrimSpace(b) == b <==> !IsSpace(DecodeRune(b).0) && !HasSpaceTail(b)
  {
    TrimLeftShrinks(b);
    TrimRightShrinks(b);
    TrimRightShrinks(TrimLeft(b));
  }

  lemma AnyRuneTail(b: bytes, front: bytes, r: rune)
    requires b == front + Encode(r)
    ensures HasSpaceTail(b) <==> IsSpace(r)
  {
    LastRuneTail(b, front, r, 1);
    LastRuneTail(b, front, r, 2);
    LastRuneTail(b, front, r, 3);
    SpacesAreShort(r);
  }

  /** Trimming keeps a text exactly when no space is at either edge. */
  lemma TrimKeeps(b: bytes, rs: seq<rune>)
    requires rs != [] && EncodeAll(rs) == b
    ensures b != [] && (TrimSpace(b) == b <==> !IsSpace(rs[0]) && !IsSpace(rs[|rs| - 1]))
  {
    assert b == Encode(rs[0]) + EncodeAll(rs[1..]);
    DecodeEncode(rs[0], EncodeAll(rs[1..]));
    TrimSpaceFixes(b);
    LastIsSpaceTail(b, rs);
  }

  lemma LastIsSpaceTail(b: bytes, rs: seq<rune>)
    requires rs != [] && EncodeAll(rs) == b
    ensures HasSpaceTail(b) <==> IsSpace(rs[|rs| - 1])
  {
    hide HasSpaceTail, Encode, EncodeAll, IsSpace;
    var r := rs[|rs| - 1];
    var front := rs[..|rs| - 1];
    assert rs == front + [r];
    EncodeAllAppend(front, r);
    AnyRuneTail(b, EncodeAll(front), r);
  }

  /** Trimming a text drops the spaces at both ends and keeps the rest. */
  lemma TrimText(rs: seq<rune>) returns (i: nat, j: nat)
    ensures i <= j <= |rs| && TrimSpace(EncodeAll(rs)) == EncodeAll(rs[i..j])
    ensures (forall k :: 0 <= k < i ==> IsSpace(rs[k])) && forall k :: j <= k < |rs| ==> IsSpace(rs[k])
    ensures i < j ==> !IsSpace(rs[i]) && !IsSpace(rs[j - 1])
  {
    i := TrimLeftText(rs);
    var rest := rs[i..];
    var n := TrimRightText(rest);
    j := i + n;
    assert rest[..n] == rs[i..j];
    assert forall k :: 0 <= k < |rest| ==> rest[k] == rs[i + k];
  }

  lemma {:induction false} TrimLeftText(rs: seq<rune>) returns (i: nat)
    ensures i <= |rs| && TrimLeft(EncodeAll(rs)) == EncodeAll(rs[i..])
    ensures (forall k :: 0 <= k < i ==> IsSpace(rs[k])) && (i < |rs| ==> !IsSpace(rs[i]))
    decreases rs
  {
    hide Encode, DecodeRune, IsSpace;
    i := 0;
    assert rs[0..] == rs;
    if rs != [] {
      var b, tail := EncodeAll(rs), EncodeAll(rs[1..]);
      DecodeEncode(rs[0], tail);
      assert b == Encode(rs[0]) + tail && b[|Encode(rs[0])|..] == tail;
      if IsSpace(rs[0]) {
        var n := TrimLeftText(rs[1..]);
        i := n + 1;
        assert rs[1..][n..] == rs[i..];
      }
    }
  }

  lemma {:induction false} TrimRightText(rs: seq<rune>) returns (j: nat)
    ensures j <= |rs| && TrimRight(EncodeAll(rs)) == EncodeAll(rs[..j])
    ensures (forall k :: j <= k < |rs| ==> IsSpace(rs[k])) && (j > 0 ==> !IsSpace(rs[j - 1]))
    decreases |rs|
  {
    hide Encode, EncodeAll, IsSpace, SpaceTail;
    j := |rs|;
    assert rs[..j] == rs;
    if rs == [] {
      NoTail();
    } else {
      var front, r := rs[..|rs| - 1], rs[|rs| - 1];
      var b := EncodeAll(rs);
      assert rs == front + [r];
      EncodeAllAppend(front, r);
      TrimLastRune(b, EncodeAll(front), r);
      if IsSpace(r) {
        j := TrimRightText(front);
        assert front[..j] == rs[..j];
      }
    }
  }

  lemma NoTail()
    ensures EncodeAll([]) == [] && TrimRight([]) == []
  {
  }

  /** Of any bytes trimming drops nothing but encoded spaces. */
  lemma TrimBytes(b: bytes) returns (front: seq<rune>, back: seq<rune>)
    ensures b == EncodeAll(front) + TrimSpace(b) + EncodeAll(back)
    ensures (forall k :: 0 <= k < |front| ==> IsSpace(front[k])) && forall k :: 0 <= k < |back| ==> IsSpace(back[k])
  {
    front := TrimLeftBytes(b);
    back := TrimRightBytes(TrimLeft(b));
    Associate(EncodeAll(front), TrimSpace(b), EncodeAll(back));
  }

  lemma {:induction false} TrimLeftBytes(b: bytes) returns (rs: seq<rune>)
    ensures b == EncodeAll(rs) + TrimLeft(b)
    ensures forall k :: 0 <= k < |rs| ==> IsSpace(rs[k])
    decreases |b|
  {
    hide Encode, EncodeAll, DecodeRune;
    rs := [];
    EncodeNone();
    if b != [] && IsSpace(DecodeRune(b).0) {
      var r, n := DecodeRune(b).0, DecodeRune(b).1;
      var more := TrimLeftBytes(b[n..]);
      EncodeDecode(b);
      rs := [r] + more;
      EncodeAllCons(r, more);
      assert b == b[..n] + b[n..];
      Associate(b[..n], EncodeAll(more), TrimLeft(b[n..]));
    }
  }

  lemma {:induction false} TrimRightBytes(b: bytes) returns (rs: seq<rune>)
    ensures b == TrimRight(b) + EncodeAll(rs)
    ensures forall k :: 0 <= k < |rs| ==> IsSpace(rs[k])
    decreases |b|
  {
    hide Encode, EncodeAll, SpaceTail, IsSpace;
    var k := if SpaceTail(b, 1) then 1 else if SpaceTail(b, 2) then 2 else if SpaceTail(b, 3) then 3 else 0;
    rs := [];
    EncodeNone();
    if k > 0 {
      var r := TailRune(b, k);
      var rest := b[..|b| - k];
      var more := TrimRightBytes(rest);
      rs := more + [r];
      EncodeAllAppend(more, r);
      assert b == rest + Encode(r);
      Associate(TrimRight(rest), EncodeAll(more), Encode(r));
    }
  }

  lemma EncodeNone()
    ensures EncodeAll([]) == []
  {
  }

  lemma TailRune(b: bytes, k: nat) returns (r: rune)
    requires SpaceTail(b, k)
    ensures k <= |b| && IsSpace(r) && b == b[..|b| - k] + Encode(r)
  {
    hide Encode, DecodeRune;
    var t := b[|b| - k..];
    r := DecodeRune(t).0;
    EncodeDecode(t);
    assert t[..k] == t;
  }

  lemma TrimLastRune(b: bytes, front: bytes, r: rune)
    requires b == front + Encode(r)
    ensures TrimRight(b) == if IsSpace(r) then TrimRight(front) else b
  {
    hide Encode, IsSpace, SpaceTail;
    LastRuneTail(b, front, r, 1);
    LastRuneTail(b, front, r, 2);
    LastRuneTail(b, front, r, 3);
    SpacesAreShort(r);
    assert b[..|b| - |Encode(r)|] == front;
  }

  lemma SpacesAreShort(r: rune)
    ensures IsSpace(r) ==> |Encode(r)| <= 3
  {
  }

  /** Visible ASCII, spaces inside it included, is always accepted. */
  lemma PlainTextValid(b: bytes)
    requires 1 <= |b| <= 256 && forall i :: 0 <= i < |b| ==> 0x20 <= b[i] <= 0x7E
    requires b[0] != SPACE && b[|b| - 1] != SPACE
    ensures ValidText(b)
  {
    hide ValidText, EncodeAll;
    var rs: seq<rune> := seq(|b|, i requires 0 <= i < |b| => b[i] as int);
    EncodePlain(b, rs);
    assert forall i :: 0 <= i < |rs| ==> !IsControl(rs[i]);
    assert !IsSpace(rs[0]) && !IsSpace(rs[|rs| - 1]);
    assert PrintableText(b);
    ValidTextIffPrintable(b);
  }

  lemma {:induction false} EncodePlain(b: bytes, rs: seq<rune>)
    requires |rs| == |b| && forall i :: 0 <= i < |b| ==> rs[i] == b[i] < 0x80
    ensures EncodeAll(rs) == b
    decreases b
  {
    if b != [] {
      EncodePlain(b[1..], rs[1..]);
      assert b == [b[0]] + b[1..];
    }
  }

  // ----- Operations -----

  /** What a request to write asks for. */
  datatype Change =
    | Put(name: bytes, kind: bytes, attributes: map<bytes, bytes>, value: bytes)
    | Remove(name: bytes)

  /** The modification Store and Delete make to the decrypted vault. */
  function Modify(c: Change, v: Vault, now: int): Result<Vault, Error> {
    match c
    case Put(name, kind, attrs, value) =>
      if !ValidSecret(name, kind, attrs, value) then Err(Invalid)
      else
        var created := if name in v then v[name].created else now;
        Ok(v[name := Secret(kind, value, attrs, created, now)])
    case Remove(name) =>
      if !ValidText(name) then Err(Invalid)
      else if name !in v then Err(NotFound)
      else Ok(v - {name})
  }

  datatype Filter = Filter(kind: bytes, prefix: bytes, attributes: map<bytes, bytes>)

  predicate HasAttributes(s: Secret, want: map<bytes, bytes>) {
    forall k :: k in want ==> k in s.attributes && s.attributes[k] == want[k]
  }

  /** Filter.matches. */
  predicate Matches(f: Filter, name: bytes, s: Secret) {
    && (f.kind != [] ==> s.kind == f.kind)
    && f.prefix <= name
    && HasAttributes(s, f.attributes)
  }

  /** What a request to read asks for. */
  datatype Query = One(name: bytes) | Many(filter: Filter)

  datatype Answer = Found(secret: Secret) | Listing(found: Vault)

  function Matching(f: Filter, v: Vault): Vault {
    map n | n in v && Matches(f, n, v[n]) :: v[n].(value := [])
  }

  predicate ValidQuery(q: Query) {
    match q
    case One(name) => ValidText(name)
    case Many(f) => (f.kind == [] || IsSlug(f.kind)) && ValidAttributes(f.attributes)
  }

  /** What Get and List answer from a decrypted vault. */
  function Ask(q: Query, v: Vault): Result<Answer, Error> {
    if !ValidQuery(q) then Err(Invalid)
    else
      match q
      case One(name) => if name in v then Ok(Found(v[name])) else Err(NotFound)
      case Many(f) => Ok(Listing(Matching(f, v)))
  }

  /** What a list request finds: the secrets whose names start with the prefix,
      of the kind and with the attributes that the filter sets, without their
      values. */
  lemma MatchingMeans(f: Filter, v: Vault, n: bytes)
    ensures n in Matching(f, v) <==>
            && n in v
            && (exists rest :: n == f.prefix + rest)
            && (f.kind == [] || f.kind == v[n].kind)
            && (forall k, x :: (k, x) in f.attributes.Items ==> (k, x) in v[n].attributes.Items)
    ensures n in Matching(f, v) ==> Matching(f, v)[n] == v[n].(value := [])
  {
    if f.prefix <= n {
      assert n == f.prefix + n[|f.prefix|..];
    }
    if n in v && (forall k, x :: (k, x) in f.attributes.Items ==> (k, x) in v[n].attributes.Items) {
      forall k | k in f.attributes ensures k in v[n].attributes && v[n].attributes[k] == f.attributes[k] {
        assert (k, f.attributes[k]) in f.attributes.Items;
      }
    }
  }

  /** Writing refines a plain map: a rejected change has no result, an
      accepted one changes exactly its own name, an upsert keeps the creation
      time, and a vault of valid secrets stays one. */
  lemma ModifyRefinesMap(c: Change, v: Vault, now: int)
    requires AllValid(v)
    ensures Modify(c, v, now).Ok? <==>
            match c
            case Put(n, k, a, x) => ValidSecret(n, k, a, x)
            case Remove(n) => n in v
    ensures Modify(c, v, now).Err? ==>
              Modify(c, v, now).error == if c.Remove? && ValidText(c.name) then NotFound else Invalid
    ensures Modify(c, v, now).Ok? ==>
              var w := Modify(c, v, now).value;
              && AllValid(w)
              && (forall n :: n != c.name ==> (n in w <==> n in v) && (n in v ==> w[n] == v[n]))
              && (c.Remove? ==> c.name !in w)
              && (c.Put? ==>
                    var created := if c.name in v then v[c.name].created else now;
                    Ask(One(c.name), w) == Ok(Found(Secret(c.kind, c.value, c.attributes, created, now))))
  {
    if c.Remove? && c.name in v {
      assert ValidSecret(c.name, v[c.name].kind, v[c.name].attributes, v[c.name].value);
    }
  }
}
