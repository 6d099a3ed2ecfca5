/** Bytes, byte strings, the order on them and the sorting of names. A Go
    string and a Go byte slice are both a `bytes` value here. */
module Bytes {

  type byte = b: int | 0 <= b < 256

  type bytes = seq<byte>

  datatype Option<+T> = None | Some(value: T)

  datatype Result<+T, +E> = Ok(value: T) | Err(error: E)

  const LF: byte := 0x0A
  const SPACE: byte := 0x20
  const SLASH: byte := 0x2F
  const EQUALS: byte := 0x3D

  /** The first position of c in s, or |s| when there is none. */
  function IndexOf(s: bytes, c: byte): (i: nat)
    ensures i <= |s|
    ensures forall j :: 0 <= j < i ==> s[j] != c
    ensures i < |s| ==> s[i] == c
  {
    if s == [] || s[0] == c then 0 else 1 + IndexOf(s[1..], c)
  }

  lemma Associate(a: bytes, b: bytes, c: bytes)
    ensures a + (b + c) == (a + b) + c
  {
  }

  /** Go's order on strings: bytewise lexicographic. */
  predicate Less(a: bytes, b: bytes) {
    b != [] && (a == [] || a[0] < b[0] || (a[0] == b[0] && Less(a[1..], b[1..])))
  }

  /** One string comes before another if it is the beginning of it, or has the
      smaller byte where they first differ. */
  lemma {:induction false} LessMeans(a: bytes, b: bytes)
    ensures Less(a, b) <==>
            exists k :: 0 <= k <= |a| && k < |b| && a[..k] == b[..k] && (k == |a| || a[k] < b[k])
    decreases |a|
  {
    if a != [] && b != [] && a[0] == b[0] {
      var s, t := a[1..], b[1..];
      LessMeans(s, t);
      if Less(s, t) {
        var k :| 0 <= k <= |s| && k < |t| && s[..k] == t[..k] && (k == |s| || s[k] < t[k]);
        assert a[..k + 1] == [a[0]] + s[..k] && b[..k + 1] == [b[0]] + t[..k];
      }
      if k :| 0 <= k <= |a| && k < |b| && a[..k] == b[..k] && (k == |a| || a[k] < b[k]) {
        assert k > 0 && s[..k - 1] == a[..k][1..] && t[..k - 1] == b[..k][1..];
      }
    } else if a != [] && b != [] {
      if a[0] < b[0] {
        assert a[..0] == b[..0];
      }
      forall k | 0 < k <= |a| && k < |b| ensures a[..k] != b[..k] {
        assert a[..k][0] == a[0] && b[..k][0] == b[0];
      }
    } else if b != [] {
      assert a[..0] == b[..0];
    }
  }

  /** The bytes of a text of ASCII characters. */
  function Ascii(s: string): bytes
    requires forall i :: 0 <= i < |s| ==> s[i] as int < 128
  {
    seq(|s|, i requires 0 <= i < |s| => s[i] as int)
  }

  lemma LessTransitive(a: bytes, b: bytes, c: bytes)
    requires Less(a, b) && Less(b, c)
    ensures Less(a, c)
  {
  }

  lemma LessTotal(a: bytes, b: bytes)
    ensures Less(a, b) || a == b || Less(b, a)
    ensures !(Less(a, b) && Less(b, a))
    ensures !Less(a, a)
  {
    if a != [] && b != [] && a[0] == b[0] {
      LessTotal(a[1..], b[1..]);
      assert a == [a[0]] + a[1..] && b == [b[0]] + b[1..];
    }
    if a != [] {
      LessTotal(a[1..], a[1..]);
    }
  }

  predicate StrictlySorted(s: seq<bytes>) {
    forall i, j :: 0 <= i < j < |s| ==> Less(s[i], s[j])
  }

  /** s lists exactly the names in `names`, each once, in order: what a Go
      loop over a map followed by a sort leaves behind. */
  ghost predicate ListsSorted(s: seq<bytes>, names: set<bytes>) {
    && StrictlySorted(s)
    && (forall n :: n in s <==> n in names)
  }

  function Insert(n: bytes, s: seq<bytes>): (r: seq<bytes>) {
    if s == [] || Less(n, s[0]) then [n] + s
    else [s[0]] + Insert(n, s[1..])
  }

  /** sort.Strings. */
  function Sort(s: seq<bytes>): (r: seq<bytes>) {
    if s == [] then [] else Insert(s[0], Sort(s[1..]))
  }

  lemma {:induction false} InsertSorted(n: bytes, s: seq<bytes>, names: set<bytes>)
    requires ListsSorted(s, names)
    requires n !in names
    ensures ListsSorted(Insert(n, s), names + {n})
    decreases s
  {
    if s == [] {
    } else if Less(n, s[0]) {
      forall j | 0 <= j < |s| ensures Less(n, s[j]) {
        if j > 0 { LessTransitive(n, s[0], s[j]); }
      }
      assert forall x :: x in [n] + s <==> x == n || x in s;
    } else {
      LessTotal(n, s[0]);
      assert s[0] in names;
      var rest := names - {s[0]};
      forall x ensures x in s[1..] <==> x in rest {
        LessTotal(s[0], s[0]);
        if x in s[1..] {
          var i :| 0 <= i < |s[1..]| && s[1..][i] == x;
          assert s[i + 1] == x && Less(s[0], x);
        }
        assert s == [s[0]] + s[1..];
      }
      InsertSorted(n, s[1..], rest);
      var r := Insert(n, s[1..]);
      forall j | 0 <= j < |r| ensures Less(s[0], r[j]) {
        assert r[j] in r;
        assert r[j] == n || r[j] in s[1..];
        if r[j] != n {
          var i :| 0 <= i < |s[1..]| && s[1..][i] == r[j];
          assert s[i + 1] == r[j];
        }
      }
      assert forall x :: x in [s[0]] + r <==> x == s[0] || x in r;
    }
  }

  /** Sorting any duplicate-free enumeration of a set gives its sorted listing. */
  lemma {:induction false} SortSorts(s: seq<bytes>)
    requires forall i, j :: 0 <= i < j < |s| ==> s[i] != s[j]
    ensures ListsSorted(Sort(s), set n | n in s)
    decreases s
  {
    if s != [] {
      SortSorts(s[1..]);
      InsertSorted(s[0], Sort(s[1..]), set n | n in s[1..]);
      assert s == [s[0]] + s[1..];
      assert (set n | n in s[1..]) + {s[0]} == set n | n in s;
    }
  }

  /** There is only one sorted listing, so map iteration order never shows. */
  lemma {:induction false} SortedListingUnique(a: seq<bytes>, b: seq<bytes>, names: set<bytes>)
    requires ListsSorted(a, names) && ListsSorted(b, names)
    ensures a == b
    decreases a
  {
    assert b == [] || b[0] in names;
    if a != [] {
      assert a[0] in names && a[0] in b;
      assert b[0] in names && b[0] in a;
      var i :| 0 <= i < |b| && b[i] == a[0];
      var j :| 0 <= j < |a| && a[j] == b[0];
      LessTotal(a[0], b[0]);
      assert a[0] == b[0];
      var rest := names - {a[0]};
      TailLists(a, names);
      TailLists(b, names);
      SortedListingUnique(a[1..], b[1..], rest);
      assert a == [a[0]] + a[1..] && b == [b[0]] + b[1..];
    }
  }

  /** A sorted listing is as long as what it lists. */
  lemma {:induction false} SortedLength(a: seq<bytes>, names: set<bytes>)
    requires ListsSorted(a, names)
    ensures |a| == |names|
    decreases a
  {
    if a == [] {
      assert names == {};
    } else {
      assert a[0] in names;
      TailLists(a, names);
      SortedLength(a[1..], names - {a[0]});
    }
  }

  lemma TailLists(a: seq<bytes>, names: set<bytes>)
    requires ListsSorted(a, names) && a != []
    ensures ListsSorted(a[1..], names - {a[0]})
  {
    forall x ensures x in a[1..] <==> x in names - {a[0]} {
      LessTotal(a[0], a[0]);
      if x in a[1..] {
        var i :| 0 <= i < |a[1..]| && a[1..][i] == x;
        assert a[i + 1] == x && Less(a[0], x);
      }
      assert a == [a[0]] + a[1..];
    }
  }

  /** Walking a map's keys in any order and sorting them. */
  method SortedKeys<V>(m: map<bytes, V>) returns (names: seq<bytes>)
    ensures ListsSorted(names, m.Keys)
  {
    var todo := m.Keys;
    names := [];
    while todo != {}
      invariant todo <= m.Keys
      invariant forall i, j :: 0 <= i < j < |names| ==> names[i] != names[j]
      invariant forall n :: n in names <==> n in m && n !in todo
      decreases |todo|
    {
      var n :| n in todo;
      todo := todo - {n};
      names := names + [n];
    }
    SortSorts(names);
    assert (set n | n in names) == m.Keys;
    names := Sort(names);
  }
}
