/// The query component as URLSearchParams holds it: an ordered list of
/// name/value pairs, the edits a batched update makes to it, the key sort
/// applied before navigating, and its application/x-www-form-urlencoded
/// text, which becomes the navigation target.
module SearchQuery {
  import opened JsValues

  type Query = seq<(string, string)>

  // ---------------------------------------------------------------------
  // Reading and editing (URLSearchParams get / set / delete)
  // ---------------------------------------------------------------------

  /** The pairs named `n`, in their order. */
  function Entries(q: Query, n: string): (r: Query)
    ensures forall i :: 0 <= i < |r| ==> r[i].0 == n
  {
    if q == [] then []
    else if q[0].0 == n then [q[0]] + Entries(q[1..], n)
    else Entries(q[1..], n)
  }

  /** `query.get(n)`: the first value for `n`, or null. */
  function Get(q: Query, n: string): Option<string> {
    if q == [] then None
    else if q[0].0 == n then Some(q[0].1)
    else Get(q[1..], n)
  }

  /** `query.delete(n)`: drops every pair named `n`. */
  function Delete(q: Query, n: string): Query {
    if q == [] then []
    else if q[0].0 == n then Delete(q[1..], n)
    else [q[0]] + Delete(q[1..], n)
  }

  /**
   * `query.set(n, v)`: the first pair named `n` takes value `v` in place
   * and the others are dropped; without one, the pair is appended.
   */
  function Set(q: Query, n: string, v: string): Query {
    if q == [] then [(n, v)]
    else if q[0].0 == n then [(n, v)] + Delete(q[1..], n)
    else [q[0]] + Set(q[1..], n, v)
  }

  /** `get` reads the first of a name's entries. */
  lemma {:induction false} GetIsFirstEntry(q: Query, n: string)
    ensures Get(q, n) == if Entries(q, n) == [] then None else Some(Entries(q, n)[0].1)
  {
    if q != [] && q[0].0 != n {
      GetIsFirstEntry(q[1..], n);
    }
  }

  /** After `delete(n)` no pair is named `n`, and the pairs of every other name are as they were. */
  lemma {:induction false} DeleteEffect(q: Query, n: string)
    ensures Entries(Delete(q, n), n) == []
    ensures forall m :: m != n ==> Entries(Delete(q, n), m) == Entries(q, m)
  {
    if q != [] {
      DeleteEffect(q[1..], n);
    }
  }

  /** Deleting two names gives the same list in either order; deleting twice is deleting once. */
  lemma {:induction false} DeleteCommutes(q: Query, n: string, m: string)
    ensures Delete(Delete(q, n), m) == Delete(Delete(q, m), n)
    ensures Delete(Delete(q, n), n) == Delete(q, n)
  {
    if q != [] {
      DeleteCommutes(q[1..], n, m);
    }
  }

  /**
   * After `set(n, v)` the name `n` has exactly the one entry `v`, and
   * removing `n` from the result gives what removing it from the input
   * gives: no other pair is touched or reordered.
   */
  lemma {:induction false} SetEffect(q: Query, n: string, v: string)
    ensures Entries(Set(q, n, v), n) == [(n, v)]
    ensures Delete(Set(q, n, v), n) == Delete(q, n)
  {
    if q != [] {
      if q[0].0 == n {
        DeleteEffect(q[1..], n);
        DeleteCommutes(q[1..], n, n);
      } else {
        SetEffect(q[1..], n, v);
      }
    }
  }

  /** Setting the same pair again changes nothing. */
  lemma {:induction false} SetIdempotent(q: Query, n: string, v: string)
    ensures Set(Set(q, n, v), n, v) == Set(q, n, v)
  {
    if q != [] {
      if q[0].0 == n {
        DeleteCommutes(q[1..], n, n);
      } else {
        SetIdempotent(q[1..], n, v);
      }
    }
  }

  // ---------------------------------------------------------------------
  // Sorting by name in UTF-16 code-unit order (URLSearchParams sort)
  // ---------------------------------------------------------------------

  /**
   * Where a character's first UTF-16 code unit puts it: below the
   * surrogate range it is the code point; characters outside the Basic
   * Multilingual Plane (lead surrogate 0xD800-0xDBFF) come next; the
   * characters from 0xE000 to 0xFFFF sort last.
   */
  function Rank(c: char): int {
    var x := c as int;
    if x < 0xD800 || x >= 0x1_0000 then x else x + 0x11_0000
  }

  lemma RankInjective(a: char, b: char)
    ensures Rank(a) == Rank(b) ==> a == b
  {
  }

  /** Name `a` sorts strictly before name `b` when both are compared as UTF-16 code units. */
  predicate CodeUnitLess(a: string, b: string)
    decreases |a|
  {
    if a == [] then b != []
    else if b == [] then false
    else if a[0] == b[0] then CodeUnitLess(a[1..], b[1..])
    else Rank(a[0]) < Rank(b[0])
  }

  lemma {:induction false} CodeUnitLessIrreflexive(a: string)
    ensures !CodeUnitLess(a, a)
    decreases |a|
  {
    if a != [] {
      CodeUnitLessIrreflexive(a[1..]);
    }
  }

  lemma {:induction false} CodeUnitLessTotal(a: string, b: string)
    ensures CodeUnitLess(a, b) || a == b || CodeUnitLess(b, a)
    decreases |a|
  {
    if a != [] && b != [] {
      if a[0] == b[0] {
        CodeUnitLessTotal(a[1..], b[1..]);
        if a[1..] == b[1..] {
          assert a == [a[0]] + a[1..] && b == [b[0]] + b[1..];
        }
      } else {
        RankInjective(a[0], b[0]);
      }
    }
  }

  lemma {:induction false} CodeUnitLessTransitive(a: string, b: string, c: string)
    requires CodeUnitLess(a, b) && CodeUnitLess(b, c)
    ensures CodeUnitLess(a, c)
    decreases |a|
  {
    if a != [] && a[0] == b[0] && b[0] == c[0] {
      CodeUnitLessTransitive(a[1..], b[1..], c[1..]);
    } else if a != [] {
      RankInjective(a[0], c[0]);
    }
  }

  /** Names never decrease from left to right. */
  predicate Sorted(q: Query) {
    forall i, j :: 0 <= i < j < |q| ==> !CodeUnitLess(q[j].0, q[i].0)
  }

  /** Places `p` in front of the first pair whose name is not below its own. */
  function Insert(p: (string, string), s: Query): Query {
    if s == [] then [p]
    else if !CodeUnitLess(s[0].0, p.0) then [p] + s
    else [s[0]] + Insert(p, s[1..])
  }

  /** `query.sort()`: a stable sort of the pairs by name. */
  function Sort(q: Query): Query {
    if q == [] then [] else Insert(q[0], Sort(q[1..]))
  }

  /** Inserting adds exactly the one pair. */
  lemma {:induction false} InsertPermutation(p: (string, string), s: Query)
    ensures multiset(Insert(p, s)) == multiset(s) + multiset{p}
  {
    if s != [] && CodeUnitLess(s[0].0, p.0) {
      InsertPermutation(p, s[1..]);
      assert s == [s[0]] + s[1..];
    }
  }

  /** The inserted pair goes in front of the pairs of its own name; no other name is touched. */
  lemma {:induction false} InsertEntries(p: (string, string), s: Query, n: string)
    ensures Entries(Insert(p, s), n) == if p.0 == n then [p] + Entries(s, n) else Entries(s, n)
  {
    var r := Insert(p, s);
    if s == [] {
      assert r[1..] == [];
    } else if !CodeUnitLess(s[0].0, p.0) {
      assert r[1..] == s;
    } else {
      InsertEntries(p, s[1..], n);
      CodeUnitLessIrreflexive(p.0);
      assert r[1..] == Insert(p, s[1..]);
    }
  }

  /** Inserting into a sorted query keeps it sorted. */
  lemma {:induction false} InsertSorted(p: (string, string), s: Query)
    requires Sorted(s)
    ensures Sorted(Insert(p, s))
  {
    if s == [] {
    } else if !CodeUnitLess(s[0].0, p.0) {
      forall j | 0 <= j < |s| ensures !CodeUnitLess(s[j].0, p.0) {
        if j > 0 && CodeUnitLess(s[j].0, p.0) {
          CodeUnitLessTotal(s[0].0, p.0);
          if s[0].0 != p.0 {
            CodeUnitLessTransitive(s[j].0, p.0, s[0].0);
          }
        }
      }
      PrependSorted(p, s);
    } else {
      assert Sorted(s[1..]) by {
        forall i, j | 0 <= i < j < |s[1..]| ensures !CodeUnitLess(s[1..][j].0, s[1..][i].0) {
          assert s[1..][j] == s[j + 1] && s[1..][i] == s[i + 1];
        }
      }
      InsertSorted(p, s[1..]);
      InsertNotBelowHead(p, s);
      PrependSorted(s[0], Insert(p, s[1..]));
    }
  }

  /** A pair whose name is not above the first name of a sorted query can go in front. */
  lemma PrependSorted(p: (string, string), s: Query)
    requires Sorted(s)
    requires forall j :: 0 <= j < |s| ==> !CodeUnitLess(s[j].0, p.0)
    ensures Sorted([p] + s)
  {
    var r := [p] + s;
    forall i, j | 0 <= i < j < |r|
      ensures !CodeUnitLess(r[j].0, r[i].0)
    {
      if i == 0 {
        assert r[j] == s[j - 1];
      } else {
        assert r[j] == s[j - 1] && r[i] == s[i - 1];
      }
    }
  }

  /**
   * When the head of a sorted query sorts before the inserted pair, nothing
   * in the rest after insertion sorts before that head.
   */
  lemma InsertNotBelowHead(p: (string, string), s: Query)
    requires Sorted(s) && s != [] && CodeUnitLess(s[0].0, p.0)
    ensures forall j :: 0 <= j < |Insert(p, s[1..])| ==> !CodeUnitLess(Insert(p, s[1..])[j].0, s[0].0)
  {
    var tail := Insert(p, s[1..]);
    InsertPermutation(p, s[1..]);
    forall j | 0 <= j < |tail|
      ensures !CodeUnitLess(tail[j].0, s[0].0)
    {
      assert tail[j] in multiset(tail);
      if tail[j] == p {
        if CodeUnitLess(p.0, s[0].0) {
          CodeUnitLessTransitive(p.0, s[0].0, p.0);
          CodeUnitLessIrreflexive(p.0);
        }
      } else {
        assert tail[j] in multiset(s[1..]);
        var k :| 0 <= k < |s[1..]| && s[1..][k] == tail[j];
        assert s[k + 1] == tail[j];
      }
    }
  }

  /**
   * The sort puts names in code-unit order, keeps every pair, and is
   * stable: the pairs of each name keep their relative order.
   */
  lemma {:induction false} SortSpec(q: Query)
    ensures Sorted(Sort(q))
    ensures multiset(Sort(q)) == multiset(q)
    ensures forall n :: Entries(Sort(q), n) == Entries(q, n)
  {
    if q != [] {
      SortSpec(q[1..]);
      InsertSorted(q[0], Sort(q[1..]));
      InsertPermutation(q[0], Sort(q[1..]));
      forall n {
        InsertEntries(q[0], Sort(q[1..]), n);
      }
      assert q == [q[0]] + q[1..];
    }
  }

  // ---------------------------------------------------------------------
  // The application/x-www-form-urlencoded text (URLSearchParams toString)
  // ---------------------------------------------------------------------

  /** ASCII alphanumerics and `*-._`: the characters written as themselves. */
  predicate IsUnreserved(c: char) {
    ('a' <= c <= 'z') || ('A' <= c <= 'Z') || ('0' <= c <= '9') || c == '*' || c == '-' || c == '.' || c == '_'
  }

  /** The UTF-8 bytes of a character. */
  function Utf8(c: char): (r: seq<nat>)
    ensures 1 <= |r| <= 4 && forall i :: 0 <= i < |r| ==> r[i] < 256
  {
    var x := c as int;
    if x < 0x80 then [x]
    else if x < 0x800 then [0xC0 + x / 64, 0x80 + x % 64]
    else if x < 0x1_0000 then [0xE0 + x / 64 / 64, 0x80 + x / 64 % 64, 0x80 + x % 64]
    else [0xF0 + x / 64 / 64 / 64, 0x80 + x / 64 / 64 % 64, 0x80 + x / 64 % 64, 0x80 + x % 64]
  }

  function HexChar(d: nat): char
    requires d < 16
  {
    if d < 10 then (48 + d) as char else (55 + d) as char
  }

  /** The value of an upper-case hexadecimal digit. */
  function HexValue(c: char): Option<nat> {
    if '0' <= c <= '9' then Some(c as int - 48)
    else if 'A' <= c <= 'F' then Some(c as int - 55)
    else None
  }

  /** `%XX` for each byte, with upper-case hex digits. */
  function PercentEncode(bytes: seq<nat>): (r: string)
    requires forall i :: 0 <= i < |bytes| ==> bytes[i] < 256
    ensures |r| == 3 * |bytes|
  {
    if bytes == [] then []
    else ['%', HexChar(bytes[0] / 16), HexChar(bytes[0] % 16)] + PercentEncode(bytes[1..])
  }

  /** One character as the form encoding writes it. */
  function EncodeChar(c: char): string {
    if IsUnreserved(c) then [c]
    else if c == ' ' then "+"
    else PercentEncode(Utf8(c))
  }

  /** The characters the encoding writes: never `&`, `=` or `#`. */
  predicate IsEncodedChar(c: char) {
    IsUnreserved(c) || c == '+' || c == '%'
  }

  /** A name or value in the form encoding. */
  function FormEncode(s: string): (r: string)
    ensures forall i :: 0 <= i < |r| ==> IsEncodedChar(r[i])
  {
    if s == [] then []
    else
      var head := EncodeChar(s[0]);
      assert forall i :: 0 <= i < |head| ==> IsEncodedChar(head[i]) by {
        if !IsUnreserved(s[0]) && s[0] != ' ' {
          PercentEncodeChars(Utf8(s[0]));
        }
      }
      head + FormEncode(s[1..])
  }

  lemma {:induction false} PercentEncodeChars(bytes: seq<nat>)
    requires forall i :: 0 <= i < |bytes| ==> bytes[i] < 256
    ensures forall i :: 0 <= i < |PercentEncode(bytes)| ==> IsEncodedChar(PercentEncode(bytes)[i])
    ensures bytes != [] ==> PercentEncode(bytes)[0] == '%'
  {
    if bytes != [] {
      PercentEncodeChars(bytes[1..]);
    }
  }

  function EncodePair(p: (string, string)): string {
    FormEncode(p.0) + "=" + FormEncode(p.1)
  }

  /** `${query}`: the pairs joined by `&`. */
  function Serialize(q: Query): string {
    if q == [] then ""
    else if |q| == 1 then EncodePair(q[0])
    else EncodePair(q[0]) + "&" + Serialize(q[1..])
  }

  /** The serialized text holds only encoded characters, `&` and `=`: in particular never `#` or `?`. */
  lemma {:induction false} SerializeAlphabet(q: Query)
    ensures forall j :: 0 <= j < |Serialize(q)| ==> InSerializedAlphabet(Serialize(q)[j])
  {
    if q != [] {
      PairAlphabet(q[0]);
      if |q| > 1 {
        SerializeAlphabet(q[1..]);
        JoinAlphabet(EncodePair(q[0]), Serialize(q[1..]));
      }
    }
  }

  predicate InSerializedAlphabet(c: char) {
    IsEncodedChar(c) || c == '&' || c == '='
  }

  lemma PairAlphabet(p: (string, string))
    ensures forall j :: 0 <= j < |EncodePair(p)| ==> InSerializedAlphabet(EncodePair(p)[j])
  {
    var a, b := FormEncode(p.0), FormEncode(p.1);
    var e := EncodePair(p);
    forall j | 0 <= j < |e| ensures InSerializedAlphabet(e[j]) {
      if j < |a| { assert e[j] == a[j]; }
      else if j > |a| { assert e[j] == b[j - |a| - 1]; }
    }
  }

  lemma JoinAlphabet(e: string, t: string)
    requires forall j :: 0 <= j < |e| ==> InSerializedAlphabet(e[j])
    requires forall j :: 0 <= j < |t| ==> InSerializedAlphabet(t[j])
    ensures forall j :: 0 <= j < |e + "&" + t| ==> InSerializedAlphabet((e + "&" + t)[j])
  {
    var r := e + "&" + t;
    forall j | 0 <= j < |r| ensures InSerializedAlphabet(r[j]) {
      if j < |e| { assert r[j] == e[j]; }
      else if j > |e| { assert r[j] == t[j - |e| - 1]; }
    }
  }

  // ---------------------------------------------------------------------
  // The inverse of the encoding, to show the target text loses nothing
  // ---------------------------------------------------------------------

  /** The byte `%XX` denotes at position `i`. */
  function ByteAt(t: string, i: nat): Option<nat> {
    if i + 3 <= |t| && t[i] == '%' && HexValue(t[i + 1]).Some? && HexValue(t[i + 2]).Some? then
      Some(16 * HexValue(t[i + 1]).value + HexValue(t[i + 2]).value)
    else None
  }

  predicate IsContinuation(b: Option<nat>) {
    b.Some? && 0x80 <= b.value < 0xC0
  }

  /** The character that a run of percent-encoded UTF-8 bytes at the front of `t` spells, and the text it takes. */
  function DecodePercent(t: string): Option<(char, nat)> {
    var b0 := ByteAt(t, 0);
    if b0.None? then None
    else
      var lead := b0.value;
      var cp: Option<(int, nat)> :=
        if lead < 0x80 then Some((lead, 3))
        else if 0xC0 <= lead < 0xE0 && IsContinuation(ByteAt(t, 3)) then
          Some(((lead - 0xC0) * 64 + (ByteAt(t, 3).value - 0x80), 6))
        else if 0xE0 <= lead < 0xF0 && IsContinuation(ByteAt(t, 3)) && IsContinuation(ByteAt(t, 6)) then
          Some((((lead - 0xE0) * 64 + (ByteAt(t, 3).value - 0x80)) * 64 + (ByteAt(t, 6).value - 0x80), 9))
        else if 0xF0 <= lead < 0xF8 && IsContinuation(ByteAt(t, 3)) && IsContinuation(ByteAt(t, 6))
          && IsContinuation(ByteAt(t, 9)) then
          Some(((((lead - 0xF0) * 64 + (ByteAt(t, 3).value - 0x80)) * 64 + (ByteAt(t, 6).value - 0x80)) * 64
            + (ByteAt(t, 9).value - 0x80), 12))
        else None;
      if cp.None? then None
      else
        var x := cp.value.0;
        if (0 <= x < 0xD800 || 0xE000 <= x < 0x11_0000) && cp.value.1 <= |t| then Some((x as char, cp.value.1))
        else None
  }

  /** Reads a form-encoded name or value back; None for text the encoding never writes. */
  function FormDecode(t: string): Option<string>
    decreases |t|
  {
    if t == [] then Some([])
    else
      var step: Option<(char, nat)> :=
        if IsUnreserved(t[0]) then Some((t[0], 1))
        else if t[0] == '+' then Some((' ', 1))
        else if t[0] == '%' then DecodePercent(t)
        else None;
      if step.None? || step.value.1 == 0 || step.value.1 > |t| then None
      else match FormDecode(t[step.value.1..])
        case None => None
        case Some(rest) => Some([step.value.0] + rest)
  }

  /** Position of the first `c` in `t`. */
  function IndexOf(t: string, c: char): (r: Option<nat>)
    ensures r.Some? ==> r.value < |t| && t[r.value] == c && forall j :: 0 <= j < r.value ==> t[j] != c
    ensures r.None? ==> forall j :: 0 <= j < |t| ==> t[j] != c
  {
    if t == [] then None
    else if t[0] == c then Some(0)
    else match IndexOf(t[1..], c)
      case None => None
      case Some(i) => Some(i + 1)
  }

  function ParsePair(t: string): Option<(string, string)> {
    match IndexOf(t, '=')
    case None => None
    case Some(i) =>
      var n, v := FormDecode(t[..i]), FormDecode(t[i + 1..]);
      if n.Some? && v.Some? then Some((n.value, v.value)) else None
  }

  function ParsePairs(t: string): Option<Query>
    decreases |t|
  {
    match IndexOf(t, '&')
    case None => (match ParsePair(t) case None => None case Some(p) => Some([p]))
    case Some(i) =>
      match ParsePair(t[..i])
      case None => None
      case Some(p) =>
        match ParsePairs(t[i + 1..])
        case None => None
        case Some(rest) => Some([p] + rest)
  }

  /** Reads serialized query text back into pairs. */
  function ParseQuery(t: string): Option<Query> {
    if t == [] then Some([]) else ParsePairs(t)
  }

  // ---- round trip ----

  lemma HexRoundTrip(d: nat)
    requires d < 16
    ensures HexValue(HexChar(d)) == Some(d)
  {
  }

  lemma {:induction false} PercentPrefix(bytes: seq<nat>, rest: string, k: nat)
    requires forall i :: 0 <= i < |bytes| ==> bytes[i] < 256
    requires k < |bytes|
    ensures ByteAt(PercentEncode(bytes) + rest, 3 * k) == Some(bytes[k])
  {
    var e := PercentEncode(bytes);
    var t := e + rest;
    PercentEncodeAt(bytes, k);
    HexRoundTrip(bytes[k] / 16);
    HexRoundTrip(bytes[k] % 16);
    assert t[3 * k] == e[3 * k] && t[3 * k + 1] == e[3 * k + 1] && t[3 * k + 2] == e[3 * k + 2];
  }

  /** The `k`-th byte is written as `%` and its two hex digits at position `3 * k`. */
  lemma {:induction false} PercentEncodeAt(bytes: seq<nat>, k: nat)
    requires forall i :: 0 <= i < |bytes| ==> bytes[i] < 256
    requires k < |bytes|
    ensures PercentEncode(bytes)[3 * k] == '%'
    ensures PercentEncode(bytes)[3 * k + 1] == HexChar(bytes[k] / 16)
    ensures PercentEncode(bytes)[3 * k + 2] == HexChar(bytes[k] % 16)
  {
    if k > 0 {
      var tail := bytes[1..];
      PercentEncodeAt(tail, k - 1);
      var e, e' := PercentEncode(bytes), PercentEncode(tail);
      assert e == ['%', HexChar(bytes[0] / 16), HexChar(bytes[0] % 16)] + e';
      assert tail[k - 1] == bytes[k];
      assert e[3 * k] == e'[3 * (k - 1)];
      assert e[3 * k + 1] == e'[3 * (k - 1) + 1];
      assert e[3 * k + 2] == e'[3 * (k - 1) + 2];
    }
  }

  /** The percent-encoded UTF-8 of a character decodes to that character. */
  lemma DecodePercentOfChar(c: char, rest: string)
    ensures DecodePercent(PercentEncode(Utf8(c)) + rest) == Some((c, 3 * |Utf8(c)|))
  {
    var x := c as int;
    if x < 0x80 {
      PercentPrefix(Utf8(c), rest, 0);
      DecodeOneByte(PercentEncode(Utf8(c)) + rest, x);
    } else if x < 0x800 {
      EncodedTwoBytes(c, rest);
    } else if x < 0x1_0000 {
      EncodedThreeBytes(c, rest);
    } else {
      EncodedFourBytes(c, rest);
    }
  }

  lemma EncodedTwoBytes(c: char, rest: string)
    requires 0x80 <= c as int < 0x800
    ensures DecodePercent(PercentEncode(Utf8(c)) + rest) == Some((c, 6))
  {
    var x := c as int;
    var bytes := Utf8(c);
    assert bytes == [0xC0 + x / 64, 0x80 + x % 64];
    PercentPrefix(bytes, rest, 0);
    PercentPrefix(bytes, rest, 1);
    DecodeTwoBytes(PercentEncode(bytes) + rest, x);
  }

  lemma EncodedThreeBytes(c: char, rest: string)
    requires 0x800 <= c as int < 0x1_0000
    ensures DecodePercent(PercentEncode(Utf8(c)) + rest) == Some((c, 9))
  {
    var x := c as int;
    var bytes := Utf8(c);
    assert bytes == [0xE0 + x / 64 / 64, 0x80 + x / 64 % 64, 0x80 + x % 64];
    PercentPrefix(bytes, rest, 0);
    PercentPrefix(bytes, rest, 1);
    PercentPrefix(bytes, rest, 2);
    DecodeThreeBytes(PercentEncode(bytes) + rest, x);
  }

  lemma EncodedFourBytes(c: char, rest: string)
    requires 0x1_0000 <= c as int
    ensures DecodePercent(PercentEncode(Utf8(c)) + rest) == Some((c, 12))
  {
    var x := c as int;
    var bytes := Utf8(c);
    assert bytes == [0xF0 + x / 64 / 64 / 64, 0x80 + x / 64 / 64 % 64, 0x80 + x / 64 % 64, 0x80 + x % 64];
    PercentPrefix(bytes, rest, 0);
    PercentPrefix(bytes, rest, 1);
    PercentPrefix(bytes, rest, 2);
    PercentPrefix(bytes, rest, 3);
    DecodeFourBytes(PercentEncode(bytes) + rest, x);
  }

  lemma DecodeOneByte(t: string, x: int)
    requires 0 <= x < 0x80 && 3 <= |t|
    requires ByteAt(t, 0) == Some(x)
    ensures DecodePercent(t) == Some((x as char, 3))
  {
  }

  lemma DecodeTwoBytes(t: string, x: int)
    requires 0x80 <= x < 0x800 && 6 <= |t|
    requires ByteAt(t, 0) == Some(0xC0 + x / 64) && ByteAt(t, 3) == Some(0x80 + x % 64)
    ensures DecodePercent(t) == Some((x as char, 6))
  {
  }

  lemma DecodeThreeBytes(t: string, x: int)
    requires 0x800 <= x < 0xD800 || 0xE000 <= x < 0x1_0000
    requires 9 <= |t|
    requires ByteAt(t, 0) == Some(0xE0 + x / 64 / 64)
    requires ByteAt(t, 3) == Some(0x80 + x / 64 % 64) && ByteAt(t, 6) == Some(0x80 + x % 64)
    ensures DecodePercent(t) == Some((x as char, 9))
  {
    assert ((x / 64 / 64) * 64 + x / 64 % 64) * 64 + x % 64 == x;
  }

  lemma DecodeFourBytes(t: string, x: int)
    requires 0x1_0000 <= x < 0x11_0000 && 12 <= |t|
    requires ByteAt(t, 0) == Some(0xF0 + x / 64 / 64 / 64)
    requires ByteAt(t, 3) == Some(0x80 + x / 64 / 64 % 64)
    requires ByteAt(t, 6) == Some(0x80 + x / 64 % 64) && ByteAt(t, 9) == Some(0x80 + x % 64)
    ensures DecodePercent(t) == Some((x as char, 12))
  {
    assert x / 64 / 64 / 64 < 8;
    assert (((x / 64 / 64 / 64) * 64 + x / 64 / 64 % 64) * 64 + x / 64 % 64) * 64 + x % 64 == x;
  }

  /** Each encoded character decodes back, so the rest of the text decodes as before. */
  lemma DecodeStep(c: char, rest: string)
    ensures FormDecode(EncodeChar(c) + rest) ==
      match FormDecode(rest) case None => None case Some(r) => Some([c] + r)
  {
    var e := EncodeChar(c);
    var t := e + rest;
    if IsUnreserved(c) || c == ' ' {
      assert t[1..] == rest;
    } else {
      DecodePercentOfChar(c, rest);
      PercentEncodeChars(Utf8(c));
      assert t[0] == '%';
      assert t[|e|..] == rest;
    }
  }

  /** Decoding undoes the form encoding. */
  lemma {:induction false} FormRoundTrip(s: string)
    ensures FormDecode(FormEncode(s)) == Some(s)
  {
    if s != [] {
      FormRoundTrip(s[1..]);
      DecodeStep(s[0], FormEncode(s[1..]));
      assert [s[0]] + s[1..] == s;
    }
  }

  /** The first `c` in `a + b` is the head of `b` when `a` holds none. */
  lemma IndexOfAfter(a: string, b: string, c: char)
    requires forall j :: 0 <= j < |a| ==> a[j] != c
    requires b != [] && b[0] == c
    ensures IndexOf(a + b, c) == Some(|a|)
  {
    assert (a + b)[|a|] == c;
    assert forall j :: 0 <= j < |a| ==> (a + b)[j] == a[j];
  }

  /** An encoded pair holds no `&`. */
  lemma PairHasNoAmpersand(p: (string, string))
    ensures IndexOf(EncodePair(p), '&').None?
    ensures |EncodePair(p)| > 0
  {
    var a, b := FormEncode(p.0), FormEncode(p.1);
    var t := EncodePair(p);
    assert t == a + ("=" + b);
    forall j | 0 <= j < |t|
      ensures t[j] != '&'
    {
      if j < |a| {
        assert t[j] == a[j];
      } else if j > |a| {
        assert t[j] == b[j - |a| - 1];
      }
    }
  }

  lemma PairRoundTrip(p: (string, string))
    ensures ParsePair(EncodePair(p)) == Some(p)
  {
    var a, b := FormEncode(p.0), FormEncode(p.1);
    ConcatAssociative(a, "=", b);
    IndexOfAfter(a, "=" + b, '=');
    AroundSeparator(a, '=', b);
    FormRoundTrip(p.0);
    FormRoundTrip(p.1);
  }

  /** The text on either side of a one-character separator. */
  lemma AroundSeparator(a: string, c: char, b: string)
    ensures (a + ([c] + b))[..|a|] == a
    ensures (a + ([c] + b))[|a| + 1..] == b
  {
  }

  /** A pair followed by `&` and more text parses as that pair, then the rest. */
  lemma ParsePairsCons(e: string, tail: string, p: (string, string))
    requires IndexOf(e, '&').None? && ParsePair(e) == Some(p)
    requires tail != []
    ensures ParsePairs(e + ("&" + tail)) ==
      match ParsePairs(tail) case None => None case Some(r) => Some([p] + r)
  {
    var t := e + ("&" + tail);
    IndexOfAfter(e, "&" + tail, '&');
    var i := |e|;
    assert t[..i] == e;
    assert t[i + 1..] == tail;
    assert ParsePairs(t) == match ParsePair(t[..i])
      case None => None
      case Some(p') =>
        match ParsePairs(t[i + 1..])
        case None => None
        case Some(rest) => Some([p'] + rest);
  }

  /** Parsing the serialized text gives back every pair, in order: the target keeps the whole query. */
  lemma SerializeRoundTrip(q: Query)
    ensures ParseQuery(Serialize(q)) == Some(q)
  {
    if q != [] {
      SerializeNonEmpty(q);
      ParseSerialized(q);
    }
  }

  lemma {:induction false} ParseSerialized(q: Query)
    requires q != []
    ensures ParsePairs(Serialize(q)) == Some(q)
  {
    if |q| == 1 {
      ParseOnePair(q[0]);
      assert Serialize(q) == EncodePair(q[0]);
      assert q == [q[0]];
    } else {
      ParseSerialized(q[1..]);
      SerializeNonEmpty(q[1..]);
      ParsePairThenRest(q[0], Serialize(q[1..]), q[1..]);
      assert [q[0]] + q[1..] == q;
    }
  }

  lemma ParseOnePair(p: (string, string))
    ensures ParsePairs(EncodePair(p)) == Some([p])
  {
    PairRoundTrip(p);
    PairHasNoAmpersand(p);
  }

  lemma ParsePairThenRest(p: (string, string), tail: string, rest: Query)
    requires tail != [] && ParsePairs(tail) == Some(rest)
    ensures ParsePairs(EncodePair(p) + "&" + tail) == Some([p] + rest)
  {
    PairRoundTrip(p);
    PairHasNoAmpersand(p);
    ParsePairsCons(EncodePair(p), tail, p);
    ConcatAssociative(EncodePair(p), "&", tail);
  }

  lemma ConcatAssociative(a: string, b: string, c: string)
    ensures a + b + c == a + (b + c)
  {
  }

  lemma SerializeNonEmpty(q: Query)
    requires q != []
    ensures Serialize(q) != []
  {
    PairHasNoAmpersand(q[0]);
  }
}
