/// Structured values as the query-string engine sees them: what a codec
/// decodes to, what an override holds, and what a nested write rebuilds.
/// Values are immutable here, so `structuredClone` and `$state.snapshot`
/// are the identity and "not mutating the original" holds by construction.
module JsValues {

  datatype Option<+T> = None | Some(value: T)

  /** The two exceptions the engine's own property writes can raise. */
  datatype JsError = TypeError | RangeError

  /** A completed step, or the exception it threw. */
  datatype Result<+T> = Ok(value: T) | Thrown(error: JsError)

  /**
   * An acyclic JSON-like JavaScript value. Numbers are integers; an object
   * keeps its properties in insertion order; an array hole reads as Undefined.
   */
  datatype Value =
    | Undefined
    | Null
    | Bool(b: bool)
    | Num(n: int)
    | Str(s: string)
    | Arr(elems: seq<Value>)
    | Obj(props: seq<(string, Value)>)

  /** `v == undefined` under JavaScript's loose equality. */
  predicate IsNullish(v: Value) {
    v.Undefined? || v.Null?
  }

  /** `typeof v === 'object'`, which holds for null as well. */
  predicate IsObjectTyped(v: Value) {
    v.Null? || v.Arr? || v.Obj?
  }

  /** `a ?? b` */
  function Coalesce(a: Value, b: Value): Value {
    if IsNullish(a) then b else a
  }

  // ---------------------------------------------------------------------
  // Decimal text of naturals (Number.prototype.toString, array indices)
  // ---------------------------------------------------------------------

  predicate IsDigit(c: char) {
    '0' <= c <= '9'
  }

  predicate AllDigits(s: string) {
    forall i :: 0 <= i < |s| ==> IsDigit(s[i])
  }

  function DigitChar(d: nat): char
    requires d < 10
  {
    (48 + d) as char
  }

  /** The shortest decimal text of `n`; it starts with '0' only for zero. */
  function NatToString(n: nat): (s: string)
    ensures |s| >= 1 && AllDigits(s)
    ensures (s[0] == '0') == (n == 0)
  {
    if n < 10 then [DigitChar(n)] else NatToString(n / 10) + [DigitChar(n % 10)]
  }

  /** The number a string of decimal digits denotes. */
  function DigitsValue(s: string): nat
    requires AllDigits(s)
  {
    if s == [] then 0 else 10 * DigitsValue(s[..|s| - 1]) + (s[|s| - 1] as int - 48)
  }

  /** Decimal text without a superfluous leading zero. */
  predicate IsCanonicalNat(s: string) {
    |s| >= 1 && AllDigits(s) && (|s| > 1 ==> s[0] != '0')
  }

  lemma {:induction false} DigitsOfNat(n: nat)
    ensures DigitsValue(NatToString(n)) == n
  {
    if n >= 10 {
      var s := NatToString(n);
      assert s[..|s| - 1] == NatToString(n / 10);
      DigitsOfNat(n / 10);
    }
  }

  lemma {:induction false} PositiveDigits(s: string)
    requires |s| >= 1 && AllDigits(s) && s[0] != '0'
    ensures DigitsValue(s) >= 1
  {
    if |s| > 1 {
      PositiveDigits(s[..|s| - 1]);
    }
  }

  lemma {:induction false} NatOfDigits(s: string)
    requires IsCanonicalNat(s)
    ensures NatToString(DigitsValue(s)) == s
  {
    if |s| > 1 {
      var init := s[..|s| - 1];
      assert IsCanonicalNat(init);
      PositiveDigits(init);
      NatOfDigits(init);
      assert s == init + [s[|s| - 1]];
    }
  }

  /** Number.prototype.toString on an integer. */
  function IntToString(i: int): string {
    if i < 0 then "-" + NatToString(-i) else NatToString(i)
  }

  // ---------------------------------------------------------------------
  // Array indices and lengths
  // ---------------------------------------------------------------------

  /** The largest array length, 2^32 - 1; indices lie strictly below it. */
  const MaxArrayLength: nat := 0xFFFF_FFFF

  /** The array index a property key denotes (a canonical numeric string below 2^32 - 1). */
  function ArrayIndex(key: string): (r: Option<nat>)
    ensures r.Some? ==> r.value < MaxArrayLength && NatToString(r.value) == key
  {
    if IsCanonicalNat(key) && DigitsValue(key) < MaxArrayLength then
      NatOfDigits(key);
      Some(DigitsValue(key))
    else
      None
  }

  /** Every index below 2^32 - 1 is recognised from its own decimal text. */
  lemma IndexOfNatString(n: nat)
    requires n < MaxArrayLength
    ensures ArrayIndex(NatToString(n)) == Some(n)
  {
    DigitsOfNat(n);
  }

  /** The new length `arr.length = x` asks for, or None where it throws a RangeError. */
  function ArrayLength(x: Value): Option<nat> {
    match x
    case Num(n) => if 0 <= n <= MaxArrayLength then Some(n) else None
    case Bool(b) => Some(if b then 1 else 0)
    case Null => Some(0)
    case _ => None
  }

  function Holes(n: nat): (r: seq<Value>)
    ensures |r| == n && forall i :: 0 <= i < n ==> r[i] == Undefined
  {
    seq(n, _ => Undefined)
  }

  /** Truncates, or extends with holes, to length `n`. */
  function Resize(es: seq<Value>, n: nat): (r: seq<Value>)
    ensures |r| == n
    ensures forall i :: 0 <= i < n ==> r[i] == if i < |es| then es[i] else Undefined
  {
    if n <= |es| then es[..n] else es + Holes(n - |es|)
  }

  // ---------------------------------------------------------------------
  // Property access
  // ---------------------------------------------------------------------

  /** Position of the property named `k`. */
  function PropIndex(ps: seq<(string, Value)>, k: string): (r: Option<nat>)
    ensures r.Some? ==> r.value < |ps| && ps[r.value].0 == k
    ensures r.Some? ==> forall j :: 0 <= j < r.value ==> ps[j].0 != k
    ensures r.None? ==> forall j :: 0 <= j < |ps| ==> ps[j].0 != k
  {
    if ps == [] then None
    else if ps[0].0 == k then Some(0)
    else match PropIndex(ps[1..], k)
      case None => None
      case Some(i) => Some(i + 1)
  }

  /** `o[k]` on a plain object: the property's value, or undefined. */
  function Lookup(ps: seq<(string, Value)>, k: string): Value {
    match PropIndex(ps, k)
    case Some(i) => ps[i].1
    case None => Undefined
  }

  /** `o[k] = x` on a plain object: overwrite in place, or append a new property. */
  function PutProp(ps: seq<(string, Value)>, k: string, x: Value): seq<(string, Value)> {
    match PropIndex(ps, k)
    case Some(i) => ps[i := (k, x)]
    case None => ps + [(k, x)]
  }

  /** After `o[k] = x`, `o[k]` is `x`, every other property is as before, and `k` is a property. */
  lemma PutPropThenLookup(ps: seq<(string, Value)>, k: string, x: Value)
    ensures Lookup(PutProp(ps, k, x), k) == x
    ensures forall j :: j != k ==> Lookup(PutProp(ps, k, x), j) == Lookup(ps, j)
    ensures PropIndex(PutProp(ps, k, x), k).Some?
  {
    var r := PutProp(ps, k, x);
    match PropIndex(ps, k) {
      case Some(i) =>
        var a := PropIndex(r, k);
        assert r[i].0 == k;
      case None =>
        var a := PropIndex(r, k);
        assert r[|ps|].0 == k;
    }
    forall j | j != k
      ensures Lookup(r, j) == Lookup(ps, j)
    {
      var a, b := PropIndex(r, j), PropIndex(ps, j);
      if a.Some? {
        assert r[a.value].0 == j;
      }
      if b.Some? {
        assert r[b.value] == ps[b.value];
      }
    }
  }

  /** `v[key]` for a key that is a string (prototype properties are not modelled). */
  function GetProp(v: Value, key: string): Value {
    match v
    case Arr(es) =>
      if key == "length" then Num(|es|)
      else (match ArrayIndex(key)
        case Some(i) => if i < |es| then es[i] else Undefined
        case None => Undefined)
    case Obj(ps) => Lookup(ps, key)
    case _ => Undefined
  }

  /**
   * `v[key] = x` in strict mode: objects gain or overwrite the property;
   * arrays take an index (growing with holes) or a new `length`; a
   * primitive, null or undefined target throws a TypeError.
   */
  function SetProp(v: Value, key: string, x: Value): Result<Value> {
    match v
    case Obj(ps) => Ok(Obj(PutProp(ps, key, x)))
    case Arr(es) =>
      if key == "length" then
        (match ArrayLength(x)
          case None => Thrown(RangeError)
          case Some(n) => Ok(Arr(Resize(es, n))))
      else
        (match ArrayIndex(key)
          case Some(i) => Ok(Arr(if i < |es| then es[i := x] else es + Holes(i - |es|) + [x]))
          case None => Ok(v))
    case _ => Thrown(TypeError)
  }

  /** Assigning to an object property: the key reads back `x`, nothing else changes. */
  lemma SetPropOnObject(ps: seq<(string, Value)>, key: string, x: Value)
    ensures SetProp(Obj(ps), key, x).Ok?
    ensures GetProp(SetProp(Obj(ps), key, x).value, key) == x
    ensures forall j :: j != key ==> GetProp(SetProp(Obj(ps), key, x).value, j) == GetProp(Obj(ps), j)
  {
    PutPropThenLookup(ps, key, x);
  }

  /**
   * Assigning to array index `i`: the index reads back `x`, the length
   * becomes max(length, i + 1), and every other index reads as before.
   */
  lemma SetPropAtIndex(es: seq<Value>, i: nat, x: Value)
    requires i < MaxArrayLength
    ensures SetProp(Arr(es), NatToString(i), x).Ok?
    ensures GetProp(SetProp(Arr(es), NatToString(i), x).value, NatToString(i)) == x
    ensures GetProp(SetProp(Arr(es), NatToString(i), x).value, "length")
      == Num(if i < |es| then |es| else i + 1)
    ensures forall j :: 0 <= j < MaxArrayLength && j != i ==>
      GetProp(SetProp(Arr(es), NatToString(i), x).value, NatToString(j)) == GetProp(Arr(es), NatToString(j))
  {
    IndexOfNatString(i);
    var key := NatToString(i);
    assert key != "length" by { assert IsDigit(key[0]); }
    forall j | 0 <= j < MaxArrayLength && j != i
      ensures GetProp(SetProp(Arr(es), key, x).value, NatToString(j)) == GetProp(Arr(es), NatToString(j))
    {
      IndexOfNatString(j);
      var kj := NatToString(j);
      assert kj != "length" by { assert IsDigit(kj[0]); }
    }
  }

  /**
   * Assigning `length`: a valid length truncates or pads with holes, so
   * indices below it keep their element and those at or above it read
   * undefined; an invalid one throws a RangeError.
   */
  lemma SetPropLength(es: seq<Value>, x: Value)
    ensures SetProp(Arr(es), "length", x).Thrown? <==> ArrayLength(x).None?
    ensures ArrayLength(x).Some? ==>
      GetProp(SetProp(Arr(es), "length", x).value, "length") == Num(ArrayLength(x).value)
    ensures ArrayLength(x).Some? ==>
      forall j :: 0 <= j < MaxArrayLength ==>
        GetProp(SetProp(Arr(es), "length", x).value, NatToString(j))
          == if j < ArrayLength(x).value then GetProp(Arr(es), NatToString(j)) else Undefined
  {
    if ArrayLength(x).Some? {
      var n := ArrayLength(x).value;
      forall j | 0 <= j < MaxArrayLength
        ensures GetProp(SetProp(Arr(es), "length", x).value, NatToString(j))
          == if j < n then GetProp(Arr(es), NatToString(j)) else Undefined
      {
        IndexOfNatString(j);
        var kj := NatToString(j);
        assert kj != "length" by { assert IsDigit(kj[0]); }
      }
    }
  }

  // ---------------------------------------------------------------------
  // Paths: the root navigator's walk and its in-place assignment
  // ---------------------------------------------------------------------

  /** `for (piece of pieces) current = current[piece]`, which throws on null or undefined. */
  function Walk(v: Value, pieces: seq<string>): Result<Value>
    decreases |pieces|
  {
    if pieces == [] then Ok(v)
    else if IsNullish(v) then Thrown(TypeError)
    else Walk(GetProp(v, pieces[0]), pieces[1..])
  }

  /**
   * Puts a mutated child back under its parent: what the in-place
   * assignment does to the tree when the child is an object reached
   * through `v[p]`.
   */
  function PutChild(v: Value, p: string, child: Value): Value {
    match v
    case Obj(ps) => Obj(PutProp(ps, p, child))
    case Arr(es) =>
      (match ArrayIndex(p)
        case Some(i) => if i < |es| then Arr(es[i := child]) else v
        case None => v)
    case _ => v
  }

  /**
   * The value tree after walking `pieces` from `v` and running
   * `current[key] = x` there, or the exception that stops it.
   */
  function SetIn(v: Value, pieces: seq<string>, key: string, x: Value): Result<Value>
    decreases |pieces|
  {
    if pieces == [] then SetProp(v, key, x)
    else if IsNullish(v) then Thrown(TypeError)
    else match SetIn(GetProp(v, pieces[0]), pieces[1..], key, x)
      case Thrown(e) => Thrown(e)
      case Ok(child) => Ok(PutChild(v, pieces[0], child))
  }

  /** Nothing can be assigned below a primitive, null or undefined. */
  lemma {:induction false} SetInBelowPrimitive(v: Value, pieces: seq<string>, key: string, x: Value)
    requires !v.Arr? && !v.Obj?
    ensures SetIn(v, pieces, key, x).Thrown?
    decreases |pieces|
  {
    if pieces != [] && !IsNullish(v) {
      SetInBelowPrimitive(GetProp(v, pieces[0]), pieces[1..], key, x);
    }
  }

  /**
   * The nested write succeeds exactly when the walk reaches a container
   * that accepts `key`; then walking the new tree reaches that container
   * with `key` assigned, and at the top level every property other than
   * the first path piece is unchanged.
   */
  lemma {:induction false} SetInShape(v: Value, pieces: seq<string>, key: string, x: Value)
    ensures SetIn(v, pieces, key, x).Ok? <==>
      Walk(v, pieces).Ok? && SetProp(Walk(v, pieces).value, key, x).Ok?
    ensures SetIn(v, pieces, key, x).Ok? ==>
      Walk(SetIn(v, pieces, key, x).value, pieces) == SetProp(Walk(v, pieces).value, key, x)
    ensures SetIn(v, pieces, key, x).Ok? && pieces != [] ==>
      forall j :: j != pieces[0] ==> GetProp(SetIn(v, pieces, key, x).value, j) == GetProp(v, j)
    decreases |pieces|
  {
    if pieces != [] && !IsNullish(v) {
      var p := pieces[0];
      var child := GetProp(v, p);
      SetInShape(child, pieces[1..], key, x);
      var sub := SetIn(child, pieces[1..], key, x);
      if sub.Ok? {
        if !child.Arr? && !child.Obj? {
          SetInBelowPrimitive(child, pieces[1..], key, x);
        }
        var w := PutChild(v, p, sub.value);
        match v {
          case Obj(ps) =>
            PutPropThenLookup(ps, p, sub.value);
          case Arr(es) =>
            var i := ArrayIndex(p).value;
            assert i < |es|;
            forall j | j != p
              ensures GetProp(w, j) == GetProp(v, j)
            {
              if j != "length" && ArrayIndex(j).Some? {
                assert ArrayIndex(j).value != i;
              }
            }
          case _ =>
        }
        assert GetProp(w, p) == sub.value;
        assert Walk(w, pieces) == Walk(sub.value, pieces[1..]);
      }
    }
  }

  /**
   * The root navigator's write, step by step: the walk of lines 165-168
   * keeps every container it passes; the assignment of line 169 then
   * rebuilds those containers from the bottom up.
   */
  method AssignAtPath(root: Value, pieces: seq<string>, key: string, x: Value) returns (r: Result<Value>)
    ensures r == SetIn(root, pieces, key, x)
  {
    // walk down, remembering the spine
    var spine: seq<Value> := [root];
    var current := root;
    var i := 0;
    while i < |pieces|
      invariant 0 <= i <= |pieces|
      invariant |spine| == i + 1 && spine[i] == current && spine[0] == root
      invariant forall k :: 0 <= k < i ==> !IsNullish(spine[k]) && spine[k + 1] == GetProp(spine[k], pieces[k])
      invariant SetIn(root, pieces, key, x).Ok? ==> Walk(root, pieces) == Walk(current, pieces[i..])
    {
      if IsNullish(current) {
        SpineThrows(spine, pieces, i, key, x);
        return Thrown(TypeError);
      }
      current := GetProp(current, pieces[i]);
      spine := spine + [current];
      i := i + 1;
    }
    // assign at the bottom, then put each container back into its parent
    var acc := SetProp(current, key, x);
    if acc.Thrown? {
      SpineResult(spine, pieces, |pieces|, key, x);
      return acc;
    }
    var j := |pieces|;
    while j > 0
      invariant 0 <= j <= |pieces|
      invariant acc.Ok? && acc == SetIn(spine[j], pieces[j..], key, x)
    {
      j := j - 1;
      assert pieces[j..][1..] == pieces[j + 1..];
      acc := Ok(PutChild(spine[j], pieces[j], acc.value));
    }
    r := acc;
  }

  /** Along a spine of successive children, the write from the root equals the write from level `i`. */
  lemma {:induction false} SpineResult(spine: seq<Value>, pieces: seq<string>, i: nat, key: string, x: Value)
    requires i <= |pieces| && |spine| == i + 1
    requires forall k :: 0 <= k < i ==> !IsNullish(spine[k]) && spine[k + 1] == GetProp(spine[k], pieces[k])
    ensures SetIn(spine[i], pieces[i..], key, x).Thrown? ==>
      SetIn(spine[0], pieces, key, x) == SetIn(spine[i], pieces[i..], key, x)
    decreases i
  {
    if i > 0 {
      SpineResult(spine[1..], pieces[1..], i - 1, key, x);
      assert pieces[1..][i - 1..] == pieces[i..];
    }
  }

  /** A null or undefined container met on the way down makes the whole write throw. */
  lemma SpineThrows(spine: seq<Value>, pieces: seq<string>, i: nat, key: string, x: Value)
    requires i < |pieces| && |spine| == i + 1 && IsNullish(spine[i])
    requires forall k :: 0 <= k < i ==> !IsNullish(spine[k]) && spine[k + 1] == GetProp(spine[k], pieces[k])
    ensures SetIn(spine[0], pieces, key, x) == Thrown(TypeError)
  {
    SpineResult(spine, pieces, i, key, x);
  }

  // ---------------------------------------------------------------------
  // What JSON text captures of a value
  // ---------------------------------------------------------------------

  /**
   * The value `JSON.parse(JSON.stringify(v))` rebuilds: properties whose
   * value is undefined disappear and undefined array elements become null.
   */
  function Normalize(v: Value): Value
    decreases v
  {
    match v
    case Arr(es) => Arr(NormalizeElems(v, es))
    case Obj(ps) => Obj(NormalizeProps(v, ps))
    case _ => v
  }

  function NormalizeElems(ghost parent: Value, es: seq<Value>): (r: seq<Value>)
    requires forall i :: 0 <= i < |es| ==> es[i] < parent
    ensures |r| == |es|
    decreases parent, |es|
  {
    if es == [] then []
    else [if es[0].Undefined? then Null else Normalize(es[0])] + NormalizeElems(parent, es[1..])
  }

  function NormalizeProps(ghost parent: Value, ps: seq<(string, Value)>): seq<(string, Value)>
    requires forall i :: 0 <= i < |ps| ==> ps[i].1 < parent
    decreases parent, |ps|
  {
    if ps == [] then []
    else if ps[0].1.Undefined? then NormalizeProps(parent, ps[1..])
    else [(ps[0].0, Normalize(ps[0].1))] + NormalizeProps(parent, ps[1..])
  }

  /** A value JSON text reproduces exactly: no undefined anywhere inside. */
  predicate IsJsonData(v: Value)
    decreases v
  {
    match v
    case Undefined => false
    case Arr(es) => forall i :: 0 <= i < |es| ==> IsJsonData(es[i])
    case Obj(ps) => forall i :: 0 <= i < |ps| ==> IsJsonData(ps[i].1)
    case _ => true
  }

  /** Normalizing yields JSON data (or undefined for undefined) and leaves JSON data as it is. */
  lemma {:induction false} NormalizeIsJsonData(v: Value)
    ensures v.Undefined? || IsJsonData(Normalize(v))
    ensures IsJsonData(v) ==> Normalize(v) == v
    decreases v, 2
  {
    match v
    case Arr(es) =>
      NormalizeElemsData(v, es);
    case Obj(ps) =>
      NormalizePropsData(v, ps);
    case _ =>
  }

  lemma {:induction false} NormalizeElemsData(parent: Value, es: seq<Value>)
    requires forall i :: 0 <= i < |es| ==> es[i] < parent
    ensures forall i :: 0 <= i < |es| ==> IsJsonData(NormalizeElems(parent, es)[i])
    ensures (forall i :: 0 <= i < |es| ==> IsJsonData(es[i])) ==> NormalizeElems(parent, es) == es
    decreases parent, 1, |es|
  {
    if es != [] {
      NormalizeIsJsonData(es[0]);
      NormalizeElemsData(parent, es[1..]);
      var r := NormalizeElems(parent, es);
      assert r[1..] == NormalizeElems(parent, es[1..]);
      if forall i :: 0 <= i < |es| ==> IsJsonData(es[i]) {
        assert forall i :: 0 <= i < |es[1..]| ==> IsJsonData(es[1..][i]) by {
          forall i | 0 <= i < |es[1..]| ensures IsJsonData(es[1..][i]) { assert es[1..][i] == es[i + 1]; }
        }
        assert IsJsonData(es[0]);
      }
    }
  }

  lemma {:induction false} NormalizePropsData(parent: Value, ps: seq<(string, Value)>)
    requires forall i :: 0 <= i < |ps| ==> ps[i].1 < parent
    ensures forall i :: 0 <= i < |NormalizeProps(parent, ps)| ==> IsJsonData(NormalizeProps(parent, ps)[i].1)
    ensures (forall i :: 0 <= i < |ps| ==> IsJsonData(ps[i].1)) ==> NormalizeProps(parent, ps) == ps
    decreases parent, 1, |ps|
  {
    if ps != [] {
      NormalizeIsJsonData(ps[0].1);
      NormalizePropsData(parent, ps[1..]);
      if forall i :: 0 <= i < |ps| ==> IsJsonData(ps[i].1) {
        assert forall i :: 0 <= i < |ps[1..]| ==> IsJsonData(ps[1..][i].1) by {
          forall i | 0 <= i < |ps[1..]| ensures IsJsonData(ps[1..][i].1) { assert ps[1..][i] == ps[i + 1]; }
        }
        assert IsJsonData(ps[0].1);
      }
    }
  }

  /** Normalizing twice is normalizing once: a value and its JSON round trip compare equal. */
  lemma NormalizeIdempotent(v: Value)
    ensures Normalize(Normalize(v)) == Normalize(v)
  {
    NormalizeIsJsonData(v);
    if !v.Undefined? {
      NormalizeIsJsonData(Normalize(v));
    }
  }
}
