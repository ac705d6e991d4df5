/// The codec contract each registered key is configured with, the plain
/// string codec (DEFAULT_ENCODER_DECODER) used for flag keys and for
/// unregistered names, and the two decisions built on them: when a default
/// applies (should_default) and when a recomputed value counts as the same
/// as the previous one (is_complex_equal and the derived value's gate).
module Codecs {
  import opened JsValues

  /** `encode`: None stands for `undefined`, which removes the key. */
  type Encoder = Value -> Option<string>

  /** `decode`: its argument is None for a key absent from the query (`null`). */
  type Decoder = Option<string> -> Value

  /** `equalityFn(current, next)` */
  type Equality = (Value, Value) -> bool

  /** A full codec descriptor; `defaultValue` is Undefined when none was given. */
  datatype Codec = Codec(encode: Encoder, decode: Decoder, defaultValue: Value, equalityFn: Option<Equality>)

  /** What a key is registered with: a boolean flag (the plain string codec) or a codec. */
  datatype ParamOption = Flag(flag: bool) | Coded(codec: Codec)

  type Registry = map<string, ParamOption>

  // ---------------------------------------------------------------------
  // DEFAULT_ENCODER_DECODER
  // ---------------------------------------------------------------------

  /** `String(v)`; arrays join their elements with "," and print null or undefined as "". */
  function ToJsString(v: Value): string
    decreases v
  {
    match v
    case Undefined => "undefined"
    case Null => "null"
    case Bool(b) => if b then "true" else "false"
    case Num(n) => IntToString(n)
    case Str(s) => s
    case Arr(es) => JoinElems(v, es)
    case Obj(_) => "[object Object]"
  }

  function JoinElems(ghost parent: Value, es: seq<Value>): string
    requires forall i :: 0 <= i < |es| ==> es[i] < parent
    decreases parent, |es|
  {
    if es == [] then ""
    else
      var head := if IsNullish(es[0]) then "" else ToJsString(es[0]);
      if |es| == 1 then head else head + "," + JoinElems(parent, es[1..])
  }

  /**
   * `value.toString()`. The engine calls an encoder only on a value that
   * is neither null nor undefined (line 103); on those two the source
   * would throw, and here the result is None.
   */
  function DefaultEncode(v: Value): Option<string> {
    if IsNullish(v) then None else Some(ToJsString(v))
  }

  /** `value ? value.toString() : null`: a missing key and the empty string both decode to null. */
  function DefaultDecode(raw: Option<string>): (r: Value)
    ensures r.Null? || r.Str?
    ensures r.Str? <==> raw.Some? && raw.value != ""
  {
    match raw
    case None => Null
    case Some(s) => if s == "" then Null else Str(s)
  }

  /**
   * The plain codec gives every non-empty string back; the empty string
   * comes back as null, as does a missing key.
   */
  lemma DefaultCodecRoundTrip(s: string)
    ensures DefaultEncode(Str(s)) == Some(s)
    ensures DefaultDecode(DefaultEncode(Str(s))) == if s == "" then Null else Str(s)
    ensures DefaultDecode(None) == Null
  {
  }

  /**
   * An integer written with the plain codec is read back as its decimal
   * text: the digits of its magnitude, after a minus sign when it is
   * negative.
   */
  lemma DefaultCodecNumber(n: int)
    ensures DefaultEncode(Num(n)) == Some(IntToString(n))
    ensures DefaultDecode(DefaultEncode(Num(n))) == Str(IntToString(n))
    ensures n >= 0 ==> IntToString(n) == NatToString(n) && DigitsValue(NatToString(n)) == n
    ensures n < 0 ==> IntToString(n) == "-" + NatToString(-n) && DigitsValue(NatToString(-n)) == -n
  {
    if n >= 0 {
      DigitsOfNat(n);
    } else {
      DigitsOfNat(-n);
    }
  }

  // ---------------------------------------------------------------------
  // The registry: encodes, decodes and options per key
  // ---------------------------------------------------------------------

  /** `encodes.get(name) ?? DEFAULT_ENCODER_DECODER.encode` */
  function EncoderOf(reg: Registry, name: string): Encoder {
    if name in reg && reg[name].Coded? then reg[name].codec.encode else DefaultEncode
  }

  /** `decodes.get(name) ?? DEFAULT_ENCODER_DECODER.decode` */
  function DecoderOf(reg: Registry, name: string): Decoder {
    if name in reg && reg[name].Coded? then reg[name].codec.decode else DefaultDecode
  }

  /** The `equality_fn` a key passes to is_complex_equal; None selects the JSON-text comparison. */
  function EqualityOf(opt: ParamOption): Option<Equality> {
    if opt.Coded? then opt.codec.equalityFn else None
  }

  // ---------------------------------------------------------------------
  // should_default and is_complex_equal
  // ---------------------------------------------------------------------

  /**
   * should_default's condition: the value is null or undefined, the key
   * was registered with a codec rather than a flag, and that codec has a
   * default that is neither null nor undefined.
   */
  predicate ShouldDefault(value: Value, opt: ParamOption) {
    IsNullish(value) && opt.Coded? && !IsNullish(opt.codec.defaultValue)
  }

  /** The default comparator `JSON.stringify(a) === JSON.stringify(b)`, as equality of what the JSON text keeps. */
  predicate JsonTextEqual(a: Value, b: Value) {
    Normalize(a) == Normalize(b)
  }

  /**
   * is_complex_equal: only two object-typed values (null included) can be
   * "the same", and then the comparator decides. A custom comparator is
   * called on null as well: the type of `equalityFn` takes `T | null`.
   */
  predicate IsComplexEqual(current: Value, next: Value, eq: Option<Equality>)
    ensures IsComplexEqual(current, next, eq) ==> IsObjectTyped(current) && IsObjectTyped(next)
  {
    IsObjectTyped(current) && IsObjectTyped(next) &&
    match eq
    case None => JsonTextEqual(current, next)
    case Some(f) => f(current, next)
  }

  /** The default comparator tells null from every object or array. */
  lemma JsonTextEqualOnNull(v: Value)
    ensures JsonTextEqual(Null, v) <==> v == Null
  {
  }

  /**
   * On a key's first read there is no `old_values` entry, so an object or
   * array is compared with null: the default comparison reports a change,
   * while a custom comparator is consulted on the pair.
   */
  lemma FirstReadComparesWithNull(v: Value, f: Equality)
    requires v.Obj? || v.Arr?
    ensures !IsComplexEqual(v, Coalesce(Undefined, Null), None)
    ensures IsComplexEqual(v, Coalesce(Undefined, Null), Some(f)) == f(v, Null)
  {
    JsonTextEqualOnNull(v);
  }

  /**
   * The default comparison is an equivalence on object-typed values, and
   * a value is "the same" as its own JSON round trip.
   */
  lemma DefaultComparisonIsEquivalence(a: Value, b: Value, c: Value)
    requires IsObjectTyped(a) && IsObjectTyped(b) && IsObjectTyped(c)
    ensures IsComplexEqual(a, a, None)
    ensures IsComplexEqual(a, b, None) == IsComplexEqual(b, a, None)
    ensures IsComplexEqual(a, b, None) && IsComplexEqual(b, c, None) ==> IsComplexEqual(a, c, None)
    ensures IsComplexEqual(a, Normalize(a), None)
  {
    NormalizeIdempotent(a);
  }

  // ---------------------------------------------------------------------
  // The derived value of one key (lines 355-392)
  // ---------------------------------------------------------------------

  /** What one recomputation returns, and the new `old_values` entry if it writes one. */
  datatype Derivation = Derivation(result: Value, store: Option<Value>)

  /**
   * One recomputation of a key's derived value from `value` (the override,
   * or else the decoded query value) and `cached` (the `old_values` entry,
   * Undefined when there is none).
   */
  function Derive(value: Value, cached: Value, opt: ParamOption, browser: bool): (d: Derivation)
    ensures !browser && ShouldDefault(value, opt) ==> d == Derivation(opt.codec.defaultValue, None)
    ensures d.store.Some? ==> d.store.value == value == d.result
    ensures d.store.None? && !(!browser && ShouldDefault(value, opt)) ==>
      d.result == Coalesce(cached, Null) && IsComplexEqual(value, d.result, EqualityOf(opt))
    ensures d.store.Some? ==> !IsComplexEqual(value, Coalesce(cached, Null), EqualityOf(opt))
  {
    if !browser && ShouldDefault(value, opt) then
      Derivation(opt.codec.defaultValue, None)
    else
      var prev := Coalesce(cached, Null);
      if IsComplexEqual(value, prev, EqualityOf(opt)) then Derivation(prev, None)
      else Derivation(value, Some(value))
  }

  /** The `old_values` entry after a recomputation. */
  function CacheAfter(cached: Value, d: Derivation): Value {
    if d.store.Some? then d.store.value else cached
  }

  /**
   * Whatever the comparator, recomputing from an unchanged input returns
   * the same value and leaves the cached entry as it was: the gate
   * suppresses the noise of re-derivation.
   */
  lemma DeriveIsStable(value: Value, cached: Value, opt: ParamOption, browser: bool)
    ensures var d1 := Derive(value, cached, opt, browser);
            var d2 := Derive(value, CacheAfter(cached, d1), opt, browser);
            d2.result == d1.result && CacheAfter(CacheAfter(cached, d1), d2) == CacheAfter(cached, d1)
  {
  }

  /**
   * On the server a key whose codec has a default never reads as null or
   * undefined, when its values are compared by JSON text.
   */
  lemma ServerReadWithDefaultIsDefined(value: Value, cached: Value, opt: ParamOption)
    requires opt.Coded? && !IsNullish(opt.codec.defaultValue) && EqualityOf(opt).None?
    ensures !IsNullish(Derive(value, cached, opt, false).result)
  {
    var d := Derive(value, cached, opt, false);
    if !IsNullish(value) && d.store.None? {
      assert Normalize(value) == Normalize(d.result);
    }
  }
}
