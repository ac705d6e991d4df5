/// End-to-end runs of one `queryParameters` instance: a fresh Engine, the
/// proxy operations a component would perform, and the timer and `goto`
/// events in the order the event loop delivers them. Each run states the
/// navigations it starts and what their targets carry.
module Scenarios {
  import opened JsValues
  import Q = SearchQuery
  import opened Codecs
  import opened Engine

  /** The query a navigation's target carries. */
  method ParseTarget(nav: Navigation, ghost q: Q.Query, ghost hash: string) returns (parsed: Q.Query)
    requires SplitTarget(nav.target) == Some((q, hash))
    ensures parsed == q
  {
    var split := SplitTarget(nav.target);
    parsed := split.value.0;
  }

  /**
   * A navigation launched for a batch whose updates all name `name`
   * carries the last one's encoding under `name` and leaves every other
   * name as the captured query had it.
   */
  lemma CarriesLast(name: string, search: Q.Query, us: seq<Update>, reg: Registry, hash: string, o: NavigationOptions)
    requires hash == "" || hash[0] == '#'
    requires SortOf(o)
    requires forall i :: 0 <= i < |us| ==> us[i].name == name
    requires us != []
    ensures var q := ApplyAll(search, us, reg);
            && SplitTarget(Launch(Pending(name, q, hash), o).target) == Some((Q.Sort(q), hash))
            && Q.Get(Q.Sort(q), name) == Encoded(us[|us| - 1], reg)
            && Q.Entries(Q.Sort(q), name) == Outcome(us[|us| - 1], reg)
            && forall n :: n != name ==> Q.Entries(Q.Sort(q), n) == Q.Entries(search, n)
  {
    LaunchCarriesBatch(name, search, us, reg, hash, o, name);
    LaunchKeepsUntouched(search, us, reg, true);
  }

  /**
   * The batch timer fires with no debounce configured: one navigation
   * starts, and its target carries the batch's last write to `name` and
   * the captured query's entries for every other name.
   */
  method FlushNow(e: Engine, name: string, search: Q.Query, hash: string) returns (navs: seq<Navigation>, parsed: Q.Query)
    requires e.Valid() && e.browser && e.inFlight == [] && DebounceOf(e.options) == 0 && SortOf(e.options)
    requires e.batch != [] && forall i :: 0 <= i < |e.batch| ==> e.batch[i].name == name
    requires e.flushTimer == Some(Pending(name, search, hash))
    requires hash == "" || hash[0] == '#'
    modifies e
    ensures e.Valid() && e.batch == [] && e.overrides == old(e.overrides) && e.oldValues == old(e.oldValues)
    ensures navs == e.inFlight && |navs| == 1 && navs[0].name == name
    ensures navs[0].goto == GotoOptionsFor(PushOf(e.options))
    ensures SplitTarget(navs[0].target) == Some((parsed, hash))
    ensures Q.Get(parsed, name) == Encoded(old(e.batch)[|old(e.batch)| - 1], e.registry)
    ensures Q.Entries(parsed, name) == Outcome(old(e.batch)[|old(e.batch)| - 1], e.registry)
    ensures forall n :: n != name ==> Q.Entries(parsed, n) == Q.Entries(search, n)
  {
    ghost var us := e.batch;
    e.FlushBatch();
    ghost var q := ApplyAll(search, us, e.registry);
    CarriesLast(name, search, us, e.registry, hash, e.options);
    navs := e.inFlight;
    parsed := ParseTarget(navs[0], Q.Sort(q), hash);
  }

  /**
   * A write in a turn of its own with `debounceHistory` set: the batch
   * timer fires and arms the key's debounce timer with the batch result,
   * replacing any timer the key already had; nothing navigates yet.
   */
  method WriteAndArm(e: Engine, name: string, x: string, search: Q.Query, hash: string)
    requires e.Valid() && e.browser && e.batch == [] && DebounceOf(e.options) != 0
    modifies e
    ensures e.Valid() && e.batch == [] && e.inFlight == old(e.inFlight)
    ensures e.debounced == old(e.debounced)[name := Pending(name, ApplyAll(search, [Update(name, Str(x))], e.registry), hash)]
  {
    e.Write(name, Str(x), search, hash);
    assert e.batch == [Update(name, Str(x))];
    e.FlushBatch();
  }

  /**
   * A debounce timer fires: its navigation starts, and the target carries
   * the last write of the batch it was armed with.
   */
  method FireNow(e: Engine, name: string, search: Q.Query, us: seq<Update>, hash: string)
    returns (nav: Navigation, parsed: Q.Query)
    requires e.Valid() && SortOf(e.options)
    requires us != [] && forall i :: 0 <= i < |us| ==> us[i].name == name
    requires name in e.debounced && e.debounced[name] == Pending(name, ApplyAll(search, us, e.registry), hash)
    requires hash == "" || hash[0] == '#'
    modifies e
    ensures e.Valid() && e.inFlight == old(e.inFlight) + [nav] && e.debounced == old(e.debounced) - {name}
    ensures nav.name == name
    ensures SplitTarget(nav.target) == Some((parsed, hash))
    ensures Q.Get(parsed, name) == Encoded(us[|us| - 1], e.registry)
    ensures forall n :: n != name ==> Q.Entries(parsed, n) == Q.Entries(search, n)
  {
    ghost var q := ApplyAll(search, us, e.registry);
    e.FireDebounce(name);
    nav := e.inFlight[|e.inFlight| - 1];
    CarriesLast(name, search, us, e.registry, hash, e.options);
    parsed := ParseTarget(nav, Q.Sort(q), hash);
  }

  /**
   * Two writes to one key in the same turn: one flush, one navigation,
   * carrying the second value; every other name keeps its entries.
   */
  method SameTurnWritesCoalesce(search: Q.Query, hash: string, first: string, second: string)
    returns (navs: seq<Navigation>, parsed: Q.Query)
    requires hash == "" || hash[0] == '#'
    ensures |navs| == 1 && navs[0].name == "q"
    ensures navs[0].goto == GotoOptions(true, true, false)
    ensures SplitTarget(navs[0].target) == Some((parsed, hash))
    ensures Q.Get(parsed, "q") == Some(second)
    ensures forall n :: n != "q" ==> Q.Entries(parsed, n) == Q.Entries(search, n)
  {
    var o := NavigationOptions(None, None, None, None);
    var e := new Engine(true, map[], [], o);
    e.Write("q", Str(first), search, hash);
    e.Write("q", Str(second), search, hash);
    assert e.batch == [Update("q", Str(first)), Update("q", Str(second))];
    navs, parsed := FlushNow(e, "q", search, hash);
  }

  /**
   * With `debounceHistory` set, a second write to the key before its timer
   * fires cancels the first timer: one navigation, carrying the second
   * value.
   */
  method DebouncedWritesCoalesce(search: Q.Query, hash: string, first: string, second: string)
    returns (navs: seq<Navigation>, parsed: Q.Query)
    requires hash == "" || hash[0] == '#'
    ensures |navs| == 1 && navs[0].name == "q"
    ensures SplitTarget(navs[0].target) == Some((parsed, hash))
    ensures Q.Get(parsed, "q") == Some(second)
    ensures forall n :: n != "q" ==> Q.Entries(parsed, n) == Q.Entries(search, n)
  {
    var o := NavigationOptions(Some(200), None, None, None);
    var e := new Engine(true, map[], [], o);
    WriteAndArm(e, "q", first, search, hash);
    // the second write arrives before the debounce timer fires
    WriteAndArm(e, "q", second, search, hash);
    var nav;
    nav, parsed := FireNow(e, "q", search, [Update("q", Str(second))], hash);
    navs := e.inFlight;
  }

  /**
   * Debounced writes to two keys in different turns: each key gets its own
   * navigation, and each target is built from the query as it was when
   * that key was written, so the later navigation does not carry the
   * earlier key's write.
   */
  method DebouncedKeysNavigateSeparately(search: Q.Query, hash: string, x: string, y: string)
    returns (navs: seq<Navigation>, first: Q.Query, second: Q.Query)
    requires hash == "" || hash[0] == '#'
    ensures |navs| == 2 && navs[0].name == "a" && navs[1].name == "b"
    ensures SplitTarget(navs[0].target) == Some((first, hash))
    ensures SplitTarget(navs[1].target) == Some((second, hash))
    ensures Q.Get(first, "a") == Some(x)
    ensures Q.Get(second, "b") == Some(y)
    ensures Q.Entries(second, "a") == Q.Entries(search, "a")
  {
    var o := NavigationOptions(Some(200), None, None, None);
    var e := new Engine(true, map[], [], o);
    WriteAndArm(e, "a", x, search, hash);
    // the URL has not changed yet: the write to b reads the same query
    WriteAndArm(e, "b", y, search, hash);
    var na, nb;
    na, first := FireNow(e, "a", search, [Update("a", Str(x))], hash);
    nb, second := FireNow(e, "b", search, [Update("b", Str(y))], hash);
    navs := e.inFlight;
  }

  /**
   * With `equalityFn` comparing `id`s, a second raw string that decodes
   * to an object with the same `id` reads back as the value stored by the
   * first read (equal as a value; object identity is not modelled).
   */
  method EqualityGateKeepsValue(raw1: string, raw2: string) returns (r1: Node, r2: Node)
    requires |raw1| == |raw2|
    ensures r1 == r2
    ensures r1 == Nested(DecodeSelection(Some(raw1)), ["sel"], DecodeSelection(Some(raw1)))
  {
    var reg := map["sel" := Coded(Codec(DefaultEncode, DecodeSelection, Undefined, Some(SameId)))];
    var e := new Engine(true, reg, ["sel"], NavigationOptions(None, None, None, None));
    r1 := e.Get("sel", [("sel", raw1)]);
    r2 := e.Get("sel", [("sel", raw2)]);
  }

  /** A decoder for the run above: an object whose `id` is the length of the raw text. */
  function DecodeSelection(raw: Option<string>): Value {
    if raw.None? then Null else Obj([("id", Num(|raw.value|)), ("text", Str(raw.value))])
  }

  /**
   * A null-safe comparison of `id`s: the first read compares with null,
   * whose `id` reads here as undefined.
   */
  function SameId(a: Value, b: Value): bool {
    GetProp(a, "id") == GetProp(b, "id")
  }

  /**
   * `push` on an array-valued key: the index write and the `length` write
   * go through the root navigator in one turn; the next read holds both,
   * and one navigation carries the encoded whole array.
   */
  method ArrayPushNavigatesOnce(search: Q.Query, hash: string, enc: Encoder, dec: Decoder)
    returns (read: Node, navs: seq<Navigation>, parsed: Q.Query)
    requires hash == "" || hash[0] == '#'
    ensures read == Nested(Arr([Str("a"), Str("b")]), ["list"], Arr([Str("a"), Str("b")]))
    ensures |navs| == 1 && navs[0].name == "list"
    ensures SplitTarget(navs[0].target) == Some((parsed, hash))
    ensures Q.Get(parsed, "list") == enc(Arr([Str("a"), Str("b")]))
  {
    var reg := map["list" := Coded(Codec(enc, dec, Undefined, None))];
    var o := NavigationOptions(None, None, None, None);
    var e := new Engine(true, reg, ["list"], o);
    var one, pushed := Arr([Str("a")]), Arr([Str("a"), Str("b")]);
    var node := SetThenRead(e, "list", one, search, hash);
    read := PushB(e, node, search, hash);
    assert e.batch == [Update("list", one), Update("list", pushed), Update("list", pushed)];
    navs, parsed := FlushNow(e, "list", search, hash);
  }

  /**
   * The first write of an object or array to a key, then a read: the gate
   * compares it with null, which the default comparison never finds the
   * same, so the value is stored and comes back wrapped in a nested proxy
   * rooted at the key.
   */
  method SetThenRead(e: Engine, name: string, v: Value, search: Q.Query, hash: string) returns (node: Node)
    requires e.Valid() && e.browser && name in e.registry && name != "toJSON" && e.oldValues == map[]
    requires EqualityOf(e.registry[name]).None? && (v.Arr? || v.Obj?)
    modifies e
    ensures e.Valid() && node == Nested(v, [name], v)
    ensures e.OverrideOf(name) == v && e.oldValues == map[name := v]
    ensures e.batch == old(e.batch) + [Update(name, v)]
    ensures e.flushTimer == Some(Pending(name, search, hash)) && e.inFlight == old(e.inFlight)
  {
    var ok := e.Set(name, v, search, hash);
    JsonTextEqualOnNull(v);
    assert e.DeriveAt(name, search, e.oldValues) == Derivation(v, Some(v));
    node := e.Get(name, search);
  }

  /** `arr.push("b")` on the nested proxy over `["a"]`: index 1 is assigned, then `length` 2; then the key is read again. */
  method PushB(e: Engine, node: Node, search: Q.Query, hash: string) returns (read: Node)
    requires e.Valid() && e.browser && e.registry.Keys == {"list"}
    requires e.registry["list"].Coded? && e.registry["list"].codec.equalityFn.None?
    requires node == Nested(Arr([Str("a")]), ["list"], Arr([Str("a")]))
    requires e.OverrideOf("list") == Arr([Str("a")]) && e.oldValues == map["list" := Arr([Str("a")])]
    modifies e
    ensures e.Valid()
    ensures read == Nested(Arr([Str("a"), Str("b")]), ["list"], Arr([Str("a"), Str("b")]))
    ensures e.batch == old(e.batch) + [Update("list", Arr([Str("a"), Str("b")])), Update("list", Arr([Str("a"), Str("b")]))]
    ensures e.flushTimer == Some(Pending("list", search, hash)) && e.inFlight == old(e.inFlight)
  {
    AssignIndexOne();
    var r := e.SetNested(node, NatToString(1), Str("b"), search, hash);
    read := SetLengthThenRead(e, node, search, hash);
  }

  /** The `length` write of the push, then the read. */
  method SetLengthThenRead(e: Engine, node: Node, search: Q.Query, hash: string) returns (read: Node)
    requires e.Valid() && e.browser && e.registry.Keys == {"list"}
    requires e.registry["list"].Coded? && e.registry["list"].codec.equalityFn.None?
    requires node == Nested(Arr([Str("a")]), ["list"], Arr([Str("a")]))
    requires e.OverrideOf("list") == Arr([Str("a"), Str("b")]) && e.oldValues == map["list" := Arr([Str("a")])]
    modifies e
    ensures e.Valid()
    ensures read == Nested(Arr([Str("a"), Str("b")]), ["list"], Arr([Str("a"), Str("b")]))
    ensures e.batch == old(e.batch) + [Update("list", Arr([Str("a"), Str("b")]))]
    ensures e.flushTimer == Some(Pending("list", search, hash)) && e.inFlight == old(e.inFlight)
  {
    var pushed := Arr([Str("a"), Str("b")]);
    LengthKeepsArray();
    var r := e.SetNested(node, "length", Num(2), search, hash);
    PushedDiffers();
    assert e.DeriveAt("list", search, e.oldValues) == Derivation(pushed, Some(pushed));
    read := e.Get("list", search);
  }

  /** Assigning index 1 of `["a"]` appends. */
  lemma AssignIndexOne()
    ensures SetIn(Arr([Str("a")]), [], NatToString(1), Str("b")) == Ok(Arr([Str("a"), Str("b")]))
  {
    IndexOfNatString(1);
    assert NatToString(1) == "1";
    assert [Str("a")] + Holes(0) + [Str("b")] == [Str("a"), Str("b")];
  }

  /** Setting `length` to the current length changes nothing. */
  lemma LengthKeepsArray()
    ensures SetIn(Arr([Str("a"), Str("b")]), [], "length", Num(2)) == Ok(Arr([Str("a"), Str("b")]))
  {
    assert Resize([Str("a"), Str("b")], 2) == [Str("a"), Str("b")];
  }

  /** The pushed array is a new value for the gate. */
  lemma PushedDiffers()
    ensures !IsComplexEqual(Arr([Str("a"), Str("b")]), Arr([Str("a")]), None)
  {
    assert |Normalize(Arr([Str("a"), Str("b")])).elems| != |Normalize(Arr([Str("a")])).elems|;
  }

  /**
   * A key with `defaultValue` 10, absent from the URL, reads as 10; with
   * `showDefaults` the flush writes `page=10` to the URL, without it no
   * navigation starts.
   */
  method DefaultMaterializes(showDefaults: bool, search: Q.Query, hash: string)
    returns (read: Node, navs: seq<Navigation>, parsed: Q.Query)
    requires hash == "" || hash[0] == '#'
    requires Q.Get(search, "page") == None
    ensures read == Plain(Num(10))
    ensures showDefaults ==> |navs| == 1 && SplitTarget(navs[0].target) == Some((parsed, hash))
    ensures showDefaults ==> Q.Get(parsed, "page") == Some("10")
    ensures !showDefaults ==> navs == []
  {
    var reg := map["page" := Coded(Codec(DefaultEncode, DefaultDecode, Num(10), None))];
    var o := NavigationOptions(None, None, None, Some(showDefaults));
    var e := new Engine(true, reg, ["page"], o);
    read := DefaultThenRead(e, search, hash);
    parsed := [];
    navs := e.inFlight;
    if showDefaults {
      assert Encoded(Update("page", Num(10)), reg) == Some("10") by {
        assert NatToString(10) == "10";
      }
      navs, parsed := FlushNow(e, "page", search, hash);
    }
  }

  /**
   * The `$effect.pre` of a `page` key whose codec defaults to 10 and whose
   * URL holds no entry: the default becomes the override (and is written,
   * with `showDefaults`), and the next read gives it.
   */
  method DefaultThenRead(e: Engine, search: Q.Query, hash: string) returns (read: Node)
    requires e.Valid() && e.browser && e.registry == map["page" := Coded(Codec(DefaultEncode, DefaultDecode, Num(10), None))]
    requires Q.Get(search, "page") == None
    requires e.overrides == map[] && e.oldValues == map[] && e.batch == [] && e.inFlight == []
    modifies e
    ensures e.Valid() && read == Plain(Num(10)) && e.inFlight == []
    ensures e.batch == if ShowDefaultsOf(e.options) then [Update("page", Num(10))] else []
    ensures ShowDefaultsOf(e.options) ==> e.flushTimer == Some(Pending("page", search, hash))
  {
    assert e.DeriveAt("page", search, e.oldValues) == Derivation(Null, None) by {
      assert e.CurrentValue("page", search) == Null;
      assert IsComplexEqual(Null, Null, None);
    }
    e.ApplyDefault("page", search, search, hash);
    assert e.OverrideOf("page") == Num(10) && e.oldValues == map[];
    assert e.DeriveAt("page", search, e.oldValues) == Derivation(Num(10), Some(Num(10)));
    read := e.Get("page", search);
  }

  /** On the server the same key reads as its default and nothing is written. */
  method ServerReadsDefault(search: Q.Query) returns (read: Node, pending: seq<Update>)
    requires Q.Get(search, "page") == None
    ensures read == Plain(Num(10))
    ensures pending == []
  {
    var reg := map["page" := Coded(Codec(DefaultEncode, DefaultDecode, Num(10), None))];
    var e := new Engine(false, reg, ["page"], NavigationOptions(None, None, None, None));
    read := e.Get("page", search);
    var ok := e.Set("page", Num(3), search, "");
    pending := e.batch;
  }

  /**
   * Writing undefined to a key: until the navigation completes the read
   * still shows the URL's value; the target holds no entry for the key;
   * once navigated, the key reads as the decoded absence, null.
   */
  method RemovalDeletesKey(search: Q.Query, hash: string, value: string)
    returns (before: Node, parsed: Q.Query, after: Node)
    requires hash == "" || hash[0] == '#'
    requires Q.Get(search, "q") == Some(value) && value != ""
    ensures before == Plain(Str(value))
    ensures Q.Entries(parsed, "q") == []
    ensures forall n :: n != "q" ==> Q.Entries(parsed, n) == Q.Entries(search, n)
    ensures after == Plain(Null)
  {
    var reg := map["q" := Flag(true)];
    var o := NavigationOptions(None, None, None, None);
    var e := new Engine(true, reg, ["q"], o);
    e.Write("q", Undefined, search, hash);
    assert e.DeriveAt("q", search, e.oldValues) == Derivation(Str(value), Some(Str(value)));
    before := e.Get("q", search);
    assert before == Plain(Str(value));
    assert e.batch == [Update("q", Undefined)];
    var navs;
    navs, parsed := FlushNow(e, "q", search, hash);
    assert Q.Get(parsed, "q") == None by {
      Q.GetIsFirstEntry(parsed, "q");
    }
    e.NavigationDone(0, true);
    assert e.OverrideOf("q") == Undefined;
    assert e.oldValues == map["q" := Str(value)];
    assert e.CurrentValue("q", parsed) == Null by {
      assert DecoderOf(reg, "q") == DefaultDecode;
    }
    assert Derive(Null, Str(value), Flag(true), true) == Derivation(Null, Some(Null)) by {
      assert !IsComplexEqual(Null, Str(value), None);
    }
    assert e.DeriveAt("q", parsed, e.oldValues) == Derivation(Null, Some(Null));
    after := e.Get("q", parsed);
    assert after == Plain(Null);
  }

  /** A navigation that fails leaves the override in place: the key keeps reading the written value. */
  method FailedNavigationKeepsOverride(search: Q.Query, hash: string, value: string)
    returns (read: Node, inFlight: seq<Navigation>)
    ensures read == Plain(Str(value))
    ensures inFlight == []
  {
    var reg := map["q" := Flag(true)];
    var e := new Engine(true, reg, ["q"], NavigationOptions(None, None, None, None));
    e.Write("q", Str(value), search, hash);
    e.FlushBatch();
    e.NavigationDone(0, false);
    read := e.Get("q", search);
    inFlight := e.inFlight;
  }

  /**
   * A nested write on an object-valued key: the root navigator adds the
   * property to a copy of the whole value, which becomes the override, so
   * the next read sees the new property beside the old one.
   */
  method NestedWriteReadsBack(search: Q.Query, hash: string, enc: Encoder, dec: Decoder)
    returns (read: Node, color: Node, size: Node)
    ensures read.Nested?
    ensures color == Plain(Str("red")) && size == Plain(Num(1))
  {
    var reg := map["filters" := Coded(Codec(enc, dec, Undefined, None))];
    var e := new Engine(true, reg, ["filters"], NavigationOptions(None, None, None, None));
    var node := SetThenRead(e, "filters", Obj([("size", Num(1))]), search, hash);
    read := AddColorThenRead(e, node, search, hash);
    color := NestedGet(read, "color");
    size := NestedGet(read, "size");
  }

  /** `filters.color = "red"` on the nested proxy over `{size: 1}`, then the key is read again. */
  method AddColorThenRead(e: Engine, node: Node, search: Q.Query, hash: string) returns (read: Node)
    requires e.Valid() && e.browser && e.registry.Keys == {"filters"}
    requires e.registry["filters"].Coded? && e.registry["filters"].codec.equalityFn.None?
    requires node == Nested(Obj([("size", Num(1))]), ["filters"], Obj([("size", Num(1))]))
    requires e.OverrideOf("filters") == Obj([("size", Num(1))])
    requires e.oldValues == map["filters" := Obj([("size", Num(1))])]
    modifies e
    ensures read == Nested(Obj(WithColor()), ["filters"], Obj(WithColor()))
  {
    ColorAdded();
    var r := e.SetNested(node, "color", Str("red"), search, hash);
    assert e.DeriveAt("filters", search, e.oldValues) == Derivation(Obj(WithColor()), Some(Obj(WithColor())));
    read := e.Get("filters", search);
  }

  function WithColor(): seq<(string, Value)> {
    [("size", Num(1)), ("color", Str("red"))]
  }

  /** The nested write appends the property; the result is a new value for the gate and reads back both properties. */
  lemma ColorAdded()
    ensures SetIn(Obj([("size", Num(1))]), [], "color", Str("red")) == Ok(Obj(WithColor()))
    ensures !IsComplexEqual(Obj(WithColor()), Obj([("size", Num(1))]), None)
    ensures Lookup(WithColor(), "color") == Str("red") && Lookup(WithColor(), "size") == Num(1)
  {
    var props := [("size", Num(1))];
    assert PutProp(props, "color", Str("red")) == WithColor();
    assert Normalize(Obj(WithColor())) == Obj(WithColor());
    assert Normalize(Obj(props)) == Obj(props);
    PutPropThenLookup(props, "color", Str("red"));
  }
}
