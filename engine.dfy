/// The synchronisation engine behind `queryParameters`: the same-tick batch
/// of `do_navigate`, its zero-delay flush timer, the per-key debounce
/// timers, the overrides that make a write visible at once, the derived
/// value of each registered key, the root navigator that turns a nested
/// write into a write of the whole top-level value, and the proxy's
/// get / set / has / toJSON rules.
///
/// Time and `goto` are not modelled as such: the batch timer firing, a
/// debounce timer firing and a `goto` promise settling are the events
/// FlushBatch, FireDebounce and NavigationDone, which the caller fires in
/// whatever order the event loop would. `window.location` (its search and
/// hash) and the page store's URL are passed in where the source reads them.
module Engine {
  import opened JsValues
  import Q = SearchQuery
  import opened Codecs

  // ---------------------------------------------------------------------
  // Navigation options (lines 95-99 and 330)
  // ---------------------------------------------------------------------

  /** The `NavigationOptions` object; None is a property left undefined. */
  datatype NavigationOptions = NavigationOptions(
    debounceHistory: Option<int>,
    pushHistory: Option<bool>,
    sort: Option<bool>,
    showDefaults: Option<bool>)

  function DebounceOf(o: NavigationOptions): int {
    if o.debounceHistory.Some? then o.debounceHistory.value else 0
  }

  function PushOf(o: NavigationOptions): bool {
    if o.pushHistory.Some? then o.pushHistory.value else true
  }

  function SortOf(o: NavigationOptions): bool {
    if o.sort.Some? then o.sort.value else true
  }

  function ShowDefaultsOf(o: NavigationOptions): bool {
    if o.showDefaults.Some? then o.showDefaults.value else true
  }

  /** An empty options object turns every behaviour on, with no debounce. */
  lemma EmptyOptionsDefaults()
    ensures var o := NavigationOptions(None, None, None, None);
            DebounceOf(o) == 0 && PushOf(o) && SortOf(o) && ShowDefaultsOf(o)
  {
  }

  // ---------------------------------------------------------------------
  // The batched updates (lines 102-122)
  // ---------------------------------------------------------------------

  /** One `do_navigate(name, value)` call waiting in the batch. */
  datatype Update = Update(name: string, value: Value)

  /** The text an update writes, or None when it removes the key. */
  function Encoded(u: Update, reg: Registry): Option<string> {
    if IsNullish(u.value) then None else EncoderOf(reg, u.name)(u.value)
  }

  /** The entries of its name an update leaves behind. */
  function Outcome(u: Update, reg: Registry): Q.Query {
    match Encoded(u, reg)
    case None => []
    case Some(s) => [(u.name, s)]
  }

  /** `to_batch` run on a query: delete on null or undefined, or when the encoder gives undefined; otherwise set. */
  function ApplyUpdate(q: Q.Query, u: Update, reg: Registry): Q.Query {
    match Encoded(u, reg)
    case None => Q.Delete(q, u.name)
    case Some(s) => Q.Set(q, u.name, s)
  }

  /** The whole batch run in insertion order. */
  function ApplyAll(q: Q.Query, us: seq<Update>, reg: Registry): Q.Query
    decreases |us|
  {
    if us == [] then q else ApplyUpdate(ApplyAll(q, us[..|us| - 1], reg), us[|us| - 1], reg)
  }

  /** The last update of the batch that names `n`. */
  function LastUpdate(us: seq<Update>, n: string): (r: Option<Update>)
    ensures r.Some? ==> r.value.name == n
    ensures r.Some? ==> exists i :: 0 <= i < |us| && us[i] == r.value && forall j :: i < j < |us| ==> us[j].name != n
    ensures r.None? ==> forall i :: 0 <= i < |us| ==> us[i].name != n
    decreases |us|
  {
    if us == [] then None
    else if us[|us| - 1].name == n then Some(us[|us| - 1])
    else LastUpdate(us[..|us| - 1], n)
  }

  /** An update replaces the entries of its own name by its outcome and leaves every other name alone. */
  lemma ApplyUpdateEffect(q: Q.Query, u: Update, reg: Registry)
    ensures Q.Entries(ApplyUpdate(q, u, reg), u.name) == Outcome(u, reg)
    ensures forall m :: m != u.name ==> Q.Entries(ApplyUpdate(q, u, reg), m) == Q.Entries(q, m)
  {
    Q.DeleteEffect(q, u.name);
    match Encoded(u, reg) {
      case None =>
      case Some(s) =>
        Q.SetEffect(q, u.name, s);
        Q.DeleteEffect(Q.Set(q, u.name, s), u.name);
    }
  }

  /** Running the same update twice is running it once. */
  lemma ApplyUpdateIdempotent(q: Q.Query, u: Update, reg: Registry)
    ensures ApplyUpdate(ApplyUpdate(q, u, reg), u, reg) == ApplyUpdate(q, u, reg)
  {
    match Encoded(u, reg) {
      case None =>
        Q.DeleteCommutes(q, u.name, u.name);
      case Some(s) =>
        Q.SetIdempotent(q, u.name, s);
    }
  }

  /**
   * Last write wins within a batch: each name ends with the outcome of the
   * batch's last update to it, and a name the batch does not touch keeps
   * its entries; `get` reads accordingly.
   */
  lemma {:induction false} LastWriteWins(q: Q.Query, us: seq<Update>, reg: Registry, n: string)
    ensures Q.Entries(ApplyAll(q, us, reg), n) ==
      match LastUpdate(us, n) case None => Q.Entries(q, n) case Some(u) => Outcome(u, reg)
    ensures Q.Get(ApplyAll(q, us, reg), n) ==
      match LastUpdate(us, n) case None => Q.Get(q, n) case Some(u) => Encoded(u, reg)
  {
    if us != [] {
      var front := us[..|us| - 1];
      LastWriteWins(q, front, reg, n);
      ApplyUpdateEffect(ApplyAll(q, front, reg), us[|us| - 1], reg);
    }
    Q.GetIsFirstEntry(q, n);
    Q.GetIsFirstEntry(ApplyAll(q, us, reg), n);
  }

  /** `batched_updates.forEach(batched => batched(query))` */
  method ApplyBatch(q: Q.Query, us: seq<Update>, reg: Registry) returns (r: Q.Query)
    ensures r == ApplyAll(q, us, reg)
  {
    r := q;
    for i := 0 to |us|
      invariant r == ApplyAll(q, us[..i], reg)
    {
      assert us[..i + 1][..i] == us[..i];
      r := ApplyUpdate(r, us[i], reg);
    }
    assert us[..|us|] == us;
  }

  // ---------------------------------------------------------------------
  // The navigation target (lines 126-132)
  // ---------------------------------------------------------------------

  datatype GotoOptions = GotoOptions(keepFocus: bool, noScroll: bool, replaceState: bool)

  /** GOTO_OPTIONS_PUSH or GOTO_OPTIONS: both keep focus and scroll; only the second replaces the history entry. */
  function GotoOptionsFor(push: bool): (g: GotoOptions)
    ensures g.keepFocus && g.noScroll
    ensures g.replaceState <==> !push
  {
    if push then GotoOptions(true, true, false) else GotoOptions(true, true, true)
  }

  function Ordered(q: Q.Query, sort: bool): Q.Query {
    if sort then Q.Sort(q) else q
  }

  /** `?${query}${hash}` */
  function Target(q: Q.Query, hash: string, sort: bool): string {
    "?" + Q.Serialize(Ordered(q, sort)) + hash
  }

  /** Reads a target back: the query text up to the first `#`, and the fragment. */
  function SplitTarget(t: string): Option<(Q.Query, string)> {
    if t == [] || t[0] != '?' then None
    else
      var body := t[1..];
      var cut := match Q.IndexOf(body, '#') case None => |body| case Some(i) => i;
      match Q.ParseQuery(body[..cut])
      case None => None
      case Some(q) => Some((q, body[cut..]))
  }

  /**
   * The target carries the whole query and the fragment: split back, it
   * gives the (sorted, when sorting is on) query and the hash, and every
   * name has the entries it had before sorting.
   */
  lemma TargetRoundTrip(q: Q.Query, hash: string, sort: bool)
    requires hash == "" || hash[0] == '#'
    ensures SplitTarget(Target(q, hash, sort)) == Some((Ordered(q, sort), hash))
    ensures forall n :: Q.Entries(Ordered(q, sort), n) == Q.Entries(q, n)
  {
    var o := Ordered(q, sort);
    Q.SerializeAlphabet(o);
    Q.SerializeRoundTrip(o);
    Q.SortSpec(q);
    SplitAtFragment(Q.Serialize(o), hash);
  }

  /** A query text free of `#` followed by a fragment splits at the fragment. */
  lemma SplitAtFragment(s: string, hash: string)
    requires forall j :: 0 <= j < |s| ==> s[j] != '#'
    requires hash == "" || hash[0] == '#'
    ensures SplitTarget("?" + s + hash) ==
      match Q.ParseQuery(s) case None => None case Some(q) => Some((q, hash))
  {
    var t := "?" + s + hash;
    var body := t[1..];
    assert body == s + hash;
    if hash == "" {
      assert body == s;
      assert Q.IndexOf(body, '#').None?;
      assert body[..|body|] == s;
    } else {
      assert body[|s|] == '#';
      assert forall j :: 0 <= j < |s| ==> body[j] != '#';
      assert Q.IndexOf(body, '#') == Some(|s|);
      assert body[..|s|] == s;
      assert body[|s|..] == hash;
    }
  }

  /**
   * The navigation started for a flushed batch: its target splits back
   * into the (sorted, when sorting is on) batch result and the write-time
   * fragment, and for every name it carries the outcome of the batch's
   * last update to that name, or the captured query's entries when the
   * batch does not touch it.
   */
  lemma LaunchCarriesBatch(name: string, search: Q.Query, us: seq<Update>, reg: Registry, hash: string,
                           o: NavigationOptions, n: string)
    requires hash == "" || hash[0] == '#'
    ensures var q := ApplyAll(search, us, reg);
            var nav := Launch(Pending(name, q, hash), o);
            && nav.name == name
            && nav.goto == GotoOptionsFor(PushOf(o))
            && SplitTarget(nav.target) == Some((Ordered(q, SortOf(o)), hash))
            && Q.Entries(Ordered(q, SortOf(o)), n) ==
                 (match LastUpdate(us, n) case None => Q.Entries(search, n) case Some(u) => Outcome(u, reg))
            && Q.Get(Ordered(q, SortOf(o)), n) ==
                 (match LastUpdate(us, n) case None => Q.Get(search, n) case Some(u) => Encoded(u, reg))
  {
    var q := ApplyAll(search, us, reg);
    TargetRoundTrip(q, hash, SortOf(o));
    LastWriteWins(search, us, reg, n);
    Q.GetIsFirstEntry(q, n);
    Q.GetIsFirstEntry(Ordered(q, SortOf(o)), n);
  }

  /** A navigation carries the captured query's entries for every name its batch does not touch. */
  lemma LaunchKeepsUntouched(search: Q.Query, us: seq<Update>, reg: Registry, sort: bool)
    ensures forall n :: (forall i :: 0 <= i < |us| ==> us[i].name != n) ==>
      Q.Entries(Ordered(ApplyAll(search, us, reg), sort), n) == Q.Entries(search, n)
  {
    var q := ApplyAll(search, us, reg);
    Q.SortSpec(q);
    forall n | forall i :: 0 <= i < |us| ==> us[i].name != n
      ensures Q.Entries(Ordered(q, sort), n) == Q.Entries(search, n)
    {
      LastWriteWins(search, us, reg, n);
    }
  }

  // ---------------------------------------------------------------------
  // Timers, navigations and the proxy's nodes
  // ---------------------------------------------------------------------

  /** What a pending timer's callback captured: the name of the last write, the query and the fragment. */
  datatype Pending = Pending(name: string, query: Q.Query, hash: string)

  /** A `goto` call that has started. */
  datatype Navigation = Navigation(name: string, target: string, goto: GotoOptions)

  /** `navigate()`: sort if asked, then go to the target with the history mode asked for. */
  function Launch(p: Pending, o: NavigationOptions): Navigation {
    Navigation(p.name, Target(p.query, p.hash, SortOf(o)), GotoOptionsFor(PushOf(o)))
  }

  /**
   * What a `get` on the proxy gives: a plain value, a nested proxy over an
   * object or array (with its path and the root its navigator writes
   * through), or the `toJSON` function.
   */
  datatype Node = Plain(value: Value) | Nested(target: Value, path: seq<string>, root: Value) | ToJsonHook

  /** A `has` query: the RAW symbol or a string key. */
  datatype PropKey = Raw | Named(name: string)

  /** `name in v` for the own properties of a value (the prototype chain is not modelled). */
  predicate HasOwn(v: Value, name: string) {
    match v
    case Obj(ps) => PropIndex(ps, name).Some?
    case Arr(es) => name == "length" || (ArrayIndex(name).Some? && ArrayIndex(name).value < |es|)
    case _ => false
  }

  /** The proxy's `has` trap (lines 285-288) over `target`. */
  predicate ProxyHas(target: Value, k: PropKey) {
    match k
    case Raw => true
    case Named(n) => HasOwn(target, n)
  }

  /**
   * The root proxy's target is an empty object, so `in` finds only RAW on
   * it; over an array, `in` finds `length` and exactly the indices below it.
   */
  lemma HasOnTargets(k: PropKey, es: seq<Value>, i: nat)
    ensures ProxyHas(Obj([]), k) <==> k.Raw?
    ensures ProxyHas(Arr(es), Named("length"))
    ensures i < MaxArrayLength ==> (ProxyHas(Arr(es), Named(NatToString(i))) <==> i < |es|)
  {
    if i < MaxArrayLength {
      IndexOfNatString(i);
    }
  }

  /** A nested proxy's `get` (line 209): the reflected value, never wrapped in a further proxy. */
  function NestedGet(n: Node, key: string): (r: Node)
    requires n.Nested?
    ensures r.Plain?
    ensures n.target.Obj? ==> r.value == Lookup(n.target.props, key)
    ensures n.target.Arr? && key == "length" ==> r.value == Num(|n.target.elems|)
    ensures n.target.Arr? && ArrayIndex(key).Some? ==>
      r.value == if ArrayIndex(key).value < |n.target.elems| then n.target.elems[ArrayIndex(key).value] else Undefined
  {
    Plain(GetProp(n.target, key))
  }

  /** `old_values.get(key)`, with Undefined for a missing entry. */
  function CachedIn(cache: map<string, Value>, key: string): Value {
    if key in cache then cache[key] else Undefined
  }

  /** `old_values` after a recomputation of `key`. */
  function StoreIn(cache: map<string, Value>, key: string, d: Derivation): (r: map<string, Value>)
    ensures CachedIn(r, key) == CacheAfter(CachedIn(cache, key), d)
    ensures forall k :: k != key ==> CachedIn(r, k) == CachedIn(cache, k)
  {
    if d.store.Some? then cache[key := d.store.value] else cache
  }

  // ---------------------------------------------------------------------
  // toJSON's merge of the unregistered names (lines 231-235)
  // ---------------------------------------------------------------------

  /** Every pair of the live query whose name is not registered overwrites or adds a string property. */
  function MergeUnregistered(props: seq<(string, Value)>, reg: Registry, entries: Q.Query): seq<(string, Value)>
    decreases |entries|
  {
    if entries == [] then props
    else
      var e := entries[|entries| - 1];
      var rest := MergeUnregistered(props, reg, entries[..|entries| - 1]);
      if e.0 in reg then rest else PutProp(rest, e.0, Str(e.1))
  }

  /** The value of the last pair named `n`. */
  function LastValue(entries: Q.Query, n: string): (r: Option<string>)
    ensures r.Some? ==>
      exists i :: 0 <= i < |entries| && entries[i] == (n, r.value) && forall j :: i < j < |entries| ==> entries[j].0 != n
    ensures r.None? ==> forall i :: 0 <= i < |entries| ==> entries[i].0 != n
    decreases |entries|
  {
    if entries == [] then None
    else if entries[|entries| - 1].0 == n then Some(entries[|entries| - 1].1)
    else LastValue(entries[..|entries| - 1], n)
  }

  /**
   * The merge leaves a registered key's value alone, and gives an
   * unregistered name the value of its last pair in the live query.
   */
  lemma {:induction false} MergeEffect(props: seq<(string, Value)>, reg: Registry, entries: Q.Query, k: string)
    ensures k in reg ==> Lookup(MergeUnregistered(props, reg, entries), k) == Lookup(props, k)
    ensures k !in reg ==> (Lookup(MergeUnregistered(props, reg, entries), k) ==
      match LastValue(entries, k) case None => Lookup(props, k) case Some(s) => Str(s))
  {
    if entries != [] {
      var e := entries[|entries| - 1];
      var front := entries[..|entries| - 1];
      MergeEffect(props, reg, front, k);
      if e.0 !in reg {
        PutPropThenLookup(MergeUnregistered(props, reg, front), e.0, Str(e.1));
      }
    }
  }

  /** The loop of lines 231-235: each pair of the live query, in order, merged into the snapshot. */
  method MergeLive(props: seq<(string, Value)>, reg: Registry, location: Q.Query) returns (merged: seq<(string, Value)>)
    ensures merged == MergeUnregistered(props, reg, location)
  {
    merged := props;
    for j := 0 to |location|
      invariant merged == MergeUnregistered(props, reg, location[..j])
    {
      assert location[..j + 1][..j] == location[..j];
      var e := location[j];
      if e.0 !in reg {
        merged := PutProp(merged, e.0, Str(e.1));
      }
    }
    assert location[..|location|] == location;
  }

  /** Without unregistered names in the live query, toJSON is the snapshot of the registered keys. */
  lemma {:induction false} MergeOnlyRegistered(props: seq<(string, Value)>, reg: Registry, entries: Q.Query)
    requires forall i :: 0 <= i < |entries| ==> entries[i].0 in reg
    ensures MergeUnregistered(props, reg, entries) == props
  {
    if entries != [] {
      MergeOnlyRegistered(props, reg, entries[..|entries| - 1]);
    }
  }

  // ---------------------------------------------------------------------
  // One `queryParameters` instance and the module-level batch state
  // ---------------------------------------------------------------------

  class Engine {
    /** `browser` from the environment: false while rendering on the server. */
    const browser: bool
    const registry: Registry
    /** The registered keys in the order `for (const key in options)` visits them. */
    const keys: seq<string>
    const options: NavigationOptions

    var overrides: map<string, Value>
    /** `old_values` */
    var oldValues: map<string, Value>
    /** `batched_updates`, in insertion order. */
    var batch: seq<Update>
    /** `batch_timeout` while it has not fired, with what its callback captured. */
    var flushTimer: Option<Pending>
    /** The timers of `debounced_timeouts` that have not fired, by name. */
    var debounced: map<string, Pending>
    /** `goto` calls whose promise has not settled, in the order they started. */
    var inFlight: seq<Navigation>

    ghost predicate Valid()
      reads this
    {
      && (forall i, j :: 0 <= i < j < |keys| ==> keys[i] != keys[j])
      && (forall k :: k in registry <==> k in keys)
      // a batch is pending exactly while the flush timer is
      && (flushTimer.Some? <==> batch != [])
      // the timer belongs to the batch's last write
      && (batch != [] ==> batch[|batch| - 1].name == flushTimer.value.name)
      // at most one debounce timer per name
      && (forall n :: n in debounced ==> debounced[n].name == n)
      && (DebounceOf(options) == 0 ==> debounced == map[])
      // on the server nothing is ever written
      && (!browser ==> overrides == map[] && batch == [] && debounced == map[] && inFlight == [])
    }

    constructor (browser: bool, registry: Registry, keys: seq<string>, options: NavigationOptions)
      requires forall i, j :: 0 <= i < j < |keys| ==> keys[i] != keys[j]
      requires forall k :: k in registry <==> k in keys
      ensures Valid()
      ensures this.browser == browser && this.registry == registry && this.keys == keys && this.options == options
      ensures overrides == map[] && oldValues == map[] && batch == [] && flushTimer == None
      ensures debounced == map[] && inFlight == []
    {
      this.browser := browser;
      this.registry := registry;
      this.keys := keys;
      this.options := options;
      overrides := map[];
      oldValues := map[];
      batch := [];
      flushTimer := None;
      debounced := map[];
      inFlight := [];
    }

    /** `overrides[name]` */
    function OverrideOf(name: string): Value
      reads this`overrides
    {
      if name in overrides then overrides[name] else Undefined
    }

    /** `overrides[name] ?? decode(page.url.searchParams.get(name))` */
    function CurrentValue(name: string, page: Q.Query): Value
      reads this`overrides
    {
      Coalesce(OverrideOf(name), DecoderOf(registry, name)(Q.Get(page, name)))
    }

    /** The derived value of a registered key against the page query and a given `old_values`. */
    function DeriveAt(key: string, page: Q.Query, cache: map<string, Value>): Derivation
      reads this`overrides
      requires key in registry
    {
      Derive(CurrentValue(key, page), CachedIn(cache, key), registry[key], browser)
    }

    /** The snapshot of the cache object: each key in order with its derived value. */
    function Snapshot(ks: seq<string>, page: Q.Query, cache: map<string, Value>): (r: seq<(string, Value)>)
      reads this`overrides
      requires forall k :: k in ks ==> k in registry
      ensures |r| == |ks|
      ensures forall i :: 0 <= i < |ks| ==> r[i] == (ks[i], DeriveAt(ks[i], page, cache).result)
      decreases |ks|
    {
      if ks == [] then []
      else
        var k := ks[|ks| - 1];
        Snapshot(ks[..|ks| - 1], page, cache) + [(k, DeriveAt(k, page, cache).result)]
    }

    /** `old_values` after deriving each of `ks` in order. */
    function CacheAfterAll(ks: seq<string>, page: Q.Query, cache: map<string, Value>): map<string, Value>
      reads this`overrides
      requires forall k :: k in ks ==> k in registry
      decreases |ks|
    {
      if ks == [] then cache
      else
        var k := ks[|ks| - 1];
        var before := CacheAfterAll(ks[..|ks| - 1], page, cache);
        StoreIn(before, k, DeriveAt(k, page, before))
    }

    /** Deriving some keys leaves the cache entry of every other key as it was. */
    lemma {:induction false} CacheAfterAllOutside(ks: seq<string>, page: Q.Query, cache: map<string, Value>, k: string)
      requires forall x :: x in ks ==> x in registry
      requires k !in ks
      ensures CachedIn(CacheAfterAll(ks, page, cache), k) == CachedIn(cache, k)
    {
      if ks != [] {
        CacheAfterAllOutside(ks[..|ks| - 1], page, cache, k);
      }
    }

    /**
     * On distinct keys the snapshot is a table: each key reads its own
     * derived value.
     */
    lemma SnapshotLookup(ks: seq<string>, page: Q.Query, cache: map<string, Value>, i: nat)
      requires forall k :: k in ks ==> k in registry
      requires forall a, b :: 0 <= a < b < |ks| ==> ks[a] != ks[b]
      requires i < |ks|
      ensures Lookup(Snapshot(ks, page, cache), ks[i]) == DeriveAt(ks[i], page, cache).result
    {
      var r := Snapshot(ks, page, cache);
      assert r[i].0 == ks[i];
      assert forall j :: 0 <= j < |r| && j != i ==> r[j].0 != ks[i];
      assert PropIndex(r, ks[i]) == Some(i);
    }

    // ---- do_navigate and its timers ----

    /**
     * `do_navigate(name, value)` (lines 84-118): on the browser it sets the
     * override, adds the update to the batch and restarts the batch timer,
     * which captures this call's name, `window.location.search` and
     * `window.location.hash`; on the server it does nothing.
     */
    method Write(name: string, value: Value, search: Q.Query, hash: string)
      requires Valid()
      modifies this
      ensures Valid()
      ensures !browser ==> batch == old(batch) && overrides == old(overrides) && flushTimer == old(flushTimer)
      ensures browser ==> overrides == old(overrides)[name := value]
      ensures browser ==> batch == old(batch) + [Update(name, value)]
      ensures browser ==> flushTimer == Some(Pending(name, search, hash))
      ensures debounced == old(debounced) && inFlight == old(inFlight) && oldValues == old(oldValues)
    {
      if !browser {
        return;
      }
      overrides := overrides[name := value];
      batch := batch + [Update(name, value)];
      flushTimer := Some(Pending(name, search, hash));
    }

    /**
     * The batch timer fires (lines 119-147): the whole batch is applied to
     * the captured query, the last writer's debounce timer is cancelled,
     * and its navigation starts at once, or under a fresh debounce timer.
     */
    method FlushBatch()
      requires Valid() && flushTimer.Some?
      modifies this
      ensures Valid()
      ensures batch == [] && flushTimer == None
      ensures var p := old(flushTimer.value);
              var nav := Pending(p.name, ApplyAll(p.query, old(batch), registry), p.hash);
              if DebounceOf(options) == 0 then
                inFlight == old(inFlight) + [Launch(nav, options)] && debounced == old(debounced)
              else
                inFlight == old(inFlight) && debounced == old(debounced)[p.name := nav]
      ensures overrides == old(overrides) && oldValues == old(oldValues)
    {
      var p := flushTimer.value;
      var q := ApplyBatch(p.query, batch, registry);
      debounced := debounced - {p.name};
      var nav := Pending(p.name, q, p.hash);
      if DebounceOf(options) == 0 {
        inFlight := inFlight + [Launch(nav, options)];
      } else {
        debounced := debounced[p.name := nav];
      }
      batch := [];
      flushTimer := None;
    }

    /** A debounce timer fires: its navigation starts. */
    method FireDebounce(name: string)
      requires Valid() && name in debounced
      modifies this
      ensures Valid()
      ensures inFlight == old(inFlight) + [Launch(old(debounced)[name], options)]
      ensures debounced == old(debounced) - {name}
      ensures overrides == old(overrides) && batch == old(batch) && flushTimer == old(flushTimer)
      ensures oldValues == old(oldValues)
    {
      inFlight := inFlight + [Launch(debounced[name], options)];
      debounced := debounced - {name};
    }

    /**
     * The `goto` of the `i`-th started navigation settles (lines 129-134):
     * on success the override of its name is reset to undefined; on
     * failure it stays.
     */
    method NavigationDone(i: nat, succeeded: bool)
      requires Valid() && i < |inFlight|
      modifies this
      ensures Valid()
      ensures inFlight == old(inFlight[..i] + inFlight[i + 1..])
      ensures overrides == if succeeded then old(overrides)[old(inFlight[i]).name := Undefined] else old(overrides)
      ensures batch == old(batch) && flushTimer == old(flushTimer) && debounced == old(debounced)
      ensures oldValues == old(oldValues)
    {
      var nav := inFlight[i];
      inFlight := inFlight[..i] + inFlight[i + 1..];
      if succeeded {
        overrides := overrides[nav.name := Undefined];
      }
    }

    // ---- the derived values ----

    /**
     * Reads the derived value of a registered key (lines 355-392): it
     * returns what Derive decides and stores the new `old_values` entry
     * when the gate lets the value through.
     */
    method DeriveKey(key: string, page: Q.Query) returns (r: Value)
      requires key in registry
      modifies this`oldValues
      ensures var d := old(DeriveAt(key, page, oldValues));
              r == d.result && oldValues == StoreIn(old(oldValues), key, d)
    {
      var d := Derive(CurrentValue(key, page), CachedIn(oldValues, key), registry[key], browser);
      if d.store.Some? {
        oldValues := oldValues[key := d.store.value];
      }
      r := d.result;
    }

    /**
     * The key's `$effect.pre` (lines 394-409), run only on the browser:
     * when the derived value is null or undefined and the codec has a
     * default, the default is written to the URL (if `showDefaults`) and
     * becomes the override.
     */
    method ApplyDefault(key: string, page: Q.Query, search: Q.Query, hash: string)
      requires Valid() && browser && key in registry
      modifies this
      ensures Valid()
      ensures var d := old(DeriveAt(key, page, oldValues));
              oldValues == StoreIn(old(oldValues), key, d) &&
              if ShouldDefault(d.result, registry[key]) then
                var dv := registry[key].codec.defaultValue;
                overrides == old(overrides)[key := dv] &&
                batch == (if ShowDefaultsOf(options) then old(batch) + [Update(key, dv)] else old(batch)) &&
                flushTimer == (if ShowDefaultsOf(options) then Some(Pending(key, search, hash)) else old(flushTimer))
              else
                overrides == old(overrides) && batch == old(batch) && flushTimer == old(flushTimer)
      ensures debounced == old(debounced) && inFlight == old(inFlight)
    {
      var der := DeriveKey(key, page);
      var opt := registry[key];
      if ShouldDefault(der, opt) {
        if ShowDefaultsOf(options) {
          Write(key, opt.codec.defaultValue, search, hash);
        }
        overrides := overrides[key := opt.codec.defaultValue];
      }
    }

    // ---- the proxy ----

    /**
     * The root proxy's `get` (lines 203-264): `toJSON` gives the hook;
     * otherwise the key's derived value, falling back to the decoded page
     * query, wrapped in a nested proxy when it is an object or array.
     */
    method Get(name: string, page: Q.Query) returns (n: Node)
      modifies this`oldValues
      ensures name == "toJSON" ==> n == ToJsonHook && oldValues == old(oldValues)
      ensures name != "toJSON" ==>
        var cached := if name in registry then old(DeriveAt(name, page, oldValues)).result else Undefined;
        var value := Coalesce(cached, DecoderOf(registry, name)(Q.Get(page, name)));
        n == (if value.Arr? || value.Obj? then Nested(value, [name], value) else Plain(value)) &&
        oldValues == if name in registry then old(StoreIn(oldValues, name, DeriveAt(name, page, oldValues)))
                     else old(oldValues)
    {
      if name == "toJSON" {
        return ToJsonHook;
      }
      var cached := Undefined;
      if name in registry {
        cached := DeriveKey(name, page);
      }
      var value := Coalesce(cached, DecoderOf(registry, name)(Q.Get(page, name)));
      if value.Arr? || value.Obj? {
        n := Nested(value, [name], value);
      } else {
        n := Plain(value);
      }
    }

    /** The root proxy's `set` (lines 266-283): a write of the top-level key; it always reports success. */
    method Set(name: string, value: Value, search: Q.Query, hash: string) returns (ok: bool)
      requires Valid()
      modifies this
      ensures ok
      ensures Valid()
      ensures !browser ==> batch == old(batch) && overrides == old(overrides) && flushTimer == old(flushTimer)
      ensures browser ==> overrides == old(overrides)[name := value]
      ensures browser ==> batch == old(batch) + [Update(name, value)]
      ensures browser ==> flushTimer == Some(Pending(name, search, hash))
      ensures debounced == old(debounced) && inFlight == old(inFlight) && oldValues == old(oldValues)
    {
      Write(name, value, search, hash);
      ok := true;
    }

    /**
     * A nested proxy's `set` of `key` (lines 266-274 with the root
     * navigator of lines 155-181): the top-level value is copied from the
     * override (or the root the proxy was made from), the assignment runs
     * along the path inside the copy, and the whole copy is written under
     * the top-level name. An assignment that throws writes nothing.
     */
    method SetNested(n: Node, key: string, value: Value, search: Q.Query, hash: string) returns (r: Result<bool>)
      requires Valid() && n.Nested? && |n.path| >= 1
      modifies this
      ensures Valid()
      ensures var name := n.path[0];
              var updated := SetIn(Coalesce(old(OverrideOf(name)), n.root), n.path[1..], key, value);
              if !browser then r == Ok(true) && overrides == old(overrides) && batch == old(batch)
              else if updated.Thrown? then
                r == Thrown(updated.error) && overrides == old(overrides) && batch == old(batch) &&
                flushTimer == old(flushTimer)
              else
                r == Ok(true) && overrides == old(overrides)[name := updated.value] &&
                batch == old(batch) + [Update(name, updated.value)] &&
                flushTimer == Some(Pending(name, search, hash))
      ensures debounced == old(debounced) && inFlight == old(inFlight) && oldValues == old(oldValues)
    {
      if !browser {
        return Ok(true);
      }
      var name := n.path[0];
      var base := Coalesce(OverrideOf(name), n.root);
      var updated := AssignAtPath(base, n.path[1..], key, value);
      if updated.Thrown? {
        return Thrown(updated.error);
      }
      // the copy handed on after a `length` write is the same value
      Write(name, updated.value, search, hash);
      r := Ok(true);
    }

    /**
     * The `toJSON` hook (lines 221-237): the snapshot of every registered
     * key's derived value, in registration order; on the browser the live
     * query's unregistered names are merged in as strings.
     */
    method ToJson(page: Q.Query, location: Q.Query) returns (v: Value)
      requires Valid()
      modifies this`oldValues
      ensures var props := old(Snapshot(keys, page, oldValues));
              v == Obj(if browser then MergeUnregistered(props, registry, location) else props)
      ensures oldValues == old(CacheAfterAll(keys, page, oldValues))
    {
      var props := DeriveAll(page);
      if !browser {
        return Obj(props);
      }
      var merged := MergeLive(props, registry, location);
      v := Obj(merged);
    }

    /** Lines 222-229: each registered key derived in order, its value put in the snapshot. */
    method DeriveAll(page: Q.Query) returns (props: seq<(string, Value)>)
      requires forall i, j :: 0 <= i < j < |keys| ==> keys[i] != keys[j]
      requires forall k :: k in keys ==> k in registry
      modifies this`oldValues
      ensures props == old(Snapshot(keys, page, oldValues))
      ensures oldValues == old(CacheAfterAll(keys, page, oldValues))
    {
      props := [];
      ghost var cache0 := oldValues;
      for i := 0 to |keys|
        invariant props == Snapshot(keys[..i], page, cache0)
        invariant oldValues == CacheAfterAll(keys[..i], page, cache0)
      {
        DeriveStep(i, page, cache0);
        var x := DeriveKey(keys[i], page);
        props := props + [(keys[i], x)];
      }
      assert keys[..|keys|] == keys;
    }

    /**
     * One more key derived: the snapshot grows by its value, which the keys
     * derived before it cannot have affected, and the cache by its entry.
     */
    lemma DeriveStep(i: nat, page: Q.Query, cache: map<string, Value>)
      requires forall a, b :: 0 <= a < b < |keys| ==> keys[a] != keys[b]
      requires forall k :: k in keys ==> k in registry
      requires i < |keys|
      ensures var before := CacheAfterAll(keys[..i], page, cache);
              && DeriveAt(keys[i], page, before) == DeriveAt(keys[i], page, cache)
              && Snapshot(keys[..i + 1], page, cache) ==
                   Snapshot(keys[..i], page, cache) + [(keys[i], DeriveAt(keys[i], page, before).result)]
              && CacheAfterAll(keys[..i + 1], page, cache) == StoreIn(before, keys[i], DeriveAt(keys[i], page, before))
    {
      assert keys[i] !in keys[..i];
      CacheAfterAllOutside(keys[..i], page, cache, keys[i]);
      assert keys[..i + 1][..i] == keys[..i];
    }
  }
}
