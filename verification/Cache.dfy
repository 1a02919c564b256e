/** The versioned redaction cache (src/redact/cache.rs). */
module Cache {
  import opened Bytes
  import opened Registry
  import opened Span
  import opened Scanner
  import opened Lru
  import Window

  /** The keyed digest of the registry version and the bytes, taken as injective. */
  datatype Key = Key(version: nat, text: bytes)

  datatype CacheEntry = NoSecret | Spans(spans: seq<RedactionSpan>) | Sanitized(text: bytes, ids: seq<nat>)

  datatype SanitizedString = SanitizedString(text: bytes, ids: seq<nat>)

  datatype CacheState = CacheState(version: nat, entries: map<Key, CacheEntry>, order: seq<Key>)

  const EMPTY_CACHE := CacheState(0, map[], [])

  function SecretIds(spans: seq<RedactionSpan>): (ids: seq<nat>)
    ensures |ids| == |spans| && forall i :: 0 <= i < |ids| ==> ids[i] == spans[i].id
  {
    seq(|spans|, i requires 0 <= i < |spans| => spans[i].id)
  }

  // ----- the store: a map and a queue of the same keys

  /** The queue lists the keys of the map once each, within the capacity. */
  ghost predicate WellKept(c: CacheState, capacity: nat) {
    && NoDup(c.order)
    && (forall k :: k in c.order <==> k in c.entries)
    && |c.order| <= capacity
    && (forall k :: k in c.entries ==> k.version == c.version)
  }

  function Synced(c: CacheState, version: nat): CacheState {
    if c.version == version then c else CacheState(version, map[], [])
  }

  /** After a hit. */
  function Used(c: CacheState, key: Key): CacheState {
    c.(order := Without(c.order, key) + [key])
  }

  /** The part of a map under the listed keys. */
  function Restrict(m: map<Key, CacheEntry>, ks: seq<Key>): map<Key, CacheEntry>
    requires forall k :: k in ks ==> k in m
  {
    map k | k in ks :: m[k]
  }

  /** After an insert: the most recent keys survive, and the inserted key holds the new entry. */
  function Stored(c: CacheState, capacity: nat, key: Key, entry: CacheEntry): CacheState
    requires forall k :: k in c.order ==> k in c.entries
  {
    var order := Touched(c.order, capacity, key);
    TouchedMembers(c.order, capacity, key);
    CacheState(c.version, Restrict(c.entries[key := entry], order), order)
  }

  lemma {:induction false} RestrictSize(m: map<Key, CacheEntry>, ks: seq<Key>)
    requires NoDup(ks) && forall k :: k in ks ==> k in m
    ensures |Restrict(m, ks)| == |ks|
  {
    if ks == [] {
      assert Restrict(m, ks) == map[];
    } else {
      RestrictSize(m, ks[1..]);
      RestrictDrop(m, ks);
      assert Restrict(m, ks) == Restrict(m, ks[1..])[ks[0] := m[ks[0]]];
    }
  }

  lemma RestrictDrop(m: map<Key, CacheEntry>, ks: seq<Key>)
    requires ks != [] && NoDup(ks) && forall k :: k in ks ==> k in m
    ensures ks[0] in Restrict(m, ks)
    ensures forall k :: k in ks[1..] ==> k in m
    ensures Restrict(m, ks) - {ks[0]} == Restrict(m, ks[1..]) && ks[0] !in Restrict(m, ks[1..])
  {
    assert ks[0] !in ks[1..];
    assert forall k :: k in ks <==> k == ks[0] || k in ks[1..];
  }

  lemma TouchedMembers(order: seq<Key>, capacity: nat, key: Key)
    ensures forall k :: k in Touched(order, capacity, key) ==> k == key || k in order
  {
    WithoutMembers(order, key);
  }

  /** A hit and an insert move the key to the back of the queue in the same way. */
  lemma UsedOrder(c: CacheState, capacity: nat, key: Key)
    requires WellKept(c, capacity) && key in c.entries
    ensures Used(c, key).order == Touched(c.order, capacity, key)
    ensures WellKept(Used(c, key), capacity)
  {
    WithoutNoDup(c.order, key);
    WithoutMembers(c.order, key);
  }

  lemma StoredKept(c: CacheState, capacity: nat, key: Key, entry: CacheEntry)
    requires WellKept(c, capacity) && key.version == c.version
    ensures WellKept(Stored(c, capacity, key, entry), capacity)
    ensures capacity > 0 ==> key in Stored(c, capacity, key, entry).entries
  {
    WithoutNoDup(c.order, key);
    WithoutMembers(c.order, key);
    TouchedMembers(c.order, capacity, key);
    var all := Without(c.order, key) + [key];
    assert NoDup(all);
    var order := LastN(all, capacity);
    assert NoDup(order);
    if capacity > 0 {
      assert order[|order| - 1] == key;
    }
  }

  // ----- what the cache answers

  /** What a scan of `text` puts into the cache. */
  function Fresh(text: bytes, es: seq<Entry>): CacheEntry {
    if Scan(text, es) == [] then NoSecret else Spans(Scan(text, es))
  }

  function Plain(text: bytes, spans: seq<RedactionSpan>): SanitizedString
    requires Fits(text, 0, spans)
  {
    SanitizedString(Applied(text, 0, spans), SecretIds(spans))
  }

  /** The answer of `sanitize_string` from an entry. */
  function Answer(entry: CacheEntry, text: bytes): SanitizedString
    requires entry.Spans? ==> Fits(text, 0, entry.spans)
  {
    match entry
    case NoSecret => SanitizedString(text, [])
    case Spans(spans) => Plain(text, spans)
    case Sanitized(out, ids) => SanitizedString(out, ids)
  }

  /** Every entry that is not an object's came from a scan at the cache's own version. */
  ghost predicate Agrees(c: CacheState, es: seq<Entry>) {
    && c.version <= |es|
    && forall k :: k in c.entries && !c.entries[k].Sanitized? ==> c.entries[k] == Fresh(k.text, es[..c.version])
  }

  lemma FreshAnswer(keys: SessionKeys, text: bytes, es: seq<Entry>)
    requires WellFormed(keys, es)
    ensures Fits(text, 0, Scan(text, es))
    ensures Answer(Fresh(text, es), text) == Plain(text, Scan(text, es))
  {
    ScanIsChoice(keys, text, es);
    assert text[0..] == text;
  }

  /** A lookup that takes any entry (`sanitize_string`). */
  function Looked(c: CacheState, capacity: nat, key: Key, scanned: CacheEntry): (CacheState, CacheEntry)
    requires forall k :: k in c.order ==> k in c.entries
  {
    if key in c.entries then (Used(c, key), c.entries[key]) else (Stored(c, capacity, key, scanned), scanned)
  }

  /** A lookup that does not take an object's entry (`spans_for_window`). */
  function WindowLooked(c: CacheState, capacity: nat, key: Key, scanned: CacheEntry): (CacheState, CacheEntry)
    requires forall k :: k in c.order ==> k in c.entries
  {
    if key in c.entries && !c.entries[key].Sanitized? then (Used(c, key), c.entries[key])
    else (Stored(c, capacity, key, scanned), scanned)
  }

  /** The cache is well kept, synced with the registry, and agrees with it. */
  ghost predicate Current(c: CacheState, capacity: nat, es: seq<Entry>) {
    WellKept(c, capacity) && Agrees(c, es) && c.version == |es|
  }

  lemma StoredCurrent(c: CacheState, capacity: nat, es: seq<Entry>, text: bytes, entry: CacheEntry)
    requires Current(c, capacity, es)
    requires entry.Sanitized? || entry == Fresh(text, es)
    ensures Current(Stored(c, capacity, Key(|es|, text), entry), capacity, es)
  {
    hide Fresh;
    StoredKept(c, capacity, Key(|es|, text), entry);
    TouchedMembers(c.order, capacity, Key(|es|, text));
    assert es[..|es|] == es;
  }

  lemma LookedCurrent(c: CacheState, capacity: nat, es: seq<Entry>, text: bytes)
    requires Current(c, capacity, es)
    ensures var key := Key(|es|, text);
            var (c', entry) := Looked(c, capacity, key, Fresh(text, es));
            && Current(c', capacity, es)
            && c'.order == Touched(c.order, capacity, key)
            && (entry == Fresh(text, es) || (key in c.entries && entry == c.entries[key] && entry.Sanitized?))
  {
    hide Fresh;
    var key := Key(|es|, text);
    assert es[..|es|] == es;
    if key in c.entries {
      UsedOrder(c, capacity, key);
    } else {
      StoredCurrent(c, capacity, es, text, Fresh(text, es));
    }
  }

  lemma WindowLookedCurrent(c: CacheState, capacity: nat, es: seq<Entry>, text: bytes)
    requires Current(c, capacity, es)
    ensures var key := Key(|es|, text);
            var (c', entry) := WindowLooked(c, capacity, key, Fresh(text, es));
            && Current(c', capacity, es)
            && c'.order == Touched(c.order, capacity, key)
            && entry == Fresh(text, es)
  {
    hide Fresh;
    var key := Key(|es|, text);
    assert es[..|es|] == es;
    if key in c.entries {
      UsedOrder(c, capacity, key);
    }
    StoredCurrent(c, capacity, es, text, Fresh(text, es));
  }

  function WindowSpansOf(entry: CacheEntry): seq<RedactionSpan> {
    if entry.Spans? then entry.spans else []
  }

  /** The windows of a large string from `start` on: the cache they leave and the spans they keep. */
  ghost function WindowsLooked(c: CacheState, capacity: nat, chunk: nat, es: seq<Entry>, text: bytes, start: nat)
    : (CacheState, seq<RedactionSpan>)
    requires Current(c, capacity, es) && chunk > 0
    decreases |text| - start
  {
    if start >= |text| then (c, [])
    else
      var window := Window.WindowAt(text, es, chunk, start);
      WindowLookedCurrent(c, capacity, es, window);
      var (c1, entry) := WindowLooked(c, capacity, Key(|es|, window), Fresh(window, es));
      var end := Window.BaseEnd(text, chunk, start);
      var (c2, later) := WindowsLooked(c1, capacity, chunk, es, text, end);
      (c2, Window.ShareOf(WindowSpansOf(entry), Window.ScanStart(es, start), start, end) + later)
  }

  /** The keys those windows use. */
  function WindowKeys(chunk: nat, es: seq<Entry>, text: bytes, start: nat): seq<Key>
    requires chunk > 0
    decreases |text| - start
  {
    if start >= |text| then []
    else
      [Key(|es|, Window.WindowAt(text, es, chunk, start))]
      + WindowKeys(chunk, es, text, Window.BaseEnd(text, chunk, start))
  }

  /** Through the cache the windows keep what they keep without it. */
  lemma {:induction false} WindowsLookedProperty(
    c: CacheState, capacity: nat, chunk: nat, es: seq<Entry>, text: bytes, start: nat)
    requires Current(c, capacity, es) && chunk > 0
    ensures var (c', pool) := WindowsLooked(c, capacity, chunk, es, text, start);
            && Current(c', capacity, es)
            && c'.order == TouchedAll(c.order, capacity, WindowKeys(chunk, es, text, start))
            && pool == Window.FromWindows(text, es, chunk, start)
    decreases |text| - start
  {
    hide Scan;
    if start < |text| {
      var window := Window.WindowAt(text, es, chunk, start);
      WindowLookedCurrent(c, capacity, es, window);
      var (c1, entry) := WindowLooked(c, capacity, Key(|es|, window), Fresh(window, es));
      assert WindowSpansOf(entry) == Window.WindowSpans(text, es, chunk, start);
      var end := Window.BaseEnd(text, chunk, start);
      WindowsLookedProperty(c1, capacity, chunk, es, text, end);
      TouchedAllCons(c.order, capacity, Key(|es|, window), WindowKeys(chunk, es, text, end));
    }
  }

  lemma WindowsStep(c: CacheState, capacity: nat, chunk: nat, es: seq<Entry>, text: bytes, start: nat)
    requires Current(c, capacity, es) && chunk > 0 && start < |text|
    ensures var window := Window.WindowAt(text, es, chunk, start);
            var c1 := WindowLooked(c, capacity, Key(|es|, window), Fresh(window, es)).0;
            var end := Window.BaseEnd(text, chunk, start);
            && Current(c1, capacity, es)
            && WindowsLooked(c, capacity, chunk, es, text, start).0 == WindowsLooked(c1, capacity, chunk, es, text, end).0
            && WindowsLooked(c, capacity, chunk, es, text, start).1
               == Window.ShareOf(Scan(window, es), Window.ScanStart(es, start), start, end)
                  + WindowsLooked(c1, capacity, chunk, es, text, end).1
  {
    WindowLookedCurrent(c, capacity, es, Window.WindowAt(text, es, chunk, start));
  }

  lemma WindowsDone(c: CacheState, capacity: nat, chunk: nat, es: seq<Entry>, text: bytes, start: nat)
    requires Current(c, capacity, es) && chunk > 0 && start >= |text|
    ensures WindowsLooked(c, capacity, chunk, es, text, start) == (c, [])
  {
  }

  // ----- the cache as the program keeps it

  class RedactionCache {
    const maxEntries: nat
    const chunkSize: nat
    var registryVersion: nat
    var entries: map<Key, CacheEntry>
    var order: seq<Key>

    ghost function State(): CacheState
      reads this
    {
      CacheState(registryVersion, entries, order)
    }

    ghost predicate Valid()
      reads this
    {
      chunkSize >= 1024 && WellKept(State(), maxEntries)
    }

    constructor (maxEntries: nat, chunkSize: nat)
      ensures Valid() && State() == EMPTY_CACHE
      ensures this.maxEntries == maxEntries && this.chunkSize == Max(chunkSize, 1024)
    {
      this.maxEntries := maxEntries;
      this.chunkSize := Max(chunkSize, 1024);
      registryVersion := 0;
      entries := map[];
      order := [];
    }

    method Flush(version: nat)
      modifies this
      ensures State() == CacheState(version, map[], [])
    {
      registryVersion := version;
      entries := map[];
      order := [];
    }

    method SyncRegistryVersion(registry: SecretRegistry)
      requires registry.Valid()
      modifies this
      ensures State() == Synced(old(State()), |registry.entries|)
    {
      if registryVersion != registry.version {
        Flush(registry.version);
      }
    }

    method Touch(key: Key)
      modifies this`order
      ensures order == Without(old(order), key)
    {
      order := Without(order, key);
    }

    method CachedEntry(key: Key) returns (entry: Option<CacheEntry>)
      modifies this`order
      ensures if key in entries
              then entry == Some(entries[key]) && State() == Used(old(State()), key)
              else entry == None && State() == old(State())
    {
      if key !in entries {
        return None;
      }
      entry := Some(entries[key]);
      Touch(key);
      order := order + [key];
    }

    method Insert(key: Key, entry: CacheEntry)
      requires Valid() && key.version == registryVersion
      modifies this`order, this`entries
      ensures State() == Stored(old(State()), maxEntries, key, entry)
      ensures Valid()
    {
      ghost var before := State();
      StoredKept(before, maxEntries, key, entry);
      InsertedAll(before, maxEntries, key, entry);
      if maxEntries == 0 {
        return;
      }
      hide Without, LastN, Restrict, NoDup;
      ghost var inserted := entries[key := entry];
      Touch(key);
      order := order + [key];
      entries := entries[key := entry];
      Evict(inserted);
    }

    /** The eviction loop of `insert`: the oldest keys go until the capacity is met. */
    method Evict(ghost inserted: map<Key, CacheEntry>)
      requires NoDup(order) && forall k :: k in order ==> k in inserted
      requires entries == Restrict(inserted, order)
      modifies this`order, this`entries
      ensures order == LastN(old(order), maxEntries)
      ensures forall k :: k in order ==> k in inserted
      ensures entries == Restrict(inserted, order)
    {
      hide Restrict;
      RestrictSize(inserted, order);
      ghost var full := order;
      while |entries| > maxEntries
        invariant Min(maxEntries, |full|) <= |order| <= |full| && order == full[|full| - |order|..]
        invariant forall k :: k in order ==> k in inserted
        invariant entries == Restrict(inserted, order) && |entries| == |order|
        decreases |order|
      {
        var oldest := order[0];
        RestrictDrop(inserted, order);
        order := order[1..];
        if oldest in entries {
          entries := entries - {oldest};
        }
        RestrictSize(inserted, order);
      }
    }

    /** `sanitize_string_detailed`. */
    method SanitizeStringDetailed(text: bytes, registry: SecretRegistry) returns (r: SanitizedString)
      requires Valid() && registry.Valid() && Agrees(State(), registry.entries)
      modifies this
      ensures Valid() && Agrees(State(), registry.entries)
      ensures State() == TextCache(old(State()), maxEntries, chunkSize, registry.entries, text)
      ensures WellFormed(registry.keys, registry.entries)
      ensures r == TextAnswer(registry.keys, old(State()), maxEntries, chunkSize, registry.entries, text)
    {
      var minLen := registry.MinSecretLen();
      if registry.IsEmpty() || (minLen.Some? && |text| < minLen.value) {
        return SanitizedString(text, []);
      }
      hide MinLen, WindowsLooked, Synced, WellKept, Agrees, Scan, Looked;
      ghost var before := State();
      SyncedCurrent(before, maxEntries, registry.entries);
      if |text| > chunkSize {
        WindowsLookedProperty(Synced(before, |registry.entries|), maxEntries, chunkSize, registry.entries, text, 0);
        r := SanitizeLargeStringDetailed(text, registry);
      } else {
        r := SanitizeSmallString(text, registry);
      }
    }

    /** The cached path for a string within the chunk size. */
    method SanitizeSmallString(text: bytes, registry: SecretRegistry) returns (r: SanitizedString)
      requires Valid() && registry.Valid() && Agrees(State(), registry.entries)
      modifies this
      ensures Valid() && Current(State(), maxEntries, registry.entries)
      ensures var c := Synced(old(State()), |registry.entries|);
              var (c', entry) := Looked(c, maxEntries, Key(|registry.entries|, text), Fresh(text, registry.entries));
              && State() == c'
              && (entry.Spans? ==> Fits(text, 0, entry.spans))
              && r == Answer(entry, text)
    {
      SyncedCurrent(State(), maxEntries, registry.entries);
      SyncRegistryVersion(registry);
      LookedCurrent(State(), maxEntries, registry.entries, text);
      FreshAnswer(registry.keys, text, registry.entries);
      hide Scan, WellKept, Agrees, Stored, Used, Synced;
      var key := Key(registry.version, text);
      var hit := CachedEntry(key);
      match hit {
        case Some(NoSecret) => r := SanitizedString(text, []);
        case Some(Spans(spans)) =>
          var out := ApplySpans(text, spans);
          r := SanitizedString(out, SecretIds(spans));
        case Some(Sanitized(out, ids)) => r := SanitizedString(out, ids);
        case None =>
          var spans := ScanStringToken(text, registry);
          var out := ApplySpans(text, spans);
          Insert(key, if spans == [] then NoSecret else Spans(spans));
          r := SanitizedString(out, SecretIds(spans));
      }
    }

    method SanitizeLargeStringDetailed(text: bytes, registry: SecretRegistry) returns (r: SanitizedString)
      requires Valid() && registry.Valid() && Agrees(State(), registry.entries)
      modifies this
      ensures Current(State(), maxEntries, registry.entries) && Valid()
      ensures var c := Synced(old(State()), |registry.entries|);
              && Current(c, maxEntries, registry.entries)
              && State() == WindowsLooked(c, maxEntries, chunkSize, registry.entries, text, 0).0
      ensures Fits(text, 0, Window.WindowScan(text, registry.entries, chunkSize))
      ensures r == Plain(text, Window.WindowScan(text, registry.entries, chunkSize))
    {
      SyncedCurrent(State(), maxEntries, registry.entries);
      SyncRegistryVersion(registry);
      WindowsLookedProperty(State(), maxEntries, chunkSize, registry.entries, text, 0);
      Window.WindowScanIsChoice(registry.keys, text, registry.entries, chunkSize);
      var globalSpans := CollectWindows(text, registry);
      globalSpans := SelectLongestNonOverlapping(globalSpans);
      var out := ApplySpans(text, globalSpans);
      r := SanitizedString(out, SecretIds(globalSpans));
    }

    /** The window loop of `sanitize_large_string_detailed`. */
    method CollectWindows(text: bytes, registry: SecretRegistry) returns (globalSpans: seq<RedactionSpan>)
      requires Valid() && registry.Valid() && Current(State(), maxEntries, registry.entries)
      modifies this
      ensures Valid() && Current(State(), maxEntries, registry.entries)
      ensures (State(), globalSpans) == WindowsLooked(old(State()), maxEntries, chunkSize, registry.entries, text, 0)
    {
      hide WindowsLooked, WindowLooked, WellKept, Agrees, MaxLen, Scan, Window.ShareOf;
      ghost var all := WindowsLooked(State(), maxEntries, chunkSize, registry.entries, text, 0);
      var overlap := Max(0, MaxLen(registry.entries) - 1);
      globalSpans := [];
      var start: nat := 0;
      while start < |text|
        invariant start <= |text| && Valid()
        invariant Current(State(), maxEntries, registry.entries)
        invariant all.0 == WindowsLooked(State(), maxEntries, chunkSize, registry.entries, text, start).0
        invariant all.1 == globalSpans + WindowsLooked(State(), maxEntries, chunkSize, registry.entries, text, start).1
        decreases |text| - start
      {
        var baseEnd := Min(start + chunkSize, |text|);
        var scanStart := Max(0, start - overlap);
        var scanEnd := Min(baseEnd + overlap, |text|);
        var window := text[scanStart..scanEnd];
        WindowsStep(State(), maxEntries, chunkSize, registry.entries, text, start);
        var spans := SpansForWindow(window, registry);
        var kept := Window.ShareOf(spans, scanStart, start, baseEnd);
        Assoc(globalSpans, kept, WindowsLooked(State(), maxEntries, chunkSize, registry.entries, text, baseEnd).1);
        globalSpans := globalSpans + kept;
        start := baseEnd;
      }
      WindowsDone(State(), maxEntries, chunkSize, registry.entries, text, start);
      assert globalSpans + [] == globalSpans;
    }

    /** `sanitize_object_bytes` up to the point where the contents are visited on a miss. */
    method LookupObject(text: bytes, registry: SecretRegistry) returns (hit: Option<SanitizedString>)
      requires Valid() && registry.Valid() && Agrees(State(), registry.entries)
      modifies this
      ensures Valid() && Current(State(), maxEntries, registry.entries)
      ensures State() == ObjectLooked(old(State()), registry.entries, text)
      ensures hit == ObjectAnswer(old(State()), registry.entries, text)
    {
      SyncedCurrent(State(), maxEntries, registry.entries);
      SyncRegistryVersion(registry);
      var key := Key(registry.version, text);
      if key in entries {
        UsedOrder(State(), maxEntries, key);
      }
      var entry := CachedEntry(key);
      match entry {
        case Some(Sanitized(out, ids)) => hit := Some(SanitizedString(out, ids));
        case _ => hit := None;
      }
    }

    /** The rest of it, with the version seen before and what the contents became. */
    method StoreObject(version: nat, text: bytes, sanitized: SanitizedString, registry: SecretRegistry)
      requires Valid() && registry.Valid() && Agrees(State(), registry.entries)
      requires version == registry.version ==> registryVersion == version
      modifies this
      ensures Valid() && Current(State(), maxEntries, registry.entries)
      ensures State() == ObjectStored(old(State()), maxEntries, registry.entries, version, text,
                                      Sanitized(sanitized.text, sanitized.ids))
    {
      if registry.version != version {
        Flush(registry.version);
        return;
      }
      StoredCurrent(State(), maxEntries, registry.entries, text, Sanitized(sanitized.text, sanitized.ids));
      Insert(Key(version, text), Sanitized(sanitized.text, sanitized.ids));
    }

    method SpansForWindow(window: bytes, registry: SecretRegistry) returns (spans: seq<RedactionSpan>)
      requires Valid() && registry.Valid() && Current(State(), maxEntries, registry.entries)
      modifies this
      ensures Valid() && Current(State(), maxEntries, registry.entries)
      ensures State()
           == WindowLooked(old(State()), maxEntries, Key(|registry.entries|, window), Fresh(window, registry.entries)).0
      ensures spans == Scan(window, registry.entries)
    {
      WindowLookedCurrent(State(), maxEntries, registry.entries, window);
      var key := Key(registry.version, window);
      ghost var before := State();
      var hit := CachedEntry(key);
      match hit {
        case Some(NoSecret) => return [];
        case Some(Spans(cached)) => return cached;
        case Some(Sanitized(_, _)) => UsedThenStored(before, maxEntries, key, Fresh(window, registry.entries));
        case None =>
      }
      spans := ScanStringToken(window, registry);
      Insert(key, if spans == [] then NoSecret else Spans(spans));
    }
  }

  /** Before any eviction the map is the whole of the queue. */
  lemma InsertedAll(c: CacheState, capacity: nat, key: Key, entry: CacheEntry)
    requires WellKept(c, capacity)
    ensures var inserted, full := c.entries[key := entry], Without(c.order, key) + [key];
            && (forall k :: k in full ==> k in inserted)
            && inserted == Restrict(inserted, full) && |inserted| == |full| && NoDup(full)
  {
    WithoutNoDup(c.order, key);
    WithoutMembers(c.order, key);
    var inserted, full := c.entries[key := entry], Without(c.order, key) + [key];
    assert NoDup(full);
    hide NoDup, Without;
    assert forall k :: k in full <==> k in inserted;
    RestrictSize(inserted, full);
    assert inserted == Restrict(inserted, full);
  }

  lemma UsedThenStored(c: CacheState, capacity: nat, key: Key, entry: CacheEntry)
    requires WellKept(c, capacity) && key in c.entries
    ensures WellKept(Used(c, key), capacity)
    ensures Stored(Used(c, key), capacity, key, entry) == Stored(c, capacity, key, entry)
  {
    UsedOrder(c, capacity, key);
    var order := Without(c.order, key);
    WithoutNoDup(c.order, key);
    WithoutNoDup(order, key);
    WithoutAppend(order, [key], key);
    assert Without([key], key) == [];
  }

  lemma SyncedCurrent(c: CacheState, capacity: nat, es: seq<Entry>)
    requires WellKept(c, capacity) && Agrees(c, es)
    ensures Current(Synced(c, |es|), capacity, es)
  {
  }

  /** The cache after the lookup of an object: a hit is a use, whatever the entry. */
  function ObjectLooked(c: CacheState, es: seq<Entry>, text: bytes): CacheState {
    var synced, key := Synced(c, |es|), Key(|es|, text);
    if key in synced.entries then Used(synced, key) else synced
  }

  /** What the lookup of an object answers: only an object's entry counts. */
  function ObjectAnswer(c: CacheState, es: seq<Entry>, text: bytes): Option<SanitizedString> {
    var (synced, key) := (Synced(c, |es|), Key(|es|, text));
    if key !in synced.entries then None
    else match synced.entries[key]
      case Sanitized(out, ids) => Some(SanitizedString(out, ids))
      case _ => None
  }

  /** The cache after an object was sanitized: stored, or emptied when the registry moved meanwhile. */
  ghost function ObjectStored(c: CacheState, capacity: nat, es: seq<Entry>, version: nat, text: bytes, entry: CacheEntry)
    : CacheState
    requires WellKept(c, capacity) && Agrees(c, es)
  {
    if version != |es| then CacheState(|es|, map[], [])
    else
      SyncedCurrent(c, capacity, es);
      Stored(Synced(c, |es|), capacity, Key(|es|, text), entry)
  }

  /** The cache after `sanitize_string`. */
  ghost function TextCache(c: CacheState, capacity: nat, chunk: nat, es: seq<Entry>, text: bytes): CacheState
    requires WellKept(c, capacity) && Agrees(c, es) && chunk > 0
  {
    if es == [] || |text| < MinLen(es) then c
    else
      SyncedCurrent(c, capacity, es);
      if |text| > chunk then WindowsLooked(Synced(c, |es|), capacity, chunk, es, text, 0).0
      else Looked(Synced(c, |es|), capacity, Key(|es|, text), Fresh(text, es)).0
  }

  /** What it answers, read from the cache where the cache has an entry. */
  ghost function TextAnswer(keys: SessionKeys, c: CacheState, capacity: nat, chunk: nat, es: seq<Entry>, text: bytes)
    : SanitizedString
    requires WellFormed(keys, es) && WellKept(c, capacity) && Agrees(c, es) && chunk > 0
  {
    if es == [] || |text| < MinLen(es) then SanitizedString(text, [])
    else
      SyncedCurrent(c, capacity, es);
      if |text| > chunk then
        WindowsLookedProperty(Synced(c, |es|), capacity, chunk, es, text, 0);
        Window.WindowScanIsChoice(keys, text, es, chunk);
        Plain(text, Select(WindowsLooked(Synced(c, |es|), capacity, chunk, es, text, 0).1))
      else
        LookedCurrent(Synced(c, |es|), capacity, es, text);
        FreshAnswer(keys, text, es);
        Answer(Looked(Synced(c, |es|), capacity, Key(|es|, text), Fresh(text, es)).1, text)
  }
}
