/** Whole runs of the registry and the cache: freshness of every answer, and recency order. */
module CacheTrace {
  import opened Bytes
  import opened Registry
  import opened Span
  import opened Scanner
  import opened Lru
  import opened Cache
  import Window

  /**
   * One step: an ingest, a string to sanitize, and the two halves of sanitizing an object (the
   * lookup before its contents are visited and the store after; `version` is the one seen at the
   * lookup).
   */
  datatype Op =
    | Ingest(name: Label, secret: bytes)
    | Text(text: bytes)
    | ObjectLookup(text: bytes)
    | ObjectStore(version: nat, text: bytes, out: bytes, ids: seq<nat>)

  datatype Session = Session(es: seq<Entry>, cache: CacheState)

  datatype Setup = Setup(keys: SessionKeys, capacity: nat, chunk: nat)

  ghost predicate Good(p: Setup, s: Session) {
    && p.chunk > 0
    && WellFormed(p.keys, s.es)
    && WellKept(s.cache, p.capacity)
    && Agrees(s.cache, s.es)
  }

  function IngestedOrSame(keys: SessionKeys, es: seq<Entry>, name: Label, secret: bytes): seq<Entry> {
    match Ingested(keys, es, name, secret)
    case Ok((es', _)) => es'
    case Err(_) => es
  }

  ghost function AfterOp(p: Setup, s: Session, op: Op): Session
    requires Good(p, s)
  {
    match op
    case Ingest(name, secret) => s.(es := IngestedOrSame(p.keys, s.es, name, secret))
    case Text(text) => s.(cache := TextCache(s.cache, p.capacity, p.chunk, s.es, text))
    case ObjectLookup(text) =>
      s.(cache := ObjectLooked(s.cache, s.es, text))
    case ObjectStore(version, text, out, ids) =>
      s.(cache := ObjectStored(s.cache, p.capacity, s.es, version, text, Sanitized(out, ids)))
  }

  /** Whether the step empties the cache first. */
  predicate Flushes(s: Session, op: Op) {
    match op
    case Ingest(_, _) => false
    case Text(text) => s.es != [] && |text| >= MinLen(s.es) && s.cache.version != |s.es|
    case ObjectLookup(_) => s.cache.version != |s.es|
    case ObjectStore(version, _, _, _) => s.cache.version != |s.es| || version != |s.es|
  }

  /** The keys that the step then uses, in order. */
  function KeysUsed(p: Setup, s: Session, op: Op): seq<Key>
    requires p.chunk > 0
  {
    match op
    case Ingest(_, _) => []
    case Text(text) =>
      if s.es == [] || |text| < MinLen(s.es) then []
      else if |text| > p.chunk then WindowKeys(p.chunk, s.es, text, 0)
      else [Key(|s.es|, text)]
    case ObjectLookup(text) =>
      if Key(|s.es|, text) in Synced(s.cache, |s.es|).entries then [Key(|s.es|, text)] else []
    case ObjectStore(version, text, _, _) => if version != |s.es| then [] else [Key(|s.es|, text)]
  }

  lemma TouchedOne(order: seq<Key>, capacity: nat, key: Key)
    ensures TouchedAll(order, capacity, [key]) == Touched(order, capacity, key)
  {
    TouchedAllCons(order, capacity, key, []);
  }

  /** Every step keeps the session good, and moves the queue by exactly the keys it uses. */
  lemma StepKeeps(p: Setup, s: Session, op: Op)
    requires Good(p, s)
    ensures Good(p, AfterOp(p, s, op))
    ensures s.es <= AfterOp(p, s, op).es
    ensures AfterOp(p, s, op).cache.order
         == TouchedAll(if Flushes(s, op) then [] else s.cache.order, p.capacity, KeysUsed(p, s, op))
  {
    match op {
      case Ingest(name, secret) => IngestKeeps(p, s, name, secret);
      case Text(text) => TextKeeps(p, s, text);
      case ObjectLookup(text) =>
        var c, key := Synced(s.cache, |s.es|), Key(|s.es|, text);
        SyncedCurrent(s.cache, p.capacity, s.es);
        if key in c.entries {
          UsedOrder(c, p.capacity, key);
          TouchedOne(c.order, p.capacity, key);
        }
      case ObjectStore(version, text, out, ids) =>
        if version == |s.es| {
          SyncedCurrent(s.cache, p.capacity, s.es);
          var c := Synced(s.cache, |s.es|);
          StoredCurrent(c, p.capacity, s.es, text, Sanitized(out, ids));
          TouchedOne(c.order, p.capacity, Key(|s.es|, text));
        }
    }
  }

  /**
   * Sanitizing a string within the chunk size, finding something under an object's bytes and storing an object
   * all leave their key held and the most recent.
   */
  lemma UsedIsNewest(p: Setup, s: Session, op: Op)
    requires Good(p, s) && p.capacity > 0 && !op.Ingest?
    requires op.Text? ==> s.es != [] && MinLen(s.es) <= |op.text| <= p.chunk
    requires op.ObjectLookup? ==> Key(|s.es|, op.text) in Synced(s.cache, |s.es|).entries
    requires op.ObjectStore? ==> op.version == |s.es|
    ensures var c := AfterOp(p, s, op).cache;
            && Key(|s.es|, op.text) in c.entries
            && c.order != [] && c.order[|c.order| - 1] == Key(|s.es|, op.text)
  {
    StepKeeps(p, s, op);
    hide AfterOp, Synced, MinLen;
    var base, key := if Flushes(s, op) then [] else s.cache.order, Key(|s.es|, op.text);
    assert KeysUsed(p, s, op) == [key];
    TouchedOne(base, p.capacity, key);
    TouchedLast(base, p.capacity, key);
  }

  lemma TouchedLast(order: seq<Key>, capacity: nat, key: Key)
    requires capacity > 0
    ensures var r := Touched(order, capacity, key);
            r != [] && r[|r| - 1] == key
  {
  }

  lemma IngestKeeps(p: Setup, s: Session, name: Label, secret: bytes)
    requires Good(p, s)
    ensures var es' := IngestedOrSame(p.keys, s.es, name, secret);
            WellFormed(p.keys, es') && s.es <= es' && Agrees(s.cache, es')
  {
    if secret != [] {
      IngestedProperty(p.keys, s.es, name, secret);
    }
    var es' := IngestedOrSame(p.keys, s.es, name, secret);
    assert es'[..s.cache.version] == s.es[..s.cache.version];
  }

  lemma TextKeeps(p: Setup, s: Session, text: bytes)
    requires Good(p, s)
    ensures var c' := TextCache(s.cache, p.capacity, p.chunk, s.es, text);
            && WellKept(c', p.capacity) && Agrees(c', s.es)
            && c'.order
               == TouchedAll(if Flushes(s, Text(text)) then [] else s.cache.order, p.capacity, KeysUsed(p, s, Text(text)))
  {
    SyncedCurrent(s.cache, p.capacity, s.es);
    var c := Synced(s.cache, |s.es|);
    if s.es != [] && |text| >= MinLen(s.es) {
      hide MinLen, Scan;
      if |text| > p.chunk {
        WindowsLookedProperty(c, p.capacity, p.chunk, s.es, text, 0);
      } else {
        LookedCurrent(c, p.capacity, s.es, text);
        TouchedOne(c.order, p.capacity, Key(|s.es|, text));
      }
    }
  }

  // ----- runs

  /** The session after a run from an empty registry and an empty cache. */
  ghost function AfterOps(p: Setup, ops: seq<Op>): (s: Session)
    requires p.chunk > 0
    ensures Good(p, s)
  {
    if ops == [] then Session([], EMPTY_CACHE)
    else
      var s := AfterOps(p, ops[..|ops| - 1]);
      StepKeeps(p, s, ops[|ops| - 1]);
      AfterOp(p, s, ops[|ops| - 1])
  }

  /** The keys used in a run since the cache was last emptied. */
  ghost function UsedSinceFlush(p: Setup, ops: seq<Op>): seq<Key>
    requires p.chunk > 0
  {
    if ops == [] then []
    else
      var s, op := AfterOps(p, ops[..|ops| - 1]), ops[|ops| - 1];
      (if Flushes(s, op) then [] else UsedSinceFlush(p, ops[..|ops| - 1])) + KeysUsed(p, s, op)
  }

  lemma {:induction false} QueueFollowsUses(p: Setup, ops: seq<Op>)
    requires p.chunk > 0
    ensures AfterOps(p, ops).cache.order == TouchedAll([], p.capacity, UsedSinceFlush(p, ops))
  {
    if ops != [] {
      var front, op := ops[..|ops| - 1], ops[|ops| - 1];
      QueueFollowsUses(p, front);
      var s, before := AfterOps(p, front), UsedSinceFlush(p, front);
      StepKeeps(p, s, op);
      assert AfterOps(p, ops) == AfterOp(p, s, op);
      assert UsedSinceFlush(p, ops) == (if Flushes(s, op) then [] else before) + KeysUsed(p, s, op);
      hide AfterOps, TouchedAll, KeysUsed, Flushes, AfterOp, UsedSinceFlush;
      TouchedAllAppend([], p.capacity, if Flushes(s, op) then [] else before, KeysUsed(p, s, op));
      NothingTouched(p.capacity);
    }
  }

  lemma NothingTouched(capacity: nat)
    ensures TouchedAll<Key>([], capacity, []) == []
  {
  }

  /**
   * After any run the queue lists, once each and in recency order, exactly the most recently used
   * distinct keys since the last flush, up to the capacity, and the map holds those keys.
   */
  lemma CacheIsMostRecent(p: Setup, ops: seq<Op>)
    requires p.chunk > 0
    ensures var c := AfterOps(p, ops).cache;
            && c.order == LastN(Recency(UsedSinceFlush(p, ops)), p.capacity)
            && NoDup(c.order)
            && forall k :: k in c.entries <==> k in c.order
  {
    QueueFollowsUses(p, ops);
    TouchedAllIsRecency(p.capacity, UsedSinceFlush(p, ops));
  }

  /**
   * A key is held exactly when it was used since the last flush, and fewer other keys than the capacity
   * were used after its last use.
   */
  lemma HeldIfRecent(p: Setup, ops: seq<Op>, k: Key)
    requires p.chunk > 0
    ensures var uses := UsedSinceFlush(p, ops);
            k in AfterOps(p, ops).cache.entries
            <==> exists i: nat :: LastUse(uses, k, i) && |Distinct(uses[i + 1..])| < p.capacity
  {
    QueueFollowsUses(p, ops);
    InQueue(p.capacity, UsedSinceFlush(p, ops), k);
  }

  // ----- answers

  /** What sanitizing a string would give with no cache at all. */
  ghost function Uncached(p: Setup, es: seq<Entry>, text: bytes): SanitizedString
    requires p.chunk > 0 && WellFormed(p.keys, es)
  {
    if |text| > p.chunk && es != [] && |text| >= MinLen(es) then
      Window.WindowScanIsChoice(p.keys, text, es, p.chunk);
      Plain(text, Window.WindowScan(text, es, p.chunk))
    else
      ScanIsChoice(p.keys, text, es);
      Plain(text, Scan(text, es))
  }

  /** An object's entry stands under the bytes of this string. */
  ghost predicate Shadowed(c: CacheState, es: seq<Entry>, text: bytes) {
    && c.version == |es|
    && Key(|es|, text) in c.entries
    && c.entries[Key(|es|, text)].Sanitized?
  }

  /**
   * An answer is the uncached answer at the current version, unless a string within the chunk size
   * meets an object's entry under its own bytes; then it is that entry.
   */
  lemma AnswerIsFresh(p: Setup, s: Session, text: bytes)
    requires Good(p, s)
    ensures var r := TextAnswer(p.keys, s.cache, p.capacity, p.chunk, s.es, text);
            if Shadowed(s.cache, s.es, text) && |text| <= p.chunk && s.es != [] && |text| >= MinLen(s.es)
            then r == Answer(s.cache.entries[Key(|s.es|, text)], text)
            else r == Uncached(p, s.es, text)
  {
    hide Scan;
    SyncedCurrent(s.cache, p.capacity, s.es);
    var c := Synced(s.cache, |s.es|);
    if s.es == [] || |text| < MinLen(s.es) {
      ScanEmpty(p.keys, text, s.es);
      assert text[0..] == text;
    } else if |text| > p.chunk {
      WindowsLookedProperty(c, p.capacity, p.chunk, s.es, text, 0);
    } else {
      LookedCurrent(c, p.capacity, s.es, text);
      FreshAnswer(p.keys, text, s.es);
    }
  }

  ghost predicate StoresObject(ops: seq<Op>, text: bytes) {
    exists i :: 0 <= i < |ops| && ops[i].ObjectStore? && ops[i].text == text
  }

  /** An object's entry in the cache was put there by the run. */
  lemma {:induction false} ObjectEntriesWereStored(p: Setup, ops: seq<Op>, k: Key)
    requires p.chunk > 0 && k in AfterOps(p, ops).cache.entries && AfterOps(p, ops).cache.entries[k].Sanitized?
    ensures StoresObject(ops, k.text)
  {
    if ops != [] {
      var front, op := ops[..|ops| - 1], ops[|ops| - 1];
      var s := AfterOps(p, front);
      StepKeepsObject(p, s, op, k);
      if op.ObjectStore? && op.text == k.text {
        assert ops[|ops| - 1].ObjectStore?;
      } else {
        ObjectEntriesWereStored(p, front, k);
        var i :| 0 <= i < |front| && front[i].ObjectStore? && front[i].text == k.text;
        assert ops[i].ObjectStore?;
      }
    }
  }

  /** The step stores an object under `k`: the registry has not moved since its lookup. */
  ghost predicate StoresUnder(s: Session, op: Op, k: Key) {
    op.ObjectStore? && op.version == |s.es| && k == Key(op.version, op.text)
  }

  /** An object's entry behind a step is what the step stored, or was there before. */
  lemma StepKeepsObject(p: Setup, s: Session, op: Op, k: Key)
    requires Good(p, s)
    requires k in AfterOp(p, s, op).cache.entries && AfterOp(p, s, op).cache.entries[k].Sanitized?
    ensures var entry := AfterOp(p, s, op).cache.entries[k];
            if StoresUnder(s, op, k) then entry == Sanitized(op.out, op.ids)
            else k in s.cache.entries && s.cache.entries[k] == entry
  {
    match op {
      case Ingest(_, _) =>
      case Text(text) =>
        SyncedCurrent(s.cache, p.capacity, s.es);
        var c := Synced(s.cache, |s.es|);
        if s.es != [] && |text| >= MinLen(s.es) {
          hide Scan, MinLen;
          if |text| > p.chunk {
            WindowsKeepObject(c, p.capacity, p.chunk, s.es, text, 0, k);
          } else if Key(|s.es|, text) !in c.entries {
            TouchedMembers(c.order, p.capacity, Key(|s.es|, text));
          }
        }
      case ObjectLookup(_) =>
      case ObjectStore(version, text, _, _) =>
        SyncedCurrent(s.cache, p.capacity, s.es);
        TouchedMembers(Synced(s.cache, |s.es|).order, p.capacity, Key(|s.es|, text));
    }
  }

  lemma {:induction false} WindowsKeepObject(
      c: CacheState, capacity: nat, chunk: nat, es: seq<Entry>, text: bytes, start: nat, k: Key)
    requires Current(c, capacity, es) && chunk > 0
    requires var c' := WindowsLooked(c, capacity, chunk, es, text, start).0;
             k in c'.entries && c'.entries[k].Sanitized?
    ensures k in c.entries && c.entries[k] == WindowsLooked(c, capacity, chunk, es, text, start).0.entries[k]
    decreases |text| - start
  {
    if start < |text| {
      var window := Window.WindowAt(text, es, chunk, start);
      WindowsStep(c, capacity, chunk, es, text, start);
      hide Scan;
      var c1 := WindowLooked(c, capacity, Key(|es|, window), Fresh(window, es)).0;
      WindowsKeepObject(c1, capacity, chunk, es, text, Window.BaseEnd(text, chunk, start), k);
      TouchedMembers(c.order, capacity, Key(|es|, window));
    }
  }

  /**
   * Over every interleaving of ingests, strings and objects, a string whose bytes no object was
   * stored under is answered as if there were no cache: an entry of an older version is never
   * served.
   */
  lemma EveryAnswerIsFresh(p: Setup, ops: seq<Op>, text: bytes)
    requires p.chunk > 0 && !StoresObject(ops, text)
    ensures var s := AfterOps(p, ops);
            TextAnswer(p.keys, s.cache, p.capacity, p.chunk, s.es, text) == Uncached(p, s.es, text)
  {
    var s := AfterOps(p, ops);
    if Shadowed(s.cache, s.es, text) {
      ObjectEntriesWereStored(p, ops, Key(|s.es|, text));
    }
    AnswerIsFresh(p, s, text);
  }
}
