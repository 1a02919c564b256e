/** What the lookup of an object gives back, over whole runs (src/redact/cache.rs, `sanitize_object_bytes`). */
module ObjectTrace {
  import opened Bytes
  import opened Registry
  import opened Span
  import opened Scanner
  import opened Lru
  import opened Cache
  import opened CacheTrace
  import Window

  /** The `i`-th step of the run does so. */
  ghost predicate StoredBy(p: Setup, ops: seq<Op>, i: nat, k: Key)
    requires p.chunk > 0 && i < |ops|
  {
    StoresUnder(AfterOps(p, ops[..i]), ops[i], k)
  }

  /** The `i`-th step stored `entry` under `k`, and no later step stored anything there. */
  ghost predicate StoredLast(p: Setup, ops: seq<Op>, i: nat, k: Key, entry: CacheEntry)
    requires p.chunk > 0
  {
    && i < |ops| && StoredBy(p, ops, i, k)
    && entry == Sanitized(ops[i].out, ops[i].ids)
    && forall j :: i < j < |ops| ==> !StoredBy(p, ops, j, k)
  }

  /** An object's entry is what the last step that stored under its key put there. */
  lemma {:induction false} EntryIsLastStored(p: Setup, ops: seq<Op>, k: Key) returns (i: nat)
    requires p.chunk > 0 && k in AfterOps(p, ops).cache.entries && AfterOps(p, ops).cache.entries[k].Sanitized?
    ensures StoredLast(p, ops, i, k, AfterOps(p, ops).cache.entries[k])
    decreases |ops|
  {
    LastStep(p, ops, k);
    hide AfterOps, AfterOp, StoresUnder, StoredBy, StoredLast, Good;
    var last := |ops| - 1;
    StepKeepsObject(p, AfterOps(p, ops[..last]), ops[last], k);
    if StoredBy(p, ops, last, k) {
      i := last;
      JustStored(p, ops, k);
    } else {
      i := EntryIsLastStored(p, ops[..last], k);
      StoredBefore(p, ops, i, k, AfterOps(p, ops).cache.entries[k]);
    }
  }

  lemma JustStored(p: Setup, ops: seq<Op>, k: Key)
    requires p.chunk > 0 && ops != [] && StoredBy(p, ops, |ops| - 1, k)
    ensures var op := ops[|ops| - 1];
            op.ObjectStore? && StoredLast(p, ops, |ops| - 1, k, Sanitized(op.out, op.ids))
  {
    hide AfterOps;
  }

  lemma StoredBefore(p: Setup, ops: seq<Op>, i: nat, k: Key, entry: CacheEntry)
    requires p.chunk > 0 && ops != [] && !StoredBy(p, ops, |ops| - 1, k)
    requires StoredLast(p, ops[..|ops| - 1], i, k, entry)
    ensures StoredLast(p, ops, i, k, entry)
  {
    hide StoredBy, AfterOps;
    FrontStored(p, ops, i, k);
    forall j | i < j < |ops|
      ensures !StoredBy(p, ops, j, k)
    {
      if j < |ops| - 1 {
        FrontStored(p, ops, j, k);
      }
    }
  }

  lemma FrontStored(p: Setup, ops: seq<Op>, j: nat, k: Key)
    requires p.chunk > 0 && ops != [] && j < |ops| - 1
    ensures StoredBy(p, ops[..|ops| - 1], j, k) <==> StoredBy(p, ops, j, k)
  {
    assert ops[..|ops| - 1][..j] == ops[..j];
  }

  lemma LastStep(p: Setup, ops: seq<Op>, k: Key)
    requires p.chunk > 0
    ensures ops == [] ==> AfterOps(p, ops).cache.entries == map[]
    ensures ops != [] ==> (
              var s := AfterOps(p, ops[..|ops| - 1]);
              && Good(p, s) && AfterOps(p, ops) == AfterOp(p, s, ops[|ops| - 1])
              && (StoredBy(p, ops, |ops| - 1, k) <==> StoresUnder(s, ops[|ops| - 1], k)))
  {
    hide AfterOp, Good;
  }

  /**
   * The lookup of an object answers exactly what the last store that took effect for these bytes, at the
   * present version, put there; nothing else is ever answered.
   */
  lemma LookupGivesLastStored(p: Setup, ops: seq<Op>, text: bytes) returns (i: nat)
    requires p.chunk > 0
    requires var s := AfterOps(p, ops);
             ObjectAnswer(s.cache, s.es, text).Some?
    ensures var s := AfterOps(p, ops);
            && i < |ops| && StoredBy(p, ops, i, Key(|s.es|, text))
            && ObjectAnswer(s.cache, s.es, text) == Some(SanitizedString(ops[i].out, ops[i].ids))
            && forall j :: i < j < |ops| ==> !StoredBy(p, ops, j, Key(|s.es|, text))
  {
    var s := AfterOps(p, ops);
    hide AfterOps, StoredBy;
    i := EntryIsLastStored(p, ops, Key(|s.es|, text));
  }

  /** Right behind a store that takes effect the lookup finds it, with room for one entry at least. */
  lemma StoreIsFound(p: Setup, ops: seq<Op>, text: bytes, out: bytes, ids: seq<nat>)
    requires p.chunk > 0 && p.capacity >= 1
    ensures var s := AfterOps(p, ops);
            var stored := AfterOp(p, s, ObjectStore(|s.es|, text, out, ids));
            ObjectAnswer(stored.cache, stored.es, text) == Some(SanitizedString(out, ids))
  {
    var s := AfterOps(p, ops);
    SyncedCurrent(s.cache, p.capacity, s.es);
    var c, key := Synced(s.cache, |s.es|), Key(|s.es|, text);
    TouchedMembers(c.order, p.capacity, key);
    assert (Without(c.order, key) + [key])[|Without(c.order, key)|] == key;
    assert key in Touched(c.order, p.capacity, key);
  }

  /** And a store made for a version that has passed leaves nothing to find. */
  lemma LateStoreIsLost(p: Setup, ops: seq<Op>, version: nat, text: bytes, out: bytes, ids: seq<nat>, other: bytes)
    requires p.chunk > 0 && version != |AfterOps(p, ops).es|
    ensures var s := AfterOps(p, ops);
            var stored := AfterOp(p, s, ObjectStore(version, text, out, ids));
            ObjectAnswer(stored.cache, stored.es, other) == None
  {
  }
}
