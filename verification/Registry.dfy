/** The secret registry (src/secrets/registry.rs): entries, the two indexes and the version. */
module Registry {
  import opened Bytes
  import opened Placeholder

  /** The keyed digest, taken as injective: it is wrapped, not computed. */
  datatype KeyedDigest = KeyedDigest(of: bytes)

  /** The keyed functions of a session. Nothing is assumed about either. */
  datatype SessionKeys = SessionKeys(mac: (bytes, KeyedDigest) -> Mac, fingerprint: bytes -> int)

  datatype RegistryError = EmptySecret | UnknownId(id: nat)

  type Label = s: bytes | s != [] && forall k :: 0 <= k < |s| ==> IsLabelByte(s[k]) witness [95]

  /** `secret` stands for the capsule, which gives back the bytes it was made from. */
  datatype Entry = Entry(
    id: nat,
    name: Label,
    len: nat,
    digest: KeyedDigest,
    fingerprint: int,
    placeholder: bytes,
    secret: bytes)

  function NewEntry(keys: SessionKeys, id: nat, name: Label, secret: bytes): Entry {
    var digest := KeyedDigest(secret);
    Entry(id, name, |secret|, digest, keys.fingerprint(secret),
          NewPlaceholder(name, keys.mac(name, digest)), secret)
  }

  predicate EntryOk(keys: SessionKeys, e: Entry, id: nat) {
    && e.id == id
    && e.secret != []
    && e.len == |e.secret|
    && e.digest == KeyedDigest(e.secret)
    && e.fingerprint == keys.fingerprint(e.secret)
    && Shaped(e.placeholder)
  }

  /** The placeholder is the one made from the label and the digest. */
  predicate Minted(keys: SessionKeys, e: Entry) {
    e.placeholder == NewPlaceholder(e.name, keys.mac(e.name, e.digest))
  }

  /** What every run of ingests keeps. */
  ghost predicate WellFormed(keys: SessionKeys, es: seq<Entry>) {
    && (forall i :: 0 <= i < |es| ==> EntryOk(keys, es[i], i + 1))
    && (forall i, j :: 0 <= i < j < |es| ==> es[i].secret != es[j].secret)
  }

  /** The assumption that two entries never share a placeholder. */
  ghost predicate DistinctPlaceholders(es: seq<Entry>) {
    forall i, j :: 0 <= i < j < |es| ==> es[i].placeholder != es[j].placeholder
  }

  /** The first entry with this digest and length. */
  function Existing(es: seq<Entry>, digest: KeyedDigest, len: nat): (r: Option<nat>)
    ensures r.Some? ==> r.value < |es| && es[r.value].digest == digest && es[r.value].len == len
    ensures r.None? ==> forall i :: 0 <= i < |es| ==> es[i].digest != digest || es[i].len != len
  {
    if es == [] then None
    else if es[0].digest == digest && es[0].len == len then Some(0)
    else match Existing(es[1..], digest, len)
      case None => None
      case Some(i) => Some(i + 1)
  }

  function Ingested(keys: SessionKeys, es: seq<Entry>, name: Label, secret: bytes)
    : Result<(seq<Entry>, nat), RegistryError>
  {
    if secret == [] then Err(EmptySecret)
    else match Existing(es, KeyedDigest(secret), |secret|)
      case Some(i) => Ok((es, es[i].id))
      case None => Ok((es + [NewEntry(keys, |es| + 1, name, secret)], |es| + 1))
  }

  /**
   * An ingest keeps the entries well formed and only appends; it returns the one id whose secret
   * is the ingested one, and it adds an entry only for a secret not held before.
   */
  lemma IngestedProperty(keys: SessionKeys, es: seq<Entry>, name: Label, secret: bytes)
    requires WellFormed(keys, es) && secret != []
    ensures Ingested(keys, es, name, secret).Ok?
    ensures var (es', id) := Ingested(keys, es, name, secret).value;
            && WellFormed(keys, es')
            && es <= es'
            && 1 <= id <= |es'|
            && es'[id - 1].secret == secret
            && (forall i :: 0 <= i < |es'| && es'[i].secret == secret ==> i == id - 1)
            && (Holds(es, secret) <==> es' == es)
  {
    var (es', id) := Ingested(keys, es, name, secret).value;
    match Existing(es, KeyedDigest(secret), |secret|) {
      case Some(i) =>
        assert es[i].secret == secret;
      case None =>
        NewPlaceholderShaped(name, keys.mac(name, KeyedDigest(secret)));
        assert forall i :: 0 <= i < |es| ==> EntryOk(keys, es[i], i + 1) && es[i].secret != secret;
    }
  }

  /** The entries after a run of ingests; a refused one leaves them alone. */
  function IngestAll(keys: SessionKeys, calls: seq<(Label, bytes)>): seq<Entry> {
    if calls == [] then []
    else
      var es := IngestAll(keys, calls[..|calls| - 1]);
      var (name, secret) := calls[|calls| - 1];
      match Ingested(keys, es, name, secret)
      case Ok((es', _)) => es'
      case Err(_) => es
  }

  ghost predicate Holds(es: seq<Entry>, secret: bytes) {
    exists i :: 0 <= i < |es| && es[i].secret == secret
  }

  ghost predicate Given(calls: seq<(Label, bytes)>, secret: bytes) {
    exists k :: 0 <= k < |calls| && calls[k].1 == secret
  }

  /** Every registry reached by ingests is well formed and holds exactly the secrets given to it. */
  lemma {:induction false} ReachedWellFormed(keys: SessionKeys, calls: seq<(Label, bytes)>)
    ensures WellFormed(keys, IngestAll(keys, calls))
    ensures forall i :: 0 <= i < |IngestAll(keys, calls)| ==> Minted(keys, IngestAll(keys, calls)[i])
    ensures forall s :: Holds(IngestAll(keys, calls), s) <==> s != [] && Given(calls, s)
  {
    if calls != [] {
      var front, last := calls[..|calls| - 1], calls[|calls| - 1];
      ReachedWellFormed(keys, front);
      var es, es' := IngestAll(keys, front), IngestAll(keys, calls);
      if last.1 != [] {
        IngestedProperty(keys, es, last.0, last.1);
      }
      forall s
        ensures Given(calls, s) <==> Given(front, s) || s == last.1
        ensures Holds(es', s) <==> Holds(es, s) || (s == last.1 && s != [])
      {
        assert calls[|calls| - 1].1 == last.1;
        if Given(front, s) {
          var k :| 0 <= k < |front| && front[k].1 == s;
          assert calls[k].1 == s;
        }
        if last.1 != [] {
          IngestedHolds(keys, es, last.0, last.1, s);
        }
      }
    }
  }

  lemma IngestedHolds(keys: SessionKeys, es: seq<Entry>, name: Label, secret: bytes, s: bytes)
    requires WellFormed(keys, es) && secret != []
    ensures Ingested(keys, es, name, secret).Ok?
    ensures Holds(Ingested(keys, es, name, secret).value.0, s) <==> Holds(es, s) || s == secret
  {
    IngestedProperty(keys, es, name, secret);
    var (es', id) := Ingested(keys, es, name, secret).value;
    assert es'[id - 1].secret == secret;
    if Holds(es, s) {
      var i :| 0 <= i < |es| && es[i].secret == s;
      assert es'[i].secret == s;
    }
  }

  /** The entries after more ingests from some entries on. */
  lemma {:induction false} IngestsExtend(keys: SessionKeys, calls: seq<(Label, bytes)>, more: seq<(Label, bytes)>)
    ensures IngestAll(keys, calls) <= IngestAll(keys, calls + more)
    decreases |more|
  {
    if more == [] {
      assert calls + more == calls;
    } else {
      var front, last := more[..|more| - 1], more[|more| - 1];
      IngestsExtend(keys, calls, front);
      assert (calls + more)[..|calls + more| - 1] == calls + front;
      assert (calls + more)[|calls + more| - 1] == last;
    }
  }

  /**
   * The id that an ingest returns leads to the ingested secret, after any further ingests too, and an
   * id that no ingest returned leads nowhere.
   */
  lemma IdFindsSecret(keys: SessionKeys, calls: seq<(Label, bytes)>, name: Label, secret: bytes, more: seq<(Label, bytes)>)
    requires secret != []
    ensures Ingested(keys, IngestAll(keys, calls), name, secret).Ok?
    ensures var id := Ingested(keys, IngestAll(keys, calls), name, secret).value.1;
            var found := EntryFor(IngestAll(keys, calls + [(name, secret)] + more), id);
            found.Some? && found.value.id == id && found.value.secret == secret
    ensures forall id: nat :: EntryFor(IngestAll(keys, calls), id).Some? ==>
              Ingested(keys, IngestAll(keys, calls), name, EntryFor(IngestAll(keys, calls), id).value.secret)
              == Ok((IngestAll(keys, calls), id))
  {
    var es := IngestAll(keys, calls);
    ReachedWellFormed(keys, calls);
    IngestedProperty(keys, es, name, secret);
    var all := calls + [(name, secret)];
    assert all[..|all| - 1] == calls && all[|all| - 1] == (name, secret);
    IngestsExtend(keys, all, more);
    ReachedWellFormed(keys, all + more);
    var id := Ingested(keys, es, name, secret).value.1;
    assert EntryOk(keys, IngestAll(keys, all + more)[id - 1], id);
    forall id: nat | EntryFor(es, id).Some?
      ensures Ingested(keys, es, name, EntryFor(es, id).value.secret) == Ok((es, id))
    {
      SameId(keys, es, name, id);
    }
  }

  lemma SameId(keys: SessionKeys, es: seq<Entry>, name: Label, id: nat)
    requires WellFormed(keys, es) && 1 <= id <= |es|
    ensures Ingested(keys, es, name, es[id - 1].secret) == Ok((es, id))
  {
    assert EntryOk(keys, es[id - 1], id);
    IngestedProperty(keys, es, name, es[id - 1].secret);
  }

  /** `SecretRegistry::entry`: ids count from one. */
  function EntryFor(es: seq<Entry>, id: nat): (r: Option<Entry>)
    ensures r.Some? <==> 1 <= id <= |es|
    ensures r.Some? ==> r.value == es[id - 1]
  {
    if id == 0 || |es| < id then None else Some(es[id - 1])
  }

  // ----- the (length, prefilter) index

  type LenIndex = map<(nat, int), seq<nat>>

  function IdsAt(index: LenIndex, key: (nat, int)): seq<nat> {
    if key in index then index[key] else []
  }

  /** The ids an index over `es` must list under a key, in ingest order. */
  function IdsWith(es: seq<Entry>, key: (nat, int)): (ids: seq<nat>) {
    if es == [] then []
    else
      var e := es[|es| - 1];
      IdsWith(es[..|es| - 1], key) + if (e.len, e.fingerprint) == key then [e.id] else []
  }

  lemma {:induction false} IdsWithMembers(keys: SessionKeys, es: seq<Entry>, key: (nat, int))
    requires WellFormed(keys, es)
    ensures forall id :: id in IdsWith(es, key)
                         <==> 1 <= id <= |es| && (es[id - 1].len, es[id - 1].fingerprint) == key
    ensures forall i, j :: 0 <= i < j < |IdsWith(es, key)| ==> IdsWith(es, key)[i] < IdsWith(es, key)[j]
  {
    if es != [] {
      IdsWithMembers(keys, es[..|es| - 1], key);
      var front := IdsWith(es[..|es| - 1], key);
      assert forall i :: 0 <= i < |front| ==> front[i] in front;
    }
  }

  // ----- the placeholder index

  /** Placeholder to id, a later entry replacing an earlier one with the same text. */
  function PlaceholderMap(es: seq<Entry>): (m: map<bytes, nat>) {
    if es == [] then map[]
    else
      var e := es[|es| - 1];
      PlaceholderMap(es[..|es| - 1])[e.placeholder := e.id]
  }

  /** An indexed placeholder leads to the last entry that carries it. */
  lemma {:induction false} PlaceholderTraced(es: seq<Entry>, p: bytes)
    requires forall i :: 0 <= i < |es| ==> es[i].id == i + 1
    requires p in PlaceholderMap(es)
    ensures 1 <= PlaceholderMap(es)[p] <= |es|
    ensures es[PlaceholderMap(es)[p] - 1].placeholder == p
    ensures forall i :: PlaceholderMap(es)[p] <= i < |es| ==> es[i].placeholder != p
  {
    var front := es[..|es| - 1];
    if es[|es| - 1].placeholder != p {
      PlaceholderTraced(front, p);
    }
  }

  /** Every entry's placeholder is indexed, under its own id when placeholders are distinct. */
  lemma {:induction false} PlaceholderIndexed(es: seq<Entry>, i: nat)
    requires forall i :: 0 <= i < |es| ==> es[i].id == i + 1
    requires i < |es|
    ensures es[i].placeholder in PlaceholderMap(es)
    ensures DistinctPlaceholders(es) ==> PlaceholderMap(es)[es[i].placeholder] == i + 1
  {
    var front := es[..|es| - 1];
    if i < |front| {
      PlaceholderIndexed(front, i);
    }
  }

  lemma IndexesExtend(es: seq<Entry>, e: Entry)
    ensures PlaceholderMap(es + [e]) == PlaceholderMap(es)[e.placeholder := e.id]
    ensures forall key :: IdsWith(es + [e], key) == IdsWith(es, key) + if (e.len, e.fingerprint) == key then [e.id] else []
  {
    var es' := es + [e];
    assert es'[..|es'| - 1] == es;
  }

  // ----- lengths

  function InsertLen(x: nat, xs: seq<nat>): (r: seq<nat>)
    requires forall i, j :: 0 <= i < j < |xs| ==> xs[i] < xs[j]
    ensures forall i, j :: 0 <= i < j < |r| ==> r[i] < r[j]
    ensures forall y :: y in r <==> y == x || y in xs
  {
    if xs == [] then [x]
    else if x < xs[0] then [x] + xs
    else if x == xs[0] then xs
    else
      var rest := InsertLen(x, xs[1..]);
      assert forall i :: 0 <= i < |rest| ==> rest[i] in rest && xs[0] < rest[i];
      [xs[0]] + rest
  }

  /** The distinct secret lengths, in increasing order. */
  function LengthsOf(es: seq<Entry>): (r: seq<nat>)
    ensures forall i, j :: 0 <= i < j < |r| ==> r[i] < r[j]
    ensures forall n :: n in r <==> exists e :: e in es && e.len == n
  {
    if es == [] then []
    else
      var rest := LengthsOf(es[1..]);
      assert forall e :: e in es <==> e == es[0] || e in es[1..];
      InsertLen(es[0].len, rest)
  }

  function MaxLen(es: seq<Entry>): (m: nat)
    ensures forall e :: e in es ==> e.len <= m
    ensures es != [] ==> exists e :: e in es && e.len == m
    ensures es == [] ==> m == 0
  {
    if es == [] then 0
    else
      var rest := MaxLen(es[1..]);
      assert forall e :: e in es <==> e == es[0] || e in es[1..];
      if es[0].len >= rest then es[0].len else rest
  }

  function MinLen(es: seq<Entry>): (m: nat)
    requires es != []
    ensures forall e :: e in es ==> m <= e.len
    ensures exists e :: e in es && e.len == m
  {
    if |es| == 1 then es[0].len
    else
      var rest := MinLen(es[1..]);
      assert forall e :: e in es <==> e == es[0] || e in es[1..];
      if es[0].len <= rest then es[0].len else rest
  }

  class SecretRegistry {
    const keys: SessionKeys
    var entries: seq<Entry>
    var byLenAndFingerprint: LenIndex
    var byPlaceholder: map<bytes, nat>
    var version: nat

    /** The entries are well formed and both indexes and the version are functions of them. */
    ghost predicate Valid()
      reads this
    {
      && WellFormed(keys, entries)
      && (forall len, fp :: IdsAt(byLenAndFingerprint, (len, fp)) == IdsWith(entries, (len, fp)))
      && byPlaceholder == PlaceholderMap(entries)
      && version == |entries|
    }

    constructor (keys: SessionKeys)
      ensures Valid() && entries == [] && this.keys == keys
    {
      this.keys := keys;
      entries := [];
      byLenAndFingerprint := map[];
      byPlaceholder := map[];
      version := 0;
    }

    method Ingest(name: Label, secret: bytes) returns (r: Result<nat, RegistryError>)
      requires Valid()
      modifies this
      ensures Valid()
      ensures match Ingested(keys, old(entries), name, secret)
              case Ok((es, id)) => r == Ok(id) && entries == es
              case Err(e) => r == Err(e) && entries == old(entries)
    {
      if secret == [] {
        return Err(EmptySecret);
      }
      IngestedProperty(keys, entries, name, secret);
      var existing := Existing(entries, KeyedDigest(secret), |secret|);
      if existing.Some? {
        return Ok(entries[existing.value].id);
      }
      var id := |entries| + 1;
      var entry := NewEntry(keys, id, name, secret);
      var key := (entry.len, entry.fingerprint);
      IndexesExtend(entries, entry);
      byLenAndFingerprint := byLenAndFingerprint[key := IdsAt(byLenAndFingerprint, key) + [id]];
      byPlaceholder := byPlaceholder[entry.placeholder := id];
      entries := entries + [entry];
      version := version + 1;
      r := Ok(id);
    }

    predicate IsEmpty()
      reads this
    {
      entries == []
    }

    /** `min_secret_len`: nothing without entries, else the length of a shortest secret. */
    function MinSecretLen(): (r: Option<nat>)
      reads this
      ensures r.None? <==> entries == []
      ensures r.Some? ==> (forall e :: e in entries ==> r.value <= e.len) && (exists e :: e in entries && e.len == r.value)
    {
      if entries == [] then None else Some(MinLen(entries))
    }

    /** All entries of one length and prefilter, found through the index. */
    function Candidates(len: nat, fp: int): (r: seq<Entry>)
      reads this
      requires Valid()
      ensures forall e :: e in r <==> e in entries && e.len == len && e.fingerprint == fp
    {
      var ids := IdsAt(byLenAndFingerprint, (len, fp));
      CandidatesAre(keys, entries, (len, fp));
      EntriesOf(entries, ids)
    }

    /** The pairs of the placeholder index, in whatever order the map yields them. */
    method Placeholders() returns (pairs: seq<(bytes, nat)>)
      requires Valid()
      ensures forall p, id :: (p, id) in pairs <==> p in byPlaceholder && byPlaceholder[p] == id
      ensures forall i, j :: 0 <= i < j < |pairs| ==> pairs[i].0 != pairs[j].0
    {
      pairs := [];
      var left := byPlaceholder.Keys;
      while left != {}
        invariant left <= byPlaceholder.Keys
        invariant forall p, id :: (p, id) in pairs <==> p in byPlaceholder.Keys - left && byPlaceholder[p] == id
        invariant forall i :: 0 <= i < |pairs| ==> pairs[i] in pairs
        invariant forall i, j :: 0 <= i < j < |pairs| ==> pairs[i].0 != pairs[j].0
        decreases left
      {
        var p :| p in left;
        pairs := pairs + [(p, byPlaceholder[p])];
        left := left - {p};
      }
    }

    method RestoreToVec(id: nat, output: bytes) returns (r: Result<bytes, RegistryError>)
      requires Valid()
      ensures if 1 <= id <= |entries| then r == Ok(output + entries[id - 1].secret) else r == Err(UnknownId(id))
    {
      var entry := EntryFor(entries, id);
      if entry.None? {
        return Err(UnknownId(id));
      }
      r := Ok(output + entry.value.secret);
    }
  }

  /** The entries under the ids of a key are those of its length and prefilter. */
  lemma CandidatesAre(keys: SessionKeys, es: seq<Entry>, key: (nat, int))
    requires WellFormed(keys, es)
    ensures forall e :: e in EntriesOf(es, IdsWith(es, key)) <==> e in es && (e.len, e.fingerprint) == key
  {
    hide IdsWith, EntriesOf;
    IdsWithMembers(keys, es, key);
    assert forall e :: e in es ==> 1 <= e.id <= |es| && EntryFor(es, e.id) == Some(e);
  }

  function EntriesOf(es: seq<Entry>, ids: seq<nat>): (r: seq<Entry>)
    ensures forall e :: e in r <==> exists id :: id in ids && EntryFor(es, id) == Some(e)
  {
    if ids == [] then []
    else
      var rest := EntriesOf(es, ids[1..]);
      assert forall id :: id in ids <==> id == ids[0] || id in ids[1..];
      match EntryFor(es, ids[0])
      case None => rest
      case Some(e) => [e] + rest
  }
}
