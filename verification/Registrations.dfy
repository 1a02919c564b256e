/**
 * What registering adds, wherever secrets come from: ingests (src/secrets/registry.rs), tagged parts of a
 * text (src/redact/directive.rs) and matches of credential patterns (src/sanitize.rs).
 */
module Registrations {
  import opened Bytes
  import opened Placeholder
  import opened Registry
  import opened CacheTrace
  import opened Directive
  import opened DirectiveText
  import opened Conversation

  /** Left to right. */
  ghost predicate Increasing(at: seq<nat>) {
    forall i, j :: 0 <= i < j < |at| ==> at[i] < at[j]
  }

  /** `e` comes from the `k`-th call, the first that gives its secret: it has that call's label. */
  ghost predicate ComesFrom(keys: SessionKeys, e: Entry, calls: seq<(Label, bytes)>, k: nat) {
    && k < |calls| && calls[k] == (e.name, e.secret) && Minted(keys, e)
    && forall j :: 0 <= j < k ==> calls[j].1 != e.secret
  }

  /** `more` is `es` and, in the order of the calls, one entry for each secret that is new. */
  ghost predicate Grown(keys: SessionKeys, es: seq<Entry>, more: seq<Entry>, calls: seq<(Label, bytes)>, at: seq<nat>) {
    && es <= more
    && (forall x :: Holds(more, x) <==> Holds(es, x) || (x != [] && Given(calls, x)))
    && |at| == |more| - |es| && Increasing(at)
    && forall i :: 0 <= i < |at| ==> ComesFrom(keys, more[|es| + i], calls, at[i])
  }

  lemma GrownNone(keys: SessionKeys, es: seq<Entry>)
    ensures Grown(keys, es, es, [], [])
  {
  }

  /** One ingest. */
  lemma GrownOne(keys: SessionKeys, es: seq<Entry>, name: Label, secret: bytes) returns (at: seq<nat>)
    requires WellFormed(keys, es)
    ensures WellFormed(keys, IngestedOrSame(keys, es, name, secret))
    ensures Grown(keys, es, IngestedOrSame(keys, es, name, secret), [(name, secret)], at)
  {
    var calls, more := [(name, secret)], IngestedOrSame(keys, es, name, secret);
    assert calls[0].1 == secret;
    at := if |more| == |es| then [] else [0];
    if secret != [] {
      IngestedProperty(keys, es, name, secret);
      forall x
        ensures Holds(more, x) <==> Holds(es, x) || (x != [] && Given(calls, x))
      {
        IngestedHolds(keys, es, name, secret, x);
      }
    }
  }

  /** Calls and then further calls. */
  lemma GrownTwice(
      keys: SessionKeys, a: seq<Entry>, b: seq<Entry>, c: seq<Entry>,
      first: seq<(Label, bytes)>, second: seq<(Label, bytes)>, at: seq<nat>, later: seq<nat>) returns (all: seq<nat>)
    requires WellFormed(keys, c)
    requires Grown(keys, a, b, first, at) && Grown(keys, b, c, second, later)
    ensures Grown(keys, a, c, first + second, all)
  {
    hide WellFormed, Minted;
    var calls := first + second;
    all := at + seq(|later|, i requires 0 <= i < |later| => |first| + later[i]);
    forall x
      ensures Given(calls, x) <==> Given(first, x) || Given(second, x)
    {
      GivenAppend(first, second, x);
    }
    forall i | 0 <= i < |all|
      ensures ComesFrom(keys, c[|a| + i], calls, all[i])
    {
      if i < |at| {
        assert c[|a| + i] == b[|a| + i];
      } else {
        LateComer(keys, b, c, first, second, |a| + i, later[i - |at|]);
      }
    }
  }

  lemma GivenAppend(first: seq<(Label, bytes)>, second: seq<(Label, bytes)>, x: bytes)
    ensures Given(first + second, x) <==> Given(first, x) || Given(second, x)
  {
    var calls := first + second;
    if Given(first, x) {
      var k :| 0 <= k < |first| && first[k].1 == x;
      assert calls[k].1 == x;
    }
    if Given(second, x) {
      var k :| 0 <= k < |second| && second[k].1 == x;
      assert calls[|first| + k].1 == x;
    }
  }

  lemma LateComer(keys: SessionKeys, b: seq<Entry>, c: seq<Entry>,
                  first: seq<(Label, bytes)>, second: seq<(Label, bytes)>, i: nat, k: nat)
    requires WellFormed(keys, c) && b <= c && |b| <= i < |c|
    requires forall x :: x != [] && Given(first, x) ==> Holds(b, x)
    requires ComesFrom(keys, c[i], second, k)
    ensures ComesFrom(keys, c[i], first + second, |first| + k)
  {
    assert EntryOk(keys, c[i], i + 1);
    NotHeldBefore(keys, b, c, i);
    assert !Given(first, c[i].secret);
  }

  lemma NotHeldBefore(keys: SessionKeys, b: seq<Entry>, c: seq<Entry>, i: nat)
    requires WellFormed(keys, c) && b <= c && |b| <= i < |c|
    ensures !Holds(b, c[i].secret)
  {
    assert forall m :: 0 <= m < |b| ==> b[m] == c[m];
  }

  /**
   * The registry lists each non-empty secret once, in the order in which they were first given, each under
   * the label it was first given with and the placeholder made from it.
   */
  lemma {:induction false} ListsFirstGiven(keys: SessionKeys, calls: seq<(Label, bytes)>) returns (at: seq<nat>)
    ensures WellFormed(keys, IngestAll(keys, calls)) && Grown(keys, [], IngestAll(keys, calls), calls, at)
  {
    if calls == [] {
      at := [];
    } else {
      hide Grown, WellFormed, Ingested;
      var front, last := calls[..|calls| - 1], calls[|calls| - 1];
      var at1 := ListsFirstGiven(keys, front);
      var es := IngestAll(keys, front);
      var at2 := GrownOne(keys, es, last.0, last.1);
      assert calls == front + [last];
      at := GrownTwice(keys, [], es, IngestAll(keys, calls), front, [last], at1, at2);
    }
  }

  /**
   * The matches of a text are registered in order up to the first empty one, if there is one; that one
   * is refused.
   */
  lemma {:induction false} MatchesAreRegistered(keys: SessionKeys, es: seq<Entry>, matches: seq<(Label, bytes)>)
    returns (n: nat, at: seq<nat>)
    requires WellFormed(keys, es)
    ensures n <= |matches| && forall i :: 0 <= i < n ==> matches[i].1 != []
    ensures n < |matches| ==> matches[n].1 == []
    ensures AfterMatches(keys, es, matches).1 <==> n == |matches|
    ensures WellFormed(keys, AfterMatches(keys, es, matches).0)
    ensures Grown(keys, es, AfterMatches(keys, es, matches).0, matches[..n], at)
    decreases |matches|
  {
    hide Grown, WellFormed;
    if matches == [] || matches[0].1 == [] {
      n, at := 0, [];
      GrownNone(keys, es);
    } else {
      var (name, secret) := matches[0];
      var at1 := GrownOne(keys, es, name, secret);
      var es1 := IngestedOrSame(keys, es, name, secret);
      IngestedProperty(keys, es, name, secret);
      var m, at2 := MatchesAreRegistered(keys, es1, matches[1..]);
      n := m + 1;
      assert matches[..n] == [(name, secret)] + matches[1..][..m];
      at := GrownTwice(
        keys, es, es1, AfterMatches(keys, es, matches).0, [(name, secret)], matches[1..][..m], at1, at2);
    }
  }

  /** When no match is refused, exactly the matches are held besides what was held before. */
  lemma MatchesAreHeld(keys: SessionKeys, es: seq<Entry>, matches: seq<(Label, bytes)>, x: bytes)
    requires WellFormed(keys, es)
    ensures var (more, ok) := AfterMatches(keys, es, matches);
            && (ok <==> forall i :: 0 <= i < |matches| ==> matches[i].1 != [])
            && (ok ==> (Holds(more, x) <==> Holds(es, x) || exists i :: 0 <= i < |matches| && matches[i].1 == x))
  {
    var n, at := MatchesAreRegistered(keys, es, matches);
    hide AfterMatches;
    if n == |matches| {
      assert matches[..n] == matches;
      assert Given(matches, x) <==> exists i :: 0 <= i < |matches| && matches[i].1 == x;
    }
  }

  /** `at` lists the places of the tagged parts. */
  ghost predicate TaggedAt(parts: seq<Part>, at: seq<nat>) {
    && Increasing(at)
    && (forall i :: 0 <= i < |at| ==> at[i] < |parts| && parts[at[i]].Secret?)
    && forall k :: 0 <= k < |parts| && parts[k].Secret? ==> k in at
  }

  function Raised(at: seq<nat>): (r: seq<nat>)
    ensures |r| == |at| && forall i :: 0 <= i < |at| ==> r[i] == at[i] + 1
  {
    seq(|at|, i requires 0 <= i < |at| => at[i] + 1)
  }

  lemma TaggedCons(parts: seq<Part>, at: seq<nat>)
    requires parts != [] && TaggedAt(parts[1..], at)
    ensures TaggedAt(parts, (if parts[0].Secret? then [0] else []) + Raised(at))
  {
    hide TaggedAt;
    TaggedLater(parts, at);
    if parts[0].Secret? {
      TaggedFirst(parts, Raised(at));
    } else {
      assert [] + Raised(at) == Raised(at);
      NoneFirst(parts, Raised(at));
    }
  }

  /** The places of the tagged parts behind the first part. */
  ghost predicate TaggedBehind(parts: seq<Part>, at: seq<nat>) {
    && Increasing(at)
    && (forall i :: 0 <= i < |at| ==> 0 < at[i] < |parts| && parts[at[i]].Secret?)
    && forall k :: 0 < k < |parts| && parts[k].Secret? ==> k in at
  }

  lemma TaggedLater(parts: seq<Part>, at: seq<nat>)
    requires parts != [] && TaggedAt(parts[1..], at)
    ensures TaggedBehind(parts, Raised(at))
  {
    var raised := Raised(at);
    forall k | 0 < k < |parts| && parts[k].Secret?
      ensures k in raised
    {
      assert parts[1..][k - 1] == parts[k];
      var i :| 0 <= i < |at| && at[i] == k - 1;
      assert raised[i] == k;
    }
  }

  lemma TaggedFirst(parts: seq<Part>, at: seq<nat>)
    requires parts != [] && parts[0].Secret? && TaggedBehind(parts, at)
    ensures TaggedAt(parts, [0] + at)
  {
    var all := [0] + at;
    forall k | 0 <= k < |parts| && parts[k].Secret?
      ensures k in all
    {
      if k == 0 {
        assert all[0] == 0;
      }
    }
  }

  lemma NoneFirst(parts: seq<Part>, at: seq<nat>)
    requires parts != [] && !parts[0].Secret? && TaggedBehind(parts, at)
    ensures TaggedAt(parts, at)
  {
  }

  /** The tagged secrets are registered in the order of the text, under the label USER. */
  lemma {:induction false} TaggedAreRegistered(keys: SessionKeys, es: seq<Entry>, parts: seq<Part>)
    returns (places: seq<nat>, calls: seq<(Label, bytes)>, at: seq<nat>)
    requires WellFormed(keys, es)
    ensures TaggedAt(parts, places) && |calls| == |places|
    ensures forall i :: 0 <= i < |calls| ==> calls[i] == (USER, parts[places[i]].text)
    ensures WellFormed(keys, Registered(keys, es, parts))
    ensures Grown(keys, es, Registered(keys, es, parts), calls, at)
    decreases |parts|
  {
    hide Grown, WellFormed, Ingested, IngestedOrSame, TaggedAt;
    if parts == [] {
      places, calls, at := [], [], [];
      GrownNone(keys, es);
      NoParts(parts);
    } else {
      var one: seq<(Label, bytes)> := if parts[0].Secret? then [(USER, parts[0].text)] else [];
      var es1 := if parts[0].Secret? then IngestedOrSame(keys, es, USER, parts[0].text) else es;
      var at1: seq<nat> := [];
      if parts[0].Secret? {
        at1 := GrownOne(keys, es, USER, parts[0].text);
      } else {
        GrownNone(keys, es);
      }
      var places2, calls2, at2 := TaggedAreRegistered(keys, es1, parts[1..]);
      TaggedCons(parts, places2);
      places, calls := (if parts[0].Secret? then [0] else []) + Raised(places2), one + calls2;
      ThroughRest(parts, places2, calls2);
      at := GrownTwice(keys, es, es1, Registered(keys, es, parts), one, calls2, at1, at2);
    }
  }

  lemma NoParts(parts: seq<Part>)
    ensures parts == [] ==> TaggedAt(parts, [])
  {
  }

  lemma ThroughRest(parts: seq<Part>, places: seq<nat>, calls: seq<(Label, bytes)>)
    requires parts != [] && TaggedAt(parts[1..], places) && |calls| == |places|
    requires forall i :: 0 <= i < |calls| ==> calls[i] == (USER, parts[1..][places[i]].text)
    ensures var all := (if parts[0].Secret? then [0] else []) + Raised(places);
            var every := (if parts[0].Secret? then [(USER, parts[0].text)] else []) + calls;
            && |every| == |all| && (forall i :: 0 <= i < |all| ==> all[i] < |parts|)
            && forall i :: 0 <= i < |every| ==> every[i] == (USER, parts[all[i]].text)
  {
  }

  /** Each id leads to the secret that is tagged at its place. */
  ghost predicate NameSecrets(es: seq<Entry>, parts: seq<Part>, places: seq<nat>, ids: seq<nat>) {
    && |ids| == |places|
    && forall i :: 0 <= i < |places| ==> (
         places[i] < |parts| && 1 <= ids[i] <= |es| && es[ids[i] - 1].secret == parts[places[i]].text)
  }

  /** The ids passed on for the tagged parts name their secrets, in the order of the text. */
  lemma {:induction false} TaggedIdsNameSecrets(keys: SessionKeys, es: seq<Entry>, parts: seq<Part>)
    returns (places: seq<nat>)
    requires WellFormed(keys, es) && HoldsTagged(es, parts)
    ensures TaggedAt(parts, places) && NameSecrets(es, parts, places, TaggedIds(es, parts))
    decreases |parts|
  {
    hide TaggedAt, NameSecrets, WellFormed, Existing;
    if parts == [] {
      places := [];
      NoParts(parts);
      NoNames(es, parts);
    } else {
      var rest := TaggedIdsNameSecrets(keys, es, parts[1..]);
      TaggedCons(parts, rest);
      places := (if parts[0].Secret? then [0] else []) + Raised(rest);
      NamesLater(es, parts, rest, TaggedIds(es, parts[1..]));
      if parts[0].Secret? {
        HeldUnder(keys, es, parts[0].text);
        NamesFirst(es, parts, Raised(rest), TaggedIds(es, parts[1..]), IdOf(es, parts[0].text));
      } else {
        NothingFirst(Raised(rest), TaggedIds(es, parts[1..]));
      }
    }
  }

  lemma NoNames(es: seq<Entry>, parts: seq<Part>)
    ensures NameSecrets(es, parts, [], [])
  {
  }

  lemma NothingFirst(places: seq<nat>, ids: seq<nat>)
    ensures [] + places == places && [] + ids == ids
  {
  }

  lemma NamesLater(es: seq<Entry>, parts: seq<Part>, places: seq<nat>, ids: seq<nat>)
    requires parts != [] && NameSecrets(es, parts[1..], places, ids)
    ensures NameSecrets(es, parts, Raised(places), ids)
  {
  }

  lemma NamesFirst(es: seq<Entry>, parts: seq<Part>, places: seq<nat>, ids: seq<nat>, id: nat)
    requires NameSecrets(es, parts, places, ids)
    requires parts != [] && 1 <= id <= |es| && es[id - 1].secret == parts[0].text
    ensures NameSecrets(es, parts, [0] + places, [id] + ids)
  {
  }

  lemma HeldUnder(keys: SessionKeys, es: seq<Entry>, secret: bytes)
    requires WellFormed(keys, es) && Existing(es, KeyedDigest(secret), |secret|).Some?
    ensures es[IdOf(es, secret) - 1].secret == secret
  {
    assert EntryOk(keys, es[IdOf(es, secret) - 1], IdOf(es, secret));
  }
}
