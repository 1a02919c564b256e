/** Redaction spans: the longest-first greedy choice and the rewriting (src/redact/span.rs). */
module Span {
  import opened Bytes

  datatype RedactionSpan = RedactionSpan(start: nat, len: nat, id: nat, placeholder: bytes) {
    function End(): nat {
      start + len
    }

    predicate Overlaps(other: RedactionSpan) {
      start < other.End() && other.start < End()
    }

    /** The same span seen from a text that begins `offset` bytes earlier. */
    function Shift(offset: nat): RedactionSpan {
      this.(start := start + offset)
    }
  }

  /** Strictly earlier in the order of the choice: longer, then further left, then smaller id. */
  predicate Ranked(a: RedactionSpan, b: RedactionSpan) {
    || a.len > b.len
    || (a.len == b.len && a.start < b.start)
    || (a.len == b.len && a.start == b.start && a.id < b.id)
  }

  /** The order of the result: further left, then longer, then smaller id. */
  predicate Leftward(a: RedactionSpan, b: RedactionSpan) {
    || a.start < b.start
    || (a.start == b.start && a.len > b.len)
    || (a.start == b.start && a.len == b.len && a.id < b.id)
  }

  ghost function Elements(spans: seq<RedactionSpan>): set<RedactionSpan> {
    set s | s in spans
  }

  /** Spans have length and are told apart by start, length and id. */
  ghost predicate Proper(spans: set<RedactionSpan>) {
    && (forall s :: s in spans ==> s.len > 0)
    && (forall s, t :: s in spans && t in spans && s.start == t.start && s.len == t.len && s.id == t.id ==> s == t)
  }

  /** Left to right and disjoint. */
  predicate Ordered(spans: seq<RedactionSpan>) {
    forall i, j :: 0 <= i < j < |spans| ==> spans[i].End() <= spans[j].start
  }

  ghost predicate Blocked(chosen: seq<RedactionSpan>, s: RedactionSpan) {
    exists b :: b in chosen && b.Overlaps(s) && Ranked(b, s)
  }

  /**
   * `chosen` is a left-to-right list of pairwise disjoint candidates, and every candidate left
   * out overlaps a chosen one that ranks before it.
   */
  ghost predicate IsChoice(candidates: set<RedactionSpan>, chosen: seq<RedactionSpan>) {
    && (forall i :: 0 <= i < |chosen| ==> chosen[i] in candidates)
    && Ordered(chosen)
    && (forall s :: s in candidates ==> s in chosen || Blocked(chosen, s))
  }

  // ----- there is only one choice

  ghost function RankedBefore(candidates: set<RedactionSpan>, s: RedactionSpan): set<RedactionSpan> {
    set t | t in candidates && Ranked(t, s)
  }

  lemma DisjointMembers(chosen: seq<RedactionSpan>, a: RedactionSpan, b: RedactionSpan)
    requires Ordered(chosen) && a in chosen && b in chosen && a.Overlaps(b)
    ensures a == b
  {
  }

  lemma {:induction false} SameMembers(
    candidates: set<RedactionSpan>, r1: seq<RedactionSpan>, r2: seq<RedactionSpan>, s: RedactionSpan)
    requires IsChoice(candidates, r1) && IsChoice(candidates, r2)
    requires s in r1
    ensures s in r2
    decreases |RankedBefore(candidates, s)|
  {
    if s !in r2 {
      var b :| b in r2 && b.Overlaps(s) && Ranked(b, s);
      assert RankedBefore(candidates, b) < RankedBefore(candidates, s) by {
        assert b in RankedBefore(candidates, s) && b !in RankedBefore(candidates, b);
      }
      SubsetSize(RankedBefore(candidates, b), RankedBefore(candidates, s));
      SameMembers(candidates, r2, r1, b);
      DisjointMembers(r1, b, s);
    }
  }

  lemma SubsetSize<T>(a: set<T>, b: set<T>)
    requires a < b
    ensures |a| < |b|
  {
    assert b == a + (b - a);
  }

  lemma {:induction false} OrderedUnique(r1: seq<RedactionSpan>, r2: seq<RedactionSpan>)
    requires Ordered(r1) && Ordered(r2)
    requires forall s :: s in r1 <==> s in r2
    requires forall s :: s in r1 ==> s.len > 0
    ensures r1 == r2
  {
    assert r1 != [] ==> r1[0] in r1;
    assert r2 != [] ==> r2[0] in r2;
    if r1 != [] {
      assert r1[0] in r2 && r2[0] in r1;
      assert r1[0] == r2[0];
      forall s
        ensures s in r1[1..] <==> s in r2[1..]
      {
        assert s in r1 <==> s == r1[0] || s in r1[1..];
        assert s in r2 <==> s == r2[0] || s in r2[1..];
        assert r1[0] !in r1[1..] && r2[0] !in r2[1..];
      }
      OrderedUnique(r1[1..], r2[1..]);
      assert r1 == [r1[0]] + r1[1..] && r2 == [r2[0]] + r2[1..];
    }
  }

  /** The conditions of `IsChoice` leave exactly one list. */
  lemma ChoiceUnique(candidates: set<RedactionSpan>, r1: seq<RedactionSpan>, r2: seq<RedactionSpan>)
    requires Proper(candidates)
    requires IsChoice(candidates, r1) && IsChoice(candidates, r2)
    ensures r1 == r2
  {
    forall s
      ensures s in r1 <==> s in r2
    {
      if s in r1 { SameMembers(candidates, r1, r2, s); }
      if s in r2 { SameMembers(candidates, r2, r1, s); }
    }
    OrderedUnique(r1, r2);
  }

  // ----- the choice made by sorting twice around a greedy pass

  /** Insertion before the first element that does not come strictly earlier: a stable sort. */
  function InsertBy(lt: (RedactionSpan, RedactionSpan) -> bool, x: RedactionSpan, xs: seq<RedactionSpan>)
    : (r: seq<RedactionSpan>)
    ensures multiset(r) == multiset(xs) + multiset{x}
  {
    if xs == [] || !lt(xs[0], x) then [x] + xs
    else
      assert xs == [xs[0]] + xs[1..];
      [xs[0]] + InsertBy(lt, x, xs[1..])
  }

  function SortBy(lt: (RedactionSpan, RedactionSpan) -> bool, xs: seq<RedactionSpan>): (r: seq<RedactionSpan>)
    ensures multiset(r) == multiset(xs)
  {
    if xs == [] then []
    else
      assert xs == [xs[0]] + xs[1..];
      InsertBy(lt, xs[0], SortBy(lt, xs[1..]))
  }

  /** No element is preceded by one that must come strictly later. */
  ghost predicate SortedBy(lt: (RedactionSpan, RedactionSpan) -> bool, xs: seq<RedactionSpan>) {
    forall i, j :: 0 <= i < j < |xs| ==> !lt(xs[j], xs[i])
  }

  /** A strict weak order, as both comparators are. */
  ghost predicate WeakOrder(lt: (RedactionSpan, RedactionSpan) -> bool) {
    && (forall a, b :: lt(a, b) ==> !lt(b, a))
    && (forall a, b, c :: lt(a, b) && !lt(c, b) ==> lt(a, c))
  }

  lemma {:induction false} InsertBySorted(
    lt: (RedactionSpan, RedactionSpan) -> bool, x: RedactionSpan, xs: seq<RedactionSpan>)
    requires WeakOrder(lt) && SortedBy(lt, xs)
    ensures SortedBy(lt, InsertBy(lt, x, xs))
  {
    if xs != [] && lt(xs[0], x) {
      InsertBySorted(lt, x, xs[1..]);
      var rest := InsertBy(lt, x, xs[1..]);
      forall j | 0 <= j < |rest|
        ensures !lt(rest[j], xs[0])
      {
        assert rest[j] in multiset(rest);
        if rest[j] != x {
          assert rest[j] in multiset(xs[1..]);
          assert rest[j] in xs[1..];
        }
      }
    }
  }

  lemma {:induction false} SortBySorted(lt: (RedactionSpan, RedactionSpan) -> bool, xs: seq<RedactionSpan>)
    requires WeakOrder(lt)
    ensures SortedBy(lt, SortBy(lt, xs))
  {
    if xs != [] {
      SortBySorted(lt, xs[1..]);
      InsertBySorted(lt, xs[0], SortBy(lt, xs[1..]));
    }
  }

  lemma SortByMembers(lt: (RedactionSpan, RedactionSpan) -> bool, xs: seq<RedactionSpan>)
    ensures forall s :: s in SortBy(lt, xs) <==> s in xs
  {
    forall s
      ensures s in SortBy(lt, xs) <==> s in xs
    {
      assert s in xs <==> s in multiset(xs);
      assert s in SortBy(lt, xs) <==> s in multiset(SortBy(lt, xs));
    }
  }

  predicate AnyOverlaps(selected: seq<RedactionSpan>, span: RedactionSpan) {
    exists i :: 0 <= i < |selected| && selected[i].Overlaps(span)
  }

  /** The greedy pass over ranked spans, after `selected` was taken. */
  function Greedy(ranked: seq<RedactionSpan>, selected: seq<RedactionSpan>): seq<RedactionSpan> {
    if ranked == [] then selected
    else if AnyOverlaps(selected, ranked[0]) then Greedy(ranked[1..], selected)
    else Greedy(ranked[1..], selected + [ranked[0]])
  }

  function Select(spans: seq<RedactionSpan>): seq<RedactionSpan> {
    SortBy(Leftward, Greedy(SortBy(Ranked, spans), []))
  }

  ghost predicate Disjoint(selected: seq<RedactionSpan>) {
    forall i, j :: 0 <= i < j < |selected| ==> !selected[i].Overlaps(selected[j])
  }

  /** What the greedy pass has settled about the spans it has seen. */
  lemma {:induction false} GreedyProperty(
    seen: seq<RedactionSpan>, ranked: seq<RedactionSpan>, selected: seq<RedactionSpan>)
    requires SortedBy(Ranked, seen + ranked) && Proper(Elements(seen + ranked))
    requires Disjoint(selected)
    requires forall i :: 0 <= i < |selected| ==> selected[i] in seen
    requires forall s :: s in seen ==> s in selected || Blocked(selected, s)
    ensures var r := Greedy(ranked, selected);
            && Disjoint(r)
            && (forall i :: 0 <= i < |r| ==> r[i] in seen + ranked)
            && (forall s :: s in seen + ranked ==> s in r || Blocked(r, s))
    decreases ranked
  {
    if ranked == [] {
      assert seen + ranked == seen;
    } else {
      var s := ranked[0];
      var seen' := seen + [s];
      assert seen' + ranked[1..] == seen + ranked;
      assert s in seen';
      if AnyOverlaps(selected, s) {
        var i :| 0 <= i < |selected| && selected[i].Overlaps(s);
        var b := selected[i];
        assert b in selected && b in seen;
        var k :| 0 <= k < |seen| && seen[k] == b;
        assert (seen + ranked)[k] == b && (seen + ranked)[|seen|] == s;
        assert b in Elements(seen + ranked) && s in Elements(seen + ranked);
        assert !Ranked(s, b);
        assert s == b || Ranked(b, s);
        GreedyProperty(seen', ranked[1..], selected);
      } else {
        var selected' := selected + [s];
        forall t | t in seen'
          ensures t in selected' || Blocked(selected', t)
        {
          if t in seen && t !in selected {
            var b :| b in selected && b.Overlaps(t) && Ranked(b, t);
            assert b in selected';
          }
        }
        GreedyProperty(seen', ranked[1..], selected');
      }
    }
  }

  lemma OrderedFromSorted(xs: seq<RedactionSpan>)
    requires SortedBy(Leftward, xs) && Disjoint(xs)
    requires forall i :: 0 <= i < |xs| ==> xs[i].len > 0
    ensures Ordered(xs)
  {
    forall i, j | 0 <= i < j < |xs|
      ensures xs[i].End() <= xs[j].start
    {
      assert !Leftward(xs[j], xs[i]) && !xs[i].Overlaps(xs[j]);
    }
  }

  lemma {:induction false} InsertByDisjoint(
    lt: (RedactionSpan, RedactionSpan) -> bool, x: RedactionSpan, xs: seq<RedactionSpan>)
    requires Disjoint(xs) && forall s :: s in xs ==> !s.Overlaps(x)
    ensures Disjoint(InsertBy(lt, x, xs))
  {
    forall i | 0 <= i < |xs|
      ensures !x.Overlaps(xs[i])
    {
      assert xs[i] in xs && !xs[i].Overlaps(x);
    }
    if xs != [] && lt(xs[0], x) {
      InsertByDisjoint(lt, x, xs[1..]);
      var rest := InsertBy(lt, x, xs[1..]);
      forall j | 0 <= j < |rest|
        ensures !xs[0].Overlaps(rest[j])
      {
        assert rest[j] in multiset(rest);
        if rest[j] != x {
          assert rest[j] in multiset(xs[1..]);
          assert rest[j] in xs[1..];
        }
      }
    }
  }

  lemma {:induction false} SortByDisjoint(lt: (RedactionSpan, RedactionSpan) -> bool, xs: seq<RedactionSpan>)
    requires Disjoint(xs)
    ensures Disjoint(SortBy(lt, xs))
  {
    if xs != [] {
      SortByDisjoint(lt, xs[1..]);
      SortByMembers(lt, xs[1..]);
      InsertByDisjoint(lt, xs[0], SortBy(lt, xs[1..]));
    }
  }

  /** Sorting, choosing greedily and sorting again makes the one choice there is. */
  lemma SelectIsChoice(spans: seq<RedactionSpan>)
    requires Proper(Elements(spans))
    ensures IsChoice(Elements(spans), Select(spans))
  {
    hide SortBy, Greedy, Proper, IsChoice, Disjoint;
    GreedyChoice(spans);
    ResortChoice(spans, Greedy(SortBy(Ranked, spans), []));
  }

  /**
   * A candidate is left out only for a chosen one that shares a place with it and is longer, or as long
   * and further left, or the same stretch under a smaller id.
   */
  lemma WhyNotSelected(spans: seq<RedactionSpan>, t: RedactionSpan) returns (b: RedactionSpan)
    requires Proper(Elements(spans)) && t in spans && t !in Select(spans)
    ensures b in Select(spans) && b.start < t.start + t.len && t.start < b.start + b.len
    ensures b.len >= t.len
    ensures b.len == t.len ==> b.start <= t.start
    ensures b.len == t.len && b.start == t.start ==> b.id < t.id
  {
    SelectIsChoice(spans);
    assert t in Elements(spans);
    b :| b in Select(spans) && b.Overlaps(t) && Ranked(b, t);
  }

  /** The greedy pass alone: disjoint candidates, and a reason for each one left out. */
  lemma GreedyChoice(spans: seq<RedactionSpan>)
    requires Proper(Elements(spans))
    ensures var greedy := Greedy(SortBy(Ranked, spans), []);
            && Disjoint(greedy)
            && (forall s :: s in greedy ==> s in spans)
            && (forall s :: s in spans ==> s in greedy || Blocked(greedy, s))
  {
    var ranked := SortBy(Ranked, spans);
    SortBySorted(Ranked, spans);
    SortByMembers(Ranked, spans);
    assert [] + ranked == ranked && Elements(ranked) == Elements(spans);
    hide SortBy, Greedy, Proper, Disjoint;
    NoneSelected();
    GreedyProperty([], ranked, []);
  }

  lemma NoneSelected()
    ensures Disjoint([])
  {
  }

  /** Sorting the chosen spans from left to right keeps the choice. */
  lemma ResortChoice(spans: seq<RedactionSpan>, greedy: seq<RedactionSpan>)
    requires Proper(Elements(spans)) && Disjoint(greedy)
    requires forall s :: s in greedy ==> s in spans
    requires forall s :: s in spans ==> s in greedy || Blocked(greedy, s)
    ensures IsChoice(Elements(spans), SortBy(Leftward, greedy))
  {
    var r := SortBy(Leftward, greedy);
    SortBySorted(Leftward, greedy);
    SortByDisjoint(Leftward, greedy);
    SortByMembers(Leftward, greedy);
    hide SortBy;
    forall i | 0 <= i < |r|
      ensures r[i] in Elements(spans) && r[i].len > 0
    {
      assert r[i] in r && r[i] in greedy;
    }
    OrderedFromSorted(r);
    forall s | s in Elements(spans)
      ensures s in r || Blocked(r, s)
    {
      if s !in greedy {
        var b :| b in greedy && b.Overlaps(s) && Ranked(b, s);
        assert b in r;
      }
    }
  }

  /** `select_longest_non_overlapping`. */
  method SelectLongestNonOverlapping(spans: seq<RedactionSpan>) returns (selected: seq<RedactionSpan>)
    ensures selected == Select(spans)
    ensures Proper(Elements(spans)) ==> IsChoice(Elements(spans), selected)
  {
    var ranked := SortBy(Ranked, spans);
    selected := [];
    for i := 0 to |ranked|
      invariant Greedy(ranked[i..], selected) == Greedy(ranked, [])
    {
      assert ranked[i..][1..] == ranked[i + 1..];
      if AnyOverlaps(selected, ranked[i]) {
        continue;
      }
      selected := selected + [ranked[i]];
    }
    selected := SortBy(Leftward, selected);
    if Proper(Elements(spans)) {
      SelectIsChoice(spans);
    }
  }

  // ----- rewriting

  /** Left to right, disjoint, and inside the text from `cursor` on: what a scan returns. */
  predicate Fits(text: bytes, cursor: nat, spans: seq<RedactionSpan>) {
    && Ordered(spans)
    && cursor <= |text|
    && forall i :: 0 <= i < |spans| ==> cursor <= spans[i].start <= spans[i].End() <= |text|
  }

  /** The text from `cursor` on, with each span replaced by its placeholder. */
  function Applied(text: bytes, cursor: nat, spans: seq<RedactionSpan>): bytes
    requires Fits(text, cursor, spans)
    decreases |spans|
  {
    if spans == [] then text[cursor..]
    else text[cursor..spans[0].start] + spans[0].placeholder + Applied(text, spans[0].End(), spans[1..])
  }

  /** The spans lie inside the text, in any order and overlapping or not. */
  predicate InText(text: bytes, spans: seq<RedactionSpan>) {
    forall i :: 0 <= i < |spans| ==> spans[i].End() <= |text|
  }

  /** What is written from `cursor` on, span by span: no byte before the cursor is written again as a gap. */
  function Written(text: bytes, cursor: nat, spans: seq<RedactionSpan>): bytes
    requires InText(text, spans) && cursor <= |text|
    decreases |spans|
  {
    if spans == [] then text[cursor..]
    else
      text[cursor..Max(cursor, spans[0].start)] + spans[0].placeholder + Written(text, spans[0].End(), spans[1..])
  }

  /** For ordered and disjoint spans that is the text with each of them replaced. */
  lemma {:induction false} WrittenIsApplied(text: bytes, cursor: nat, spans: seq<RedactionSpan>)
    requires Fits(text, cursor, spans)
    ensures Written(text, cursor, spans) == Applied(text, cursor, spans)
    decreases |spans|
  {
    if spans != [] {
      WrittenIsApplied(text, spans[0].End(), spans[1..]);
    }
  }

  lemma WrittenStep(text: bytes, cursor: nat, spans: seq<RedactionSpan>, i: nat)
    requires i < |spans| && InText(text, spans) && cursor <= |text|
    ensures spans[i].End() <= |text|
    ensures Written(text, cursor, spans[i..])
         == text[cursor..Max(cursor, spans[i].start)] + spans[i].placeholder
            + Written(text, spans[i].End(), spans[i + 1..])
  {
    var rest := spans[i..];
    assert rest[0] == spans[i] && rest[1..] == spans[i + 1..];
  }

  /** `apply_spans`. */
  method ApplySpans(text: bytes, spans: seq<RedactionSpan>) returns (out: bytes)
    requires InText(text, spans)
    ensures out == Written(text, 0, spans)
    ensures Fits(text, 0, spans) ==> out == Applied(text, 0, spans)
  {
    if Fits(text, 0, spans) {
      WrittenIsApplied(text, 0, spans);
    }
    if spans == [] {
      return text;
    }
    hide Written, Applied, Fits;
    out := [];
    var cursor: nat := 0;
    assert spans[0..] == spans;
    for i := 0 to |spans|
      invariant cursor <= |text|
      invariant Written(text, 0, spans) == out + Written(text, cursor, spans[i..])
    {
      WrittenStep(text, cursor, spans, i);
      ghost var gap := text[cursor..Max(cursor, spans[i].start)];
      ghost var rest := Written(text, spans[i].End(), spans[i + 1..]);
      Assoc(out, gap + spans[i].placeholder, rest);
      Assoc(out, gap, spans[i].placeholder);
      if spans[i].start > cursor {
        out := out + text[cursor..spans[i].start];
      } else {
        assert out + gap == out;
      }
      out := out + spans[i].placeholder;
      cursor := spans[i].End();
    }
    WrittenEnd(text, cursor, spans[|spans|..]);
    if cursor < |text| {
      out := out + text[cursor..];
    }
  }

  lemma WrittenEnd(text: bytes, cursor: nat, spans: seq<RedactionSpan>)
    requires spans == [] && cursor <= |text|
    ensures Written(text, cursor, spans) == text[cursor..]
  {
  }
}
