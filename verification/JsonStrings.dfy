/**
 * Which strings the JSON sanitizer (src/redact/json_sanitizer.rs) rewrites, in which order and under which
 * key path, said without the traversal and without the machine.
 */
module JsonStrings {
  import opened Bytes
  import opened JsonTree
  import opened JsonStream

  /** A string value: the keys on the way to it, as they stand in the text, and its bytes. */
  datatype Leaf = Leaf(keys: seq<bytes>, raw: bytes)

  /** The string values of a tree in the order of the text. */
  function Leaves(v: Json): seq<Leaf> {
    match v
    case Str(raw) => [Leaf([], raw)]
    case Atom(_) => []
    case Arr(items) => LeavesOfItems(items)
    case Obj(members) => LeavesOfMembers(members)
  }

  function LeavesOfItems(items: Items): seq<Leaf> {
    if items.NoItem? then [] else Leaves(items.value) + LeavesOfItems(items.rest)
  }

  function LeavesOfMembers(ms: Members): seq<Leaf> {
    if ms.NoMember? then [] else Under(ms.key, Leaves(ms.value)) + LeavesOfMembers(ms.rest)
  }

  function Under(key: bytes, leaves: seq<Leaf>): (r: seq<Leaf>)
    ensures |r| == |leaves|
    ensures forall i :: 0 <= i < |leaves| ==> r[i] == Leaf([key] + leaves[i].keys, leaves[i].raw)
  {
    seq(|leaves|, i requires 0 <= i < |leaves| => Leaf([key] + leaves[i].keys, leaves[i].raw))
  }

  function Raws(leaves: seq<Leaf>): (r: seq<bytes>)
    ensures |r| == |leaves| && forall i :: 0 <= i < |leaves| ==> r[i] == leaves[i].raw
  {
    seq(|leaves|, i requires 0 <= i < |leaves| => leaves[i].raw)
  }

  predicate KeysDecode<S>(r: Rules<S>, v: Json) {
    match v
    case Str(_) => true
    case Atom(_) => true
    case Arr(items) => ItemKeysDecode(r, items)
    case Obj(members) => MemberKeysDecode(r, members)
  }

  predicate ItemKeysDecode<S>(r: Rules<S>, items: Items) {
    items.Item? ==> KeysDecode(r, items.value) && ItemKeysDecode(r, items.rest)
  }

  predicate MemberKeysDecode<S>(r: Rules<S>, ms: Members) {
    ms.Member? ==> r.decode(ms.key).Some? && KeysDecode(r, ms.value) && MemberKeysDecode(r, ms.rest)
  }

  function DecodedKeys<S>(r: Rules<S>, keys: seq<bytes>): Option<seq<bytes>> {
    if keys == [] then Some([])
    else match (r.decode(keys[0]), DecodedKeys(r, keys[1..]))
      case (Some(key), Some(rest)) => Some([key] + rest)
      case _ => None
  }

  /** One string after another, each under the decoded keys on the way to it, with the state handed on. */
  function Threaded<S>(r: Rules<S>, s: S, path: seq<bytes>, leaves: seq<Leaf>): Option<(seq<bytes>, S)>
    decreases |leaves|
  {
    if leaves == [] then Some(([], s))
    else match DecodedKeys(r, leaves[0].keys)
      case None => None
      case Some(keys) =>
        match r.rewrite(s, path + keys, leaves[0].raw)
        case None => None
        case Some((s1, out)) => InFront(out, Threaded(r, s1, path, leaves[1..]))
  }

  function InFront<S>(out: bytes, rest: Option<(seq<bytes>, S)>): Option<(seq<bytes>, S)> {
    match rest
    case None => None
    case Some((outs, s)) => Some(([out] + outs, s))
  }

  function Chained<S>(r: Rules<S>, first: Option<(seq<bytes>, S)>, path: seq<bytes>, leaves: seq<Leaf>)
    : Option<(seq<bytes>, S)>
  {
    match first
    case None => None
    case Some((outs, s)) =>
      match Threaded(r, s, path, leaves)
      case None => None
      case Some((more, s1)) => Some((outs + more, s1))
  }

  lemma {:induction false} ThreadedAppend<S>(r: Rules<S>, s: S, path: seq<bytes>, a: seq<Leaf>, b: seq<Leaf>)
    ensures Threaded(r, s, path, a + b) == Chained(r, Threaded(r, s, path, a), path, b)
    decreases |a|
  {
    if a == [] {
      assert a + b == b;
      if Threaded(r, s, path, b).Some? {
        assert [] + Threaded(r, s, path, b).value.0 == Threaded(r, s, path, b).value.0;
      }
    } else {
      assert (a + b)[0] == a[0] && (a + b)[1..] == a[1..] + b;
      match DecodedKeys(r, a[0].keys) {
        case None =>
        case Some(keys) =>
          match r.rewrite(s, path + keys, a[0].raw) {
            case None =>
            case Some((s1, out)) =>
              ThreadedAppend(r, s1, path, a[1..], b);
              InFrontChained(r, out, Threaded(r, s1, path, a[1..]), path, b);
          }
      }
    }
  }

  lemma InFrontChained<S>(r: Rules<S>, out: bytes, first: Option<(seq<bytes>, S)>, path: seq<bytes>, b: seq<Leaf>)
    ensures InFront(out, Chained(r, first, path, b)) == Chained(r, InFront(out, first), path, b)
  {
    if first.Some? && Threaded(r, first.value.1, path, b).Some? {
      Assoc([out], first.value.0, Threaded(r, first.value.1, path, b).value.0);
    }
  }

  /** A key in front of every leaf is the decoded key behind the path. */
  lemma {:induction false} ThreadedUnder<S>(r: Rules<S>, s: S, path: seq<bytes>, raw: bytes, leaves: seq<Leaf>)
    requires r.decode(raw).Some?
    ensures Threaded(r, s, path, Under(raw, leaves)) == Threaded(r, s, path + [r.decode(raw).value], leaves)
    decreases |leaves|
  {
    if leaves != [] {
      var key, all := r.decode(raw).value, Under(raw, leaves);
      assert all[1..] == Under(raw, leaves[1..]);
      assert all[0].keys[0] == raw && all[0].keys[1..] == leaves[0].keys;
      match DecodedKeys(r, leaves[0].keys) {
        case None =>
        case Some(keys) =>
          Assoc(path, [key], keys);
          match r.rewrite(s, path + [key] + keys, leaves[0].raw) {
            case None =>
            case Some((s1, out)) => ThreadedUnder(r, s1, path, raw, leaves[1..]);
          }
      }
    }
  }


  /** What the traversal made of the strings of a value. */
  ghost predicate StringsRewritten<S>(r: Rules<S>, v: Json, path: seq<bytes>, s: S) {
    var (got, want) := (Rewritten(r, v, path, s), Threaded(r, s, path, Leaves(v)));
    && (got.Some? <==> KeysDecode(r, v) && want.Some?)
    && (got.Some? ==> want == Some((Raws(Leaves(got.value.0)), got.value.1)))
  }

  ghost predicate ItemsRewritten<S>(r: Rules<S>, items: Items, path: seq<bytes>, s: S) {
    var (got, want) := (RewrittenItems(r, items, path, s), Threaded(r, s, path, LeavesOfItems(items)));
    && (got.Some? <==> ItemKeysDecode(r, items) && want.Some?)
    && (got.Some? ==> want == Some((Raws(LeavesOfItems(got.value.0)), got.value.1)))
  }

  ghost predicate MembersRewritten<S>(r: Rules<S>, ms: Members, path: seq<bytes>, s: S) {
    var (got, want) := (RewrittenMembers(r, ms, path, s), Threaded(r, s, path, LeavesOfMembers(ms)));
    && (got.Some? <==> MemberKeysDecode(r, ms) && want.Some?)
    && (got.Some? ==> want == Some((Raws(LeavesOfMembers(got.value.0)), got.value.1)))
  }

  /**
   * The traversal rewrites each string value once, in the order of the text, under the decoded keys on the way
   * to it; it fails exactly when a key is not decoded or a string is refused.
   */
  lemma {:induction false} TraversalRewritesStrings<S>(r: Rules<S>, v: Json, path: seq<bytes>, s: S)
    ensures StringsRewritten(r, v, path, s)
    decreases v
  {
    match v
    case Str(raw) => OneString(r, raw, path, s);
    case Atom(_) =>
    case Arr(items) => ItemsInOrder(r, items, path, s);
    case Obj(members) => MembersInOrder(r, members, path, s);
  }

  lemma OneString<S>(r: Rules<S>, raw: bytes, path: seq<bytes>, s: S)
    ensures StringsRewritten(r, Str(raw), path, s)
  {
    assert path + [] == path;
    var leaves := Leaves(Str(raw));
    assert DecodedKeys(r, leaves[0].keys) == Some([]);
    match r.rewrite(s, path, raw) {
      case None =>
      case Some((s1, out)) =>
        assert Threaded(r, s1, path, leaves[1..]) == Some(([], s1));
        assert Raws(Leaves(Str(out))) == [out] == [out] + [];
    }
  }

  lemma RawsAppend(a: seq<Leaf>, b: seq<Leaf>)
    ensures Raws(a + b) == Raws(a) + Raws(b)
  {
  }

  lemma {:induction false} ItemsInOrder<S>(r: Rules<S>, items: Items, path: seq<bytes>, s: S)
    ensures ItemsRewritten(r, items, path, s)
    decreases items
  {
    if items.Item? {
      TraversalRewritesStrings(r, items.value, path, s);
      ThreadedAppend(r, s, path, Leaves(items.value), LeavesOfItems(items.rest));
      match Rewritten(r, items.value, path, s) {
        case None =>
          NoneChained(r, Threaded(r, s, path, Leaves(items.value)), path, LeavesOfItems(items.rest));
        case Some((v1, s1)) =>
          ItemsInOrder(r, items.rest, path, s1);
          match RewrittenItems(r, items.rest, path, s1) {
            case None =>
            case Some((rest1, s2)) => RawsAppend(Leaves(v1), LeavesOfItems(rest1));
          }
      }
    }
  }

  lemma NoneChained<S>(r: Rules<S>, first: Option<(seq<bytes>, S)>, path: seq<bytes>, b: seq<Leaf>)
    ensures first.None? ==> Chained(r, first, path, b).None?
  {
  }

  lemma UnderRaws(key: bytes, leaves: seq<Leaf>)
    ensures Raws(Under(key, leaves)) == Raws(leaves)
  {
  }

  lemma {:induction false} MembersInOrder<S>(r: Rules<S>, ms: Members, path: seq<bytes>, s: S)
    ensures MembersRewritten(r, ms, path, s)
    decreases ms
  {
    if ms.Member? && r.decode(ms.key).Some? {
      var inner := path + [r.decode(ms.key).value];
      TraversalRewritesStrings(r, ms.value, inner, s);
      ThreadedUnder(r, s, path, ms.key, Leaves(ms.value));
      ThreadedAppend(r, s, path, Under(ms.key, Leaves(ms.value)), LeavesOfMembers(ms.rest));
      match Rewritten(r, ms.value, inner, s) {
        case None =>
        case Some((v1, s1)) =>
          MembersInOrder(r, ms.rest, path, s1);
          match RewrittenMembers(r, ms.rest, path, s1) {
            case None =>
            case Some((rest1, s2)) =>
              UnderRaws(ms.key, Leaves(v1));
              RawsAppend(Under(ms.key, Leaves(v1)), LeavesOfMembers(rest1));
          }
      }
    }
  }

  // ----- the rest of the tree

  /** With the string values left out, and the string values, a tree is known. */
  lemma {:induction false} SkeletonAndStrings(a: Json, b: Json)
    requires Skeleton(a) == Skeleton(b)
    ensures |Leaves(a)| == |Leaves(b)|
    ensures Raws(Leaves(a)) == Raws(Leaves(b)) ==> a == b
    decreases a
  {
    match (a, b) {
      case (Str(raw), Str(other)) =>
        assert Raws(Leaves(a))[0] == raw && Raws(Leaves(b))[0] == other;
      case (Atom(_), Atom(_)) =>
      case (Arr(items), Arr(others)) => ItemsAndStrings(items, others);
      case (Obj(members), Obj(others)) => MembersAndStrings(members, others);
    }
  }

  lemma RawsParted(a: seq<Leaf>, b: seq<Leaf>, a2: seq<Leaf>, b2: seq<Leaf>)
    requires |a| == |a2| && Raws(a + b) == Raws(a2 + b2)
    ensures Raws(a) == Raws(a2) && Raws(b) == Raws(b2)
  {
    RawsAppend(a, b);
    RawsAppend(a2, b2);
    assert Raws(a) == Raws(a + b)[..|a|] && Raws(a2) == Raws(a2 + b2)[..|a|];
    assert Raws(b) == Raws(a + b)[|a|..] && Raws(b2) == Raws(a2 + b2)[|a|..];
  }

  lemma {:induction false} ItemsAndStrings(a: Items, b: Items)
    requires SkeletonItems(a) == SkeletonItems(b)
    ensures |LeavesOfItems(a)| == |LeavesOfItems(b)|
    ensures Raws(LeavesOfItems(a)) == Raws(LeavesOfItems(b)) ==> a == b
    decreases a
  {
    if a.Item? {
      SkeletonAndStrings(a.value, b.value);
      ItemsAndStrings(a.rest, b.rest);
      if Raws(LeavesOfItems(a)) == Raws(LeavesOfItems(b)) {
        RawsParted(Leaves(a.value), LeavesOfItems(a.rest), Leaves(b.value), LeavesOfItems(b.rest));
      }
    }
  }

  lemma {:induction false} MembersAndStrings(a: Members, b: Members)
    requires SkeletonMembers(a) == SkeletonMembers(b)
    ensures |LeavesOfMembers(a)| == |LeavesOfMembers(b)|
    ensures Raws(LeavesOfMembers(a)) == Raws(LeavesOfMembers(b)) ==> a == b
    decreases a
  {
    if a.Member? {
      SkeletonAndStrings(a.value, b.value);
      MembersAndStrings(a.rest, b.rest);
      if Raws(LeavesOfMembers(a)) == Raws(LeavesOfMembers(b)) {
        RawsParted(Under(a.key, Leaves(a.value)), LeavesOfMembers(a.rest),
                   Under(b.key, Leaves(b.value)), LeavesOfMembers(b.rest));
        UnderRaws(a.key, Leaves(a.value));
        UnderRaws(b.key, Leaves(b.value));
      }
    }
  }

  /**
   * A JSON text in any chunks: the pushes succeed exactly when every key is decoded and every string value,
   * taken in order under its key path, is accepted; then what comes out prints the one tree that
   * differs from the text's in the string values alone and has what the rewriter gave in their places.
   */
  lemma DocumentStrings<S>(r: Rules<S>, s: S, d: Document, chunks: seq<bytes>) returns (v: Json)
    requires WellFormedDocument(d) && Flatten(chunks) == PrintDocument(d)
    ensures var (run, want) := (Pushes(r, START, s, chunks), Threaded(r, s, [], Leaves(d.value)));
            && (run.Some? <==> KeysDecode(r, d.value) && want.Some?)
            && (run.Some? ==>
                  && Skeleton(v) == Skeleton(d.value) && Raws(Leaves(v)) == want.value.0
                  && run == Some((START, want.value.1, PrintDocument(d.(value := v)))))
    ensures forall w :: Skeleton(w) == Skeleton(v) && Raws(Leaves(w)) == Raws(Leaves(v)) ==> w == v
  {
    hide Pushes, Threaded, Leaves, Rewritten, KeysDecode, Skeleton, PrintDocument;
    v := d.value;
    DocumentStreamed(r, s, d, chunks);
    TraversalRewritesStrings(r, d.value, [], s);
    match Rewritten(r, d.value, [], s) {
      case None =>
      case Some((v1, _)) => v := v1;
    }
    forall w | Skeleton(w) == Skeleton(v) && Raws(Leaves(w)) == Raws(Leaves(v))
      ensures w == v
    {
      SkeletonAndStrings(w, v);
    }
  }

  // ----- any bytes at all

  /** What the rewriter gave for `raw` in some state, under some path. */
  ghost predicate GivenFor<S(!new)>(r: Rules<S>, raw: bytes, out: bytes) {
    exists s: S, path: seq<bytes> :: r.rewrite(s, path, raw).Some? && r.rewrite(s, path, raw).value.1 == out
  }

  /** A byte outside every literal stays; a literal stays or is rewritten. */
  ghost predicate PieceStreamed<S(!new)>(r: Rules<S>, p: Piece, out: Piece) {
    match p
    case Bare(_) => out == p
    case Literal(raw) => out.Literal? && (out.raw == raw || GivenFor(r, raw, out.raw))
  }

  /**
   * Whatever bytes are pushed, JSON or not: the pieces come out one for one and in order, each byte
   * outside every literal as it was, and of a literal cut short at the end nothing.
   */
  lemma AnyTextStreamed<S(!new)>(r: Rules<S>, s: S, chunks: seq<bytes>, pieces: seq<Piece>, ending: Ending)
    returns (outs: seq<Piece>)
    requires PiecesOk(pieces, ending) && Flatten(chunks) == PrintPieces(pieces, ending)
    requires Pushes(r, START, s, chunks).Some?
    ensures |outs| == |pieces| && forall i :: 0 <= i < |pieces| ==> PieceStreamed(r, pieces[i], outs[i])
    ensures Pushes(r, START, s, chunks).value.2 == PrintPieces(outs, Outside)
  {
    PushesAreOneRun(r, START, s, chunks);
    outs := PiecesStreamed(r, START, s, pieces, ending);
  }

  lemma {:induction false} PiecesStreamed<S(!new)>(r: Rules<S>, m: Machine, s: S, pieces: seq<Piece>, ending: Ending)
    returns (outs: seq<Piece>)
    requires AtRest(m) && PiecesOk(pieces, ending) && MachineRun(r, m, s, PrintPieces(pieces, ending)).Some?
    ensures |outs| == |pieces| && forall i :: 0 <= i < |pieces| ==> PieceStreamed(r, pieces[i], outs[i])
    ensures MachineRun(r, m, s, PrintPieces(pieces, ending)).value.2 == PrintPieces(outs, Outside)
    decreases |pieces|
  {
    if pieces == [] {
      EndingRead(r, m, s, ending);
      outs := [];
    } else {
      hide MachineRun, GivenFor, Observed, RawOk;
      var later := PrintPieces(pieces[1..], ending);
      match pieces[0] {
        case Bare(b) =>
          RunAppend(r, m, s, [b], later);
          RunOne(r, m, s, b);
          var rest := PiecesStreamed(r, Observed(m, b), s, pieces[1..], ending);
          outs := [Bare(b)] + rest;
          assert outs[1..] == rest;
        case Literal(raw) =>
          RunAppend(r, m, s, Quote(raw), later);
          RunString(r, m, s, raw);
          var full := m.(inString := true, raw := raw);
          var done := Completed(r, full, s).value;
          var rest := PiecesStreamed(r, done.0, done.1, pieces[1..], ending);
          var out := LiteralStreamed(r, full, s);
          outs := [Literal(out)] + rest;
          assert outs[1..] == rest;
      }
    }
  }

  lemma LiteralStreamed<S(!new)>(r: Rules<S>, m: Machine, s: S) returns (out: bytes)
    requires Completed(r, m, s).Some?
    ensures Completed(r, m, s).value.2 == Quote(out) && (out == m.raw || GivenFor(r, m.raw, out))
  {
    if ExpectsKey(m) {
      out := m.raw;
    } else {
      out := r.rewrite(s, ValuePath(m), m.raw).value.1;
    }
  }
}
