/**
 * JSON texts as trees that keep every byte (RFC 8259), and the recursive traversal that rewrites
 * their strings (src/redact/json_sanitizer.rs, `sanitize_value`).
 */
module JsonTree {
  import opened Bytes

  const QUOTE: byte := 34
  const BACKSLASH: byte := 92
  const COMMA: byte := 44
  const COLON: byte := 58
  const LBRACKET: byte := 91
  const RBRACKET: byte := 93

  /** `raw` is a string literal without its quotes, escapes and all. */
  datatype Json = Str(raw: bytes) | Atom(text: bytes) | Arr(items: Items) | Obj(members: Members)

  /** What stands behind an opening bracket, up to the closing one. */
  datatype Items = NoItem(pad: bytes) | Item(pad: bytes, value: Json, behind: bytes, rest: Items)

  datatype Members =
    | NoMember(pad: bytes)
    | Member(pad: bytes, key: bytes, beforeColon: bytes, afterColon: bytes, value: Json, behind: bytes, rest: Members)

  /** A value with white space around it. */
  datatype Document = Document(pad: bytes, value: Json, behind: bytes)

  // ----- texts

  /** Section 2 of RFC 8259. */
  predicate White(text: bytes) {
    forall i :: 0 <= i < |text| ==> text[i] == 32 || text[i] == 9 || text[i] == LF || text[i] == CR
  }

  /** No byte opens or closes anything or separates two values. */
  predicate Quiet(text: bytes) {
    forall i :: 0 <= i < |text| ==> QuietByte(text[i])
  }

  predicate QuietByte(b: byte) {
    b != QUOTE && b != COMMA && b != LBRACE && b != RBRACE && b != LBRACKET && b != RBRACKET
  }

  /** Section 7 of RFC 8259: no quote stands bare, and a backslash takes the next byte with it. */
  predicate RawOk(raw: bytes) {
    raw == []
    || (raw[0] == BACKSLASH && |raw| >= 2 && RawOk(raw[2..]))
    || (raw[0] != BACKSLASH && raw[0] != QUOTE && RawOk(raw[1..]))
  }

  /** Numbers and literal names are only known by holding no structural byte. */
  predicate WellFormedJson(v: Json) {
    match v
    case Str(raw) => RawOk(raw)
    case Atom(text) => Quiet(text)
    case Arr(items) => WellFormedItems(items)
    case Obj(members) => WellFormedMembers(members)
  }

  predicate WellFormedItems(items: Items) {
    && White(items.pad)
    && (items.Item? ==> WellFormedJson(items.value) && White(items.behind) && WellFormedItems(items.rest))
  }

  predicate WellFormedMembers(ms: Members) {
    && White(ms.pad)
    && (ms.Member? ==>
          && RawOk(ms.key) && White(ms.beforeColon) && White(ms.afterColon)
          && WellFormedJson(ms.value) && White(ms.behind) && WellFormedMembers(ms.rest))
  }

  predicate WellFormedDocument(d: Document) {
    White(d.pad) && WellFormedJson(d.value) && White(d.behind)
  }

  function Quote(raw: bytes): bytes {
    [QUOTE] + (raw + [QUOTE])
  }

  function Print(v: Json): bytes {
    match v
    case Str(raw) => Quote(raw)
    case Atom(text) => text
    case Arr(items) => [LBRACKET] + PrintItems(items)
    case Obj(members) => [LBRACE] + PrintMembers(members)
  }

  function PrintItems(items: Items): bytes {
    match items
    case NoItem(pad) => pad + [RBRACKET]
    case Item(pad, value, behind, rest) =>
      pad + (Print(value) + (behind + (Comma(rest.Item?) + PrintItems(rest))))
  }

  function PrintMembers(ms: Members): bytes {
    match ms
    case NoMember(pad) => pad + [RBRACE]
    case Member(pad, key, beforeColon, afterColon, value, behind, rest) =>
      pad + (Quote(key) + (beforeColon + [COLON] + afterColon
             + (Print(value) + (behind + (Comma(rest.Member?) + PrintMembers(rest))))))
  }

  function Comma(more: bool): bytes {
    if more then [COMMA] else []
  }

  function PrintDocument(d: Document): bytes {
    d.pad + (Print(d.value) + d.behind)
  }

  // ----- rewriting

  /**
   * What happens to strings: how a key is decoded, and how a value under a path is rewritten. Both can
   * fail. The rewriter has a state (the registry and the cache), which goes from string to string in
   * the order of the text.
   */
  datatype Rules<!S> = Rules(decode: bytes -> Option<bytes>, rewrite: (S, seq<bytes>, bytes) -> Option<(S, bytes)>)

  function Rewritten<S>(r: Rules<S>, v: Json, path: seq<bytes>, s: S): Option<(Json, S)> {
    match v
    case Str(raw) =>
      (match r.rewrite(s, path, raw)
       case None => None
       case Some((s1, out)) => Some((Str(out), s1)))
    case Atom(_) => Some((v, s))
    case Arr(items) =>
      (match RewrittenItems(r, items, path, s)
       case None => None
       case Some((out, s1)) => Some((Arr(out), s1)))
    case Obj(members) =>
      (match RewrittenMembers(r, members, path, s)
       case None => None
       case Some((out, s1)) => Some((Obj(out), s1)))
  }

  function RewrittenItems<S>(r: Rules<S>, items: Items, path: seq<bytes>, s: S): Option<(Items, S)> {
    match items
    case NoItem(_) => Some((items, s))
    case Item(_, value, _, rest) =>
      match Rewritten(r, value, path, s)
      case None => None
      case Some((v1, s1)) =>
        match RewrittenItems(r, rest, path, s1)
        case None => None
        case Some((rest1, s2)) => Some((items.(value := v1, rest := rest1), s2))
  }

  function RewrittenMembers<S>(r: Rules<S>, ms: Members, path: seq<bytes>, s: S): Option<(Members, S)> {
    match ms
    case NoMember(_) => Some((ms, s))
    case Member(_, raw, _, _, value, _, rest) =>
      match r.decode(raw)
      case None => None
      case Some(key) =>
        match Rewritten(r, value, path + [key], s)
        case None => None
        case Some((v1, s1)) =>
          match RewrittenMembers(r, rest, path, s1)
          case None => None
          case Some((rest1, s2)) => Some((ms.(value := v1, rest := rest1), s2))
  }

  /** A tree with the bytes of its string values left out; keys stay. */
  function Skeleton(v: Json): Json {
    match v
    case Str(_) => Str([])
    case Atom(_) => v
    case Arr(items) => Arr(SkeletonItems(items))
    case Obj(members) => Obj(SkeletonMembers(members))
  }

  function SkeletonItems(items: Items): Items {
    match items
    case NoItem(_) => items
    case Item(_, value, _, rest) => items.(value := Skeleton(value), rest := SkeletonItems(rest))
  }

  function SkeletonMembers(ms: Members): Members {
    match ms
    case NoMember(_) => ms
    case Member(_, _, _, _, value, _, rest) => ms.(value := Skeleton(value), rest := SkeletonMembers(rest))
  }

  /** Rewriting changes string values and no other byte: not a key, not white space, not an atom. */
  lemma {:induction false} RewritingKeepsSkeleton<S>(r: Rules<S>, v: Json, path: seq<bytes>, s: S)
    requires Rewritten(r, v, path, s).Some?
    ensures Skeleton(Rewritten(r, v, path, s).value.0) == Skeleton(v)
    decreases v
  {
    match v
    case Str(_) =>
    case Atom(_) =>
    case Arr(items) => ItemsKeepSkeleton(r, items, path, s);
    case Obj(members) => MembersKeepSkeleton(r, members, path, s);
  }

  lemma {:induction false} ItemsKeepSkeleton<S>(r: Rules<S>, items: Items, path: seq<bytes>, s: S)
    requires RewrittenItems(r, items, path, s).Some?
    ensures SkeletonItems(RewrittenItems(r, items, path, s).value.0) == SkeletonItems(items)
    decreases items
  {
    if items.Item? {
      RewritingKeepsSkeleton(r, items.value, path, s);
      ItemsKeepSkeleton(r, items.rest, path, Rewritten(r, items.value, path, s).value.1);
    }
  }

  lemma {:induction false} MembersKeepSkeleton<S>(r: Rules<S>, ms: Members, path: seq<bytes>, s: S)
    requires RewrittenMembers(r, ms, path, s).Some?
    ensures SkeletonMembers(RewrittenMembers(r, ms, path, s).value.0) == SkeletonMembers(ms)
    decreases ms
  {
    if ms.Member? {
      var inner := path + [r.decode(ms.key).value];
      RewritingKeepsSkeleton(r, ms.value, inner, s);
      MembersKeepSkeleton(r, ms.rest, path, Rewritten(r, ms.value, inner, s).value.1);
    }
  }

  /** The rewriter puts out string literals. */
  ghost predicate GivesLiterals<S(!new)>(r: Rules<S>) {
    forall s: S, path: seq<bytes>, raw: bytes :: r.rewrite(s, path, raw).Some? ==> RawOk(r.rewrite(s, path, raw).value.1)
  }

  /** Then a rewritten JSON text is a JSON text again. */
  lemma {:induction false} RewritingKeepsJson<S(!new)>(r: Rules<S>, v: Json, path: seq<bytes>, s: S)
    requires GivesLiterals(r) && WellFormedJson(v) && Rewritten(r, v, path, s).Some?
    ensures WellFormedJson(Rewritten(r, v, path, s).value.0)
    decreases v
  {
    match v
    case Str(_) =>
    case Atom(_) =>
    case Arr(items) => ItemsKeepJson(r, items, path, s);
    case Obj(members) => MembersKeepJson(r, members, path, s);
  }

  lemma {:induction false} ItemsKeepJson<S(!new)>(r: Rules<S>, items: Items, path: seq<bytes>, s: S)
    requires GivesLiterals(r) && WellFormedItems(items) && RewrittenItems(r, items, path, s).Some?
    ensures WellFormedItems(RewrittenItems(r, items, path, s).value.0)
    decreases items
  {
    if items.Item? {
      RewritingKeepsJson(r, items.value, path, s);
      ItemsKeepJson(r, items.rest, path, Rewritten(r, items.value, path, s).value.1);
    }
  }

  lemma {:induction false} MembersKeepJson<S(!new)>(r: Rules<S>, ms: Members, path: seq<bytes>, s: S)
    requires GivesLiterals(r) && WellFormedMembers(ms) && RewrittenMembers(r, ms, path, s).Some?
    ensures WellFormedMembers(RewrittenMembers(r, ms, path, s).value.0)
    decreases ms
  {
    if ms.Member? {
      var inner := path + [r.decode(ms.key).value];
      RewritingKeepsJson(r, ms.value, inner, s);
      MembersKeepJson(r, ms.rest, path, Rewritten(r, ms.value, inner, s).value.1);
    }
  }

  // ----- the traversal with one path that is pushed and popped

  class TreeSanitizer<!S> {
    const rules: Rules<S>
    var state: S
    var path: seq<bytes>

    constructor (rules: Rules<S>, state: S)
      ensures this.rules == rules && this.state == state && path == []
    {
      this.rules, this.state, path := rules, state, [];
    }

    method SanitizeValue(v: Json) returns (r: Option<Json>)
      modifies this
      ensures var want := Rewritten(rules, v, old(path), old(state));
              && r.Some? == want.Some?
              && (r.Some? ==> want == Some((r.value, state)) && path == old(path))
      decreases v
    {
      match v
      case Str(raw) =>
        var one := rules.rewrite(state, path, raw);
        if one.None? {
          return None;
        }
        state := one.value.0;
        r := Some(Str(one.value.1));
      case Atom(_) =>
        r := Some(v);
      case Arr(items) =>
        var out := SanitizeItems(items);
        r := if out.None? then None else Some(Arr(out.value));
      case Obj(members) =>
        var out := SanitizeMembers(members);
        r := if out.None? then None else Some(Obj(out.value));
    }

    method SanitizeItems(items: Items) returns (r: Option<Items>)
      modifies this
      ensures var want := RewrittenItems(rules, items, old(path), old(state));
              && r.Some? == want.Some?
              && (r.Some? ==> want == Some((r.value, state)) && path == old(path))
      decreases items
    {
      if items.NoItem? {
        return Some(items);
      }
      var value := SanitizeValue(items.value);
      if value.None? {
        return None;
      }
      var rest := SanitizeItems(items.rest);
      r := if rest.None? then None else Some(items.(value := value.value, rest := rest.value));
    }

    method SanitizeMembers(ms: Members) returns (r: Option<Members>)
      modifies this
      ensures var want := RewrittenMembers(rules, ms, old(path), old(state));
              && r.Some? == want.Some?
              && (r.Some? ==> want == Some((r.value, state)) && path == old(path))
      decreases ms
    {
      if ms.NoMember? {
        return Some(ms);
      }
      var key := rules.decode(ms.key);
      if key.None? {
        return None;
      }
      ghost var outer := path;
      path := path + [key.value];
      var value := SanitizeValue(ms.value);
      if value.None? {
        return None;
      }
      path := path[..|path| - 1];
      assert path == outer;
      var rest := SanitizeMembers(ms.rest);
      r := if rest.None? then None else Some(ms.(value := value.value, rest := rest.value));
    }
  }
}
