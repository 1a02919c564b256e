/**
 * The streaming JSON sanitizer (src/redact/json_sanitizer.rs, `push_stream_chunk` and
 * `StreamingJsonState`): a machine that reads a byte at a time.
 */
module JsonStream {
  import opened Bytes
  import opened JsonTree

  datatype Container = Object(expectingKey: bool, pendingKey: Option<bytes>) | Array

  datatype StreamingFrame = StreamingFrame(container: Container, pathLenOnExit: nat)

  datatype Machine = Machine(
    inString: bool, escapeNext: bool, raw: bytes, path: seq<bytes>, stack: seq<StreamingFrame>)

  const START := Machine(false, false, [], [], [])

  // ----- the steps of the machine, as values

  function Top(m: Machine): Container {
    if m.stack == [] then Array else m.stack[|m.stack| - 1].container
  }

  /** The machine with another container on top, if there is one. */
  function WithTop(m: Machine, c: Container): Machine {
    if m.stack == [] then m
    else m.(stack := m.stack[..|m.stack| - 1] + [m.stack[|m.stack| - 1].(container := c)])
  }

  function PendingKey(m: Machine): Option<bytes> {
    if Top(m).Object? then Top(m).pendingKey else None
  }

  /** `take_pending_object_key`. */
  function Taken(m: Machine): Machine {
    if Top(m).Object? then WithTop(m, Top(m).(pendingKey := None)) else m
  }

  /** The key path of a value that starts here. */
  function ValuePath(m: Machine): seq<bytes> {
    match PendingKey(m)
    case None => m.path
    case Some(key) => m.path + [key]
  }

  /** `begin_container`. */
  function Begun(m: Machine, c: Container): Machine {
    Taken(m).(path := ValuePath(m), stack := Taken(m).stack + [StreamingFrame(c, |m.path|)])
  }

  /** `end_container`. */
  function Ended(m: Machine): Machine {
    if m.stack == [] then m
    else m.(path := m.path[..Min(|m.path|, m.stack[|m.stack| - 1].pathLenOnExit)],
            stack := m.stack[..|m.stack| - 1])
  }

  /** `observe_structural_byte`. */
  function Observed(m: Machine, b: byte): Machine {
    if b == LBRACE then Begun(m, Object(true, None))
    else if b == LBRACKET then Begun(m, Array)
    else if b == RBRACE || b == RBRACKET then Ended(m)
    else if b == COMMA && Top(m).Object? then WithTop(m, Object(true, None))
    else m
  }

  predicate ExpectsKey(m: Machine) {
    Top(m).Object? && Top(m).expectingKey
  }

  /** A string is complete: a key is kept as it is and remembered, a value is rewritten. */
  function Completed<S>(r: Rules<S>, m: Machine, s: S): Option<(Machine, S, bytes)> {
    var out := m.(inString := false, raw := []);
    if ExpectsKey(m) then
      match r.decode(m.raw)
      case None => None
      case Some(key) => Some((WithTop(out, Object(false, Some(key))), s, Quote(m.raw)))
    else
      match r.rewrite(s, ValuePath(m), m.raw)
      case None => None
      case Some((s1, raw)) => Some((Taken(out), s1, Quote(raw)))
  }

  function AfterByte<S>(r: Rules<S>, m: Machine, s: S, b: byte): Option<(Machine, S, bytes)> {
    if m.inString then
      if m.escapeNext then Some((m.(raw := m.raw + [b], escapeNext := false), s, []))
      else if b == BACKSLASH then Some((m.(raw := m.raw + [b], escapeNext := true), s, []))
      else if b == QUOTE then Completed(r, m, s)
      else Some((m.(raw := m.raw + [b]), s, []))
    else if b == QUOTE then Some((m.(inString := true, escapeNext := false, raw := []), s, []))
    else Some((Observed(m, b), s, [b]))
  }

  // ----- runs

  /** Where a run gets to, and what it puts out; nothing if a string is refused. */
  function MachineRun<S>(r: Rules<S>, m: Machine, s: S, text: bytes): Option<(Machine, S, bytes)>
    decreases |text|
  {
    if text == [] then Some((m, s, []))
    else match AfterByte(r, m, s, text[0])
      case None => None
      case Some((m1, s1, out)) => Behind(out, MachineRun(r, m1, s1, text[1..]))
  }

  function Behind<S>(out: bytes, run: Option<(Machine, S, bytes)>): Option<(Machine, S, bytes)> {
    match run
    case None => None
    case Some((m, s, more)) => Some((m, s, out + more))
  }

  /** The pushes of several chunks. */
  function Pushes<S>(r: Rules<S>, m: Machine, s: S, chunks: seq<bytes>): Option<(Machine, S, bytes)>
    decreases |chunks|
  {
    if chunks == [] then Some((m, s, []))
    else match MachineRun(r, m, s, chunks[0])
      case None => None
      case Some((m1, s1, out)) => Behind(out, Pushes(r, m1, s1, chunks[1..]))
  }

  lemma BehindTwice<S>(a: bytes, b: bytes, run: Option<(Machine, S, bytes)>)
    ensures Behind(a, Behind(b, run)) == Behind(a + b, run)
  {
    if run.Some? {
      Assoc(a, b, run.value.2);
    }
  }

  lemma BehindNothing<S>(run: Option<(Machine, S, bytes)>)
    ensures Behind([], run) == run
  {
    if run.Some? {
      assert [] + run.value.2 == run.value.2;
    }
  }

  /** The run behind another run's end. */
  function Onward<S>(r: Rules<S>, run: Option<(Machine, S, bytes)>, text: bytes): Option<(Machine, S, bytes)> {
    match run
    case None => None
    case Some((m, s, out)) => Behind(out, MachineRun(r, m, s, text))
  }

  lemma {:induction false} RunAppend<S>(r: Rules<S>, m: Machine, s: S, a: bytes, b: bytes)
    ensures MachineRun(r, m, s, a + b) == Onward(r, MachineRun(r, m, s, a), b)
    decreases |a|
  {
    if a == [] {
      assert a + b == b;
      BehindNothing(MachineRun(r, m, s, b));
    } else {
      assert (a + b)[1..] == a[1..] + b;
      match AfterByte(r, m, s, a[0]) {
        case None =>
        case Some((m1, s1, out)) =>
          RunAppend(r, m1, s1, a[1..], b);
          match MachineRun(r, m1, s1, a[1..]) {
            case None =>
            case Some((m2, s2, out2)) => BehindTwice(out, out2, MachineRun(r, m2, s2, b));
          }
      }
    }
  }

  /** However a byte stream is cut, JSON or not, the pushes do what one run over all of it does. */
  lemma {:induction false} PushesAreOneRun<S>(r: Rules<S>, m: Machine, s: S, chunks: seq<bytes>)
    ensures Pushes(r, m, s, chunks) == MachineRun(r, m, s, Flatten(chunks))
    decreases |chunks|
  {
    if chunks != [] {
      hide MachineRun;
      RunAppend(r, m, s, chunks[0], Flatten(chunks[1..]));
      match MachineRun(r, m, s, chunks[0]) {
        case None =>
        case Some((m1, s1, out)) => PushesAreOneRun(r, m1, s1, chunks[1..]);
      }
    }
  }

  // ----- pieces of a text

  /** Between two values: nothing is half read. */
  predicate AtRest(m: Machine) {
    !m.inString && !m.escapeNext && m.raw == []
  }

  lemma {:induction false} RunQuiet<S>(r: Rules<S>, m: Machine, s: S, text: bytes)
    requires AtRest(m) && Quiet(text)
    ensures MachineRun(r, m, s, text) == Some((m, s, text))
    decreases |text|
  {
    if text != [] {
      assert QuietByte(text[0]);
      RunQuiet(r, m, s, text[1..]);
      assert text == [text[0]] + text[1..];
    }
  }

  lemma RunOne<S>(r: Rules<S>, m: Machine, s: S, b: byte)
    requires AtRest(m) && b != QUOTE
    ensures MachineRun(r, m, s, [b]) == Some((Observed(m, b), s, [b]))
  {
    assert MachineRun(r, Observed(m, b), s, [b][1..]) == Some((Observed(m, b), s, []));
    assert [b] + [] == [b];
  }

  lemma {:induction false} RunRaw<S>(r: Rules<S>, m: Machine, s: S, raw: bytes)
    requires m.inString && !m.escapeNext && RawOk(raw)
    ensures MachineRun(r, m, s, raw) == Some((m.(raw := m.raw + raw), s, []))
    decreases |raw|
  {
    if raw == [] {
      assert m.raw + raw == m.raw;
    } else if raw[0] == BACKSLASH {
      var pair := m.(raw := m.raw + [raw[0]] + [raw[1]]);
      RunRaw(r, pair, s, raw[2..]);
      assert raw[1..][1..] == raw[2..] && raw[1..][0] == raw[1];
      assert pair.raw + raw[2..] == m.raw + raw;
      BehindNothing(MachineRun(r, pair, s, raw[2..]));
      BehindNothing(MachineRun(r, m.(raw := m.raw + [raw[0]], escapeNext := true), s, raw[1..]));
    } else {
      var one := m.(raw := m.raw + [raw[0]]);
      RunRaw(r, one, s, raw[1..]);
      assert one.raw + raw[1..] == m.raw + raw;
      BehindNothing(MachineRun(r, one, s, raw[1..]));
    }
  }

  /** A string literal is read to its end and completed, whatever its escapes. */
  lemma RunString<S>(r: Rules<S>, m: Machine, s: S, raw: bytes)
    requires AtRest(m) && RawOk(raw)
    ensures MachineRun(r, m, s, Quote(raw)) == Completed(r, m.(inString := true, raw := raw), s)
  {
    var begun, full := m.(inString := true), m.(inString := true, raw := raw);
    assert Quote(raw)[1..] == raw + [QUOTE];
    RunRaw(r, begun, s, raw);
    assert [] + raw == raw;
    RunAppend(r, begun, s, raw, [QUOTE]);
    BehindNothing(MachineRun(r, full, s, [QUOTE]));
    BehindNothing(MachineRun(r, begun, s, raw + [QUOTE]));
    match Completed(r, full, s) {
      case None =>
      case Some((m1, s1, out)) =>
        assert MachineRun(r, m1, s1, [QUOTE][1..]) == Some((m1, s1, []));
        assert out + [] == out;
    }
  }

  // ----- a printed value

  /** The machine where a value may start. */
  predicate Ready(m: Machine) {
    AtRest(m) && !ExpectsKey(m)
  }

  /** The machine behind a value: a string or a container uses up the key, an atom leaves it. */
  function After(m: Machine, v: Json): Machine {
    if v.Atom? then m else Taken(m)
  }

  function Expected<S>(m: Machine, want: Option<(Json, S)>): Option<(Machine, S, bytes)> {
    match want
    case None => None
    case Some((v, s)) => Some((m, s, Print(v)))
  }

  function ExpectedItems<S>(m: Machine, want: Option<(Items, S)>): Option<(Machine, S, bytes)> {
    match want
    case None => None
    case Some((items, s)) => Some((m, s, PrintItems(items)))
  }

  function ExpectedMembers<S>(m: Machine, want: Option<(Members, S)>): Option<(Machine, S, bytes)> {
    match want
    case None => None
    case Some((ms, s)) => Some((m, s, PrintMembers(ms)))
  }

  /**
   * On a printed value the machine puts out the printing of the rewritten tree, each string rewritten
   * under the key path of the recursive traversal, and is then back where it was; it fails exactly
   * when the traversal fails.
   */
  lemma {:induction false} RunValue<S>(r: Rules<S>, m: Machine, s: S, v: Json)
    requires Ready(m) && WellFormedJson(v)
    ensures MachineRun(r, m, s, Print(v)) == Expected(After(m, v), Rewritten(r, v, ValuePath(m), s))
    decreases v, 0
  {
    match v
    case Str(raw) =>
      RunString(r, m, s, raw);
    case Atom(text) =>
      RunQuiet(r, m, s, text);
    case Arr(items) =>
      hide MachineRun, Rewritten, Print;
      RunArray(r, m, s, items);
    case Obj(members) =>
      hide MachineRun, Rewritten, Print;
      RunObject(r, m, s, members);
  }

  lemma {:induction false} RunArray<S>(r: Rules<S>, m: Machine, s: S, items: Items)
    requires Ready(m) && WellFormedItems(items)
    ensures MachineRun(r, m, s, Print(Arr(items))) == Expected(Taken(m), Rewritten(r, Arr(items), ValuePath(m), s))
    decreases items, 1
  {
    hide MachineRun, RewrittenItems, PrintItems, Begun, Ended, Taken;
    RunOpening(r, m, s, LBRACKET, Array, PrintItems(items));
    RunItems(r, Begun(m, Array), s, items);
  }

  lemma {:induction false} RunObject<S>(r: Rules<S>, m: Machine, s: S, members: Members)
    requires Ready(m) && WellFormedMembers(members)
    ensures MachineRun(r, m, s, Print(Obj(members))) == Expected(Taken(m), Rewritten(r, Obj(members), ValuePath(m), s))
    decreases members, 2
  {
    hide MachineRun, RewrittenMembers, PrintMembers, Begun, Ended, Taken;
    RunOpening(r, m, s, LBRACE, Object(true, None), PrintMembers(members));
    RunMembers(r, Begun(m, Object(true, None)), s, members);
  }

  /** An opening bracket, and the text behind it. */
  lemma RunOpening<S>(r: Rules<S>, m: Machine, s: S, b: byte, c: Container, text: bytes)
    requires AtRest(m) && ((b == LBRACKET && c == Array) || (b == LBRACE && c == Object(true, None)))
    ensures MachineRun(r, m, s, [b] + text) == Behind([b], MachineRun(r, Begun(m, c), s, text))
    ensures Ended(Begun(m, c)) == Taken(m) && AtRest(Begun(m, c)) && Begun(m, c).stack != []
    ensures Top(Begun(m, c)) == c && Begun(m, c).path == ValuePath(m)
  {
    hide MachineRun;
    RunOne(r, m, s, b);
    RunAppend(r, m, s, [b], text);
    EndedBegun(m, c);
  }

  /** Leaving a container restores the path and the containers around it. */
  lemma EndedBegun(m: Machine, c: Container)
    ensures Ended(Begun(m, c)) == Taken(m)
    ensures Top(Begun(m, c)) == c && Begun(m, c).path == ValuePath(m)
    ensures AtRest(m) ==> AtRest(Begun(m, c))
  {
    assert ValuePath(m)[..|m.path|] == m.path;
  }

  lemma EndedWithTop(m: Machine, c: Container)
    requires m.stack != []
    ensures Ended(WithTop(m, c)) == Ended(m)
  {
  }

  lemma {:induction false} RunItems<S>(r: Rules<S>, m: Machine, s: S, items: Items)
    requires AtRest(m) && m.stack != [] && Top(m).Array? && WellFormedItems(items)
    ensures MachineRun(r, m, s, PrintItems(items)) == ExpectedItems(Ended(m), RewrittenItems(r, items, m.path, s))
    decreases items, 0
  {
    hide MachineRun;
    RunQuiet(r, m, s, items.pad);
    match items
    case NoItem(pad) =>
      RunOne(r, m, s, RBRACKET);
      RunAppend(r, m, s, pad, [RBRACKET]);
    case Item(pad, value, behind, rest) =>
      var t3 := Comma(rest.Item?) + PrintItems(rest);
      var t2 := behind + t3;
      RunAppend(r, m, s, pad, Print(value) + t2);
      RunAppend(r, m, s, Print(value), t2);
      RunValue(r, m, s, value);
      match Rewritten(r, value, m.path, s) {
        case None =>
        case Some((v1, s1)) =>
          RunQuiet(r, m, s1, behind);
          RunAppend(r, m, s1, behind, t3);
          RunAppend(r, m, s1, Comma(rest.Item?), PrintItems(rest));
          RunComma(r, m, s1, rest.Item?);
          RunItems(r, m, s1, rest);
      }
  }

  lemma RunComma<S>(r: Rules<S>, m: Machine, s: S, more: bool)
    requires AtRest(m)
    ensures MachineRun(r, m, s, Comma(more))
         == Some((if more && Top(m).Object? then WithTop(m, Object(true, None)) else m, s, Comma(more)))
  {
    if more {
      RunOne(r, m, s, COMMA);
    }
  }

  /** The machine behind a key. */
  function Keyed(m: Machine, key: bytes): Machine {
    WithTop(m, Object(false, Some(key)))
  }

  lemma {:induction false} RunMembers<S>(r: Rules<S>, m: Machine, s: S, ms: Members)
    requires AtRest(m) && m.stack != [] && Top(m).Object? && WellFormedMembers(ms)
    requires ms.Member? ==> ExpectsKey(m)
    ensures MachineRun(r, m, s, PrintMembers(ms)) == ExpectedMembers(Ended(m), RewrittenMembers(r, ms, m.path, s))
    decreases ms, 1
  {
    hide MachineRun;
    RunQuiet(r, m, s, ms.pad);
    match ms
    case NoMember(pad) =>
      RunOne(r, m, s, RBRACE);
      RunAppend(r, m, s, pad, [RBRACE]);
    case Member(pad, raw, beforeColon, afterColon, value, behind, rest) =>
      hide Print, PrintMembers, Rewritten;
      var t4 := Print(value) + (behind + (Comma(rest.Member?) + PrintMembers(rest)));
      var colon := beforeColon + [COLON] + afterColon;
      PrintedMember(ms);
      RunAppend(r, m, s, pad, Quote(raw) + (colon + t4));
      RunAppend(r, m, s, Quote(raw), colon + t4);
      RunString(r, m, s, raw);
      match r.decode(raw) {
        case None =>
        case Some(key) =>
          var m1 := Keyed(m, key);
          RunQuiet(r, m1, s, colon);
          RunAppend(r, m1, s, colon, t4);
          RunMemberValue(r, m, s, ms, key);
      }
  }

  lemma PrintedMember(ms: Members)
    requires ms.Member?
    ensures PrintMembers(ms)
         == ms.pad + (Quote(ms.key) + (ms.beforeColon + [COLON] + ms.afterColon + MemberTail(ms)))
  {
  }

  /** A member from its value on, and the members behind it. */
  function MemberTail(ms: Members): bytes
    requires ms.Member?
  {
    Print(ms.value) + (ms.behind + (Comma(ms.rest.Member?) + PrintMembers(ms.rest)))
  }

  function ExpectedTail<S>(m: Machine, want: Option<(Members, S)>): Option<(Machine, S, bytes)>
    requires want.Some? ==> want.value.0.Member?
  {
    match want
    case None => None
    case Some((ms, s)) => Some((m, s, MemberTail(ms)))
  }

  lemma {:induction false} RunMemberValue<S>(r: Rules<S>, m: Machine, s: S, ms: Members, key: bytes)
    requires AtRest(m) && m.stack != [] && Top(m).Object? && WellFormedMembers(ms)
    requires ms.Member? && r.decode(ms.key) == Some(key)
    ensures MachineRun(r, Keyed(m, key), s, MemberTail(ms)) == ExpectedTail(Ended(m), RewrittenMembers(r, ms, m.path, s))
    decreases ms, 0
  {
    hide MachineRun;
    var (m1, rest) := (Keyed(m, key), ms.rest);
    var t6 := Comma(rest.Member?) + PrintMembers(rest);
    RunAppend(r, m1, s, Print(ms.value), ms.behind + t6);
    RunValue(r, m1, s, ms.value);
    EndedWithTop(m, Object(false, Some(key)));
    match Rewritten(r, ms.value, m.path + [key], s) {
      case None =>
      case Some((v1, s1)) =>
        var m2 := After(m1, ms.value);
        RunQuiet(r, m2, s1, ms.behind);
        RunAppend(r, m2, s1, ms.behind, t6);
        RunComma(r, m2, s1, rest.Member?);
        RunAppend(r, m2, s1, Comma(rest.Member?), PrintMembers(rest));
        var m3 := if rest.Member? then WithTop(m2, Object(true, None)) else m2;
        EndedWithTop(m1, Object(false, None));
        EndedWithTop(m2, Object(true, None));
        RunMembers(r, m3, s1, rest);
    }
  }

  function ExpectedDocument<S>(d: Document, want: Option<(Json, S)>): Option<(Machine, S, bytes)> {
    match want
    case None => None
    case Some((v, s)) => Some((START, s, PrintDocument(d.(value := v))))
  }

  /**
   * A JSON text with any white space, cut into any chunks: the outputs are the printing of the tree
   * that the recursive traversal rewrites, and the machine ends where it started.
   */
  lemma DocumentStreamed<S>(r: Rules<S>, s: S, d: Document, chunks: seq<bytes>)
    requires WellFormedDocument(d) && Flatten(chunks) == PrintDocument(d)
    ensures Pushes(r, START, s, chunks) == ExpectedDocument(d, Rewritten(r, d.value, [], s))
    ensures Rewritten(r, d.value, [], s).Some?
            ==> Skeleton(Rewritten(r, d.value, [], s).value.0) == Skeleton(d.value)
  {
    hide MachineRun, Print, Rewritten;
    PushesAreOneRun(r, START, s, chunks);
    RunAppend(r, START, s, d.pad, Print(d.value) + d.behind);
    RunAppend(r, START, s, Print(d.value), d.behind);
    RunQuiet(r, START, s, d.pad);
    RunValue(r, START, s, d.value);
    match Rewritten(r, d.value, [], s) {
      case None =>
      case Some((v, s1)) =>
        RunQuiet(r, START, s1, d.behind);
        RewritingKeepsSkeleton(r, d.value, [], s);
    }
  }

  // ----- the end of a stream

  /** `finish_stream`: nothing is held back, unless a string is still open. */
  function FinishOutput(m: Machine): Option<bytes> {
    if m.inString then None else Some([])
  }

  /** A byte outside every literal, or a closed literal. */
  datatype Piece = Bare(b: byte) | Literal(raw: bytes)

  /** What comes behind the pieces: nothing, or a literal that is cut short, maybe behind a backslash. */
  datatype Ending = Outside | Inside(raw: bytes, escaping: bool)

  predicate PieceOk(p: Piece) {
    match p
    case Bare(b) => b != QUOTE
    case Literal(raw) => RawOk(raw)
  }

  predicate PiecesOk(pieces: seq<Piece>, ending: Ending) {
    && (forall i :: 0 <= i < |pieces| ==> PieceOk(pieces[i]))
    && (ending.Inside? ==> RawOk(ending.raw))
  }

  function PrintPieces(pieces: seq<Piece>, ending: Ending): bytes
    decreases |pieces|
  {
    if pieces == [] then PrintEnding(ending)
    else
      (match pieces[0]
       case Bare(b) => [b]
       case Literal(raw) => Quote(raw))
      + PrintPieces(pieces[1..], ending)
  }

  function PrintEnding(ending: Ending): bytes {
    match ending
    case Outside => []
    case Inside(raw, escaping) => [QUOTE] + (raw + (if escaping then [BACKSLASH] else []))
  }

  /** Where the literal ends whose opening quote was just read, if it does. */
  lemma {:induction false} LiteralEnds(text: bytes) returns (raw: bytes, escaping: bool, rest: Option<bytes>)
    ensures RawOk(raw)
    ensures rest.Some? ==> text == raw + ([QUOTE] + rest.value)
    ensures rest.None? ==> text == raw + (if escaping then [BACKSLASH] else [])
    decreases |text|
  {
    if text == [] {
      return [], false, None;
    } else if text[0] == QUOTE {
      return [], false, Some(text[1..]);
    } else if text[0] == BACKSLASH && |text| == 1 {
      return [], true, None;
    } else {
      var n := if text[0] == BACKSLASH then 2 else 1;
      var inner;
      inner, escaping, rest := LiteralEnds(text[n..]);
      raw := text[..n] + inner;
      assert text == text[..n] + text[n..];
      assert raw[n..] == inner;
    }
  }

  /** Every text is some pieces and an ending. */
  lemma {:induction false} AnyText(text: bytes) returns (pieces: seq<Piece>, ending: Ending)
    ensures PiecesOk(pieces, ending) && PrintPieces(pieces, ending) == text
    decreases |text|
  {
    if text == [] {
      return [], Outside;
    }
    if text[0] != QUOTE {
      pieces, ending := AnyText(text[1..]);
      pieces := [Bare(text[0])] + pieces;
    } else {
      var raw, escaping, rest := LiteralEnds(text[1..]);
      if rest.None? {
        return [], Inside(raw, escaping);
      }
      assert text == Quote(raw) + rest.value;
      pieces, ending := AnyText(rest.value);
      pieces := [Literal(raw)] + pieces;
    }
  }

  /** The machine ends in a string exactly when the text ends inside a literal. */
  lemma {:induction false} EndsInString<S>(r: Rules<S>, m: Machine, s: S, pieces: seq<Piece>, ending: Ending)
    requires AtRest(m) && PiecesOk(pieces, ending) && MachineRun(r, m, s, PrintPieces(pieces, ending)).Some?
    ensures MachineRun(r, m, s, PrintPieces(pieces, ending)).value.0.inString <==> ending.Inside?
    decreases |pieces|
  {
    if pieces == [] {
      EndingRead(r, m, s, ending);
    } else {
      hide MachineRun;
      var later := PrintPieces(pieces[1..], ending);
      match pieces[0] {
        case Bare(b) =>
          RunAppend(r, m, s, [b], later);
          RunOne(r, m, s, b);
          EndsInString(r, Observed(m, b), s, pieces[1..], ending);
        case Literal(raw) =>
          RunAppend(r, m, s, Quote(raw), later);
          RunString(r, m, s, raw);
          var done := Completed(r, m.(inString := true, raw := raw), s).value;
          EndsInString(r, done.0, done.1, pieces[1..], ending);
      }
    }
  }

  lemma EndingRead<S>(r: Rules<S>, m: Machine, s: S, ending: Ending)
    requires AtRest(m) && (ending.Inside? ==> RawOk(ending.raw))
    ensures MachineRun(r, m, s, PrintEnding(ending)).Some?
    ensures MachineRun(r, m, s, PrintEnding(ending)).value.0.inString <==> ending.Inside?
    ensures MachineRun(r, m, s, PrintEnding(ending)).value.2 == []
  {
    match ending
    case Outside =>
    case Inside(raw, escaping) =>
      var begun := m.(inString := true);
      var tail := if escaping then [BACKSLASH] else [];
      assert PrintEnding(ending)[0] == QUOTE && PrintEnding(ending)[1..] == raw + tail;
      assert AfterByte(r, m, s, QUOTE) == Some((begun, s, []));
      RunRaw(r, begun, s, raw);
      RunAppend(r, begun, s, raw, tail);
      var full := begun.(raw := begun.raw + raw);
      if escaping {
        assert |tail[1..]| == 0;
        assert MachineRun(r, full, s, tail) == Some((full.(raw := full.raw + tail, escapeNext := true), s, []));
      }
  }

  /**
   * After any pushes that none refused, the finish fails exactly when the bytes pushed end inside a
   * literal; every text is of the form given (`AnyText`).
   */
  lemma FinishFailsInside<S>(r: Rules<S>, s: S, chunks: seq<bytes>, pieces: seq<Piece>, ending: Ending)
    requires PiecesOk(pieces, ending) && Flatten(chunks) == PrintPieces(pieces, ending)
    requires Pushes(r, START, s, chunks).Some?
    ensures FinishOutput(Pushes(r, START, s, chunks).value.0) == if ending.Inside? then None else Some([])
  {
    PushesAreOneRun(r, START, s, chunks);
    EndsInString(r, START, s, pieces, ending);
  }

  /** After a JSON text the finish succeeds and adds nothing. */
  lemma DocumentFinished<S>(r: Rules<S>, s: S, d: Document, chunks: seq<bytes>)
    requires WellFormedDocument(d) && Flatten(chunks) == PrintDocument(d)
    requires Rewritten(r, d.value, [], s).Some?
    ensures Pushes(r, START, s, chunks).Some? && FinishOutput(Pushes(r, START, s, chunks).value.0) == Some([])
  {
    DocumentStreamed(r, s, d, chunks);
  }

  // ----- the objects

  class StreamingJsonState {
    var inString: bool
    var escapeNext: bool
    var rawString: bytes
    var path: seq<bytes>
    var stack: seq<StreamingFrame>

    function Value(): Machine
      reads this
    {
      Machine(inString, escapeNext, rawString, path, stack)
    }

    constructor ()
      ensures Value() == START
    {
      inString, escapeNext, rawString, path, stack := false, false, [], [], [];
    }

    method SetTop(c: Container)
      requires stack != []
      modifies this`stack
      ensures Value() == WithTop(old(Value()), c)
    {
      stack := stack[..|stack| - 1] + [stack[|stack| - 1].(container := c)];
    }

    method TakePendingObjectKey() returns (key: Option<bytes>)
      modifies this`stack
      ensures key == PendingKey(old(Value())) && Value() == Taken(old(Value()))
    {
      if stack == [] {
        return None;
      }
      match stack[|stack| - 1].container {
        case Object(expecting, pending) =>
          SetTop(Object(expecting, None));
          key := pending;
        case Array =>
          key := None;
      }
    }

    method BeginContainer(c: Container)
      modifies this`path, this`stack
      ensures Value() == Begun(old(Value()), c)
    {
      var pathLenOnExit := |path|;
      var key := TakePendingObjectKey();
      if key.Some? {
        path := path + [key.value];
      }
      stack := stack + [StreamingFrame(c, pathLenOnExit)];
    }

    method EndContainer()
      modifies this`path, this`stack
      ensures Value() == Ended(old(Value()))
    {
      if stack != [] {
        path := path[..Min(|path|, stack[|stack| - 1].pathLenOnExit)];
        stack := stack[..|stack| - 1];
      }
    }

    method ObserveStructuralByte(b: byte)
      modifies this`path, this`stack
      ensures Value() == Observed(old(Value()), b)
    {
      if b == LBRACE {
        BeginContainer(Object(true, None));
      } else if b == LBRACKET {
        BeginContainer(Array);
      } else if b == RBRACE || b == RBRACKET {
        EndContainer();
      } else if b == COMMA && stack != [] && stack[|stack| - 1].container.Object? {
        SetTop(Object(true, None));
      }
    }
  }

  class JsonSanitizer<!S> {
    const rules: Rules<S>
    var strings: S

    constructor (rules: Rules<S>, strings: S)
      ensures this.rules == rules && this.strings == strings
    {
      this.rules, this.strings := rules, strings;
    }

    /** The closing quote: `complete_string_context`, and what becomes of the string. */
    method CompleteString(state: StreamingJsonState) returns (out: Option<bytes>)
      modifies this, state
      ensures match Completed(rules, old(state.Value()), old(strings))
              case None => out == None
              case Some(done) => out == Some(done.2) && state.Value() == done.0 && strings == done.1
    {
      var raw := state.rawString;
      state.rawString := [];
      if state.stack != [] && ExpectsKey(state.Value()) {
        var key := rules.decode(raw);
        if key.None? {
          return None;
        }
        state.SetTop(Object(false, Some(key.value)));
        out := Some(Quote(raw));
      } else {
        var path := state.path;
        var key := state.TakePendingObjectKey();
        if key.Some? {
          path := path + [key.value];
        }
        var one := rules.rewrite(strings, path, raw);
        if one.None? {
          return None;
        }
        strings := one.value.0;
        out := Some(Quote(one.value.1));
      }
      state.inString := false;
    }

    /** One round of the loop of `push_stream_chunk`. */
    method PushByte(state: StreamingJsonState, b: byte) returns (out: Option<bytes>)
      modifies this, state
      ensures match AfterByte(rules, old(state.Value()), old(strings), b)
              case None => out == None
              case Some(done) => out == Some(done.2) && state.Value() == done.0 && strings == done.1
    {
      out := Some([]);
      if state.inString {
        if state.escapeNext {
          state.rawString := state.rawString + [b];
          state.escapeNext := false;
        } else if b == BACKSLASH {
          state.rawString := state.rawString + [b];
          state.escapeNext := true;
        } else if b == QUOTE {
          out := CompleteString(state);
        } else {
          state.rawString := state.rawString + [b];
        }
      } else if b == QUOTE {
        state.inString := true;
        state.escapeNext := false;
        state.rawString := [];
      } else {
        state.ObserveStructuralByte(b);
        out := Some([b]);
      }
    }

    method PushStreamChunk(state: StreamingJsonState, chunk: bytes) returns (out: Option<bytes>)
      modifies this, state
      ensures match MachineRun(rules, old(state.Value()), old(strings), chunk)
              case None => out == None
              case Some(done) => out == Some(done.2) && state.Value() == done.0 && strings == done.1
    {
      hide AfterByte;
      ghost var all := MachineRun(rules, state.Value(), strings, chunk);
      var sofar := [];
      assert chunk[0..] == chunk;
      BehindNothing(all);
      for i := 0 to |chunk|
        invariant all == Behind(sofar, MachineRun(rules, state.Value(), strings, chunk[i..]))
      {
        assert chunk[i..][0] == chunk[i] && chunk[i..][1..] == chunk[i + 1..];
        ghost var before := sofar;
        var one := PushByte(state, chunk[i]);
        if one.None? {
          return None;
        }
        sofar := sofar + one.value;
        BehindTwice(before, one.value, MachineRun(rules, state.Value(), strings, chunk[i + 1..]));
      }
      assert sofar + [] == sofar;
      out := Some(sofar);
    }

    /** `finish_stream`. */
    method FinishStream(state: StreamingJsonState) returns (out: Option<bytes>)
      ensures out == FinishOutput(state.Value())
    {
      if state.inString {
        return None;
      }
      out := Some([]);
    }
  }
}
