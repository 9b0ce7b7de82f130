/** Generated regions of a Markdown page: a header comment, a fingerprinted payload and an end marker. */
module GeneratedRegion {
  import opened Common
  import BaseFilter

  const OPEN: string := "<!-- clep:generated"
  const CLOSE_PREFIX: string := "<!-- /clep:generated"
  const CLOSE: string := "<!-- /clep:generated -->"
  const TERMINATOR: string := "-->"

  datatype Range = Range(start: int, end: int)

  datatype Selection = Selection(
    base: string,
    view: Option<string>,
    filter: Option<BaseFilter.Filter>,
    sort: Option<seq<(string, bool)>>,
    limit: Option<nat>,
    template: string)

  datatype Descriptor = Descriptor(version: nat, id: string, selection: Selection, outputHash: string)

  datatype Region = Region(descriptor: Descriptor, span: Range, payload: Range, modified: bool)

  datatype RegionError =
    | NestedRegion | UnterminatedHeader | ConfigurationOnTheSameLine | InvalidHeader | UnknownField
    | UnsupportedVersion | InvalidUuid | DuplicateUuid | UnsupportedFingerprint | InvalidFingerprint
    | InvalidEndMarker | EndWithoutHeader | MissingEndMarker
    | DirectiveInOutput | NotSerializable | TerminatorInConfiguration

  /** The Markdown parser's output, as a forest of elements and leaves. */
  datatype Node = Leaf | Element(html: bool, range: Range, children: seq<Node>)

  datatype Event = Start(html: bool, range: Range) | End(html: bool, range: Range) | Other

  /** A header read as a TOML table: its keys, and the descriptor if it has the right shape. */
  datatype Key =
    | VersionKey | IdKey | BaseKey | ViewKey | TemplateKey | FilterKey | SortKey | LimitKey | OutputHashKey
    | OtherKey(name: string)

  datatype Table = Table(keys: seq<Key>, descriptor: Option<Descriptor>)

  /** The libraries the code calls. */
  datatype Env = Env(
    parser: string -> seq<Node>,
    decode: string -> Option<Table>,
    encode: Descriptor -> Option<string>,
    uuid: string -> Option<nat>,
    digest: string -> string)

  // ---- Top-level HTML blocks ----

  function Flatten(forest: seq<Node>): seq<Event> {
    if forest == [] then [] else FlattenNode(forest[0]) + Flatten(forest[1..])
  }

  function FlattenNode(n: Node): seq<Event> {
    match n
    case Leaf => [Other]
    case Element(html, range, children) => [Start(html, range)] + Flatten(children) + [End(html, range)]
  }

  /** The HTML blocks among the roots. */
  function TopHtml(forest: seq<Node>): seq<Range> {
    if forest == [] then []
    else (if forest[0].Element? && forest[0].html then [forest[0].range] else []) + TopHtml(forest[1..])
  }

  datatype Walk = Walk(depth: nat, start: Option<int>, blocks: seq<Range>)

  function WalkEvent(w: Walk, e: Event): Walk {
    match e
    case Start(html, range) => Walk(w.depth + 1, if w.depth == 0 && html then Some(range.start) else w.start, w.blocks)
    case End(html, range) =>
      var depth := if w.depth == 0 then 0 else w.depth - 1;
      if depth == 0 && html && w.start.Some? then Walk(depth, None, w.blocks + [Range(w.start.value, range.end)])
      else Walk(depth, w.start, w.blocks)
    case Other => w
  }

  function WalkAll(w: Walk, events: seq<Event>): Walk {
    if events == [] then w else WalkEvent(WalkAll(w, events[..|events| - 1]), events[|events| - 1])
  }

  lemma {:induction false} WalkConcat(w: Walk, a: seq<Event>, b: seq<Event>)
    ensures WalkAll(w, a + b) == WalkAll(WalkAll(w, a), b)
    decreases |b|
  {
    if b == [] {
      assert a + b == a;
    } else {
      assert (a + b)[..|a + b| - 1] == a + b[..|b| - 1];
      WalkConcat(w, a, b[..|b| - 1]);
    }
  }

  lemma WalkOne(w: Walk, e: Event)
    ensures WalkAll(w, [e]) == WalkEvent(w, e)
  {
    assert [e][..0] == [];
  }

  /** Nested elements leave no trace; each root HTML block leaves its whole range. */
  lemma {:induction false} WalkForest(w: Walk, forest: seq<Node>)
    requires w.depth == 0 ==> w.start.None?
    ensures WalkAll(w, Flatten(forest)) == if w.depth == 0 then w.(blocks := w.blocks + TopHtml(forest)) else w
    decreases forest, 1
  {
    if forest == [] {
      assert w.blocks + TopHtml(forest) == w.blocks;
    } else {
      var n, rest := forest[0], forest[1..];
      WalkConcat(w, FlattenNode(n), Flatten(rest));
      WalkNode(w, n);
      var after := WalkAll(w, FlattenNode(n));
      WalkForest(after, rest);
    }
  }

  lemma {:induction false} WalkNode(w: Walk, n: Node)
    requires w.depth == 0 ==> w.start.None?
    ensures WalkAll(w, FlattenNode(n)) ==
            if w.depth == 0 && n.Element? && n.html then w.(blocks := w.blocks + [n.range]) else w
    decreases n, 0
  {
    if n.Element? {
      var open, inner, close := [Start(n.html, n.range)], Flatten(n.children), [End(n.html, n.range)];
      WalkOne(w, open[0]);
      var first := WalkAll(w, open);
      WalkForest(first, n.children);
      WalkConcat(w, open + inner, close);
      WalkConcat(w, open, inner);
      WalkOne(first, close[0]);
    } else {
      WalkOne(w, Other);
    }
  }

  /** `html_blocks`: one pass over the parser's events. */
  method HtmlBlocks(forest: seq<Node>) returns (blocks: seq<Range>)
    ensures blocks == TopHtml(forest)
  {
    var events := Flatten(forest);
    blocks := [];
    var depth: nat := 0;
    var start: Option<int> := None;
    for i := 0 to |events|
      invariant WalkAll(Walk(0, None, []), events[..i]) == Walk(depth, start, blocks)
    {
      assert events[..i + 1][..i] == events[..i];
      match events[i] {
        case Start(html, range) =>
          if depth == 0 && html {
            start := Some(range.start);
          }
          depth := depth + 1;
        case End(html, range) =>
          depth := if depth == 0 then 0 else depth - 1;
          if depth == 0 && html && start.Some? {
            blocks := blocks + [Range(start.value, range.end)];
            start := None;
          }
        case Other =>
      }
    }
    assert events[..|events|] == events;
    WalkForest(Walk(0, None, []), forest);
  }

  // ---- Text ----

  /** `markdown[a..b]`; the methods prove they never slice out of bounds. */
  function Slice(md: string, a: int, b: int): string {
    if 0 <= a <= b <= |md| then md[a..b] else ""
  }

  /** Unicode's `White_Space`. */
  predicate IsSpace(c: char) {
    || c == ' ' || '\t' <= c <= '\r' || c == '\U{85}' || c == '\U{A0}' || c == '\U{1680}'
    || '\U{2000}' <= c <= '\U{200A}' || c == '\U{2028}' || c == '\U{2029}' || c == '\U{202F}'
    || c == '\U{205F}' || c == '\U{3000}'
  }

  predicate Blank(s: string) {
    forall i :: 0 <= i < |s| ==> IsSpace(s[i])
  }

  predicate StartsTerminator(s: string) {
    |s| >= 3 && s[0] == '-' && s[1] == '-' && s[2] == '>'
  }

  /** Where the first `-->` is. */
  function FindTerminator(s: string): (r: Option<nat>)
    ensures r.Some? ==> r.value + 3 <= |s|
  {
    if s == "" then None
    else if StartsTerminator(s) then Some(0)
    else
      var rest := FindTerminator(s[1..]);
      if rest.Some? then Some(rest.value + 1) else None
  }

  lemma {:induction false} FindTerminatorMeans(s: string, i: nat)
    requires i <= |s|
    ensures FindTerminator(s) == Some(i) ==> StartsTerminator(s[i..])
    ensures (FindTerminator(s).Some? ==> i < FindTerminator(s).value) ==> !StartsTerminator(s[i..])
  {
    if i == 0 {
      assert s[0..] == s;
    } else {
      FindTerminatorMeans(s[1..], i - 1);
      assert s[i..] == s[1..][i - 1..];
    }
  }

  predicate StandaloneComment(s: string) {
    var end := FindTerminator(s);
    end.None? || Blank(s[end.value + 3..])
  }

  predicate IsDirective(s: string) {
    StandaloneComment(s) && (OPEN <= s || CLOSE_PREFIX <= s)
  }

  function TrimStart(md: string, i: nat, end: nat): (r: nat)
    requires i <= end <= |md|
    ensures i <= r <= end && Blank(md[i..r]) && (r < end ==> !IsSpace(md[r]))
    decreases end - i
  {
    if i < end && IsSpace(md[i]) then
      var r := TrimStart(md, i + 1, end);
      assert md[i..r] == [md[i]] + md[i + 1..r];
      r
    else i
  }

  function TrimEnd(md: string, i: nat, end: nat): (r: nat)
    requires i <= end <= |md|
    ensures i <= r <= end && Blank(md[r..end]) && (i < r ==> !IsSpace(md[r - 1]))
  {
    if i < end && IsSpace(md[end - 1]) then
      var r := TrimEnd(md, i, end - 1);
      assert md[r..end] == md[r..end - 1] + [md[end - 1]];
      r
    else end
  }

  predicate InBounds(md: string, t: Range) {
    0 <= t.start <= t.end <= |md|
  }

  /** A block without the white space around it. */
  function Trim(md: string, t: Range): (r: Range)
    ensures InBounds(md, t) ==> t.start <= r.start <= r.end <= t.end
  {
    if !InBounds(md, t) then t
    else
      var start := TrimStart(md, t.start, t.end);
      Range(start, TrimEnd(md, start, t.end))
  }

  function TrimAll(md: string, ts: seq<Range>): (r: seq<Range>) {
    seq(|ts|, i requires 0 <= i < |ts| => Trim(md, ts[i]))
  }

  /** The top-level HTML blocks of a document, trimmed. */
  function Comments(env: Env, md: string): seq<Range> {
    TrimAll(md, TopHtml(env.parser(md)))
  }

  /** A parser reports top-level blocks in bounds, in order, without overlap. */
  predicate Ordered(md: string, ts: seq<Range>) {
    && (forall i :: 0 <= i < |ts| ==> InBounds(md, ts[i]))
    && (forall i, j :: 0 <= i < j < |ts| ==> ts[i].end <= ts[j].start)
  }

  lemma TrimKeepsOrder(md: string, ts: seq<Range>)
    requires Ordered(md, ts)
    ensures Ordered(md, TrimAll(md, ts))
  {
  }

  // ---- Directives ----

  datatype Directive = Directive(start: int, text: string)

  /** The directive in a trimmed block, if there is one. */
  function ReadDirective(md: string, t: Range): (ds: seq<Directive>) {
    var text := Slice(md, t.start, t.end);
    if IsDirective(text) then [Directive(t.start, text)] else []
  }

  function Directives(md: string, ts: seq<Range>): (ds: seq<Directive>) {
    if ts == [] then [] else Directives(md, ts[..|ts| - 1]) + ReadDirective(md, ts[|ts| - 1])
  }

  lemma {:induction false} DirectivesConcat(md: string, a: seq<Range>, b: seq<Range>)
    ensures Directives(md, a + b) == Directives(md, a) + Directives(md, b)
    decreases |b|
  {
    if b == [] {
      assert a + b == a;
    } else {
      assert (a + b)[..|a + b| - 1] == a + b[..|b| - 1];
      DirectivesConcat(md, a, b[..|b| - 1]);
    }
  }

  // ---- Headers ----

  datatype Header = Header(descriptor: Descriptor, uuid: nat, end: nat)

  predicate KnownKeys(keys: seq<Key>) {
    forall i :: 0 <= i < |keys| ==> !keys[i].OtherKey?
  }

  lemma TerminatorAfterOpen(text: string)
    requires OPEN <= text && FindTerminator(text).Some?
    ensures FindTerminator(text).value >= |OPEN|
  {
    FindTerminatorMeans(text, FindTerminator(text).value);
  }

  /** A header comment, up to the duplicate check. */
  function ReadHeader(env: Env, text: string): (r: Result<Header, RegionError>)
    requires OPEN <= text
    ensures r.Ok? ==> |OPEN| <= r.value.end && r.value.end + 3 <= |text|
    ensures r.Ok? ==> r.value.descriptor.version == 1 && env.uuid(r.value.descriptor.id) == Some(r.value.uuid)
  {
    var found := FindTerminator(text);
    if found.None? then Err(UnterminatedHeader)
    else
      TerminatorAfterOpen(text);
      var content := text[|OPEN|..found.value];
      if !("\n" <= content) && !("\r\n" <= content) then Err(ConfigurationOnTheSameLine)
      else
        var table := env.decode(content);
        if table.None? then Err(InvalidHeader)
        else if !KnownKeys(table.value.keys) then Err(UnknownField)
        else if table.value.descriptor.None? then Err(InvalidHeader)
        else
          var descriptor := table.value.descriptor.value;
          if descriptor.version != 1 then Err(UnsupportedVersion)
          else
            var id := env.uuid(descriptor.id);
            if id.None? then Err(InvalidUuid) else Ok(Header(descriptor, id.value, found.value))
  }

  predicate LowerHex(c: char) {
    '0' <= c <= '9' || 'a' <= c <= 'f'
  }

  predicate IsDigest(hash: string) {
    |hash| == 64 && forall i :: 0 <= i < |hash| ==> LowerHex(hash[i])
  }

  function CheckFingerprint(hash: string): (e: Option<RegionError>) {
    if !("blake3:" <= hash) then Some(UnsupportedFingerprint)
    else if !IsDigest(hash[7..]) then Some(InvalidFingerprint)
    else None
  }

  function Fingerprint(env: Env, payload: string): string {
    "blake3:" + env.digest(payload)
  }

  /** A header that opens a region, whatever came before it. */
  predicate Opens(env: Env, text: string) {
    OPEN <= text && var h := ReadHeader(env, text); h.Ok? && CheckFingerprint(h.value.descriptor.outputHash).None?
  }

  // ---- The parser ----

  datatype Pending = Pending(descriptor: Descriptor, start: int, payloadStart: int)

  datatype State = State(regions: seq<Region>, pending: Option<Pending>, ids: set<nat>)

  function Closed(env: Env, md: string, p: Pending, endStart: int): Region {
    Region(p.descriptor, Range(p.start, endStart + |CLOSE|), Range(p.payloadStart, endStart),
           p.descriptor.outputHash != Fingerprint(env, Slice(md, p.payloadStart, endStart)))
  }

  function Step(env: Env, md: string, s: State, d: Directive): (r: Result<State, RegionError>)
    requires IsDirective(d.text)
  {
    if OPEN <= d.text then
      if s.pending.Some? then Err(NestedRegion)
      else
        match ReadHeader(env, d.text)
        case Err(e) => Err(e)
        case Ok(h) =>
          if h.uuid in s.ids then Err(DuplicateUuid)
          else if CheckFingerprint(h.descriptor.outputHash).Some? then
            Err(CheckFingerprint(h.descriptor.outputHash).value)
          else Ok(State(s.regions, Some(Pending(h.descriptor, d.start, d.start + h.end + 3)), s.ids + {h.uuid}))
    else if d.text != CLOSE then Err(InvalidEndMarker)
    else if s.pending.None? then Err(EndWithoutHeader)
    else Ok(State(s.regions + [Closed(env, md, s.pending.value, d.start)], None, s.ids))
  }

  predicate AllDirectives(ds: seq<Directive>) {
    forall i :: 0 <= i < |ds| ==> IsDirective(ds[i].text)
  }

  lemma {:induction false} DirectivesAreDirectives(md: string, ts: seq<Range>)
    ensures AllDirectives(Directives(md, ts))
  {
    if ts != [] {
      DirectivesAreDirectives(md, ts[..|ts| - 1]);
    }
  }

  function Run(env: Env, md: string, ds: seq<Directive>): (r: Result<State, RegionError>)
    requires AllDirectives(ds)
  {
    if ds == [] then Ok(State([], None, {}))
    else
      match Run(env, md, ds[..|ds| - 1])
      case Err(e) => Err(e)
      case Ok(s) => Step(env, md, s, ds[|ds| - 1])
  }

  function Finish(r: Result<State, RegionError>): Result<seq<Region>, RegionError> {
    match r
    case Err(e) => Err(e)
    case Ok(s) => if s.pending.Some? then Err(MissingEndMarker) else Ok(s.regions)
  }

  function Parsed(env: Env, md: string): (r: Result<seq<Region>, RegionError>) {
    DirectivesAreDirectives(md, Comments(env, md));
    Finish(Run(env, md, Directives(md, Comments(env, md))))
  }

  // ---- What a successful parse means ----

  /** Position `i` of a well-formed document: headers and end markers alternate. */
  predicate RightKind(env: Env, ds: seq<Directive>, i: int)
    requires 0 <= i < |ds|
  {
    if i % 2 == 0 then Opens(env, ds[i].text) else ds[i].text == CLOSE
  }

  function Id(env: Env, d: Directive): (r: Option<nat>) {
    if Opens(env, d.text) then Some(ReadHeader(env, d.text).value.uuid) else None
  }

  predicate DistinctIds(env: Env, ds: seq<Directive>) {
    forall i, j :: 0 <= i < j < |ds| && i % 2 == 0 && j % 2 == 0 ==> Id(env, ds[i]) != Id(env, ds[j])
  }

  predicate Good(env: Env, ds: seq<Directive>) {
    (forall i :: 0 <= i < |ds| ==> RightKind(env, ds, i)) && DistinctIds(env, ds)
  }

  function PendingOf(env: Env, d: Directive): Pending
    requires Opens(env, d.text)
  {
    var h := ReadHeader(env, d.text).value;
    Pending(h.descriptor, d.start, d.start + h.end + 3)
  }

  lemma Parity(k: nat)
    ensures (2 * k) % 2 == 0 && (2 * k + 1) % 2 == 1
  {
  }

  lemma OpensAt(env: Env, ds: seq<Directive>, k: nat)
    requires Good(env, ds) && 2 * k < |ds|
    ensures Opens(env, ds[2 * k].text)
  {
    Parity(k);
    assert RightKind(env, ds, 2 * k);
  }

  /** The region between the header `ds[2k]` and the end marker `ds[2k + 1]`. */
  function RegionAt(env: Env, md: string, ds: seq<Directive>, k: nat): Region
    requires Good(env, ds) && 2 * k + 1 < |ds|
  {
    OpensAt(env, ds, k);
    Closed(env, md, PendingOf(env, ds[2 * k]), ds[2 * k + 1].start)
  }

  function Regions(env: Env, md: string, ds: seq<Directive>): (rs: seq<Region>)
    requires Good(env, ds)
  {
    seq(|ds| / 2, k requires 0 <= k < |ds| / 2 => RegionAt(env, md, ds, k))
  }

  ghost function StateOf(env: Env, md: string, ds: seq<Directive>): State
    requires Good(env, ds)
  {
    State(Regions(env, md, ds),
          if |ds| % 2 == 0 then None else (assert RightKind(env, ds, |ds| - 1); Some(PendingOf(env, ds[|ds| - 1]))),
          Ids(env, ds))
  }

  function Ids(env: Env, ds: seq<Directive>): set<nat> {
    set i | 0 <= i < |ds| && i % 2 == 0 && Id(env, ds[i]).Some? :: Id(env, ds[i]).value
  }

  lemma GoodPrefix(env: Env, ds: seq<Directive>, n: nat)
    requires Good(env, ds) && n <= |ds|
    ensures Good(env, ds[..n])
  {
    forall i | 0 <= i < n ensures RightKind(env, ds[..n], i) {
      assert RightKind(env, ds, i);
    }
  }

  lemma RegionsPrefix(env: Env, md: string, ds: seq<Directive>, n: nat)
    requires Good(env, ds) && n <= |ds|
    ensures Good(env, ds[..n]) && Regions(env, md, ds[..n]) == Regions(env, md, ds)[..n / 2]
  {
    GoodPrefix(env, ds, n);
    assert |Regions(env, md, ds[..n])| == n / 2;
    forall k | 0 <= k < n / 2 ensures Regions(env, md, ds[..n])[k] == Regions(env, md, ds)[k] {
      assert ds[..n][2 * k] == ds[2 * k];
      assert ds[..n][2 * k + 1] == ds[2 * k + 1];
    }
  }

  /** No header before `d` has its UUID. */
  predicate NewId(env: Env, front: seq<Directive>, d: Directive) {
    forall i :: 0 <= i < |front| && i % 2 == 0 ==> Id(env, front[i]) != Id(env, d)
  }

  lemma DistinctExtend(env: Env, front: seq<Directive>, d: Directive)
    ensures DistinctIds(env, front + [d]) <==> DistinctIds(env, front) && (|front| % 2 == 0 ==> NewId(env, front, d))
  {
    var ds := front + [d];
    assert forall i :: 0 <= i < |front| ==> ds[i] == front[i];
    assert ds[|front|] == d;
    if DistinctIds(env, ds) && |front| % 2 == 0 {
      forall i | 0 <= i < |front| && i % 2 == 0 ensures Id(env, front[i]) != Id(env, d) {
        assert Id(env, ds[i]) != Id(env, ds[|front|]);
      }
    }
  }

  lemma KindsExtend(env: Env, front: seq<Directive>, d: Directive)
    ensures (forall i :: 0 <= i < |front| + 1 ==> RightKind(env, front + [d], i)) <==>
            (forall i :: 0 <= i < |front| ==> RightKind(env, front, i)) && RightKind(env, front + [d], |front|)
  {
    forall i | 0 <= i < |front| ensures RightKind(env, front + [d], i) == RightKind(env, front, i) {
      assert (front + [d])[i] == front[i];
    }
  }

  lemma GoodExtend(env: Env, front: seq<Directive>, d: Directive)
    ensures Good(env, front + [d]) <==>
            Good(env, front) && RightKind(env, front + [d], |front|) && (|front| % 2 == 0 ==> NewId(env, front, d))
  {
    KindsExtend(env, front, d);
    DistinctExtend(env, front, d);
  }

  lemma IdsExtend(env: Env, front: seq<Directive>, d: Directive)
    ensures Ids(env, front + [d]) ==
            Ids(env, front) + if |front| % 2 == 0 && Id(env, d).Some? then {Id(env, d).value} else {}
  {
    var ds := front + [d];
    assert ds[|front|] == d;
    forall x ensures x in Ids(env, ds) <==> x in Ids(env, front) || (|front| % 2 == 0 && Id(env, d) == Some(x)) {
      if x in Ids(env, front) {
        var i :| 0 <= i < |front| && i % 2 == 0 && Id(env, front[i]) == Some(x);
        assert ds[i] == front[i];
      }
    }
  }

  lemma IdsMember(env: Env, ds: seq<Directive>, x: nat)
    ensures x in Ids(env, ds) <==> exists i :: 0 <= i < |ds| && i % 2 == 0 && Id(env, ds[i]) == Some(x)
  {
  }

  /** A header alone adds no region. */
  lemma RegionsBeforeClosing(env: Env, md: string, ds: seq<Directive>)
    requires Good(env, ds) && |ds| % 2 == 1
    ensures var n := |ds| - 1; Good(env, ds[..n]) && Regions(env, md, ds) == Regions(env, md, ds[..n])
  {
    RegionsPrefix(env, md, ds, |ds| - 1);
  }

  /** An end marker adds the region it closes. */
  lemma RegionsAfterClosing(env: Env, md: string, ds: seq<Directive>, k: nat)
    requires Good(env, ds) && |ds| == 2 * k + 2
    ensures Good(env, ds[..2 * k + 1]) && Opens(env, ds[2 * k].text)
    ensures Regions(env, md, ds) == Regions(env, md, ds[..2 * k + 1]) + [RegionAt(env, md, ds, k)]
  {
    OpensAt(env, ds, k);
    RegionsPrefix(env, md, ds, 2 * k + 1);
    var all := Regions(env, md, ds);
    assert |all| == k + 1 && (2 * k + 1) / 2 == k;
    assert all == all[..k] + [all[k]];
  }

  lemma RegionsExtend(env: Env, md: string, front: seq<Directive>, d: Directive)
    requires Good(env, front + [d])
    ensures Good(env, front)
    ensures |front| % 2 == 0 ==> Regions(env, md, front + [d]) == Regions(env, md, front)
    ensures |front| % 2 == 1 ==> Opens(env, front[|front| - 1].text)
    ensures |front| % 2 == 1 ==>
              Regions(env, md, front + [d]) ==
              Regions(env, md, front) + [Closed(env, md, PendingOf(env, front[|front| - 1]), d.start)]
  {
    var ds := front + [d];
    assert ds[..|front|] == front;
    if |front| % 2 == 0 {
      RegionsBeforeClosing(env, md, ds);
    } else {
      var k := |front| / 2;
      assert 2 * k == |front| - 1 && ds[2 * k] == front[|front| - 1];
      RegionsAfterClosing(env, md, ds, k);
    }
  }

  lemma KindsAreApart(text: string)
    ensures !(OPEN <= text && CLOSE_PREFIX <= text)
    ensures text == CLOSE ==> CLOSE_PREFIX <= text
  {
    assert OPEN <= text ==> text[5] == 'c';
    assert CLOSE_PREFIX <= text ==> text[5] == '/';
  }

  lemma StepOnOpening(env: Env, md: string, front: seq<Directive>, d: Directive)
    requires Good(env, front) && IsDirective(d.text) && |front| % 2 == 0
    ensures Step(env, md, StateOf(env, md, front), d).Ok? <==> Good(env, front + [d])
    ensures Good(env, front + [d]) ==> Step(env, md, StateOf(env, md, front), d) == Ok(StateOf(env, md, front + [d]))
  {
    KindsAreApart(d.text);
    GoodExtend(env, front, d);
    IdsExtend(env, front, d);
    if Opens(env, d.text) {
      IdsMember(env, front, Id(env, d).value);
    }
    if Good(env, front + [d]) {
      RegionsExtend(env, md, front, d);
    }
  }

  lemma ClosingIsGood(env: Env, front: seq<Directive>, d: Directive)
    requires Good(env, front) && |front| % 2 == 1
    ensures Good(env, front + [d]) <==> d.text == CLOSE
  {
    GoodExtend(env, front, d);
  }

  lemma StateAfterClosing(env: Env, md: string, front: seq<Directive>, d: Directive)
    requires Good(env, front) && Good(env, front + [d]) && |front| % 2 == 1
    ensures var s, t := StateOf(env, md, front), StateOf(env, md, front + [d]);
            && s.pending.Some? && t.pending.None? && t.ids == s.ids
            && t.regions == s.regions + [Closed(env, md, s.pending.value, d.start)]
  {
    IdsExtend(env, front, d);
    RegionsExtend(env, md, front, d);
  }

  lemma StepOnClosing(env: Env, md: string, front: seq<Directive>, d: Directive)
    requires Good(env, front) && IsDirective(d.text) && |front| % 2 == 1
    ensures Step(env, md, StateOf(env, md, front), d).Ok? <==> Good(env, front + [d])
    ensures Good(env, front + [d]) ==> Step(env, md, StateOf(env, md, front), d) == Ok(StateOf(env, md, front + [d]))
  {
    ClosingIsGood(env, front, d);
    KindsAreApart(d.text);
    if d.text == CLOSE {
      StateAfterClosing(env, md, front, d);
    }
  }

  /** The loop accepts exactly the well-formed sequences of directives. */
  lemma {:induction false} RunMeans(env: Env, md: string, ds: seq<Directive>)
    requires AllDirectives(ds)
    ensures Run(env, md, ds).Ok? <==> Good(env, ds)
    ensures Good(env, ds) ==> Run(env, md, ds) == Ok(StateOf(env, md, ds))
  {
    if ds == [] {
      assert Regions(env, md, ds) == [] && Ids(env, ds) == {};
    } else {
      var front, d := ds[..|ds| - 1], ds[|ds| - 1];
      assert ds == front + [d];
      RunMeans(env, md, front);
      if Good(env, front) {
        if |front| % 2 == 0 {
          StepOnOpening(env, md, front, d);
        } else {
          StepOnClosing(env, md, front, d);
        }
      } else {
        GoodExtend(env, front, d);
      }
    }
  }

  /** A document parses if and only if its directives pair up as headers and end markers with distinct UUIDs. */
  lemma ParseMeans(env: Env, md: string, ds: seq<Directive>)
    requires ds == Directives(md, Comments(env, md))
    ensures Parsed(env, md).Ok? <==> Good(env, ds) && |ds| % 2 == 0
    ensures Parsed(env, md).Ok? ==> Parsed(env, md).value == Regions(env, md, ds)
  {
    DirectivesAreDirectives(md, Comments(env, md));
    RunMeans(env, md, ds);
  }

  // ---- Where the regions lie ----

  function EndOf(d: Directive): int {
    d.start + |d.text|
  }

  /** The directive's text is what the document holds there. */
  predicate InPlace(md: string, d: Directive) {
    0 <= d.start && EndOf(d) <= |md| && md[d.start..EndOf(d)] == d.text
  }

  predicate Placed(md: string, ds: seq<Directive>) {
    && (forall i :: 0 <= i < |ds| ==> InPlace(md, ds[i]))
    && (forall i, j :: 0 <= i < j < |ds| ==> EndOf(ds[i]) <= ds[j].start)
  }

  /** A block holds at most one directive, which is all of it. */
  lemma ReadInPlace(md: string, t: Range)
    requires InBounds(md, t)
    ensures |ReadDirective(md, t)| <= 1
    ensures forall d :: d in ReadDirective(md, t) ==> InPlace(md, d) && d.start == t.start && EndOf(d) == t.end
  {
  }

  lemma PlacedExtend(md: string, ds: seq<Directive>, more: seq<Directive>, end: int)
    requires Placed(md, ds) && (forall i :: 0 <= i < |ds| ==> EndOf(ds[i]) <= end)
    requires |more| <= 1 && (forall d :: d in more ==> InPlace(md, d) && end <= d.start)
    ensures Placed(md, ds + more)
  {
  }

  lemma {:induction false} DirectivesPlaced(md: string, ts: seq<Range>)
    requires Ordered(md, ts)
    ensures Placed(md, Directives(md, ts))
    ensures ts != [] ==> forall i :: 0 <= i < |Directives(md, ts)| ==> EndOf(Directives(md, ts)[i]) <= ts[|ts| - 1].end
  {
    if ts != [] {
      var front, last := ts[..|ts| - 1], ts[|ts| - 1];
      DirectivesPlaced(md, front);
      ReadInPlace(md, last);
      PlacedExtend(md, Directives(md, front), ReadDirective(md, last), last.start);
    }
  }

  lemma SubSlice(md: string, a: nat, text: string, i: nat, j: nat)
    requires a + |text| <= |md| && md[a..a + |text|] == text && i <= j <= |text|
    ensures md[a + i..a + j] == text[i..j]
  {
    forall k | 0 <= k < j - i ensures md[a + i..a + j][k] == text[i..j][k] {
      assert md[a..a + |text|][i + k] == md[a + i + k];
    }
  }

  /** The region's parts: header comment, payload, end marker. */
  predicate Shaped(md: string, r: Region) {
    && InBounds(md, r.span) && InBounds(md, r.payload)
    && r.span.start + |OPEN| + 3 <= r.payload.start && r.payload.end + |CLOSE| == r.span.end
  }

  predicate WellPlaced(env: Env, md: string, r: Region) {
    && Shaped(md, r)
    && md[r.span.start..r.span.start + |OPEN|] == OPEN
    && md[r.payload.start - 3..r.payload.start] == TERMINATOR
    && md[r.payload.end..r.span.end] == CLOSE
    && (r.modified <==> r.descriptor.outputHash != Fingerprint(env, md[r.payload.start..r.payload.end]))
  }

  lemma HeaderShape(env: Env, text: string)
    requires Opens(env, text)
    ensures var end := ReadHeader(env, text).value.end;
            |OPEN| <= end && end + 3 <= |text| && text[0..|OPEN|] == OPEN && text[end..end + 3] == TERMINATOR
  {
    var end := ReadHeader(env, text).value.end;
    FindTerminatorMeans(text, end);
    assert text[end..end + 3] == text[end..][..3];
  }

  lemma PartsInPlace(md: string, o: Directive, c: Directive, open: string, close: string, end: nat)
    requires InPlace(md, o) && InPlace(md, c) && EndOf(o) <= c.start
    requires |open| <= end && end + 3 <= |o.text| && o.text[0..|open|] == open && o.text[end..end + 3] == TERMINATOR
    requires c.text == close
    ensures 0 <= o.start && c.start + |close| <= |md| && o.start + end + 3 <= c.start
    ensures md[o.start..o.start + |open|] == open
    ensures md[o.start + end..o.start + end + 3] == TERMINATOR
    ensures md[c.start..c.start + |close|] == close
  {
    SubSlice(md, o.start, o.text, 0, |open|);
    SubSlice(md, o.start, o.text, end, end + 3);
  }

  /** The parts in place, put together. */
  lemma WellPlacedParts(env: Env, md: string, p: Pending, end: nat, c: int)
    requires 0 <= p.start && |OPEN| <= end && p.payloadStart == p.start + end + 3 <= c && c + |CLOSE| <= |md|
    requires md[p.start..p.start + |OPEN|] == OPEN && md[p.start + end..p.start + end + 3] == TERMINATOR
    requires md[c..c + |CLOSE|] == CLOSE
    ensures WellPlaced(env, md, Closed(env, md, p, c))
  {
    assert p.payloadStart - 3 == p.start + end;
  }

  lemma RegionIsWellPlaced(env: Env, md: string, o: Directive, c: Directive)
    requires InPlace(md, o) && InPlace(md, c) && EndOf(o) <= c.start
    requires Opens(env, o.text) && c.text == CLOSE
    ensures WellPlaced(env, md, Closed(env, md, PendingOf(env, o), c.start))
  {
    var end := ReadHeader(env, o.text).value.end;
    HeaderShape(env, o.text);
    PartsInPlace(md, o, c, OPEN, CLOSE, end);
    WellPlacedParts(env, md, PendingOf(env, o), end, c.start);
  }

  lemma RegionFacts(env: Env, md: string, ds: seq<Directive>, k: nat)
    requires Good(env, ds) && Placed(md, ds) && 2 * k + 1 < |ds|
    ensures var r := RegionAt(env, md, ds, k);
            && WellPlaced(env, md, r)
            && r.span.start == ds[2 * k].start && r.span.end == EndOf(ds[2 * k + 1])
            && env.uuid(r.descriptor.id).Some? && env.uuid(r.descriptor.id) == Id(env, ds[2 * k])
  {
    OpensAt(env, ds, k);
    Parity(k);
    assert RightKind(env, ds, 2 * k + 1);
    RegionIsWellPlaced(env, md, ds[2 * k], ds[2 * k + 1]);
  }

  lemma RegionsApart(env: Env, md: string, ds: seq<Directive>, j: nat, k: nat)
    requires Good(env, ds) && Placed(md, ds) && j < k && 2 * k + 1 < |ds|
    ensures var a, b := RegionAt(env, md, ds, j), RegionAt(env, md, ds, k);
            a.span.end <= b.span.start && env.uuid(a.descriptor.id) != env.uuid(b.descriptor.id)
  {
    RegionFacts(env, md, ds, j);
    RegionFacts(env, md, ds, k);
    Parity(j);
    Parity(k);
  }

  predicate Apart(env: Env, a: Region, b: Region) {
    a.span.end <= b.span.start && env.uuid(a.descriptor.id) != env.uuid(b.descriptor.id)
  }

  /** Every successful parse yields regions in order, disjoint, each around its payload, with distinct UUIDs. */
  lemma ParsedRegionsAreDisjoint(env: Env, md: string)
    requires Ordered(md, TopHtml(env.parser(md))) && Parsed(env, md).Ok?
    ensures var rs := Parsed(env, md).value;
            && (forall k :: 0 <= k < |rs| ==> WellPlaced(env, md, rs[k]) && env.uuid(rs[k].descriptor.id).Some?)
            && (forall j, k :: 0 <= j < k < |rs| ==> Apart(env, rs[j], rs[k]))
  {
    var ts := Comments(env, md);
    var ds := Directives(md, ts);
    TrimKeepsOrder(md, TopHtml(env.parser(md)));
    DirectivesPlaced(md, ts);
    ParseMeans(env, md, ds);
    var rs := Regions(env, md, ds);
    forall k | 0 <= k < |rs| ensures WellPlaced(env, md, rs[k]) && env.uuid(rs[k].descriptor.id).Some? {
      RegionFacts(env, md, ds, k);
    }
    forall j, k | 0 <= j < k < |rs| ensures Apart(env, rs[j], rs[k]) {
      RegionsApart(env, md, ds, j, k);
    }
  }

  // ---- The loop ----

  lemma {:induction false} ErrorsStick(env: Env, md: string, ds: seq<Directive>, n: nat)
    requires AllDirectives(ds) && n <= |ds| && Run(env, md, ds[..n]).Err?
    ensures Run(env, md, ds) == Run(env, md, ds[..n])
    decreases |ds|
  {
    if n == |ds| {
      assert ds[..n] == ds;
    } else {
      assert ds[..|ds| - 1][..n] == ds[..n];
      ErrorsStick(env, md, ds[..|ds| - 1], n);
    }
  }

  lemma PrefixDirectives(md: string, ts: seq<Range>, i: nat)
    requires i <= |ts|
    ensures Directives(md, ts[..i]) <= Directives(md, ts)
  {
    assert ts == ts[..i] + ts[i..];
    DirectivesConcat(md, ts[..i], ts[i..]);
  }

  lemma DirectivesExtend(md: string, ts: seq<Range>, i: nat)
    requires i < |ts|
    ensures Directives(md, ts[..i + 1]) == Directives(md, ts[..i]) + ReadDirective(md, ts[i])
  {
    assert ts[..i + 1][..i] == ts[..i];
  }

  lemma RunExtend(env: Env, md: string, before: seq<Directive>, d: Directive)
    requires AllDirectives(before) && IsDirective(d.text) && Run(env, md, before).Ok?
    ensures AllDirectives(before + [d])
    ensures Run(env, md, before + [d]) == Step(env, md, Run(env, md, before).value, d)
  {
    assert (before + [d])[..|before|] == before;
  }

  /** One turn of the loop, on what has been read so far. */
  lemma Turn(env: Env, md: string, ts: seq<Range>, i: nat)
    requires i < |ts| && AllDirectives(Directives(md, ts[..i])) && Run(env, md, Directives(md, ts[..i])).Ok?
    ensures AllDirectives(Directives(md, ts[..i + 1]))
    ensures var text := Slice(md, ts[i].start, ts[i].end);
            var s := Run(env, md, Directives(md, ts[..i]));
            Run(env, md, Directives(md, ts[..i + 1])) ==
            if IsDirective(text) then Step(env, md, s.value, Directive(ts[i].start, text)) else s
  {
    var before := Directives(md, ts[..i]);
    DirectivesExtend(md, ts, i);
    var text := Slice(md, ts[i].start, ts[i].end);
    if IsDirective(text) {
      RunExtend(env, md, before, Directive(ts[i].start, text));
    } else {
      assert before + [] == before;
    }
  }

  lemma FailsEarly(env: Env, md: string, i: nat, e: RegionError)
    requires i <= |Comments(env, md)|
    requires var ds := Directives(md, Comments(env, md)[..i]); AllDirectives(ds) && Run(env, md, ds) == Err(e)
    ensures Parsed(env, md) == Err(e)
  {
    var ts := Comments(env, md);
    var all, ds := Directives(md, ts), Directives(md, ts[..i]);
    PrefixDirectives(md, ts, i);
    DirectivesAreDirectives(md, ts);
    assert all[..|ds|] == ds;
    ErrorsStick(env, md, all, |ds|);
  }

  lemma StepPending(env: Env, md: string, s: State, d: Directive)
    requires IsDirective(d.text) && Step(env, md, s, d).Ok?
    ensures var p := Step(env, md, s, d).value.pending; p.Some? ==> d.start <= p.value.payloadStart <= EndOf(d)
  {
  }

  predicate Precedes(p: Option<Pending>, ts: seq<Range>, i: nat) {
    p.Some? ==> 0 <= p.value.payloadStart && forall j :: i <= j < |ts| ==> p.value.payloadStart <= ts[j].start
  }

  /** `parse_regions`: never slices out of bounds, and computes what `ParseMeans` describes. */
  method ParseRegions(env: Env, md: string) returns (r: Result<seq<Region>, RegionError>)
    requires Ordered(md, TopHtml(env.parser(md)))
    ensures r == Parsed(env, md)
  {
    var blocks := HtmlBlocks(env.parser(md));
    ghost var ts := Comments(env, md);
    TrimKeepsOrder(md, blocks);
    var s := State([], None, {});
    assert ts[..0] == [];
    for i := 0 to |blocks|
      invariant AllDirectives(Directives(md, ts[..i])) && Run(env, md, Directives(md, ts[..i])) == Ok(s)
      invariant Precedes(s.pending, ts, i)
    {
      var t := Trim(md, blocks[i]);
      assert t == ts[i] && InBounds(md, t);
      var text := md[t.start..t.end];
      assert text == Slice(md, t.start, t.end);
      Turn(env, md, ts, i);
      if IsDirective(text) {
        assert s.pending.Some? ==> 0 <= s.pending.value.payloadStart <= t.start <= |md|;
        match Step(env, md, s, Directive(t.start, text)) {
          case Err(e) =>
            FailsEarly(env, md, i + 1, e);
            return Err(e);
          case Ok(next) =>
            StepPending(env, md, s, Directive(t.start, text));
            assert EndOf(Directive(t.start, text)) == t.end;
            s := next;
        }
      }
    }
    assert ts[..|blocks|] == ts;
    if s.pending.Some? {
      return Err(MissingEndMarker);
    }
    return Ok(s.regions);
  }
}
