/** Writing a generated region and reading it back, alone and inside a page with other regions. */
module RegionRoundTrip {
  import opened Common
  import opened GeneratedRegion

  // ---- Formatting ----

  /** `replace("\r\n", "\n")` */
  function UnixNewlines(s: string): string {
    if s == "" then ""
    else if |s| > 1 && s[0] == '\r' && s[1] == '\n' then "\n" + UnixNewlines(s[2..])
    else [s[0]] + UnixNewlines(s[1..])
  }

  /** `trim_matches('\n')` */
  function TrimNewlines(s: string): (r: string)
    ensures |r| <= |s| && (r != "" ==> r[0] != '\n' && r[|r| - 1] != '\n')
    decreases |s|
  {
    if s == "" then ""
    else if s[0] == '\n' then TrimNewlines(s[1..])
    else if s[|s| - 1] == '\n' then TrimNewlines(s[..|s| - 1])
    else s
  }

  function Body(output: string): string {
    TrimNewlines(UnixNewlines(output))
  }

  function Payload(output: string): string {
    "\n\n" + Body(output) + "\n\n"
  }

  function Texts(env: Env, md: string): seq<string> {
    var ts := Comments(env, md);
    seq(|ts|, i requires 0 <= i < |ts| => Slice(md, ts[i].start, ts[i].end))
  }

  predicate Inert(env: Env, md: string) {
    forall i :: 0 <= i < |Texts(env, md)| ==> !IsDirective(Texts(env, md)[i])
  }

  lemma TextOf(env: Env, md: string, i: nat)
    requires Ordered(md, TopHtml(env.parser(md))) && i < |TopHtml(env.parser(md))|
    ensures var t := Trim(md, TopHtml(env.parser(md))[i]); InBounds(md, t) && Texts(env, md)[i] == md[t.start..t.end]
  {
  }

  /** `ensure_inert_output` */
  method EnsureInertOutput(env: Env, md: string) returns (r: Result<(), RegionError>)
    requires Ordered(md, TopHtml(env.parser(md)))
    ensures Inert(env, md) ==> r == Ok(())
    ensures !Inert(env, md) ==> r == Err(DirectiveInOutput)
  {
    var blocks := HtmlBlocks(env.parser(md));
    ghost var texts := Texts(env, md);
    for i := 0 to |blocks|
      invariant forall j :: 0 <= j < i ==> !IsDirective(texts[j])
    {
      var t := Trim(md, blocks[i]);
      TextOf(env, md, i);
      var directive := IsDirective(md[t.start..t.end]);
      if directive {
        return Err(DirectiveInOutput);
      }
    }
    return Ok(());
  }

  function HeaderText(config: string): string {
    OPEN + "\n" + config + TERMINATOR
  }

  function NewDescriptor(env: Env, id: string, selection: Selection, output: string): Descriptor {
    Descriptor(1, id, selection, Fingerprint(env, Payload(output)))
  }

  /** The header comment, when there is one to write. */
  function FormatHeader(env: Env, id: string, selection: Selection, output: string): (r: Result<string, RegionError>) {
    if !Inert(env, output) then Err(DirectiveInOutput)
    else if env.uuid(id).None? then Err(InvalidUuid)
    else
      match env.encode(NewDescriptor(env, id, selection, output))
      case None => Err(NotSerializable)
      case Some(config) =>
        if FindTerminator(config).Some? then Err(TerminatorInConfiguration) else Ok(HeaderText(config))
  }

  function Whole(header: string, output: string): string {
    header + Payload(output) + CLOSE
  }

  /** Where the end marker of a formatted region starts. */
  function EndStart(header: string, output: string): nat {
    |header| + |Payload(output)|
  }

  /** `format_region` */
  function FormatRegion(env: Env, id: string, selection: Selection, output: string): (r: Result<string, RegionError>) {
    match FormatHeader(env, id, selection, output)
    case Err(e) => Err(e)
    case Ok(header) => Ok(Whole(header, output))
  }

  // ---- What the libraries promise ----

  /** Reading a written configuration gives the descriptor back; digests are 64 lower-case hexadecimal digits. */
  ghost predicate Lawful(env: Env) {
    && (forall d :: env.encode(d).Some? ==> Recovers(env, d, env.encode(d).value))
    && (forall p :: IsDigest(env.digest(p)))
  }

  ghost predicate Recovers(env: Env, d: Descriptor, config: string) {
    var table := env.decode("\n" + config);
    table.Some? && KnownKeys(table.value.keys) && table.value.descriptor == Some(d)
  }

  function Moved(ts: seq<Range>, delta: int): seq<Range> {
    seq(|ts|, i requires 0 <= i < |ts| => Range(ts[i].start + delta, ts[i].end + delta))
  }

  /**
   * The output leaves no Markdown block open: the parser sees the header, the output's own blocks, and the end
   * marker.
   */
  ghost predicate LeavesNothingOpen(env: Env, header: string, output: string) {
    var body, text := Body(output), Whole(header, output);
    && Ordered(body, Comments(env, body))
    && Comments(env, text) ==
       [Range(0, |header|)] + Moved(Comments(env, body), |header| + 2) + [Range(EndStart(header, output), |text|)]
    && |Texts(env, body)| == |Texts(env, output)|
    && forall i :: 0 <= i < |Texts(env, body)| ==> Texts(env, body)[i] == UnixNewlines(Texts(env, output)[i])
  }

  // ---- Newlines do not make directives ----

  lemma {:induction false} NewlinesKeepPrefix(p: string, s: string)
    requires forall i :: 0 <= i < |p| ==> p[i] != '\r' && p[i] != '\n'
    ensures p <= UnixNewlines(s) <==> p <= s
    decreases |p|
  {
    if p != "" && s != "" {
      NewlinesKeepPrefix(p[1..], s[1..]);
      assert p <= s <==> p[0] == s[0] && p[1..] <= s[1..];
      var u := UnixNewlines(s);
      assert p <= u <==> p[0] == u[0] && p[1..] <= u[1..];
    }
  }

  lemma {:induction false} NewlinesKeepBlank(s: string)
    ensures Blank(UnixNewlines(s)) <==> Blank(s)
    decreases |s|
  {
    if s != "" {
      var skip := if |s| > 1 && s[0] == '\r' && s[1] == '\n' then 2 else 1;
      NewlinesKeepBlank(s[skip..]);
      BlankSplit(s, skip);
      BlankSplit(UnixNewlines(s), 1);
    }
  }

  lemma BlankSplit(s: string, n: nat)
    requires n <= |s|
    ensures Blank(s) <==> Blank(s[..n]) && Blank(s[n..])
  {
    if Blank(s[..n]) && Blank(s[n..]) {
      forall i | 0 <= i < |s| ensures IsSpace(s[i]) {
        assert i < n ==> s[..n][i] == s[i];
        assert i >= n ==> s[n..][i - n] == s[i];
      }
    }
  }

  /** What follows the first comment terminator. */
  function Rest(s: string): Option<string> {
    var end := FindTerminator(s);
    if end.None? then None else Some(s[end.value + 3..])
  }

  lemma RestStep(s: string)
    requires s != "" && !StartsTerminator(s)
    ensures Rest(s) == Rest(s[1..])
  {
    var end := FindTerminator(s[1..]);
    if end.Some? {
      assert s[1..][end.value + 3..] == s[end.value + 4..];
    }
  }

  lemma StartsTerminatorIsPrefix(s: string)
    ensures StartsTerminator(s) <==> TERMINATOR <= s
  {
  }

  lemma NewlinesKeepTerminator(s: string)
    requires StartsTerminator(s)
    ensures StartsTerminator(UnixNewlines(s)) && UnixNewlines(s)[3..] == UnixNewlines(s[3..])
  {
    assert s[1..][1..] == s[2..] && s[2..][1..] == s[3..];
    assert UnixNewlines(s) == [s[0]] + UnixNewlines(s[1..]);
    assert UnixNewlines(s[1..]) == [s[1]] + UnixNewlines(s[2..]);
    assert UnixNewlines(s[2..]) == [s[2]] + UnixNewlines(s[3..]);
  }

  lemma {:induction false} NewlinesKeepRest(s: string)
    ensures Rest(s).None? <==> Rest(UnixNewlines(s)).None?
    ensures Rest(s).Some? ==> Rest(UnixNewlines(s)) == Some(UnixNewlines(Rest(s).value))
    decreases |s|
  {
    if s != "" {
      var u := UnixNewlines(s);
      NewlinesKeepPrefix(TERMINATOR, s);
      StartsTerminatorIsPrefix(s);
      StartsTerminatorIsPrefix(u);
      if StartsTerminator(s) {
        NewlinesKeepTerminator(s);
        assert FindTerminator(s) == Some(0) && FindTerminator(u) == Some(0);
      } else if |s| > 1 && s[0] == '\r' && s[1] == '\n' {
        RestStep(s);
        RestStep(s[1..]);
        assert s[1..][1..] == s[2..];
        RestStep(u);
        assert u[1..] == UnixNewlines(s[2..]);
        NewlinesKeepRest(s[2..]);
      } else {
        RestStep(s);
        RestStep(u);
        assert u[1..] == UnixNewlines(s[1..]);
        NewlinesKeepRest(s[1..]);
      }
    }
  }

  lemma NewlinesMakeNoDirective(s: string)
    ensures IsDirective(UnixNewlines(s)) <==> IsDirective(s)
  {
    NewlinesKeepRest(s);
    assert StandaloneComment(s) <==> Rest(s).None? || Blank(Rest(s).value);
    var u := UnixNewlines(s);
    assert StandaloneComment(u) <==> Rest(u).None? || Blank(Rest(u).value);
    if Rest(s).Some? {
      NewlinesKeepBlank(Rest(s).value);
    }
    NewlinesKeepPrefix(OPEN, s);
    NewlinesKeepPrefix(CLOSE_PREFIX, s);
  }

  // ---- The header reads back ----

  /** A terminator appended to a text without one is the first. */
  lemma {:induction false} FindAppended(s: string)
    requires FindTerminator(s).None?
    ensures FindTerminator(s + TERMINATOR) == Some(|s|)
    decreases |s|
  {
    if s == "" {
      assert s + TERMINATOR == TERMINATOR;
    } else {
      assert (s + TERMINATOR)[1..] == s[1..] + TERMINATOR;
      FindAppended(s[1..]);
    }
  }

  lemma AppendedIsStandalone(s: string)
    requires FindTerminator(s).None?
    ensures StandaloneComment(s + TERMINATOR)
  {
    FindAppended(s);
  }

  lemma {:induction false} FindPrefixed(p: string, s: string)
    requires p != "" && '>' !in p && p[|p| - 1] != '-' && FindTerminator(s).None?
    ensures FindTerminator(p + s).None?
    decreases |p|
  {
    if |p| == 1 {
      assert (p + s)[1..] == s;
    } else {
      assert (p + s)[1..] == p[1..] + s;
      FindPrefixed(p[1..], s);
    }
  }

  predicate Plain(p: string) {
    p != "" && '>' !in p && p[|p| - 1] != '-'
  }

  /** A plain opening, any configuration and a terminator make one standalone comment. */
  lemma CommentShape(open: string, config: string)
    requires Plain(open) && FindTerminator(config).None?
    ensures StandaloneComment(open + config + TERMINATOR)
    ensures FindTerminator(open + config + TERMINATOR) == Some(|open + config|)
  {
    FindPrefixed(open, config);
    FindAppended(open + config);
    AppendedIsStandalone(open + config);
  }

  lemma Middle(a: string, b: string, c: string)
    ensures a <= a + b + c && (a + b + c)[|a|..|a| + |b|] == b
  {
  }

  lemma MarkersArePlain()
    ensures Plain(OPEN + "\n") && Plain(CLOSE_PREFIX + " ") && CLOSE == CLOSE_PREFIX + " " + "" + TERMINATOR
  {
  }

  lemma CloseIsDirective()
    ensures IsDirective(CLOSE)
  {
    MarkersArePlain();
    CommentShape(CLOSE_PREFIX + " ", "");
    Middle(CLOSE_PREFIX + " ", "", TERMINATOR);
  }

  lemma HeaderIsDirective(config: string)
    requires FindTerminator(config).None?
    ensures OPEN <= HeaderText(config) && IsDirective(HeaderText(config))
    ensures FindTerminator(HeaderText(config)) == Some(|OPEN| + 1 + |config|)
    ensures HeaderText(config)[|OPEN|..|OPEN| + 1 + |config|] == "\n" + config
  {
    MarkersArePlain();
    CommentShape(OPEN + "\n", config);
    Middle(OPEN + "\n", config, TERMINATOR);
    Prefixes(OPEN, "\n", config, HeaderText(config));
  }

  lemma Prefixes(a: string, b: string, c: string, s: string)
    requires a + b <= s && |a + b| + |c| <= |s| && s[|a + b|..|a + b| + |c|] == c
    ensures a <= s && s[|a|..|a| + |b| + |c|] == b + c
  {
    var mid := s[|a|..|a| + |b| + |c|];
    forall i | 0 <= i < |b| + |c| ensures mid[i] == (b + c)[i] {
      if i < |b| {
        assert s[|a| + i] == (a + b)[|a| + i];
      } else {
        assert s[|a + b|..|a + b| + |c|][i - |b|] == s[|a| + i];
      }
    }
  }

  lemma HeaderReadsBack(env: Env, d: Descriptor, config: string)
    requires Lawful(env) && env.encode(d) == Some(config) && FindTerminator(config).None?
    requires d.version == 1 && env.uuid(d.id).Some?
    ensures OPEN <= HeaderText(config)
    ensures ReadHeader(env, HeaderText(config)) == Ok(Header(d, env.uuid(d.id).value, |OPEN| + 1 + |config|))
  {
    HeaderIsDirective(config);
    assert Recovers(env, d, config);
  }

  lemma FingerprintIsAccepted(env: Env, payload: string)
    requires Lawful(env)
    ensures CheckFingerprint(Fingerprint(env, payload)).None?
  {
    assert Fingerprint(env, payload)[7..] == env.digest(payload);
  }

  lemma FormattedHeaderOpens(env: Env, id: string, selection: Selection, output: string)
    requires Lawful(env) && FormatHeader(env, id, selection, output).Ok?
    ensures var header := FormatHeader(env, id, selection, output).value;
            && |header| >= |OPEN| + 4 && IsDirective(header) && Opens(env, header)
            && ReadHeader(env, header).value ==
               Header(NewDescriptor(env, id, selection, output), env.uuid(id).value, |header| - 3)
  {
    var d := NewDescriptor(env, id, selection, output);
    var config := env.encode(d).value;
    HeaderIsDirective(config);
    HeaderReadsBack(env, d, config);
    FingerprintIsAccepted(env, Payload(output));
  }

  // ---- Directives of a copied text ----

  /** The block reads the same at its new place. */
  predicate SameText(md: string, md': string, t: Range, delta: int) {
    && InBounds(md, t) && InBounds(md', Range(t.start + delta, t.end + delta))
    && md'[t.start + delta..t.end + delta] == md[t.start..t.end]
  }

  function MovedDirectives(ds: seq<Directive>, delta: int): seq<Directive> {
    seq(|ds|, i requires 0 <= i < |ds| => Directive(ds[i].start + delta, ds[i].text))
  }

  lemma ReadMoved(md: string, md': string, t: Range, delta: int)
    requires SameText(md, md', t, delta)
    ensures ReadDirective(md', Range(t.start + delta, t.end + delta)) == MovedDirectives(ReadDirective(md, t), delta)
  {
    ReadSame(md, md', t, Range(t.start + delta, t.end + delta));
    MovedOne(ReadDirective(md, t), t.start, delta);
  }

  lemma ReadSame(md: string, md': string, t: Range, t': Range)
    requires Slice(md, t.start, t.end) == Slice(md', t'.start, t'.end)
    ensures |ReadDirective(md, t)| == |ReadDirective(md', t')| <= 1
    ensures ReadDirective(md, t) != [] ==> ReadDirective(md', t')[0].text == ReadDirective(md, t)[0].text
    ensures ReadDirective(md, t) != [] ==>
              ReadDirective(md, t)[0].start == t.start && ReadDirective(md', t')[0].start == t'.start
  {
  }

  lemma MovedOne(ds: seq<Directive>, at: int, delta: int)
    requires |ds| <= 1 && (ds != [] ==> ds[0].start == at)
    ensures ds == [] ==> MovedDirectives(ds, delta) == []
    ensures ds != [] ==> MovedDirectives(ds, delta) == [Directive(at + delta, ds[0].text)]
  {
  }

  lemma MovedConcat(a: seq<Directive>, b: seq<Directive>, delta: int)
    ensures MovedDirectives(a + b, delta) == MovedDirectives(a, delta) + MovedDirectives(b, delta)
  {
  }

  lemma DirectivesSnoc(md: string, ts: seq<Range>, t: Range)
    ensures Directives(md, ts + [t]) == Directives(md, ts) + ReadDirective(md, t)
  {
    assert (ts + [t])[..|ts|] == ts;
  }

  lemma {:induction false} DirectivesMoved(md: string, md': string, ts: seq<Range>, delta: int)
    requires forall i :: 0 <= i < |ts| ==> SameText(md, md', ts[i], delta)
    ensures Directives(md', Moved(ts, delta)) == MovedDirectives(Directives(md, ts), delta)
  {
    if ts == [] {
      assert Moved(ts, delta) == [];
    } else {
      var front, last := ts[..|ts| - 1], ts[|ts| - 1];
      var last' := Range(last.start + delta, last.end + delta);
      assert ts == front + [last] && Moved(ts, delta) == Moved(front, delta) + [last'];
      DirectivesMoved(md, md', front, delta);
      DirectivesSnoc(md, front, last);
      DirectivesSnoc(md', Moved(front, delta), last');
      ReadMoved(md, md', last, delta);
      MovedConcat(Directives(md, front), ReadDirective(md, last), delta);
    }
  }

  lemma {:induction false} NoDirectives(md: string, ts: seq<Range>)
    requires forall i :: 0 <= i < |ts| ==> !IsDirective(Slice(md, ts[i].start, ts[i].end))
    ensures Directives(md, ts) == []
  {
    if ts != [] {
      NoDirectives(md, ts[..|ts| - 1]);
    }
  }

  /** A text that contains `part` at `at` holds each of its blocks there. */
  lemma BlocksOfPart(part: string, whole: string, at: nat, ts: seq<Range>)
    requires at + |part| <= |whole| && whole[at..at + |part|] == part && Ordered(part, ts)
    ensures forall i :: 0 <= i < |ts| ==> SameText(part, whole, ts[i], at)
  {
    forall i | 0 <= i < |ts| ensures SameText(part, whole, ts[i], at) {
      SubSlice(whole, at, part, ts[i].start, ts[i].end);
    }
  }

  // ---- Format, then parse ----

  lemma Layout(header: string, gap: string, body: string, close: string)
    ensures var text := header + (gap + body + gap) + close;
            && text[0..|header|] == header
            && text[|header|..|header + (gap + body + gap)|] == gap + body + gap
            && text[|header| + |gap|..|header| + |gap| + |body|] == body
            && text[|header + (gap + body + gap)|..|text|] == close
  {
  }

  lemma BodyIsInert(env: Env, header: string, output: string)
    requires Inert(env, output) && LeavesNothingOpen(env, header, output)
    ensures Directives(Body(output), Comments(env, Body(output))) == []
  {
    var body := Body(output);
    var ts := Comments(env, body);
    forall i | 0 <= i < |ts| ensures !IsDirective(Slice(body, ts[i].start, ts[i].end)) {
      assert Texts(env, body)[i] == UnixNewlines(Texts(env, output)[i]);
      NewlinesMakeNoDirective(Texts(env, output)[i]);
    }
    NoDirectives(body, ts);
  }

  lemma OneDirective(md: string, t: Range, text: string)
    requires InBounds(md, t) && md[t.start..t.end] == text && IsDirective(text)
    ensures Directives(md, [t]) == [Directive(t.start, text)]
  {
    assert [t][..0] == [];
  }

  lemma InnerDirectives(env: Env, header: string, output: string)
    requires Inert(env, output) && LeavesNothingOpen(env, header, output)
    ensures Directives(Whole(header, output), Moved(Comments(env, Body(output)), |header| + 2)) == []
  {
    var body, text := Body(output), Whole(header, output);
    Layout(header, "\n\n", body, CLOSE);
    BlocksOfPart(body, text, |header| + 2, Comments(env, body));
    DirectivesMoved(body, text, Comments(env, body), |header| + 2);
    BodyIsInert(env, header, output);
  }

  lemma AroundNothing(md: string, first: Range, inner: seq<Range>, last: Range, a: Directive, b: Directive)
    requires Directives(md, [first]) == [a] && Directives(md, inner) == [] && Directives(md, [last]) == [b]
    ensures Directives(md, [first] + inner + [last]) == [a, b]
  {
    DirectivesConcat(md, [first] + inner, [last]);
    DirectivesConcat(md, [first], inner);
  }

  lemma HeaderFirst(header: string, output: string)
    requires IsDirective(header)
    ensures Directives(Whole(header, output), [Range(0, |header|)]) == [Directive(0, header)]
  {
    Layout(header, "\n\n", Body(output), CLOSE);
    OneDirective(Whole(header, output), Range(0, |header|), header);
  }

  lemma LastBlock(text: string, a: nat, close: string)
    requires a + |close| == |text| && text[a..|text|] == close && IsDirective(close)
    ensures Directives(text, [Range(a, |text|)]) == [Directive(a, close)]
  {
    OneDirective(text, Range(a, |text|), close);
  }

  lemma CloseLast(header: string, output: string)
    ensures var text, a := Whole(header, output), EndStart(header, output);
            Directives(text, [Range(a, |text|)]) == [Directive(a, CLOSE)]
  {
    Layout(header, "\n\n", Body(output), CLOSE);
    CloseIsDirective();
    LastBlock(Whole(header, output), EndStart(header, output), CLOSE);
  }

  lemma FormattedDirectives(env: Env, header: string, output: string)
    requires IsDirective(header) && Inert(env, output) && LeavesNothingOpen(env, header, output)
    ensures var text := Whole(header, output);
            Directives(text, Comments(env, text)) == [Directive(0, header), Directive(EndStart(header, output), CLOSE)]
  {
    var text := Whole(header, output);
    HeaderFirst(header, output);
    CloseLast(header, output);
    InnerDirectives(env, header, output);
    AroundNothing(text, Range(0, |header|), Moved(Comments(env, Body(output)), |header| + 2),
                  Range(EndStart(header, output), |text|),
                  Directive(0, header), Directive(EndStart(header, output), CLOSE));
  }

  lemma WrittenDirectives(env: Env, id: string, selection: Selection, output: string, header: string)
    requires Lawful(env) && FormatHeader(env, id, selection, output) == Ok(header)
    requires LeavesNothingOpen(env, header, output)
    ensures var text := Whole(header, output);
            Directives(text, Comments(env, text)) == [Directive(0, header), Directive(EndStart(header, output), CLOSE)]
  {
    FormattedHeaderOpens(env, id, selection, output);
    FormattedDirectives(env, header, output);
  }

  lemma PairIsGood(env: Env, o: Directive, c: Directive)
    requires Opens(env, o.text) && c.text == CLOSE
    ensures Good(env, [o, c])
  {
    var ds := [o, c];
    assert RightKind(env, ds, 0) && RightKind(env, ds, 1);
  }

  lemma PairRegions(env: Env, md: string, o: Directive, c: Directive, r: Region)
    requires Opens(env, o.text) && c.text == CLOSE && Closed(env, md, PendingOf(env, o), c.start) == r
    ensures Good(env, [o, c]) && Regions(env, md, [o, c]) == [r]
  {
    PairIsGood(env, o, c);
    assert RegionAt(env, md, [o, c], 0) == r;
  }

  lemma PairParses(env: Env, md: string, ds: seq<Directive>, r: Region)
    requires ds == Directives(md, Comments(env, md)) && |ds| == 2 && Good(env, ds) && Regions(env, md, ds) == [r]
    ensures Parsed(env, md) == Ok([r])
  {
    ParseMeans(env, md, ds);
  }

  /** The region a formatted text reads as, wherever it starts. */
  function Fresh(env: Env, id: string, selection: Selection, output: string, header: string, at: int): Region {
    var end := at + EndStart(header, output);
    Region(NewDescriptor(env, id, selection, output), Range(at, end + |CLOSE|), Range(at + |header|, end), false)
  }

  /** Closing a header read from the formatted text over its payload gives the fresh region. */
  lemma ClosedIsFresh(env: Env, md: string, o: Directive, c: Directive, h: Header, payload: string, r: Region)
    requires Opens(env, o.text) && ReadHeader(env, o.text) == Ok(h)
    requires Slice(md, o.start + h.end + 3, c.start) == payload && h.descriptor.outputHash == Fingerprint(env, payload)
    requires r == Region(h.descriptor, Range(o.start, c.start + |CLOSE|), Range(o.start + h.end + 3, c.start), false)
    ensures Closed(env, md, PendingOf(env, o), c.start) == r
  {
  }

  lemma FreshRegion(
    env: Env, md: string, id: string, selection: Selection, output: string, header: string, at: int,
    o: Directive, c: Directive, r: Region)
    requires Lawful(env) && FormatHeader(env, id, selection, output) == Ok(header)
    requires o == Directive(at, header) && c.start == at + EndStart(header, output)
    requires Slice(md, at + |header|, c.start) == Payload(output) && r == Fresh(env, id, selection, output, header, at)
    ensures Opens(env, o.text) && Closed(env, md, PendingOf(env, o), c.start) == r
  {
    FormattedHeaderOpens(env, id, selection, output);
    ClosedIsFresh(env, md, o, c, ReadHeader(env, header).value, Payload(output), r);
  }

  lemma PayloadInPlace(header: string, output: string)
    ensures EndStart(header, output) + |CLOSE| == |Whole(header, output)|
    ensures Slice(Whole(header, output), |header|, EndStart(header, output)) == Payload(output)
  {
    Layout(header, "\n\n", Body(output), CLOSE);
  }

  lemma ParsesAsFresh(
    env: Env, md: string, id: string, selection: Selection, output: string, header: string,
    o: Directive, c: Directive, r: Region)
    requires Lawful(env) && FormatHeader(env, id, selection, output) == Ok(header)
    requires Slice(md, |header|, EndStart(header, output)) == Payload(output)
    requires o == Directive(0, header) && c.start == EndStart(header, output) && c.text == CLOSE
    requires r == Fresh(env, id, selection, output, header, 0)
    ensures Good(env, [o, c]) && Regions(env, md, [o, c]) == [r]
  {
    FreshRegion(env, md, id, selection, output, header, 0, o, c, r);
    PairRegions(env, md, o, c, r);
  }

  /** Formatting and parsing back: one region over the whole text, with the exact payload, unmodified. */
  lemma FormatParsesBack(env: Env, id: string, selection: Selection, output: string, header: string)
    requires Lawful(env) && FormatHeader(env, id, selection, output) == Ok(header)
    requires LeavesNothingOpen(env, header, output)
    ensures var text := Whole(header, output);
            && FormatRegion(env, id, selection, output) == Ok(text)
            && Parsed(env, text) == Ok([Fresh(env, id, selection, output, header, 0)])
            && Slice(text, |header|, EndStart(header, output)) == Payload(output)
  {
    WrittenDirectives(env, id, selection, output, header);
    PayloadInPlace(header, output);
    var text, r := Whole(header, output), Fresh(env, id, selection, output, header, 0);
    var o, c := Directive(0, header), Directive(EndStart(header, output), CLOSE);
    ParsesAsFresh(env, text, id, selection, output, header, o, c, r);
    PairParses(env, text, [o, c], r);
  }
}
