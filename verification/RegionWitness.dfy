/** The hypotheses of the region theorems hold together: a page that is one region, replaced by itself. */
module RegionWitness {
  import opened Common
  import opened GeneratedRegion
  import opened RegionRoundTrip
  import opened RegionReplace

  const CONFIG: string := "c"

  function Zeros(): (s: string)
    ensures IsDigest(s)
  {
    seq(64, _ => '0')
  }

  function OneDescriptor(id: string, selection: Selection): Descriptor {
    Descriptor(1, id, selection, "blake3:" + Zeros())
  }

  /** A page with an empty output between its header and its end marker. */
  function Page(): string {
    Whole(HeaderText(CONFIG), "")
  }

  function PageBlocks(): seq<Range> {
    [Range(0, |HeaderText(CONFIG)|), Range(EndStart(HeaderText(CONFIG), ""), |Page()|)]
  }

  /** Libraries that know one page and one descriptor. */
  ghost function OnePageEnv(id: string, selection: Selection): Env {
    Env(t => if t == Page() then [Element(true, PageBlocks()[0], []), Element(true, PageBlocks()[1], [])] else [],
        t => if t == "\n" + CONFIG then Some(Table([], Some(OneDescriptor(id, selection)))) else None,
        d => if d == OneDescriptor(id, selection) then Some(CONFIG) else None,
        _ => Some(0),
        _ => Zeros())
  }

  lemma TrimIsIdentity(md: string, t: Range)
    requires InBounds(md, t) && t.start < t.end && !IsSpace(md[t.start]) && !IsSpace(md[t.end - 1])
    ensures Trim(md, t) == t
  {
  }

  lemma HeaderEnds(config: string)
    ensures |HeaderText(config)| > 0 && HeaderText(config)[0] == '<'
    ensures HeaderText(config)[|HeaderText(config)| - 1] == '>'
  {
  }

  lemma Sides(text: string, a: int, b: int, part: string)
    requires 0 <= a <= b <= |text| && text[a..b] == part && part != ""
    ensures a < b && text[a] == part[0] && text[b - 1] == part[|part| - 1]
  {
    assert text[a..b][0] == text[a] && text[a..b][|part| - 1] == text[b - 1];
  }

  /** The blocks of the page are the header and the end marker, with nothing to trim. */
  lemma BlocksAreTrimmed()
    ensures Ordered(Page(), PageBlocks()) && TrimAll(Page(), PageBlocks()) == PageBlocks()
  {
    var header, text := HeaderText(CONFIG), Page();
    var end := EndStart(header, "");
    Layout(header, "\n\n", Body(""), CLOSE);
    HeaderEnds(CONFIG);
    Sides(text, 0, |header|, header);
    Sides(text, end, |text|, CLOSE);
    TrimIsIdentity(text, PageBlocks()[0]);
    TrimIsIdentity(text, PageBlocks()[1]);
  }

  lemma Roots(a: Range, b: Range)
    ensures TopHtml([Element(true, a, []), Element(true, b, [])]) == [a, b]
  {
    var one, two := [Element(true, b, [])], [Element(true, a, []), Element(true, b, [])];
    assert one[1..] == [] && two[1..] == one;
    assert TopHtml(one) == [b];
  }

  lemma PageComments(id: string, selection: Selection)
    ensures var env := OnePageEnv(id, selection);
            && TopHtml(env.parser(Page())) == PageBlocks()
            && Comments(env, Page()) == PageBlocks() && Comments(env, "") == []
  {
    Roots(PageBlocks()[0], PageBlocks()[1]);
    BlocksAreTrimmed();
    HeaderEnds(CONFIG);
  }

  lemma EnvIsLawful(id: string, selection: Selection)
    ensures Lawful(OnePageEnv(id, selection))
  {
    var env := OnePageEnv(id, selection);
    forall d | env.encode(d).Some? ensures Recovers(env, d, env.encode(d).value) {
      assert env.decode("\n" + CONFIG) == Some(Table([], Some(d)));
    }
  }

  lemma ConfigIsPlain()
    ensures FindTerminator(CONFIG).None?
  {
    assert CONFIG[1..] == "";
  }

  lemma HeaderIsWritten(id: string, selection: Selection)
    ensures FormatHeader(OnePageEnv(id, selection), id, selection, "") == Ok(HeaderText(CONFIG))
  {
    var env := OnePageEnv(id, selection);
    PageComments(id, selection);
    ConfigIsPlain();
    assert NewDescriptor(env, id, selection, "") == OneDescriptor(id, selection);
  }

  lemma NothingIsOpen(id: string, selection: Selection)
    ensures LeavesNothingOpen(OnePageEnv(id, selection), HeaderText(CONFIG), "")
  {
    PageComments(id, selection);
    assert Body("") == "";
    assert Moved(Comments(OnePageEnv(id, selection), ""), |HeaderText(CONFIG)| + 2) == [];
  }

  /** Replacing a whole page by itself disturbs nothing outside it. */
  lemma SelfReplacementIsLocal(env: Env, text: string, span: Range)
    requires span == Range(0, |text|) && Within(Comments(env, text), 0, |text|)
    ensures Local(env, text, span, text, [], Comments(env, text), [])
  {
    assert Spliced(text, span, text) == text;
    assert Moved(Comments(env, text), 0) == Comments(env, text);
    assert Moved([], Delta(span, text)) == [];
  }

  lemma PageReplacesItself(id: string, selection: Selection, span: Range)
    requires span == Range(0, |Page()|)
    ensures var env := OnePageEnv(id, selection);
            && Ordered(Page(), TopHtml(env.parser(Page())))
            && Local(env, Page(), span, Page(), [], Comments(env, Page()), [])
  {
    PageComments(id, selection);
    BlocksAreTrimmed();
    SelfReplacementIsLocal(OnePageEnv(id, selection), Page(), span);
  }

  /** All that `ReplaceKeepsTheOthers` asks for, at once, for any id and selection. */
  lemma HypothesesHoldTogether(id: string, selection: Selection)
    returns (env: Env, md: string, rs: seq<Region>, header: string, inside: seq<Range>)
    ensures Lawful(env) && Ordered(md, TopHtml(env.parser(md))) && Parsed(env, md) == Ok(rs) && |rs| == 1
    ensures rs[0].descriptor.id == id && rs[0].descriptor.selection == selection
    ensures FormatHeader(env, id, selection, "") == Ok(header) && LeavesNothingOpen(env, header, "")
    ensures Local(env, md, rs[0].span, Whole(header, ""), [], inside, [])
  {
    env, md, header := OnePageEnv(id, selection), Page(), HeaderText(CONFIG);
    EnvIsLawful(id, selection);
    HeaderIsWritten(id, selection);
    NothingIsOpen(id, selection);
    FormatParsesBack(env, id, selection, "", header);
    rs := [Fresh(env, id, selection, "", header, 0)];
    inside := Comments(env, md);
    PayloadInPlace(header, "");
    PageReplacesItself(id, selection, rs[0].span);
  }
}
