/** Replacing one generated region of a page leaves every other region as it was. */
module RegionReplace {
  import opened Common
  import opened GeneratedRegion
  import opened RegionRoundTrip

  /** `markdown` with the text of `span` replaced. */
  function Spliced(md: string, span: Range, text: string): string
    requires InBounds(md, span)
  {
    md[..span.start] + text + md[span.end..]
  }

  /** How far the text after the span moves. */
  function Delta(span: Range, text: string): int {
    |text| - (span.end - span.start)
  }

  /** `replace_region` */
  function ReplaceRegion(env: Env, md: string, region: Region, selection: Selection,
                         output: string): (r: Result<string, RegionError>)
    requires InBounds(md, region.span)
  {
    match FormatRegion(env, region.descriptor.id, selection, output)
    case Err(e) => Err(e)
    case Ok(text) => Ok(Spliced(md, region.span, text))
  }

  // ---- What the Markdown parser promises: a replacement is local ----

  predicate Within(ts: seq<Range>, lo: int, hi: int) {
    forall i :: 0 <= i < |ts| ==> lo <= ts[i].start <= ts[i].end <= hi
  }

  /** The blocks before and after the span are found again, and between them the blocks of the new text alone. */
  ghost predicate Local(env: Env, md: string, span: Range, text: string, before: seq<Range>, inside: seq<Range>,
                        after: seq<Range>) {
    && InBounds(md, span)
    && Comments(env, md) == before + inside + after
    && Within(before, 0, span.start) && Within(inside, span.start, span.end) && Within(after, span.end, |md|)
    && Within(Comments(env, text), 0, |text|)
    && Comments(env, Spliced(md, span, text)) ==
       before + Moved(Comments(env, text), span.start) + Moved(after, Delta(span, text))
  }

  // ---- The text around the span is untouched ----

  lemma SlicesBefore(md: string, span: Range, text: string, a: int, b: int)
    requires InBounds(md, span) && 0 <= a <= b <= span.start
    ensures b <= |Spliced(md, span, text)| && Spliced(md, span, text)[a..b] == md[a..b]
  {
  }

  lemma SlicesInside(md: string, span: Range, text: string, a: int, b: int)
    requires InBounds(md, span) && 0 <= a <= b <= |text|
    ensures span.start + b <= |Spliced(md, span, text)|
    ensures Spliced(md, span, text)[span.start + a..span.start + b] == text[a..b]
  {
  }

  lemma SlicesAfter(md: string, span: Range, text: string, delta: int, a: int, b: int)
    requires InBounds(md, span) && span.end <= a <= b <= |md| && delta == Delta(span, text)
    ensures 0 <= a + delta && b + delta <= |Spliced(md, span, text)|
    ensures Spliced(md, span, text)[a + delta..b + delta] == md[a..b]
  {
    var s := Spliced(md, span, text);
    forall i | 0 <= i < b - a ensures s[a + delta..b + delta][i] == md[a..b][i] {
      assert s[a + delta + i] == md[span.end..][a + i - span.end];
    }
  }

  lemma DirectivesBefore(md: string, span: Range, text: string, ts: seq<Range>)
    requires InBounds(md, span) && Within(ts, 0, span.start)
    ensures Directives(Spliced(md, span, text), ts) == Directives(md, ts)
  {
    forall i | 0 <= i < |ts| ensures SameText(md, Spliced(md, span, text), ts[i], 0) {
      SlicesBefore(md, span, text, ts[i].start, ts[i].end);
    }
    DirectivesMoved(md, Spliced(md, span, text), ts, 0);
    assert Moved(ts, 0) == ts;
    assert MovedDirectives(Directives(md, ts), 0) == Directives(md, ts);
  }

  lemma DirectivesInside(md: string, span: Range, text: string, ts: seq<Range>)
    requires InBounds(md, span) && Within(ts, 0, |text|)
    ensures Directives(Spliced(md, span, text), Moved(ts, span.start)) ==
            MovedDirectives(Directives(text, ts), span.start)
  {
    forall i | 0 <= i < |ts| ensures SameText(text, Spliced(md, span, text), ts[i], span.start) {
      SlicesInside(md, span, text, ts[i].start, ts[i].end);
    }
    DirectivesMoved(text, Spliced(md, span, text), ts, span.start);
  }

  lemma DirectivesAfter(md: string, span: Range, text: string, delta: int, ts: seq<Range>)
    requires InBounds(md, span) && Within(ts, span.end, |md|) && delta == Delta(span, text)
    ensures Directives(Spliced(md, span, text), Moved(ts, delta)) == MovedDirectives(Directives(md, ts), delta)
  {
    forall i | 0 <= i < |ts| ensures SameText(md, Spliced(md, span, text), ts[i], delta) {
      SlicesAfter(md, span, text, delta, ts[i].start, ts[i].end);
    }
    DirectivesMoved(md, Spliced(md, span, text), ts, delta);
  }

  lemma ThreeWay(md: string, a: seq<Range>, b: seq<Range>, c: seq<Range>)
    ensures Directives(md, a + b + c) == Directives(md, a) + Directives(md, b) + Directives(md, c)
  {
    DirectivesConcat(md, a + b, c);
    DirectivesConcat(md, a, b);
  }

  /** Directives of the new page. */
  lemma SplicedDirectives(
    env: Env, md: string, span: Range, text: string, before: seq<Range>, inside: seq<Range>, after: seq<Range>,
    delta: int)
    requires Local(env, md, span, text, before, inside, after) && delta == Delta(span, text)
    ensures var s := Spliced(md, span, text);
            Directives(s, Comments(env, s)) ==
            Directives(md, before) + MovedDirectives(Directives(text, Comments(env, text)), span.start)
            + MovedDirectives(Directives(md, after), delta)
  {
    ThreeWay(Spliced(md, span, text), before, Moved(Comments(env, text), span.start), Moved(after, delta));
    DirectivesBefore(md, span, text, before);
    DirectivesInside(md, span, text, Comments(env, text));
    DirectivesAfter(md, span, text, delta, after);
  }

  // ---- The span holds exactly the region's own two directives ----

  lemma {:induction false} DirectivesWithin(md: string, ts: seq<Range>, lo: int, hi: int)
    requires 0 <= lo && hi <= |md| && Within(ts, lo, hi)
    ensures forall i :: 0 <= i < |Directives(md, ts)| ==>
              lo <= Directives(md, ts)[i].start && EndOf(Directives(md, ts)[i]) <= hi
  {
    if ts != [] {
      DirectivesWithin(md, ts[..|ts| - 1], lo, hi);
    }
  }

  /** In order, none empty, none overlapping. */
  predicate Sorted(ds: seq<Directive>) {
    && (forall i :: 0 <= i < |ds| ==> ds[i].start < EndOf(ds[i]))
    && (forall i, j :: 0 <= i < j < |ds| ==> EndOf(ds[i]) <= ds[j].start)
  }

  lemma DirectivesSorted(md: string, ts: seq<Range>)
    requires Ordered(md, ts)
    ensures Sorted(Directives(md, ts))
  {
    DirectivesPlaced(md, ts);
    DirectivesAreDirectives(md, ts);
    forall i | 0 <= i < |Directives(md, ts)| ensures Directives(md, ts)[i].start < EndOf(Directives(md, ts)[i]) {
      assert IsDirective(Directives(md, ts)[i].text);
    }
  }

  /** A cut at the start of directive `n` separates the first `n` from the rest. */
  lemma CutAtStart(a: seq<Directive>, b: seq<Directive>, n: nat, cut: int)
    requires Sorted(a + b) && n < |a + b| && cut == (a + b)[n].start
    requires forall i :: 0 <= i < |a| ==> EndOf(a[i]) <= cut
    requires forall i :: 0 <= i < |b| ==> cut <= b[i].start
    ensures |a| == n
  {
    if a != [] {
      assert (a + b)[|a| - 1] == a[|a| - 1];
    }
    if b != [] {
      assert (a + b)[|a|] == b[0];
    }
  }

  lemma CutAtEnd(a: seq<Directive>, b: seq<Directive>, n: nat, cut: int)
    requires Sorted(a + b) && n < |a + b| && cut == EndOf((a + b)[n])
    requires forall i :: 0 <= i < |a| ==> EndOf(a[i]) <= cut
    requires forall i :: 0 <= i < |b| ==> cut <= b[i].start
    ensures |a| == n + 1
  {
    if a != [] {
      assert (a + b)[|a| - 1] == a[|a| - 1];
    }
    if b != [] {
      assert (a + b)[|a|] == b[0];
    }
  }

  lemma Cuts(ds: seq<Directive>, a: seq<Directive>, b: seq<Directive>, c: seq<Directive>, n: nat)
    requires ds == a + b + c && Sorted(ds) && n + 1 < |ds|
    requires forall i :: 0 <= i < |a| ==> EndOf(a[i]) <= ds[n].start
    requires forall i :: 0 <= i < |b| ==> ds[n].start <= b[i].start && EndOf(b[i]) <= EndOf(ds[n + 1])
    requires forall i :: 0 <= i < |c| ==> EndOf(ds[n + 1]) <= c[i].start
    ensures a == ds[..n] && c == ds[n + 2..]
  {
    assert a + b + c == a + (b + c);
    assert ds[n].start <= EndOf(ds[n + 1]);
    CutAtStart(a, b + c, n, ds[n].start);
    CutAtEnd(a + b, c, n + 1, EndOf(ds[n + 1]));
  }

  /** The directives before, in and after region `k`'s span. */
  lemma SpanHoldsTwo(md: string, ds: seq<Directive>, n: nat, before: seq<Range>, inside: seq<Range>, after: seq<Range>)
    requires Ordered(md, before + inside + after) && ds == Directives(md, before + inside + after)
    requires n + 1 < |ds| && 0 <= ds[n].start && EndOf(ds[n + 1]) <= |md|
    requires Within(before, 0, ds[n].start) && Within(inside, ds[n].start, EndOf(ds[n + 1]))
    requires Within(after, EndOf(ds[n + 1]), |md|)
    ensures Directives(md, before) == ds[..n] && Directives(md, after) == ds[n + 2..]
  {
    var lo, hi := ds[n].start, EndOf(ds[n + 1]);
    ThreeWay(md, before, inside, after);
    DirectivesSorted(md, before + inside + after);
    DirectivesWithin(md, before, 0, lo);
    DirectivesWithin(md, inside, lo, hi);
    DirectivesWithin(md, after, hi, |md|);
    Cuts(ds, Directives(md, before), Directives(md, inside), Directives(md, after), n);
  }

  // ---- The other regions ----

  /** The directives of the new page: region `k`'s two replaced, the later ones moved. */
  function Replaced(ds: seq<Directive>, n: nat, o: Directive, c: Directive, delta: int): seq<Directive>
    requires n + 1 < |ds|
  {
    ds[..n] + [o, c] + MovedDirectives(ds[n + 2..], delta)
  }

  lemma ReplacedAt(ds: seq<Directive>, n: nat, o: Directive, c: Directive, delta: int)
    requires n + 1 < |ds|
    ensures var es := Replaced(ds, n, o, c, delta);
            && |es| == |ds| && es[n] == o && es[n + 1] == c
            && (forall i :: 0 <= i < n ==> es[i] == ds[i])
            && (forall i :: n + 2 <= i < |ds| ==> es[i] == Directive(ds[i].start + delta, ds[i].text))
  {
  }

  lemma SameKinds(env: Env, ds: seq<Directive>, es: seq<Directive>)
    requires Good(env, ds) && |es| == |ds|
    requires forall i :: 0 <= i < |ds| ==>
               (RightKind(env, ds, i) ==> RightKind(env, es, i)) && Id(env, es[i]) == Id(env, ds[i])
    ensures Good(env, es)
  {
  }

  lemma SameTextSameKind(env: Env, ds: seq<Directive>, es: seq<Directive>, i: nat)
    requires i < |ds| == |es| && es[i].text == ds[i].text
    ensures RightKind(env, ds, i) == RightKind(env, es, i) && Id(env, es[i]) == Id(env, ds[i])
  {
  }

  lemma ReplacedIsGood(env: Env, ds: seq<Directive>, n: nat, o: Directive, c: Directive, delta: int)
    requires Good(env, ds) && n + 1 < |ds| && n % 2 == 0
    requires Opens(env, o.text) && Id(env, o) == Id(env, ds[n]) && c.text == CLOSE
    ensures Good(env, Replaced(ds, n, o, c, delta))
  {
    var es := Replaced(ds, n, o, c, delta);
    ReplacedAt(ds, n, o, c, delta);
    forall i | 0 <= i < |ds|
      ensures (RightKind(env, ds, i) ==> RightKind(env, es, i)) && Id(env, es[i]) == Id(env, ds[i])
    {
      if i == n {
        assert RightKind(env, es, n);
      } else {
        if i == n + 1 {
          assert RightKind(env, ds, n + 1);
        }
        SameTextSameKind(env, ds, es, i);
      }
    }
    SameKinds(env, ds, es);
  }

  function MovedRegion(r: Region, delta: int): Region {
    Region(r.descriptor, Range(r.span.start + delta, r.span.end + delta),
           Range(r.payload.start + delta, r.payload.end + delta), r.modified)
  }

  /** A region closed in a copy of the text `delta` further on. */
  lemma ClosedMoved(env: Env, md: string, md': string, p: Pending, p': Pending, c: int, delta: int)
    requires p' == Pending(p.descriptor, p.start + delta, p.payloadStart + delta)
    requires Slice(md', p'.payloadStart, c + delta) == Slice(md, p.payloadStart, c)
    ensures Closed(env, md', p', c + delta) == MovedRegion(Closed(env, md, p, c), delta)
  {
  }

  lemma PendingMoved(env: Env, o: Directive, delta: int)
    requires Opens(env, o.text)
    ensures var p, p' := PendingOf(env, o), PendingOf(env, Directive(o.start + delta, o.text));
            p' == Pending(p.descriptor, p.start + delta, p.payloadStart + delta)
  {
  }

  lemma SliceAfter(md: string, span: Range, text: string, delta: int, r: Region)
    requires InBounds(md, span) && InBounds(md, r.payload) && span.end <= r.payload.start && delta == Delta(span, text)
    ensures Slice(Spliced(md, span, text), r.payload.start + delta, r.payload.end + delta) ==
            Slice(md, r.payload.start, r.payload.end)
  {
    SlicesAfter(md, span, text, delta, r.payload.start, r.payload.end);
  }

  lemma RegionBefore(env: Env, md: string, ds: seq<Directive>, span: Range, text: string, es: seq<Directive>, j: nat)
    requires Good(env, ds) && Good(env, es) && |es| == |ds| && 2 * j + 1 < |ds| && InBounds(md, span)
    requires es[2 * j] == ds[2 * j] && es[2 * j + 1] == ds[2 * j + 1]
    requires Shaped(md, RegionAt(env, md, ds, j)) && RegionAt(env, md, ds, j).span.end <= span.start
    ensures RegionAt(env, Spliced(md, span, text), es, j) == RegionAt(env, md, ds, j)
  {
    var r := RegionAt(env, md, ds, j);
    SlicesBefore(md, span, text, r.payload.start, r.payload.end);
  }

  lemma ClosedAfter(
    env: Env, md: string, span: Range, text: string, o: Directive, c: Directive, o': Directive, c': Directive,
    r: Region, delta: int)
    requires InBounds(md, span) && delta == Delta(span, text) && Opens(env, o.text)
    requires o' == Directive(o.start + delta, o.text) && c'.start == c.start + delta
    requires r == Closed(env, md, PendingOf(env, o), c.start) && InBounds(md, r.payload) && span.end <= r.payload.start
    ensures Closed(env, Spliced(md, span, text), PendingOf(env, o'), c'.start) == MovedRegion(r, delta)
  {
    SliceAfter(md, span, text, delta, r);
    PendingMoved(env, o, delta);
    ClosedMoved(env, md, Spliced(md, span, text), PendingOf(env, o), PendingOf(env, o'), c.start, delta);
  }

  lemma RegionAfter(env: Env, md: string, ds: seq<Directive>, span: Range, text: string, es: seq<Directive>, j: nat,
                    delta: int)
    requires Good(env, ds) && Good(env, es) && |es| == |ds| && 2 * j + 1 < |ds| && InBounds(md, span)
    requires delta == Delta(span, text)
    requires es[2 * j] == Directive(ds[2 * j].start + delta, ds[2 * j].text)
    requires es[2 * j + 1] == Directive(ds[2 * j + 1].start + delta, ds[2 * j + 1].text)
    requires Shaped(md, RegionAt(env, md, ds, j)) && span.end <= RegionAt(env, md, ds, j).span.start
    ensures RegionAt(env, Spliced(md, span, text), es, j) == MovedRegion(RegionAt(env, md, ds, j), delta)
  {
    OpensAt(env, ds, j);
    ClosedAfter(env, md, span, text, ds[2 * j], ds[2 * j + 1], es[2 * j], es[2 * j + 1], RegionAt(env, md, ds, j),
                delta);
  }

  lemma PayloadAt(md: string, span: Range, header: string, output: string)
    requires InBounds(md, span)
    ensures var s := Spliced(md, span, Whole(header, output));
            Slice(s, span.start + |header|, span.start + EndStart(header, output)) == Payload(output)
  {
    PayloadInPlace(header, output);
    SlicesInside(md, span, Whole(header, output), |header|, EndStart(header, output));
  }

  /** Where region `j` is after region `k` has been replaced. */
  function AfterReplacing(r: Region, j: nat, k: nat, renewed: Region, delta: int): Region {
    if j < k then r else if j == k then renewed else MovedRegion(r, delta)
  }

  /**
   * The setting: region `r`, the `k`-th of `md`, is given a text with directives `o` and `c`; `es` are the new
   * ones.
   */
  ghost predicate Setting(env: Env, md: string, ds: seq<Directive>, k: nat, r: Region, text: string,
                          o: Directive, c: Directive, delta: int, es: seq<Directive>) {
    && Good(env, ds) && Placed(md, ds) && 2 * k + 1 < |ds|
    && r == RegionAt(env, md, ds, k) && InBounds(md, r.span) && delta == Delta(r.span, text)
    && es == Replaced(ds, 2 * k, o, c, delta) && Good(env, es)
  }

  lemma SettingHolds(env: Env, md: string, ds: seq<Directive>, k: nat, r: Region, text: string,
                     o: Directive, c: Directive, delta: int, es: seq<Directive>)
    requires Good(env, ds) && Placed(md, ds) && 2 * k + 1 < |ds|
    requires r == RegionAt(env, md, ds, k) && delta == Delta(r.span, text) && es == Replaced(ds, 2 * k, o, c, delta)
    requires Opens(env, o.text) && Id(env, o) == env.uuid(r.descriptor.id) && c.text == CLOSE
    ensures Setting(env, md, ds, k, r, text, o, c, delta, es)
  {
    RegionFacts(env, md, ds, k);
    Parity(k);
    ReplacedIsGood(env, ds, 2 * k, o, c, delta);
  }

  lemma EarlierRegion(env: Env, md: string, ds: seq<Directive>, k: nat, r: Region, text: string,
                      o: Directive, c: Directive, delta: int, es: seq<Directive>, j: nat)
    requires Setting(env, md, ds, k, r, text, o, c, delta, es) && j < k
    ensures |es| == |ds| && RegionAt(env, Spliced(md, r.span, text), es, j) == RegionAt(env, md, ds, j)
  {
    ReplacedAt(ds, 2 * k, o, c, delta);
    RegionFacts(env, md, ds, j);
    RegionsApart(env, md, ds, j, k);
    RegionBefore(env, md, ds, r.span, text, es, j);
  }

  lemma LaterRegion(env: Env, md: string, ds: seq<Directive>, k: nat, r: Region, text: string,
                    o: Directive, c: Directive, delta: int, es: seq<Directive>, j: nat)
    requires Setting(env, md, ds, k, r, text, o, c, delta, es) && k < j && 2 * j + 1 < |ds|
    ensures |es| == |ds|
    ensures RegionAt(env, Spliced(md, r.span, text), es, j) == MovedRegion(RegionAt(env, md, ds, j), delta)
  {
    ReplacedAt(ds, 2 * k, o, c, delta);
    RegionFacts(env, md, ds, j);
    RegionsApart(env, md, ds, k, j);
    RegionAfter(env, md, ds, r.span, text, es, j, delta);
  }

  // ---- The theorem ----

  lemma NewDirectives(
    env: Env, md: string, ds: seq<Directive>, n: nat, span: Range, text: string, o: Directive, c: Directive,
    before: seq<Range>, inside: seq<Range>, after: seq<Range>, delta: int, s: string, es: seq<Directive>)
    requires Ordered(md, Comments(env, md)) && ds == Directives(md, Comments(env, md))
    requires n + 1 < |ds| && span == Range(ds[n].start, EndOf(ds[n + 1]))
    requires Local(env, md, span, text, before, inside, after) && delta == Delta(span, text)
    requires MovedDirectives(Directives(text, Comments(env, text)), span.start) == [o, c]
    requires s == Spliced(md, span, text) && es == Directives(s, Comments(env, s))
    ensures es == Replaced(ds, n, o, c, delta)
  {
    SplicedDirectives(env, md, span, text, before, inside, after, delta);
    SpanHoldsTwo(md, ds, n, before, inside, after);
  }

  lemma NewRegion(
    env: Env, md: string, ds: seq<Directive>, k: nat, r: Region, text: string, o: Directive, c: Directive,
    delta: int, es: seq<Directive>, renewed: Region, j: nat)
    requires Setting(env, md, ds, k, r, text, o, c, delta, es) && 2 * j + 1 < |ds| && Opens(env, o.text)
    requires Closed(env, Spliced(md, r.span, text), PendingOf(env, o), c.start) == renewed
    ensures |es| == |ds|
    ensures RegionAt(env, Spliced(md, r.span, text), es, j) ==
            AfterReplacing(RegionAt(env, md, ds, j), j, k, renewed, delta)
  {
    ReplacedAt(ds, 2 * k, o, c, delta);
    if j < k {
      EarlierRegion(env, md, ds, k, r, text, o, c, delta, es, j);
    } else if k < j {
      LaterRegion(env, md, ds, k, r, text, o, c, delta, es, j);
    }
  }

  lemma NewRegions(
    env: Env, md: string, ds: seq<Directive>, k: nat, r: Region, text: string, o: Directive, c: Directive,
    delta: int, es: seq<Directive>, renewed: Region)
    requires Setting(env, md, ds, k, r, text, o, c, delta, es) && Opens(env, o.text)
    requires Closed(env, Spliced(md, r.span, text), PendingOf(env, o), c.start) == renewed
    ensures var was, now := Regions(env, md, ds), Regions(env, Spliced(md, r.span, text), es);
            |now| == |was| && forall j :: 0 <= j < |was| ==> now[j] == AfterReplacing(was[j], j, k, renewed, delta)
  {
    ReplacedAt(ds, 2 * k, o, c, delta);
    var was, now := Regions(env, md, ds), Regions(env, Spliced(md, r.span, text), es);
    forall j | 0 <= j < |was| ensures now[j] == AfterReplacing(was[j], j, k, renewed, delta) {
      NewRegion(env, md, ds, k, r, text, o, c, delta, es, renewed, j);
    }
  }

  lemma WhatWasParsed(env: Env, md: string, ds: seq<Directive>, k: nat, rs: seq<Region>)
    requires Ordered(md, TopHtml(env.parser(md))) && ds == Directives(md, Comments(env, md))
    requires Parsed(env, md) == Ok(rs) && k < |rs|
    ensures Ordered(md, Comments(env, md)) && Good(env, ds) && Placed(md, ds) && |ds| % 2 == 0 && 2 * k + 1 < |ds|
    ensures rs == Regions(env, md, ds)
    ensures rs[k] == RegionAt(env, md, ds, k) && rs[k].span == Range(ds[2 * k].start, EndOf(ds[2 * k + 1]))
  {
    TrimKeepsOrder(md, TopHtml(env.parser(md)));
    DirectivesPlaced(md, Comments(env, md));
    ParseMeans(env, md, ds);
    RegionFacts(env, md, ds, k);
  }

  lemma WhatParsesNow(
    env: Env, md: string, ds: seq<Directive>, k: nat, r: Region, text: string, o: Directive, c: Directive,
    delta: int, es: seq<Directive>, s: string, renewed: Region)
    requires Setting(env, md, ds, k, r, text, o, c, delta, es) && |ds| % 2 == 0 && Opens(env, o.text)
    requires s == Spliced(md, r.span, text) && es == Directives(s, Comments(env, s))
    requires Closed(env, s, PendingOf(env, o), c.start) == renewed
    ensures Parsed(env, s).Ok? && |Parsed(env, s).value| == |Regions(env, md, ds)|
    ensures forall j :: 0 <= j < |Regions(env, md, ds)| ==>
              Parsed(env, s).value[j] == AfterReplacing(Regions(env, md, ds)[j], j, k, renewed, delta)
  {
    ReplacedAt(ds, 2 * k, o, c, delta);
    ParseMeans(env, s, es);
    NewRegions(env, md, ds, k, r, text, o, c, delta, es, renewed);
  }

  /** Where region `k` was, and nothing else about the old parse. */
  lemma SpanOf(env: Env, md: string, ds: seq<Directive>, rs: seq<Region>, k: nat)
    requires Ordered(md, TopHtml(env.parser(md))) && ds == Directives(md, Comments(env, md))
    requires Parsed(env, md) == Ok(rs) && k < |rs|
    ensures Ordered(md, Comments(env, md)) && 2 * k + 1 < |ds|
    ensures rs[k].span == Range(ds[2 * k].start, EndOf(ds[2 * k + 1]))
  {
    WhatWasParsed(env, md, ds, k, rs);
  }

  lemma AtIndex(ds: seq<Directive>, k: nat, n: nat, span: Range)
    requires n == 2 * k && 2 * k + 1 < |ds| && span == Range(ds[2 * k].start, EndOf(ds[2 * k + 1]))
    ensures n + 1 < |ds| && span == Range(ds[n].start, EndOf(ds[n + 1]))
  {
  }

  lemma WhereItWas(env: Env, md: string, ds: seq<Directive>, rs: seq<Region>, k: nat, n: nat, span: Range)
    requires Ordered(md, TopHtml(env.parser(md))) && ds == Directives(md, Comments(env, md))
    requires Parsed(env, md) == Ok(rs) && k < |rs| && n == 2 * k && span == rs[k].span
    ensures Ordered(md, Comments(env, md)) && n + 1 < |ds| && span == Range(ds[n].start, EndOf(ds[n + 1]))
  {
    SpanOf(env, md, ds, rs, k);
    AtIndex(ds, k, n, span);
  }

  lemma WhatIsThereNow(
    env: Env, md: string, ds: seq<Directive>, rs: seq<Region>, k: nat, n: nat, span: Range, text: string,
    o: Directive, c: Directive, before: seq<Range>, inside: seq<Range>, after: seq<Range>,
    delta: int, s: string, es: seq<Directive>)
    requires Ordered(md, TopHtml(env.parser(md))) && ds == Directives(md, Comments(env, md))
    requires Parsed(env, md) == Ok(rs) && k < |rs| && n == 2 * k && span == rs[k].span
    requires Local(env, md, span, text, before, inside, after) && delta == Delta(span, text)
    requires MovedDirectives(Directives(text, Comments(env, text)), span.start) == [o, c]
    requires s == Spliced(md, span, text) && es == Directives(s, Comments(env, s))
    ensures n + 1 < |ds| && es == Replaced(ds, n, o, c, delta)
  {
    WhereItWas(env, md, ds, rs, k, n, span);
    NewDirectives(env, md, ds, n, span, text, o, c, before, inside, after, delta, s, es);
  }

  /** Replacing a region by any text that reads as one region of the same UUID. */
  lemma ReplaceByText(
    env: Env, md: string, rs: seq<Region>, k: nat, text: string, o: Directive, c: Directive, renewed: Region,
    before: seq<Range>, inside: seq<Range>, after: seq<Range>, s: string, delta: int)
    requires Ordered(md, TopHtml(env.parser(md))) && Parsed(env, md) == Ok(rs) && k < |rs|
    requires Local(env, md, rs[k].span, text, before, inside, after)
    requires s == Spliced(md, rs[k].span, text) && delta == Delta(rs[k].span, text)
    requires MovedDirectives(Directives(text, Comments(env, text)), rs[k].span.start) == [o, c]
    requires Opens(env, o.text) && Id(env, o) == env.uuid(rs[k].descriptor.id) && c.text == CLOSE
    requires Closed(env, s, PendingOf(env, o), c.start) == renewed
    ensures Parsed(env, s).Ok? && |Parsed(env, s).value| == |rs|
    ensures forall j :: 0 <= j < |rs| ==> Parsed(env, s).value[j] == AfterReplacing(rs[j], j, k, renewed, delta)
  {
    var ds, es := Directives(md, Comments(env, md)), Directives(s, Comments(env, s));
    WhatIsThereNow(env, md, ds, rs, k, 2 * k, rs[k].span, text, o, c, before, inside, after, delta, s, es);
    WhatWasParsed(env, md, ds, k, rs);
    SettingHolds(env, md, ds, k, rs[k], text, o, c, delta, es);
    WhatParsesNow(env, md, ds, k, rs[k], text, o, c, delta, es, s, renewed);
  }

  lemma TwoMoved(ds: seq<Directive>, header: string, end: int, at: int, c: Directive)
    requires ds == [Directive(0, header), Directive(end, c.text)] && c.start == at + end
    ensures MovedDirectives(ds, at) == [Directive(at, header), c]
  {
  }

  /** A formatted text, spliced in at `span`, reads as the fresh region. */
  lemma WrittenAt(
    env: Env, md: string, span: Range, id: string, selection: Selection, output: string, header: string,
    o: Directive, c: Directive, renewed: Region)
    requires Lawful(env) && FormatHeader(env, id, selection, output) == Ok(header) && InBounds(md, span)
    requires o == Directive(span.start, header) && c == Directive(span.start + EndStart(header, output), CLOSE)
    requires renewed == Fresh(env, id, selection, output, header, span.start)
    ensures Opens(env, o.text) && Id(env, o) == env.uuid(id)
    ensures Closed(env, Spliced(md, span, Whole(header, output)), PendingOf(env, o), c.start) == renewed
  {
    PayloadAt(md, span, header, output);
    FreshRegion(env, Spliced(md, span, Whole(header, output)), id, selection, output, header, span.start,
                o, c, renewed);
    FormattedHeaderOpens(env, id, selection, output);
  }

  /** Replacing region `k`: it reads back fresh, the others keep descriptor, payload and flag, in place or moved. */
  lemma ReplaceKeepsTheOthers(
    env: Env, md: string, rs: seq<Region>, k: nat, selection: Selection, output: string, header: string,
    before: seq<Range>, inside: seq<Range>, after: seq<Range>)
    requires Lawful(env) && Ordered(md, TopHtml(env.parser(md))) && Parsed(env, md) == Ok(rs) && k < |rs|
    requires FormatHeader(env, rs[k].descriptor.id, selection, output) == Ok(header)
    requires LeavesNothingOpen(env, header, output)
    requires Local(env, md, rs[k].span, Whole(header, output), before, inside, after)
    ensures var s, delta := Spliced(md, rs[k].span, Whole(header, output)), Delta(rs[k].span, Whole(header, output));
            var renewed := Fresh(env, rs[k].descriptor.id, selection, output, header, rs[k].span.start);
            && ReplaceRegion(env, md, rs[k], selection, output) == Ok(s)
            && Parsed(env, s).Ok? && |Parsed(env, s).value| == |rs|
            && forall j :: 0 <= j < |rs| ==> Parsed(env, s).value[j] == AfterReplacing(rs[j], j, k, renewed, delta)
  {
    var id, span, text := rs[k].descriptor.id, rs[k].span, Whole(header, output);
    var o, c := Directive(span.start, header), Directive(span.start + EndStart(header, output), CLOSE);
    var renewed := Fresh(env, id, selection, output, header, span.start);
    WrittenDirectives(env, id, selection, output, header);
    TwoMoved(Directives(text, Comments(env, text)), header, EndStart(header, output), span.start, c);
    WrittenAt(env, md, span, id, selection, output, header, o, c, renewed);
    ReplaceByText(env, md, rs, k, text, o, c, renewed, before, inside, after,
                  Spliced(md, span, text), Delta(span, text));
  }

  /** The payload of `a` in the page where `b`'s span has been replaced, when `a` lies on either side of it. */
  lemma PayloadsUntouched(md: string, a: Region, b: Region, text: string, delta: int)
    requires InBounds(md, b.span) && InBounds(md, a.payload) && delta == Delta(b.span, text)
    ensures a.payload.end <= b.span.start ==>
              Slice(Spliced(md, b.span, text), a.payload.start, a.payload.end) ==
              Slice(md, a.payload.start, a.payload.end)
    ensures b.span.end <= a.payload.start ==>
              Slice(Spliced(md, b.span, text), a.payload.start + delta, a.payload.end + delta) ==
              Slice(md, a.payload.start, a.payload.end)
  {
    if a.payload.end <= b.span.start {
      SlicesBefore(md, b.span, text, a.payload.start, a.payload.end);
    }
    if b.span.end <= a.payload.start {
      SliceAfter(md, b.span, text, delta, a);
    }
  }

  lemma PayloadMoved(md: string, a: Region, b: Region, j: nat, k: nat, text: string, renewed: Region)
    requires InBounds(md, b.span) && InBounds(md, a.payload) && j != k
    requires if j < k then a.payload.end <= b.span.start else b.span.end <= a.payload.start
    ensures var moved := AfterReplacing(a, j, k, renewed, Delta(b.span, text));
            Slice(Spliced(md, b.span, text), moved.payload.start, moved.payload.end) ==
            Slice(md, a.payload.start, a.payload.end)
  {
    PayloadsUntouched(md, a, b, text, Delta(b.span, text));
  }

  lemma PairOfRegions(env: Env, md: string, rs: seq<Region>, j: nat, k: nat)
    requires Ordered(md, TopHtml(env.parser(md))) && Parsed(env, md) == Ok(rs) && j < |rs| && k < |rs| && j != k
    ensures InBounds(md, rs[j].payload) && InBounds(md, rs[k].span)
    ensures if j < k then rs[j].payload.end <= rs[k].span.start else rs[k].span.end <= rs[j].payload.start
  {
    ParsedRegionsAreDisjoint(env, md);
    assert WellPlaced(env, md, rs[j]) && WellPlaced(env, md, rs[k]);
    assert j < k ==> Apart(env, rs[j], rs[k]);
    assert k < j ==> Apart(env, rs[k], rs[j]);
  }

  /** The payload text of every other region is untouched, whatever the new text. */
  lemma OtherPayloadsSurvive(env: Env, md: string, rs: seq<Region>, j: nat, k: nat, text: string, renewed: Region)
    requires Ordered(md, TopHtml(env.parser(md))) && Parsed(env, md) == Ok(rs) && j < |rs| && k < |rs| && j != k
    ensures InBounds(md, rs[k].span)
    ensures var moved := AfterReplacing(rs[j], j, k, renewed, Delta(rs[k].span, text));
            Slice(Spliced(md, rs[k].span, text), moved.payload.start, moved.payload.end) ==
            Slice(md, rs[j].payload.start, rs[j].payload.end)
  {
    PairOfRegions(env, md, rs, j, k);
    PayloadMoved(md, rs[j], rs[k], j, k, text, renewed);
  }
}
