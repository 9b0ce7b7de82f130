/**
 * What the written form of a region is, in the terms of its text alone: newlines, the literal markers, what the
 * header and the end marker look like and which error a document that does not parse is refused with.
 */
module RegionMeaning {
  import opened Common
  import opened GeneratedRegion
  import opened RegionRoundTrip

  // ---- Texts within texts ----

  ghost predicate Contains(s: string, t: string) {
    exists i :: At(s, i, t)
  }

  predicate At(s: string, i: int, t: string) {
    0 <= i && i + |t| <= |s| && s[i..i + |t|] == t
  }

  function Join(pieces: seq<string>, separator: string): string {
    if pieces == [] then ""
    else if |pieces| == 1 then pieces[0]
    else pieces[0] + separator + Join(pieces[1..], separator)
  }

  predicate AllNewlines(s: string) {
    forall i :: 0 <= i < |s| ==> s[i] == '\n'
  }

  // ---- Newlines ----

  predicate NoCrlf(s: string) {
    forall i :: 0 <= i < |s| - 1 ==> s[i] != '\r' || s[i + 1] != '\n'
  }

  lemma JoinFirst(c: char, pieces: seq<string>, separator: string)
    requires pieces != []
    ensures Join([[c] + pieces[0]] + pieces[1..], separator) == [c] + Join(pieces, separator)
  {
    var longer := [[c] + pieces[0]] + pieces[1..];
    assert longer[1..] == pieces[1..];
    if |pieces| > 1 {
      assert [c] + pieces[0] + separator + Join(pieces[1..], separator)
          == [c] + (pieces[0] + separator + Join(pieces[1..], separator));
    }
  }

  lemma JoinEmpty(pieces: seq<string>, separator: string)
    requires pieces != []
    ensures Join([""] + pieces, separator) == separator + Join(pieces, separator)
  {
    assert ([""] + pieces)[1..] == pieces;
    assert "" + separator == separator;
  }

  lemma JoinStarts(pieces: seq<string>, separator: string)
    requires pieces != []
    ensures pieces[0] <= Join(pieces, separator)
  {
  }

  /**
   * Rewriting newlines: cut the text at its CR LF pairs, so that no piece holds one, and join the pieces with LF
   * instead.
   */
  lemma {:induction false} NewlinesMean(s: string) returns (pieces: seq<string>)
    ensures pieces != [] && forall i :: 0 <= i < |pieces| ==> NoCrlf(pieces[i])
    ensures s == Join(pieces, "\r\n") && UnixNewlines(s) == Join(pieces, "\n")
    decreases |s|
  {
    if s == "" {
      pieces := [""];
    } else if |s| > 1 && s[0] == '\r' && s[1] == '\n' {
      var rest := NewlinesMean(s[2..]);
      JoinEmpty(rest, "\r\n");
      JoinEmpty(rest, "\n");
      assert s == "\r\n" + s[2..];
      pieces := [""] + rest;
    } else {
      var rest := NewlinesMean(s[1..]);
      JoinFirst(s[0], rest, "\r\n");
      JoinFirst(s[0], rest, "\n");
      JoinStarts(rest, "\r\n");
      assert s == [s[0]] + s[1..];
      var first := [s[0]] + rest[0];
      forall i | 0 <= i < |first| - 1 ensures first[i] != '\r' || first[i + 1] != '\n' {
        assert i == 0 ==> first[1] == s[1];
        assert i > 0 ==> first[i] == rest[0][i - 1];
      }
      pieces := [first] + rest[1..];
    }
  }

  lemma {:induction false} NoCarriageReturn(s: string)
    requires '\r' !in s
    ensures UnixNewlines(s) == s
    decreases |s|
  {
    if s != "" {
      NoCarriageReturn(s[1..]);
    }
  }

  /** Trimming takes newlines off both ends, all of them, and nothing else. */
  lemma {:induction false} TrimMeans(s: string) returns (before: string, after: string)
    ensures AllNewlines(before) && AllNewlines(after) && s == before + TrimNewlines(s) + after
    decreases |s|
  {
    before, after := "", "";
    if s != "" && s[0] == '\n' {
      before, after := TrimMeans(s[1..]);
      before := "\n" + before;
      assert s == ['\n'] + s[1..];
    } else if s != "" && s[|s| - 1] == '\n' {
      before, after := TrimMeans(s[..|s| - 1]);
      after := after + "\n";
      assert s == s[..|s| - 1] + ['\n'];
    }
  }

  lemma {:induction false} NothingToTrim(s: string)
    requires s != "" ==> s[0] != '\n' && s[|s| - 1] != '\n'
    ensures TrimNewlines(s) == s
  {
  }

  lemma NewlinesStep(s: string)
    requires s != ""
    ensures var u := UnixNewlines(s);
            && u != ""
            && (|s| > 1 && s[0] == '\r' && s[1] == '\n' ==> u == "\n" + UnixNewlines(s[2..]))
            && (!(|s| > 1 && s[0] == '\r' && s[1] == '\n') ==> u == [s[0]] + UnixNewlines(s[1..]))
            && (u[0] == '\n' <==> s[0] == '\n' || (|s| > 1 && s[0] == '\r' && s[1] == '\n'))
  {
  }

  lemma Longer(a: string, x: string, t: string, y: string)
    ensures a + (x + t + y) == (a + x) + t + y
  {
  }

  lemma CrCrlfInFront(s: string)
    requires s != "" && !(|s| > 1 && s[0] == '\r' && s[1] == '\n')
    requires |UnixNewlines(s)| > 1 && UnixNewlines(s)[0] == '\r' && UnixNewlines(s)[1] == '\n'
    ensures |s| >= 3 && s == "\r\r\n" + s[3..] && UnixNewlines(s[3..]) == UnixNewlines(s)[2..]
  {
    var t := s[1..];
    NewlinesStep(s);
    NewlinesStep(t);
    assert t[0] == s[1] && UnixNewlines(s)[1] == UnixNewlines(t)[0];
    assert t[1] == s[2] && t[2..] == s[3..];
  }

  /** A CR LF left by the rewriting comes from a CR CR LF, and what follows it is rewritten on its own. */
  lemma {:induction false} CrlfComesFromCrCrlf(s: string, k: nat) returns (x: string, y: string)
    requires k + 1 < |UnixNewlines(s)| && UnixNewlines(s)[k] == '\r' && UnixNewlines(s)[k + 1] == '\n'
    ensures s == x + "\r\r\n" + y && UnixNewlines(y) == UnixNewlines(s)[k + 2..]
    decreases |s|
  {
    NewlinesStep(s);
    var n := if |s| > 1 && s[0] == '\r' && s[1] == '\n' then 2 else 1;
    if n == 1 && k == 0 {
      CrCrlfInFront(s);
      x, y := "", s[3..];
    } else {
      x, y := CrlfComesFromCrCrlf(s[n..], k - 1);
      Longer(s[..n], x, "\r\r\n", y);
      assert s == s[..n] + s[n..];
      x := s[..n] + x;
    }
  }

  lemma {:induction false} CrCrlfBecomesCrlf(x: string, y: string)
    ensures UnixNewlines(x + "\r\r\n" + y) == UnixNewlines(x) + "\r\n" + UnixNewlines(y)
    decreases |x|
  {
    var s := x + "\r\r\n" + y;
    if x == "" {
      assert s[1..][2..] == y && s[0] == '\r' && s[1] == '\r' && s[2] == '\n';
      assert UnixNewlines(s[1..]) == "\n" + UnixNewlines(y);
      assert UnixNewlines(s) == "\r" + UnixNewlines(s[1..]);
    } else if |x| > 1 && x[0] == '\r' && x[1] == '\n' {
      assert s[2..] == x[2..] + "\r\r\n" + y;
      CrCrlfBecomesCrlf(x[2..], y);
    } else {
      assert s[1..] == x[1..] + "\r\r\n" + y;
      CrCrlfBecomesCrlf(x[1..], y);
    }
  }

  /** What is not a newline is in the trimmed part. */
  lemma InsideTrim(before: string, b: string, after: string, u: string, k: nat)
    requires u == before + b + after && AllNewlines(before) && AllNewlines(after) && k < |u| && u[k] != '\n'
    ensures |before| <= k < |before| + |b| && b[k - |before|] == u[k]
  {
  }

  lemma CrlfInBodyHasMoreAfter(output: string, u: string, b: string, before: string, after: string)
    requires u == UnixNewlines(output) && u == before + b + after && !NoCrlf(b) && b[|b| - 1] != '\n'
    ensures exists x, y :: output == x + "\r\r\n" + y && !AllNewlines(UnixNewlines(y))
  {
    var i :| 0 <= i < |b| - 1 && b[i] == '\r' && b[i + 1] == '\n';
    var k, last := |before| + i, |before| + |b| - 1;
    assert u[k] == b[i] && u[k + 1] == b[i + 1] && u[last] == b[|b| - 1];
    var x, y := CrlfComesFromCrCrlf(output, k);
    assert u[k + 2..][last - k - 2] == u[last];
  }

  lemma CrlfStaysInBody(u: string, b: string, before: string, after: string, left: string, right: string)
    requires u == before + b + after && AllNewlines(before) && AllNewlines(after)
    requires u == left + "\r\n" + right && !AllNewlines(right)
    ensures !NoCrlf(b)
  {
    var j :| 0 <= j < |right| && right[j] != '\n';
    var k := |left|;
    assert u[k] == '\r' && u[k + 1] == '\n' && u[k + 2 + j] == right[j];
    InsideTrim(before, b, after, u, k);
    InsideTrim(before, b, after, u, k + 2 + j);
    assert b[k + 1 - |before|] == u[k + 1];
  }

  /**
   * Does the body hold a CR LF after all? Exactly when the output has a CR CR LF with more than newlines after it:
   * the rewriting takes each pair once and does not look at its own result.
   */
  lemma BodyHoldsCrlfExactly(output: string)
    ensures !NoCrlf(Body(output)) <==>
            exists x, y :: output == x + "\r\r\n" + y && !AllNewlines(UnixNewlines(y))
  {
    var u, b := UnixNewlines(output), Body(output);
    var before, after := TrimMeans(u);
    if !NoCrlf(b) {
      CrlfInBodyHasMoreAfter(output, u, b, before, after);
    }
    if x, y :| output == x + "\r\r\n" + y && !AllNewlines(UnixNewlines(y)) {
      CrCrlfBecomesCrlf(x, y);
      CrlfStaysInBody(u, b, before, after, UnixNewlines(x), UnixNewlines(y));
    }
  }

  /** An output with plain newlines and none at its ends is the body as it stands. */
  lemma PlainOutputIsKept(output: string)
    requires '\r' !in output && (output != "" ==> output[0] != '\n' && output[|output| - 1] != '\n')
    ensures Payload(output) == "\n\n" + output + "\n\n"
  {
    NoCarriageReturn(output);
    NothingToTrim(output);
  }

  // ---- Directives ----

  /** The first `-->` of the text is at `i`. */
  ghost predicate EndsAt(text: string, i: int) {
    At(text, i, "-->") && forall j :: j < i ==> !At(text, j, "-->")
  }

  lemma TerminatorIsText(s: string, i: nat)
    requires i <= |s|
    ensures StartsTerminator(s[i..]) <==> At(s, i, "-->")
  {
    if i + 3 <= |s| {
      var t := s[i..i + 3];
      assert t[0] == s[i] && t[1] == s[i + 1] && t[2] == s[i + 2];
      assert t == "-->" <==> t[0] == '-' && t[1] == '-' && t[2] == '>';
    }
  }

  lemma TerminatorMeans(s: string)
    ensures FindTerminator(s).None? <==> !Contains(s, "-->")
    ensures FindTerminator(s).Some? ==> EndsAt(s, FindTerminator(s).value)
  {
    forall i: int ensures At(s, i, "-->") ==> FindTerminator(s).Some? && FindTerminator(s).value <= i {
      if At(s, i, "-->") {
        TerminatorIsText(s, i);
        FindTerminatorMeans(s, i);
      }
    }
    if FindTerminator(s).Some? {
      FindTerminatorMeans(s, FindTerminator(s).value);
      TerminatorIsText(s, FindTerminator(s).value);
    }
  }

  /** A comment of the two kinds, with nothing but white space after its end. */
  ghost predicate MarkerComment(text: string) {
    && ("<!-- clep:generated" <= text || "<!-- /clep:generated" <= text)
    && forall i, k :: EndsAt(text, i) && i + 3 <= k < |text| ==> IsSpace(text[k])
  }

  lemma DirectiveMeans(text: string)
    ensures IsDirective(text) <==> MarkerComment(text)
  {
    TerminatorMeans(text);
    var end := FindTerminator(text);
    if end.Some? {
      var rest := text[end.value + 3..];
      assert forall k :: end.value + 3 <= k < |text| ==> text[k] == rest[k - end.value - 3];
      assert EndsAt(text, end.value);
      assert forall i :: EndsAt(text, i) ==> i == end.value;
    }
  }

  /** The characters of Unicode that are white space, by their codes. */
  lemma SpacesMean(c: char)
    ensures IsSpace(c) <==>
            c as int in {0x9, 0xA, 0xB, 0xC, 0xD, 0x20, 0x85, 0xA0, 0x1680, 0x2000, 0x2001, 0x2002, 0x2003, 0x2004,
                         0x2005, 0x2006, 0x2007, 0x2008, 0x2009, 0x200A, 0x2028, 0x2029, 0x202F, 0x205F, 0x3000}
  {
  }

  /** A block reads as its text without the white space around it. */
  lemma TrimmedMeans(md: string, t: Range)
    requires InBounds(md, t)
    ensures var r := Trim(md, t);
            && t.start <= r.start <= r.end <= t.end && Blank(md[t.start..r.start]) && Blank(md[r.end..t.end])
            && (r.start < r.end ==> !IsSpace(md[r.start]) && !IsSpace(md[r.end - 1]))
  {
  }

  // ---- The written form ----

  /** Some top-level HTML block of the output is a directive. */
  ghost predicate HoldsDirective(env: Env, output: string) {
    exists i :: 0 <= i < |TopHtml(env.parser(output))| && BlockIsDirective(output, TopHtml(env.parser(output))[i])
  }

  ghost predicate BlockIsDirective(output: string, t: Range) {
    MarkerComment(Slice(output, Trim(output, t).start, Trim(output, t).end))
  }

  lemma InertMeans(env: Env, output: string)
    ensures Inert(env, output) <==> !HoldsDirective(env, output)
  {
    var ts := TopHtml(env.parser(output));
    forall i | 0 <= i < |ts| ensures IsDirective(Texts(env, output)[i]) <==> BlockIsDirective(output, ts[i]) {
      DirectiveMeans(Texts(env, output)[i]);
    }
  }

  ghost predicate Bare(s: string) {
    s != "" ==> s[0] != '\n' && s[|s| - 1] != '\n'
  }

  /** `b` is `u` without the newlines at its ends. */
  ghost predicate Unwrapped(u: string, b: string) {
    Bare(b) && exists before, after :: AllNewlines(before) && AllNewlines(after) && u == before + b + after
  }

  lemma UnwrappedStarts(u: string, b: string, before: string, after: string, b': string, before': string,
                        after': string)
    requires Bare(b) && Bare(b') && b != ""
    requires AllNewlines(before) && AllNewlines(after) && u == before + b + after
    requires AllNewlines(before') && AllNewlines(after') && u == before' + b' + after'
    ensures |before'| <= |before| && |before| + |b| <= |before'| + |b'|
  {
    assert u[|before|] == b[0] && u[|before| + |b| - 1] == b[|b| - 1];
    InsideTrim(before', b', after', u, |before|);
    InsideTrim(before', b', after', u, |before| + |b| - 1);
  }

  lemma UnwrappedIsUnique(u: string, b: string, b': string)
    requires Unwrapped(u, b) && Unwrapped(u, b')
    ensures b == b'
  {
    var before, after :| AllNewlines(before) && AllNewlines(after) && u == before + b + after;
    var before', after' :| AllNewlines(before') && AllNewlines(after') && u == before' + b' + after';
    if b != "" {
      UnwrappedStarts(u, b, before, after, b', before', after');
    }
    if b' != "" {
      UnwrappedStarts(u, b', before', after', b, before, after);
    }
    assert b == u[|before|..|before| + |b|] && b' == u[|before'|..|before'| + |b'|];
  }

  lemma BodyIsUnwrapped(output: string)
    ensures Unwrapped(UnixNewlines(output), Body(output))
  {
    var before, after := TrimMeans(UnixNewlines(output));
  }

  /** What a region over the body `b` declares: version one, and the digest of the body between two blank lines. */
  function Declared(env: Env, id: string, selection: Selection, b: string): Descriptor {
    Descriptor(1, id, selection, "blake3:" + env.digest("\n\n" + b + "\n\n"))
  }

  /** The whole text of a region. */
  function RegionText(config: string, b: string): string {
    "<!-- clep:generated\n" + config + "-->" + ("\n\n" + b + "\n\n") + "<!-- /clep:generated -->"
  }

  lemma FormatIsRegionText(env: Env, id: string, selection: Selection, output: string, config: string)
    requires FormatHeader(env, id, selection, output) == Ok(HeaderText(config))
    ensures FormatRegion(env, id, selection, output) == Ok(RegionText(config, Body(output)))
  {
    assert OPEN + "\n" == "<!-- clep:generated\n";
  }

  /**
   * `format_region` from the outside. With `b` the output, its CR LF pairs read as LF, less the newlines at its
   * ends: it refuses an output with a directive, then an id that is no UUID, then a declaration that cannot be
   * written or holds `-->`; otherwise it writes the declaration, a blank line, `b`, a blank line and the end marker.
   */
  lemma FormatMeans(env: Env, id: string, selection: Selection, output: string, b: string)
    requires Unwrapped(UnixNewlines(output), b)
    ensures var r, config := FormatRegion(env, id, selection, output), env.encode(Declared(env, id, selection, b));
            && (r == Err(DirectiveInOutput) <==> HoldsDirective(env, output))
            && (r == Err(InvalidUuid) <==> !HoldsDirective(env, output) && env.uuid(id).None?)
            && (r == Err(NotSerializable) <==>
                !HoldsDirective(env, output) && env.uuid(id).Some? && config.None?)
            && (r == Err(TerminatorInConfiguration) <==>
                !HoldsDirective(env, output) && env.uuid(id).Some? && config.Some? && Contains(config.value, "-->"))
            && (!HoldsDirective(env, output) && env.uuid(id).Some? && config.Some? && !Contains(config.value, "-->") ==>
                  r == Ok(RegionText(config.value, b)))
  {
    BodyIsUnwrapped(output);
    UnwrappedIsUnique(UnixNewlines(output), b, Body(output));
    InertMeans(env, output);
    var config := env.encode(Declared(env, id, selection, b));
    if config.Some? {
      TerminatorMeans(config.value);
      if FormatHeader(env, id, selection, output).Ok? {
        FormatIsRegionText(env, id, selection, output, config.value);
      }
    }
  }

  // ---- Which error ----

  /** Reading a header, by what stands between the opening and the first `-->`. */
  lemma HeaderMeans(env: Env, text: string, content: string, rest: string)
    requires text == "<!-- clep:generated" + content + "-->" + rest && !Contains(content, "-->")
    ensures OPEN <= text
    ensures var r, table := ReadHeader(env, text), env.decode(content);
            var onNewLine := "\n" <= content || "\r\n" <= content;
            && (r == Err(ConfigurationOnTheSameLine) <==> !onNewLine)
            && (r == Err(UnknownField) <==>
                onNewLine && table.Some? && exists k :: k in table.value.keys && k.OtherKey?)
            && (r == Err(InvalidHeader) <==>
                onNewLine && (table.None? || (table.value.descriptor.None? && KnownKeys(table.value.keys))))
            && (onNewLine && table.Some? && KnownKeys(table.value.keys) && table.value.descriptor.Some? ==>
                  var d := table.value.descriptor.value;
                  && (r == Err(UnsupportedVersion) <==> d.version != 1)
                  && (r == Err(InvalidUuid) <==> d.version == 1 && env.uuid(d.id).None?)
                  && (d.version == 1 && env.uuid(d.id).Some? ==>
                        r == Ok(Header(d, env.uuid(d.id).value, 19 + |content|))))
  {
    TerminatorMeans(text);
    ContentEnds(content, rest, text);
    assert text[19..19 + |content|] == content;
  }

  /** A `-->` before the one after the content lies within the content. */
  lemma EarlierEndIsInside(open: string, content: string, rest: string, text: string, j: int)
    requires text == open + content + "-->" + rest && '>' !in open && open != "" && open[|open| - 1] != '-'
    requires At(text, j, "-->") && j < |open| + |content|
    ensures At(content, j - |open|, "-->")
  {
    var here := text[j..j + 3];
    assert here[0] == text[j] && here[1] == text[j + 1] && here[2] == text[j + 2];
    var n := |open| + |content|;
    assert text[n] == '-' && text[n + 1] == '-';
    assert forall i :: 0 <= i < |open| ==> text[i] == open[i];
    assert content[j - |open|..j - |open| + 3] == here;
  }

  lemma ContentEnds(content: string, rest: string, text: string)
    requires text == "<!-- clep:generated" + content + "-->" + rest && !Contains(content, "-->")
    ensures EndsAt(text, 19 + |content|)
  {
    var open := "<!-- clep:generated";
    assert |open| == 19 && '>' !in open && open[18] == 'd';
    forall j | j < 19 + |content| && At(text, j, "-->") ensures Contains(content, "-->") {
      EarlierEndIsInside(open, content, rest, text, j);
    }
    assert text[19 + |content|..19 + |content| + 3] == "-->";
  }

  /** A fingerprint: `blake3:` and 64 digits out of `0123456789abcdef`, in this order of checks. */
  lemma FingerprintMeans(hash: string)
    ensures CheckFingerprint(hash) == Some(UnsupportedFingerprint) <==> !(|hash| >= 7 && hash[..7] == "blake3:")
    ensures CheckFingerprint(hash) == None <==>
            |hash| == 71 && hash[..7] == "blake3:" && forall i :: 7 <= i < 71 ==> hash[i] in "0123456789abcdef"
    ensures CheckFingerprint(hash) in {None, Some(UnsupportedFingerprint), Some(InvalidFingerprint)}
  {
    if |hash| >= 7 && hash[..7] == "blake3:" {
      var digest := hash[7..];
      assert forall i :: 7 <= i < |hash| ==> hash[i] == digest[i - 7];
      forall i | 0 <= i < |digest| ensures LowerHex(digest[i]) <==> digest[i] in "0123456789abcdef" {
        HexDigitMeans(digest[i]);
      }
      assert IsDigest(digest) <==> |digest| == 64 && forall i :: 7 <= i < |hash| ==> LowerHex(hash[i]);
    }
  }

  lemma HexDigitMeans(c: char)
    ensures LowerHex(c) <==> c in "0123456789abcdef"
  {
    var digits := "0123456789abcdef";
    if '0' <= c <= '9' {
      assert digits[c as int - 48] == c;
    }
    if 'a' <= c <= 'f' {
      assert digits[c as int - 87] == c;
    }
  }

  // ---- Documents that do not parse ----

  lemma {:induction false} ErrorsStay(env: Env, md: string, ds: seq<Directive>, n: nat)
    requires AllDirectives(ds) && n <= |ds| && Run(env, md, ds[..n]).Err?
    ensures Run(env, md, ds) == Run(env, md, ds[..n])
    decreases |ds|
  {
    if n < |ds| {
      assert ds[..|ds| - 1][..n] == ds[..n];
      ErrorsStay(env, md, ds[..|ds| - 1], n);
    } else {
      assert ds[..n] == ds;
    }
  }

  /** A document that does not parse stops at a first wrong directive, or ends inside a region. */
  lemma {:induction false} FirstWrong(env: Env, ds: seq<Directive>) returns (n: nat)
    requires !Good(env, ds)
    ensures n < |ds| && Good(env, ds[..n]) && !Good(env, ds[..n + 1])
  {
    n := |ds| - 1;
    if Good(env, ds[..n]) {
      assert ds[..n + 1] == ds;
    } else {
      n := FirstWrong(env, ds[..|ds| - 1]);
      assert ds[..|ds| - 1][..n] == ds[..n] && ds[..|ds| - 1][..n + 1] == ds[..n + 1];
    }
  }

  /** A header before has that UUID. */
  ghost predicate Used(env: Env, front: seq<Directive>, id: nat) {
    exists i :: 0 <= i < |front| && i % 2 == 0 && Id(env, front[i]) == Some(id)
  }

  lemma StepErrors(env: Env, md: string, front: seq<Directive>, d: Directive)
    requires Good(env, front) && IsDirective(d.text) && !Good(env, front + [d])
    ensures var r := Step(env, md, StateOf(env, md, front), d);
            var open := "<!-- clep:generated" <= d.text;
            && (|front| % 2 == 1 && open ==> r == Err(NestedRegion))
            && (!open && d.text != "<!-- /clep:generated -->" ==> r == Err(InvalidEndMarker))
            && (|front| % 2 == 0 && d.text == "<!-- /clep:generated -->" ==> r == Err(EndWithoutHeader))
            && (|front| % 2 == 0 && open ==>
                  var h := ReadHeader(env, d.text);
                  && (h.Err? ==> r == Err(h.error))
                  && (h.Ok? ==>
                        var used := Used(env, front, h.value.uuid);
                        && (r == Err(DuplicateUuid) <==> used)
                        && (r == Err(UnsupportedFingerprint) <==>
                            !used && !("blake3:" <= h.value.descriptor.outputHash))
                        && (r == Err(InvalidFingerprint) <==> !used && "blake3:" <= h.value.descriptor.outputHash)))
  {
    KindsAreApart(d.text);
    if |front| % 2 == 0 && "<!-- clep:generated" <= d.text && ReadHeader(env, d.text).Ok? {
      IdsMember(env, front, ReadHeader(env, d.text).value.uuid);
      GoodExtend(env, front, d);
    }
  }

  lemma StopsAt(env: Env, md: string, ds: seq<Directive>, front: seq<Directive>, d: Directive)
    requires AllDirectives(ds) && |front| < |ds| && ds[..|front| + 1] == front + [d]
    requires Good(env, front) && !Good(env, front + [d])
    ensures IsDirective(d.text) && Run(env, md, ds).Err?
    ensures Run(env, md, ds) == Step(env, md, StateOf(env, md, front), d)
  {
    var both := front + [d];
    assert both[|front|] == ds[|front|] && both[..|both| - 1] == front;
    assert AllDirectives(front) && AllDirectives(both);
    RunMeans(env, md, front);
    RunMeans(env, md, both);
    ErrorsStay(env, md, ds, |both|);
  }

  /**
   * A document whose directives are not well-formed is refused for the first wrong one: a header inside a region, a
   * broken end marker, an end marker outside a region, a header that does not read, a UUID already used, or a
   * fingerprint that is not `blake3:` and a digest.
   */
  lemma ParseRefuses(env: Env, md: string, ds: seq<Directive>, front: seq<Directive>, d: Directive)
    requires ds == Directives(md, Comments(env, md)) && |front| < |ds| && ds[..|front| + 1] == front + [d]
    requires Good(env, front) && !Good(env, front + [d])
    ensures IsDirective(d.text) && Parsed(env, md).Err? && Step(env, md, StateOf(env, md, front), d).Err?
    ensures Parsed(env, md).error == Step(env, md, StateOf(env, md, front), d).error
  {
    DirectivesAreDirectives(md, Comments(env, md));
    StopsAt(env, md, ds, front, d);
  }

  /** A well-formed one that ends inside a region is refused for the missing end marker, and only such a one. */
  lemma ParseMissesTheEnd(env: Env, md: string, ds: seq<Directive>)
    requires ds == Directives(md, Comments(env, md)) && Good(env, ds)
    ensures Parsed(env, md) == Err(MissingEndMarker) <==> |ds| % 2 == 1
    ensures |ds| % 2 == 0 ==> Parsed(env, md).Ok?
  {
    DirectivesAreDirectives(md, Comments(env, md));
    RunMeans(env, md, ds);
  }
}
