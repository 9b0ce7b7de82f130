/**
 * The definitions of the image rewriter on the images people write, byte by byte in ASCII: which byte is escaped,
 * where a label ends, what a destination is in each of its forms, and what the rewrite makes of the whole image.
 */
module ImageShapes {
  import opened Common
  import opened Escapes
  import opened ImageRewrite
  import ImageLabels

  // ---- Escapes ----

  /** A byte is escaped exactly when an odd number of backslashes stands before it. */
  lemma {:induction false} EscapedMeans(b: seq<byte>, lo: nat, i: nat, n: nat)
    requires lo + n <= i <= |b| && forall j :: i - n <= j < i ==> b[j] == 92
    requires i - n == lo || b[i - n - 1] != 92
    ensures EscapedFrom(b, lo, i) <==> n % 2 == 1
    decreases n
  {
    if n > 0 {
      EscapedMeans(b, lo, i - 1, n - 1);
    }
  }

  /** After a byte that is no backslash nothing is escaped. */
  lemma NotEscaped(b: seq<byte>, lo: nat, i: nat)
    requires lo <= i <= |b| && (i == lo || b[i - 1] != 92)
    ensures !EscapedFrom(b, lo, i)
  {
    EscapedMeans(b, lo, i, 0);
  }

  // ---- Labels ----

  /** No bracket and no backslash. */
  predicate PlainLabel(alt: seq<byte>) {
    forall i :: 0 <= i < |alt| ==> alt[i] != 91 && alt[i] != 92 && alt[i] != 93
  }

  function Label(alt: seq<byte>, after: seq<byte>): seq<byte> {
    [33, 91] + alt + [93] + after
  }

  lemma LabelBytes(alt: seq<byte>, after: seq<byte>, i: nat)
    requires PlainLabel(alt) && i < |alt| + 3
    ensures var b := Label(alt, after);
            && (i == 0 ==> b[i] == 33) && (i == 1 ==> b[i] == 91) && (i == |alt| + 2 ==> b[i] == 93)
            && (2 <= i < |alt| + 2 ==> b[i] == alt[i - 2] && b[i] != 91 && b[i] != 92 && b[i] != 93)
  {
  }

  lemma LabelWeight(alt: seq<byte>, after: seq<byte>, i: nat)
    requires PlainLabel(alt) && 1 <= i < |alt| + 3
    ensures ImageLabels.Weight(Label(alt, after), i) == if i == 1 then 1 else if i == |alt| + 2 then -1 else 0
  {
    LabelBytes(alt, after, i);
    LabelBytes(alt, after, i - 1);
    NotEscaped(Label(alt, after), 0, i);
  }

  lemma {:induction false} LabelBalance(alt: seq<byte>, after: seq<byte>, k: nat)
    requires PlainLabel(alt) && 2 <= k <= |alt| + 3
    ensures ImageLabels.Balance(Label(alt, after), 1, k) == if k == |alt| + 3 then 0 else 1
  {
    LabelWeight(alt, after, k - 1);
    if k > 2 {
      LabelBalance(alt, after, k - 1);
    } else {
      assert ImageLabels.Balance(Label(alt, after), 1, 1) == 0;
    }
  }

  /** The label of `![alt]` ends at its `]`. */
  lemma LabelEnds(alt: seq<byte>, after: seq<byte>)
    requires PlainLabel(alt)
    ensures ImageLabels.IsLabelEnd(Label(alt, after), 0, |alt| + 2)
  {
    LabelWeight(alt, after, |alt| + 2);
    LabelBalance(alt, after, |alt| + 3);
    forall j | 1 < j < |alt| + 2 ensures !ImageLabels.Closes(Label(alt, after), 0, j) {
      LabelWeight(alt, after, j);
    }
  }

  // ---- Destinations ----

  predicate Space(x: byte) {
    x == 9 || x == 10 || x == 12 || x == 13 || x == 32
  }

  lemma SpacesMean(x: byte)
    ensures IsSpace(x) <==> Space(x)
  {
  }

  /** An address without parentheses, backslashes or white space that does not start with `<`. */
  predicate PlainUrl(url: seq<byte>) {
    && (forall i :: 0 <= i < |url| ==> url[i] != 40 && url[i] != 41 && url[i] != 92 && !Space(url[i]))
    && (url != [] ==> url[0] != 60)
  }

  lemma NoSpaceToSkip(b: seq<byte>, i: nat)
    requires i <= |b| && (i < |b| ==> !Space(b[i]))
    ensures SkipSpace(b, i) == i
  {
  }

  lemma {:induction false} FlatNesting(b: seq<byte>, lo: nat, i: nat)
    requires lo <= i <= |b| && forall j :: lo <= j < i ==> b[j] != 40 && b[j] != 41
    ensures Nesting(b, lo, i) == 0
  {
    if i > lo {
      FlatNesting(b, lo, i - 1);
    }
  }

  /** Nothing in a plain stretch stops a bare destination, and the first `)` or white space after it does. */
  lemma BareStops(b: seq<byte>, lo: nat, hi: nat)
    requires lo <= hi < |b| && (b[hi] == 41 || Space(b[hi]))
    requires forall j :: lo <= j < hi ==> b[j] != 40 && b[j] != 41 && b[j] != 92 && !Space(b[j])
    ensures StopsBare(b, lo, hi) && forall j :: lo <= j < hi ==> !StopsBare(b, lo, j)
  {
    FlatNesting(b, lo, hi);
    NotEscaped(b, lo, hi);
  }

  lemma AngleStops(b: seq<byte>, lo: nat, hi: nat)
    requires lo <= hi < |b| && b[hi] == 62 && forall j :: lo <= j < hi ==> b[j] != 62 && b[j] != 92
    ensures StopsAngle(b, lo, hi) && forall j :: lo <= j < hi ==> !StopsAngle(b, lo, j)
  {
    NotEscaped(b, lo, hi);
  }

  lemma LastParenthesis(b: seq<byte>, i: nat)
    requires i + 1 == |b| && b[i] == 41
    ensures SuffixOk(b, i)
  {
    NoSpaceToSkip(b, i);
  }

  /** `(url)` */
  lemma BareDestination(url: seq<byte>)
    requires PlainUrl(url)
    ensures ValidDestination([40] + url + [41], 0, 1, 1 + |url|)
  {
    var b := [40] + url + [41];
    assert forall i :: 0 <= i < |url| ==> b[i + 1] == url[i];
    NoSpaceToSkip(b, 1);
    BareStops(b, 1, 1 + |url|);
    LastParenthesis(b, 1 + |url|);
    assert IsDestination(b, 0, 1, 1 + |url|, 1 + |url|);
  }

  /** `(<url>)`, where the address may hold anything but `>` and backslashes. */
  lemma AngleDestination(url: seq<byte>)
    requires 62 !in url && 92 !in url
    ensures ValidDestination([40, 60] + url + [62, 41], 0, 2, 2 + |url|)
  {
    var b := [40, 60] + url + [62, 41];
    assert b[0] == 40 && b[1] == 60 && b[|url| + 2] == 62 && b[|url| + 3] == 41;
    assert forall i :: 2 <= i < |url| + 2 ==> b[i] == url[i - 2];
    NoSpaceToSkip(b, 1);
    AngleStops(b, 2, 2 + |url|);
    LastParenthesis(b, 3 + |url|);
    assert IsDestination(b, 0, 2, 2 + |url|, 3 + |url|);
  }

  /** The delimiters of a title: `"…"`, `'…'` and `(…)`. */
  predicate Delimiters(open: byte, close: byte) {
    (open == 34 && close == 34) || (open == 39 && close == 39) || (open == 40 && close == 41)
  }

  predicate PlainTitle(title: seq<byte>, open: byte, close: byte) {
    forall i :: 0 <= i < |title| ==> title[i] != 92 && title[i] != open && title[i] != close
  }

  lemma TitleStops(b: seq<byte>, open: byte, close: byte, lo: nat, e: nat)
    requires Delimiters(open, close) && lo <= e < |b| && b[e] == close
    requires forall j :: lo <= j < e ==> b[j] != 92 && b[j] != open && b[j] != close
    ensures TitleEnds(b, open, lo, e)
  {
    NotEscaped(b, lo, e);
    if open == 40 {
      FlatNesting(b, lo, e);
    }
  }

  lemma TitledSuffix(b: seq<byte>, at: nat, e: nat, open: byte, close: byte)
    requires at + 1 < |b| && Space(b[at]) && b[at + 1] == open && Delimiters(open, close)
    requires at + 2 <= e && e + 2 == |b| && b[e] == close && b[e + 1] == 41
    requires forall j :: at + 2 <= j < e ==> b[j] != 92 && b[j] != open && b[j] != close
    ensures SuffixOk(b, at)
  {
    NoSpaceToSkip(b, at + 1);
    assert SkipSpace(b, at) == at + 1;
    TitleStops(b, open, close, at + 2, e);
    NoSpaceToSkip(b, e + 1);
    assert TitledUntil(b, at + 1, e);
  }

  /** `(url "title")`, with any white space byte and any of the three delimiters. */
  lemma TitledDestination(url: seq<byte>, space: byte, open: byte, title: seq<byte>, close: byte)
    requires PlainUrl(url) && Space(space) && Delimiters(open, close) && PlainTitle(title, open, close) && url != []
    ensures ValidDestination([40] + url + [space, open] + title + [close, 41], 0, 1, 1 + |url|)
  {
    var b := [40] + url + [space, open] + title + [close, 41];
    var n := |url|;
    assert b[0] == 40 && b[n + 1] == space && b[n + 2] == open;
    assert forall i :: 1 <= i < n + 1 ==> b[i] == url[i - 1];
    assert forall i :: n + 3 <= i < n + 3 + |title| ==> b[i] == title[i - n - 3];
    assert b[n + 3 + |title|] == close && b[n + 4 + |title|] == 41;
    NoSpaceToSkip(b, 1);
    BareStops(b, 1, 1 + n);
    TitledSuffix(b, 1 + n, n + 3 + |title|, open, close);
    assert IsDestination(b, 0, 1, 1 + n, 1 + n);
  }

  // ---- A whole image ----

  /** `![alt](url)` */
  function Image(alt: seq<byte>, url: seq<byte>): seq<byte> {
    [33, 91] + alt + [93] + ([40] + url + [41])
  }

  /** The rewrite turns `![alt](url)` into `![alt](cas:hash)`. */
  lemma ImageIsRewritten(alt: seq<byte>, url: seq<byte>, hash: seq<byte>)
    requires PlainLabel(alt) && PlainUrl(url)
    ensures var b := Image(alt, url);
            var c := ImageLabels.Candidate(0, |b|, Some(|alt| + 2));
            var e := Edit(|alt| + 4, |alt| + 4 + |url|, [99, 97, 115, 58] + hash);
            && ImageLabels.WellPlaced(b, c.(labelEnd := None)) && ImageLabels.Answered(b, c) && Replaces(b, c, hash, e)
            && Spliceable([e], 0, |b|) && Spliced(b, [e], 0) == Image(alt, [99, 97, 115, 58] + hash)
  {
    LabelEnds(alt, [40] + url + [41]);
    DestinationInPlace(alt, url);
    var b := Image(alt, url);
    var e := Edit(|alt| + 4, |alt| + 4 + |url|, [99, 97, 115, 58] + hash);
    assert b[0..|b|] == b;
    assert Locates(b, |alt| + 3, 0, e);
    assert [e][1..] == [];
    assert b[0..e.start] == [33, 91] + alt + [93] + [40] && b[e.end..] == [41];
  }

  lemma DestinationInPlace(alt: seq<byte>, url: seq<byte>)
    requires PlainUrl(url)
    ensures ValidDestination(Image(alt, url), |alt| + 3, |alt| + 4, |alt| + 4 + |url|)
  {
    var b, n := Image(alt, url), |alt| + 3;
    assert b[n] == 40 && b[n + 1 + |url|] == 41;
    assert forall i :: n + 1 <= i < n + 1 + |url| ==> b[i] == url[i - n - 1];
    NoSpaceToSkip(b, n + 1);
    BareStops(b, n + 1, n + 1 + |url|);
    LastParenthesis(b, n + 1 + |url|);
    assert IsDestination(b, n, n + 1, n + 1 + |url|, n + 1 + |url|);
  }
}
