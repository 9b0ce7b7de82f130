/** Locating an inline image's destination, keeping disjoint replacements, and splicing them into the document. */
module ImageRewrite {
  import opened Common
  import opened Escapes
  import ImageLabels

  const LPAREN: byte := 40
  const RPAREN: byte := 41
  const LT: byte := 60
  const GT: byte := 62
  const QUOTE: byte := 34
  const APOSTROPHE: byte := 39

  /** `u8::is_ascii_whitespace`: tab, line feed, form feed, carriage return and space. */
  predicate IsSpace(x: byte) {
    x == 9 || x == 10 || x == 12 || x == 13 || x == 32
  }

  // ---- Destinations ----

  /** Unescaped opening less closing parentheses in `b[lo..i]`. */
  function Nesting(b: seq<byte>, lo: nat, i: nat): int
    requires lo <= i <= |b|
  {
    if i == lo then 0
    else Nesting(b, lo, i - 1) +
         if EscapedFrom(b, lo, i - 1) then 0
         else if b[i - 1] == LPAREN then 1 else if b[i - 1] == RPAREN then -1 else 0
  }

  /** `b[i]` is unescaped and outside every parenthesis opened since `lo`. */
  predicate Bare(b: seq<byte>, lo: nat, i: nat)
    requires lo <= i < |b|
  {
    !EscapedFrom(b, lo, i) && Nesting(b, lo, i) == 0
  }

  /** An unbracketed destination runs to the first bare `)` or white space. */
  predicate StopsBare(b: seq<byte>, lo: nat, i: nat)
    requires lo <= i < |b|
  {
    Bare(b, lo, i) && (b[i] == RPAREN || IsSpace(b[i]))
  }

  /** A `<...>` destination runs to the first unescaped `>`. */
  predicate StopsAngle(b: seq<byte>, lo: nat, i: nat)
    requires lo <= i < |b|
  {
    !EscapedFrom(b, lo, i) && b[i] == GT
  }

  function SkipSpace(b: seq<byte>, i: nat): (r: nat)
    requires i <= |b|
    ensures i <= r <= |b| && (forall j :: i <= j < r ==> IsSpace(b[j])) && (r < |b| ==> !IsSpace(b[r]))
    decreases |b| - i
  {
    if i < |b| && IsSpace(b[i]) then SkipSpace(b, i + 1) else i
  }

  /** The destination after `(` and white space: where it starts, where it stops, and where its suffix starts. */
  ghost predicate IsDestination(b: seq<byte>, cursor: nat, lo: nat, hi: nat, suffix: nat) {
    && cursor < |b| && b[cursor] == LPAREN
    && var at := SkipSpace(b, cursor + 1);
    && lo <= hi < |b|
    && if at < |b| && b[at] == LT then
         lo == at + 1 && suffix == hi + 1 && StopsAngle(b, lo, hi) && forall j :: lo <= j < hi ==> !StopsAngle(b, lo, j)
       else
         lo == at && suffix == hi && StopsBare(b, lo, hi) && forall j :: lo <= j < hi ==> !StopsBare(b, lo, j)
  }

  /** Scanning past an escaped byte or two: what `cursor = (cursor + 2).min(len)` skips is exactly the escape. */
  lemma EscapePair(b: seq<byte>, lo: nat, i: nat)
    requires lo <= i < |b| && b[i] == BACKSLASH && !EscapedFrom(b, lo, i)
    ensures EscapedFrom(b, lo, i + 1) && Nesting(b, lo, i + 1) == Nesting(b, lo, i)
    ensures i + 1 < |b| ==> !EscapedFrom(b, lo, i + 2) && Nesting(b, lo, i + 2) == Nesting(b, lo, i)
  {
  }

  method ScanAngle(b: seq<byte>, lo: nat) returns (hi: Option<nat>)
    requires lo <= |b|
    ensures hi.Some? ==> lo <= hi.value < |b| && StopsAngle(b, lo, hi.value)
    ensures forall j :: lo <= j < (if hi.Some? then hi.value else |b|) ==> !StopsAngle(b, lo, j)
  {
    var cursor := lo;
    while cursor < |b|
      invariant lo <= cursor <= |b|
      invariant cursor < |b| ==> !EscapedFrom(b, lo, cursor)
      invariant forall j :: lo <= j < cursor ==> !StopsAngle(b, lo, j)
    {
      if b[cursor] == BACKSLASH {
        EscapePair(b, lo, cursor);
        cursor := if cursor + 2 < |b| then cursor + 2 else |b|;
      } else if b[cursor] == GT {
        return Some(cursor);
      } else {
        cursor := cursor + 1;
      }
    }
    return None;
  }

  method ScanBare(b: seq<byte>, lo: nat) returns (hi: Option<nat>)
    requires lo <= |b|
    ensures hi.Some? ==> lo <= hi.value < |b| && StopsBare(b, lo, hi.value)
    ensures forall j :: lo <= j < (if hi.Some? then hi.value else |b|) ==> !StopsBare(b, lo, j)
  {
    var cursor, parentheses := lo, 0;
    while cursor < |b|
      invariant lo <= cursor <= |b| && parentheses >= 0
      invariant cursor < |b| ==> !EscapedFrom(b, lo, cursor) && parentheses == Nesting(b, lo, cursor)
      invariant forall j :: lo <= j < cursor ==> !StopsBare(b, lo, j)
    {
      if b[cursor] == BACKSLASH {
        EscapePair(b, lo, cursor);
        cursor := if cursor + 2 < |b| then cursor + 2 else |b|;
      } else if b[cursor] == LPAREN {
        parentheses, cursor := parentheses + 1, cursor + 1;
      } else if b[cursor] == RPAREN && parentheses == 0 {
        return Some(cursor);
      } else if b[cursor] == RPAREN {
        parentheses, cursor := parentheses - 1, cursor + 1;
      } else if IsSpace(b[cursor]) && parentheses == 0 {
        return Some(cursor);
      } else {
        cursor := cursor + 1;
      }
    }
    return None;
  }

  /** The byte that ends a title opened by `delimiter` at `lo - 1`. */
  predicate StopsTitle(b: seq<byte>, delimiter: byte, lo: nat, i: nat)
    requires lo <= i < |b|
  {
    !EscapedFrom(b, lo, i) &&
    if delimiter == LPAREN then b[i] == RPAREN && Nesting(b, lo, i) == 0 else b[i] == delimiter
  }

  /** A title that starts at `lo` ends at its first unescaped, unnested closing delimiter. */
  ghost predicate TitleEnds(b: seq<byte>, delimiter: byte, lo: nat, e: nat) {
    lo <= e < |b| && StopsTitle(b, delimiter, lo, e) && forall j :: lo <= j < e ==> !StopsTitle(b, delimiter, lo, j)
  }

  ghost predicate ClosesImage(b: seq<byte>, i: nat) {
    i <= |b| && SkipSpace(b, i) + 1 == |b| && b[|b| - 1] == RPAREN
  }

  /** The title whose delimiter is at `at` ends at `e`, and the image closes right after it. */
  ghost predicate TitledUntil(b: seq<byte>, at: nat, e: nat) {
    at < |b| && TitleEnds(b, b[at], at + 1, e) && ClosesImage(b, e + 1)
  }

  /** White space, an optional title, and the closing `)` as the last byte. */
  ghost predicate SuffixOk(b: seq<byte>, i: nat) {
    && i <= |b|
    && var at := SkipSpace(b, i);
    && at < |b|
    && if b[at] == RPAREN then at + 1 == |b|
       else
         && (b[at] == QUOTE || b[at] == APOSTROPHE || b[at] == LPAREN)
         && exists e :: TitledUntil(b, at, e)
  }

  method SkipWhitespace(b: seq<byte>, i: nat) returns (r: nat)
    requires i <= |b|
    ensures r == SkipSpace(b, i)
  {
    r := i;
    while r < |b| && IsSpace(b[r])
      invariant i <= r <= |b| && SkipSpace(b, r) == SkipSpace(b, i)
    {
      r := r + 1;
    }
  }

  method ScanTitle(b: seq<byte>, delimiter: byte, lo: nat) returns (e: Option<nat>)
    requires lo <= |b| && (delimiter == QUOTE || delimiter == APOSTROPHE || delimiter == LPAREN)
    ensures e.Some? ==> TitleEnds(b, delimiter, lo, e.value)
    ensures e.None? ==> forall j :: lo <= j < |b| ==> !StopsTitle(b, delimiter, lo, j)
  {
    var cursor, nested := lo, 1;
    while cursor < |b|
      invariant lo <= cursor <= |b| && nested >= 1
      invariant cursor < |b| ==> !EscapedFrom(b, lo, cursor)
      invariant cursor < |b| && delimiter == LPAREN ==> nested == Nesting(b, lo, cursor) + 1
      invariant forall j :: lo <= j < cursor ==> !StopsTitle(b, delimiter, lo, j)
    {
      if b[cursor] == BACKSLASH {
        EscapePair(b, lo, cursor);
        cursor := if cursor + 2 < |b| then cursor + 2 else |b|;
      } else if b[cursor] == LPAREN && delimiter == LPAREN {
        nested, cursor := nested + 1, cursor + 1;
      } else if b[cursor] == RPAREN && delimiter == LPAREN {
        if nested == 1 {
          return Some(cursor);
        }
        nested, cursor := nested - 1, cursor + 1;
      } else if delimiter != LPAREN && b[cursor] == delimiter {
        return Some(cursor);
      } else {
        cursor := cursor + 1;
      }
    }
    return None;
  }

  /** `valid_image_suffix`. A quoted title that never ends leaves no byte for the closing `)`. */
  method ValidImageSuffix(b: seq<byte>, i: nat) returns (ok: bool)
    requires i <= |b|
    ensures ok <==> SuffixOk(b, i)
  {
    var at := SkipWhitespace(b, i);
    if at == |b| {
      return false;
    }
    if b[at] == RPAREN {
      return at + 1 == |b|;
    }
    if b[at] != QUOTE && b[at] != APOSTROPHE && b[at] != LPAREN {
      return false;
    }
    var e := ScanTitle(b, b[at], at + 1);
    if e.None? {
      return false;
    }
    forall f | TitledUntil(b, at, f) ensures f == e.value {
    }
    var last := SkipWhitespace(b, e.value + 1);
    ok := last < |b| && b[last] == RPAREN && last + 1 == |b|;
    assert ok <==> TitledUntil(b, at, e.value);
  }

  /** The destination is `b[lo..hi]` and the image closes properly after it. */
  ghost predicate ValidDestination(b: seq<byte>, cursor: nat, lo: nat, hi: nat) {
    exists suffix :: IsDestination(b, cursor, lo, hi, suffix) && SuffixOk(b, suffix)
  }

  lemma DestinationIsUnique(b: seq<byte>, cursor: nat, lo: nat, hi: nat, suffix: nat, lo': nat, hi': nat, suffix': nat)
    requires IsDestination(b, cursor, lo, hi, suffix) && IsDestination(b, cursor, lo', hi', suffix')
    ensures lo == lo' && hi == hi' && suffix == suffix'
  {
  }

  lemma ValidDestinationIsUnique(b: seq<byte>, cursor: nat, lo: nat, hi: nat, lo': nat, hi': nat)
    requires ValidDestination(b, cursor, lo, hi) && ValidDestination(b, cursor, lo', hi')
    ensures lo == lo' && hi == hi'
  {
    var suffix :| IsDestination(b, cursor, lo, hi, suffix) && SuffixOk(b, suffix);
    var suffix' :| IsDestination(b, cursor, lo', hi', suffix') && SuffixOk(b, suffix');
    DestinationIsUnique(b, cursor, lo, hi, suffix, lo', hi', suffix');
  }

  /** A destination whose suffix fails rules out every other. */
  lemma BadSuffix(b: seq<byte>, cursor: nat, lo: nat, hi: nat, suffix: nat)
    requires IsDestination(b, cursor, lo, hi, suffix) && !SuffixOk(b, suffix)
    ensures forall lo', hi' :: !ValidDestination(b, cursor, lo', hi')
  {
    forall lo', hi' | ValidDestination(b, cursor, lo', hi') ensures false {
      var suffix' :| IsDestination(b, cursor, lo', hi', suffix') && SuffixOk(b, suffix');
      DestinationIsUnique(b, cursor, lo, hi, suffix, lo', hi', suffix');
    }
  }

  /**
   * `image_destination_after_label`: finds the destination exactly when there is one and the image closes
   * properly after it. A bare destination stopped by `)` must be the end of the source.
   */
  method ImageDestinationAfterLabel(b: seq<byte>, cursor: nat) returns (r: Option<(nat, nat)>)
    ensures r.Some? ==> ValidDestination(b, cursor, r.value.0, r.value.1)
    ensures r.None? ==> forall lo, hi :: !ValidDestination(b, cursor, lo, hi)
    ensures r.Some? ==> cursor < r.value.0 <= r.value.1 < |b| && b[|b| - 1] == RPAREN
  {
    if cursor >= |b| || b[cursor] != LPAREN {
      return None;
    }
    var at := SkipWhitespace(b, cursor + 1);
    var angle := at < |b| && b[at] == LT;
    var lo := if angle then at + 1 else at;
    var hi: Option<nat>;
    if angle {
      hi := ScanAngle(b, lo);
    } else {
      hi := ScanBare(b, lo);
    }
    if hi.None? {
      return None;
    }
    var suffix := if angle then hi.value + 1 else hi.value;
    assert IsDestination(b, cursor, lo, hi.value, suffix);
    var ok: bool;
    if !angle && b[hi.value] == RPAREN {
      ok := hi.value + 1 == |b|;
    } else {
      ok := ValidImageSuffix(b, suffix);
    }
    assert ok <==> SuffixOk(b, suffix);
    if !ok {
      BadSuffix(b, cursor, lo, hi.value, suffix);
    }
    r := if ok then Some((lo, hi.value)) else None;
  }

  // ---- Keeping disjoint replacements ----

  /** Replace `[start, end)` of the document by `text`. */
  datatype Edit = Edit(start: nat, end: nat, text: seq<byte>)

  /** In bounds, in order and each starting no earlier than the one before it ends. */
  ghost predicate Spliceable(es: seq<Edit>, from: nat, length: nat)
    decreases |es|
  {
    if es == [] then from <= length
    else from <= es[0].start <= es[0].end && Spliceable(es[1..], es[0].end, length)
  }

  lemma {:induction false} SpliceableAppend(es: seq<Edit>, from: nat, e: Edit, length: nat)
    requires Spliceable(es, from, length)
    requires (if es == [] then from else es[|es| - 1].end) <= e.start <= e.end <= length
    ensures Spliceable(es + [e], from, length)
    decreases |es|
  {
    if es != [] {
      assert (es + [e])[1..] == es[1..] + [e];
      SpliceableAppend(es[1..], es[0].end, e, length);
    }
  }

  /** Spliceable edits lie inside the document and are pairwise disjoint and increasing. */
  lemma {:induction false} SpliceableMeansDisjoint(es: seq<Edit>, from: nat, length: nat, i: nat, j: nat)
    requires Spliceable(es, from, length) && i < j < |es|
    ensures from <= es[i].start <= es[i].end <= es[j].start <= es[j].end <= length
    decreases |es|
  {
    if i > 0 {
      SpliceableMeansDisjoint(es[1..], es[0].end, length, i - 1, j - 1);
    } else {
      SpliceableFits(es[1..], es[0].end, length, j - 1);
    }
  }

  lemma {:induction false} SpliceableFits(es: seq<Edit>, from: nat, length: nat, j: nat)
    requires Spliceable(es, from, length) && j < |es|
    ensures from <= es[j].start <= es[j].end <= length
    decreases |es|
  {
    if j > 0 {
      SpliceableFits(es[1..], es[0].end, length, j - 1);
    } else {
      SpliceableFrom(es[1..], es[0].end, length);
    }
  }

  lemma {:induction false} SpliceableFrom(es: seq<Edit>, from: nat, length: nat)
    requires Spliceable(es, from, length)
    ensures from <= length
    decreases |es|
  {
    if es != [] {
      SpliceableFrom(es[1..], es[0].end, length);
    }
  }

  /** Edit `i` is dropped: it starts before the end of the last edit kept before it. */
  ghost predicate DroppedByLast(es: seq<Edit>, kept: seq<nat>, i: nat) {
    exists k {:trigger kept[k]} ::
      0 <= k < |kept| && kept[k] < i < |es| && es[i].start < es[kept[k]].end
      && (forall m :: k < m < |kept| ==> i < kept[m])
  }

  /** Edit `i` is kept, or dropped because of the last edit kept before it. */
  ghost predicate Accounted(es: seq<Edit>, kept: seq<nat>, i: nat) {
    i in kept || DroppedByLast(es, kept, i)
  }

  lemma StillAccounted(es: seq<Edit>, kept: seq<nat>, i: nat, j: nat)
    requires Accounted(es, kept, j) && j < i
    ensures Accounted(es, kept + [i], j)
  {
    if j in kept {
      assert j in kept + [i];
    } else {
      var k :| 0 <= k < |kept| && kept[k] < j < |es| && es[j].start < es[kept[k]].end
               && (forall m :: k < m < |kept| ==> j < kept[m]);
      assert (kept + [i])[k] == kept[k];
    }
  }

  lemma KeepOne(es: seq<Edit>, kept: seq<nat>, i: nat)
    requires forall j :: 0 <= j < i ==> Accounted(es, kept, j)
    ensures forall j :: 0 <= j < i + 1 ==> Accounted(es, kept + [i], j)
  {
    forall j | 0 <= j < i + 1 ensures Accounted(es, kept + [i], j) {
      if j < i {
        StillAccounted(es, kept, i, j);
      } else {
        assert (kept + [i])[|kept|] == i;
      }
    }
  }

  lemma DropOne(es: seq<Edit>, kept: seq<nat>, i: nat)
    requires i < |es| && kept != [] && kept[|kept| - 1] < i && es[i].start < es[kept[|kept| - 1]].end
    ensures Accounted(es, kept, i)
  {
  }

  /** `retain`: keep an edit when it starts at or after the end of the last one kept. */
  method Retain(es: seq<Edit>, length: nat) returns (kept: seq<nat>, out: seq<Edit>)
    requires forall i :: 0 <= i < |es| ==> es[i].start <= es[i].end <= length
    ensures |out| == |kept| && forall k :: 0 <= k < |kept| ==> kept[k] < |es| && out[k] == es[kept[k]]
    ensures forall k, m :: 0 <= k < m < |kept| ==> kept[k] < kept[m]
    ensures Spliceable(out, 0, length)
    ensures forall i :: 0 <= i < |es| ==> Accounted(es, kept, i)
  {
    kept, out := [], [];
    var previousEnd := 0;
    for i := 0 to |es|
      invariant |out| == |kept| && forall k :: 0 <= k < |kept| ==> kept[k] < i && out[k] == es[kept[k]]
      invariant forall k, m :: 0 <= k < m < |kept| ==> kept[k] < kept[m]
      invariant previousEnd == if |out| == 0 then 0 else out[|out| - 1].end
      invariant Spliceable(out, 0, length)
      invariant forall j :: 0 <= j < i ==> Accounted(es, kept, j)
    {
      if es[i].start >= previousEnd {
        SpliceableAppend(out, 0, es[i], length);
        KeepOne(es, kept, i);
        previousEnd := es[i].end;
        kept, out := kept + [i], out + [es[i]];
      } else {
        DropOne(es, kept, i);
      }
    }
  }

  // ---- Splicing ----

  /** The document from `from` on with every edit applied. */
  function Spliced(doc: seq<byte>, es: seq<Edit>, from: nat): seq<byte>
    requires Spliceable(es, from, |doc|)
    decreases |es|
  {
    if es == [] then doc[from..]
    else
      SpliceableFrom(es[1..], es[0].end, |doc|);
      doc[from..es[0].start] + es[0].text + Spliced(doc, es[1..], es[0].end)
  }

  /** The edits that put back what `es` replaced: same gaps, shifted ranges, original text. */
  function Undo(doc: seq<byte>, es: seq<Edit>, from: nat, at: nat): (r: seq<Edit>)
    requires Spliceable(es, from, |doc|)
    decreases |es|
  {
    if es == [] then []
    else
      SpliceableFrom(es[1..], es[0].end, |doc|);
      var p := at + es[0].start - from;
      [Edit(p, p + |es[0].text|, doc[es[0].start..es[0].end])] + Undo(doc, es[1..], es[0].end, p + |es[0].text|)
  }

  lemma SpliceableCons(e: Edit, rest: seq<Edit>, from: nat, length: nat)
    requires from <= e.start <= e.end && Spliceable(rest, e.end, length)
    ensures Spliceable([e] + rest, from, length)
  {
    assert ([e] + rest)[1..] == rest;
  }

  lemma {:induction false} UndoIsSpliceable(doc: seq<byte>, es: seq<Edit>, from: nat, at: nat)
    requires Spliceable(es, from, |doc|)
    ensures Spliceable(Undo(doc, es, from, at), at, at + |Spliced(doc, es, from)|)
    decreases |es|
  {
    if es != [] {
      var e := es[0];
      SpliceableFrom(es[1..], e.end, |doc|);
      var p := at + e.start - from;
      var q := p + |e.text|;
      UndoIsSpliceable(doc, es[1..], e.end, q);
      SpliceableCons(Edit(p, q, doc[e.start..e.end]), Undo(doc, es[1..], e.end, q), at,
                     q + |Spliced(doc, es[1..], e.end)|);
    }
  }

  lemma Parts(out: seq<byte>, at: nat, gap: seq<byte>, text: seq<byte>, rest: seq<byte>)
    requires at <= |out| && out[at..] == gap + text + rest
    ensures var p := at + |gap|; var q := p + |text|;
            q <= |out| && out[at..p] == gap && out[p..q] == text && out[q..] == rest
  {
    var tail := out[at..];
    var p := at + |gap|;
    var q := p + |text|;
    assert |tail| == |gap| + |text| + |rest|;
    assert out[at..p] == tail[..|gap|];
    assert out[p..q] == tail[|gap|..|gap| + |text|];
    assert out[q..] == tail[|gap| + |text|..];
  }

  lemma SplicedCons(out: seq<byte>, e: Edit, rest: seq<Edit>, at: nat)
    requires Spliceable([e] + rest, at, |out|)
    ensures Spliceable(rest, e.end, |out|) && at <= e.start <= e.end <= |out|
    ensures Spliced(out, [e] + rest, at) == out[at..e.start] + e.text + Spliced(out, rest, e.end)
  {
    assert ([e] + rest)[1..] == rest;
    SpliceableFrom(rest, e.end, |out|);
  }

  lemma Rejoin(doc: seq<byte>, from: nat, a: nat, b: nat)
    requires from <= a <= b <= |doc|
    ensures doc[from..a] + doc[a..b] + doc[b..] == doc[from..]
  {
  }

  /** Undoing the first edit, given that undoing the others gives back the rest. */
  lemma UndoneStep(doc: seq<byte>, from: nat, e: Edit, out: seq<byte>, at: nat, back: Edit, inner: seq<Edit>)
    requires from <= e.start <= e.end <= |doc| && at <= back.start <= back.end <= |out|
    requires out[at..back.start] == doc[from..e.start] && back.text == doc[e.start..e.end]
    requires Spliceable([back] + inner, at, |out|)
    requires Spliceable(inner, back.end, |out|) && Spliced(out, inner, back.end) == doc[e.end..]
    ensures Spliced(out, [back] + inner, at) == doc[from..]
  {
    SplicedCons(out, back, inner, at);
    Rejoin(doc, from, e.start, e.end);
  }

  /** Splicing is exactly invertible: undoing it on the output restores every byte of the input, in order. */
  lemma {:induction false} SpliceIsInvertible(doc: seq<byte>, es: seq<Edit>, from: nat, out: seq<byte>, at: nat)
    requires from <= |doc| && Spliceable(es, from, |doc|)
    requires at <= |out| && out[at..] == Spliced(doc, es, from)
    ensures var undo := Undo(doc, es, from, at);
            Spliceable(undo, at, |out|) && Spliced(out, undo, at) == doc[from..]
    decreases |es|
  {
    UndoIsSpliceable(doc, es, from, at);
    if es != [] {
      var e := es[0];
      SpliceableFrom(es[1..], e.end, |doc|);
      var gap := doc[from..e.start];
      Parts(out, at, gap, e.text, Spliced(doc, es[1..], e.end));
      var p := at + |gap|;
      var q := p + |e.text|;
      SpliceIsInvertible(doc, es[1..], e.end, out, q);
      UndoneStep(doc, from, e, out, at, Edit(p, q, doc[e.start..e.end]), Undo(doc, es[1..], e.end, q));
    }
  }

  lemma SpliceStep(doc: seq<byte>, es: seq<Edit>, i: nat, copied: nat)
    requires i < |es| && Spliceable(es[i..], copied, |doc|)
    ensures copied <= es[i].start <= es[i].end <= |doc| && Spliceable(es[i + 1..], es[i].end, |doc|)
    ensures Spliced(doc, es[i..], copied) ==
            doc[copied..es[i].start] + es[i].text + Spliced(doc, es[i + 1..], es[i].end)
  {
    assert es[i..][1..] == es[i + 1..];
    SpliceableFrom(es[i + 1..], es[i].end, |doc|);
  }

  lemma Reassociate(out: seq<byte>, gap: seq<byte>, text: seq<byte>, rest: seq<byte>)
    ensures out + (gap + text + rest) == out + gap + text + rest
  {
  }

  /** The output loop of `rewrite_markdown_images`. */
  method Splice(doc: seq<byte>, es: seq<Edit>) returns (out: seq<byte>)
    requires Spliceable(es, 0, |doc|)
    ensures out == Spliced(doc, es, 0)
    ensures var undo := Undo(doc, es, 0, 0); Spliceable(undo, 0, |out|) && Spliced(out, undo, 0) == doc
  {
    out := [];
    var copied := 0;
    for i := 0 to |es|
      invariant copied == if i == 0 then 0 else es[i - 1].end
      invariant Spliceable(es[i..], copied, |doc|)
      invariant out + Spliced(doc, es[i..], copied) == Spliced(doc, es, 0)
    {
      SpliceStep(doc, es, i, copied);
      Reassociate(out, doc[copied..es[i].start], es[i].text, Spliced(doc, es[i + 1..], es[i].end));
      out := out + doc[copied..es[i].start];
      out := out + es[i].text;
      copied := es[i].end;
    }
    out := out + doc[copied..];
    SpliceIsInvertible(doc, es, 0, out, 0);
    assert doc[0..] == doc;
  }

  // ---- The whole rewrite ----

  /** The key the replacements are sorted by. */
  predicate NotAfter(x: Edit, y: Edit) {
    x.start < y.start || (x.start == y.start && x.end <= y.end)
  }

  ghost predicate SortedEdits(es: seq<Edit>) {
    forall i, j :: 0 <= i < j < |es| ==> NotAfter(es[i], es[j])
  }

  lemma InsertKeepsSorted(es: seq<Edit>, k: nat, e: Edit)
    requires SortedEdits(es) && k <= |es| && forall i :: 0 <= i < k ==> NotAfter(es[i], e)
    requires k < |es| ==> NotAfter(e, es[k])
    ensures SortedEdits(es[..k] + [e] + es[k..])
  {
    forall i | k <= i < |es| ensures NotAfter(e, es[i]) {
      assert i > k ==> NotAfter(es[k], es[i]);
    }
    var r := es[..k] + [e] + es[k..];
    forall i, j | 0 <= i < j < |r| ensures NotAfter(r[i], r[j]) {
      var i', j' := if i < k then i else i - 1, if j < k then j else j - 1;
      assert i != k ==> r[i] == es[i'];
      assert j != k ==> r[j] == es[j'];
    }
  }

  lemma InsertCounts(es: seq<Edit>, k: nat, e: Edit)
    requires k <= |es|
    ensures multiset(es[..k] + [e] + es[k..]) == multiset(es) + multiset{e}
  {
    assert es == es[..k] + es[k..];
  }

  method InsertSorted(es: seq<Edit>, e: Edit) returns (r: seq<Edit>)
    requires SortedEdits(es)
    ensures SortedEdits(r) && multiset(r) == multiset(es) + multiset{e}
  {
    var k := 0;
    while k < |es| && NotAfter(es[k], e)
      invariant k <= |es| && forall i :: 0 <= i < k ==> NotAfter(es[i], e)
    {
      k := k + 1;
    }
    r := es[..k] + [e] + es[k..];
    InsertKeepsSorted(es, k, e);
    InsertCounts(es, k, e);
  }

  method SortByDestination(es: seq<Edit>) returns (r: seq<Edit>)
    ensures SortedEdits(r) && multiset(r) == multiset(es)
    ensures forall i, j :: 0 <= i < j < |r| ==>
              r[i].start <= r[j].start && (r[i].start == r[j].start ==> r[i].end <= r[j].end)
  {
    r := [];
    for i := 0 to |es|
      invariant SortedEdits(r) && multiset(r) == multiset(es[..i])
    {
      r := InsertSorted(r, es[i]);
      assert es[..i + 1] == es[..i] + [es[i]];
    }
    assert es[..|es|] == es;
    forall i, j | 0 <= i < j < |r|
      ensures r[i].start <= r[j].start && (r[i].start == r[j].start ==> r[i].end <= r[j].end)
    {
      assert NotAfter(r[i], r[j]);
    }
  }

  /** `e`'s range, counted from `at`, is the destination in `b`. */
  ghost predicate Locates(b: seq<byte>, cursor: nat, at: nat, e: Edit) {
    exists lo, hi :: ValidDestination(b, cursor, lo, hi) && lo <= hi && e.start == at + lo && e.end == at + hi
  }

  /** `e` replaces the destination of candidate `c` by `cas:` and its hash. */
  ghost predicate Replaces(md: seq<byte>, c: ImageLabels.Candidate, hash: seq<byte>, e: Edit) {
    && c.start <= c.end <= |md| && c.labelEnd.Some? && c.start <= c.labelEnd.value
    && e.end <= c.end && e.text == CAS + hash
    && Locates(md[c.start..c.end], c.labelEnd.value - c.start + 1, c.start, e)
  }

  lemma ReplacesOnce(md: seq<byte>, c: ImageLabels.Candidate, hash: seq<byte>, e: Edit, f: Edit)
    requires Replaces(md, c, hash, e) && Replaces(md, c, hash, f)
    ensures e == f
  {
    SameDestination(md[c.start..c.end], c.labelEnd.value - c.start + 1, c.start, e, f);
  }

  lemma SameDestination(b: seq<byte>, cursor: nat, at: nat, e: Edit, f: Edit)
    requires Locates(b, cursor, at, e) && Locates(b, cursor, at, f)
    ensures e.start == f.start && e.end == f.end
  {
    var lo, hi :| ValidDestination(b, cursor, lo, hi) && lo <= hi && e.start == at + lo && e.end == at + hi;
    var lo', hi' :| ValidDestination(b, cursor, lo', hi') && lo' <= hi' && f.start == at + lo' && f.end == at + hi';
    ValidDestinationIsUnique(b, cursor, lo, hi, lo', hi');
  }

  const CAS: seq<byte> := [99, 97, 115, 58]

  lemma OnlyEdit(md: seq<byte>, c: ImageLabels.Candidate, hash: seq<byte>, lo: nat, hi: nat, e: Edit)
    requires c.start <= c.end <= |md| && c.labelEnd.Some? && c.start <= c.labelEnd.value
    requires lo <= hi < |md[c.start..c.end]|
    requires ValidDestination(md[c.start..c.end], c.labelEnd.value - c.start + 1, lo, hi)
    requires e == Edit(c.start + lo, c.start + hi, CAS + hash)
    ensures forall f :: Replaces(md, c, hash, f) <==> f == e
  {
    assert Locates(md[c.start..c.end], c.labelEnd.value - c.start + 1, c.start, e);
    assert Replaces(md, c, hash, e);
    forall f | Replaces(md, c, hash, f) ensures f == e {
      ReplacesOnce(md, c, hash, e, f);
    }
  }

  /** One candidate's replacement, when its range is valid, its label closed and its destination located. */
  method EditFor(md: seq<byte>, c: ImageLabels.Candidate, hash: seq<byte>) returns (r: Option<Edit>)
    ensures forall e :: Replaces(md, c, hash, e) <==> r == Some(e)
  {
    if !(c.start <= c.end <= |md|) || c.labelEnd.None? || c.labelEnd.value < c.start {
      return None;
    }
    var d := ImageDestinationAfterLabel(md[c.start..c.end], c.labelEnd.value - c.start + 1);
    if d.None? {
      return None;
    }
    var e := Edit(c.start + d.value.0, c.start + d.value.1, CAS + hash);
    OnlyEdit(md, c, hash, d.value.0, d.value.1, e);
    return Some(e);
  }

  /** How many candidates have `e` as their replacement. */
  ghost function Times(md: seq<byte>, cs: seq<ImageLabels.Candidate>, hashes: seq<seq<byte>>, e: Edit): nat
    requires |hashes| == |cs|
  {
    if cs == [] then 0
    else
      var n := |cs| - 1;
      Times(md, cs[..n], hashes[..n], e) + if Replaces(md, cs[n], hashes[n], e) then 1 else 0
  }

  /** `es` are the replacements of the candidates, each as often as it occurs. */
  ghost predicate Collected(md: seq<byte>, cs: seq<ImageLabels.Candidate>, hashes: seq<seq<byte>>, es: multiset<Edit>)
    requires |hashes| == |cs|
  {
    forall e :: es[e] == Times(md, cs, hashes, e)
  }

  lemma {:induction false} TimesIsSome(md: seq<byte>, cs: seq<ImageLabels.Candidate>, hashes: seq<seq<byte>>, e: Edit)
    requires |hashes| == |cs| && Times(md, cs, hashes, e) > 0
    ensures exists i :: 0 <= i < |cs| && Replaces(md, cs[i], hashes[i], e)
  {
    var n := |cs| - 1;
    if !Replaces(md, cs[n], hashes[n], e) {
      TimesIsSome(md, cs[..n], hashes[..n], e);
      var i :| 0 <= i < n && Replaces(md, cs[..n][i], hashes[..n][i], e);
      assert Replaces(md, cs[i], hashes[i], e);
    }
  }

  lemma CollectOne(md: seq<byte>, cs: seq<ImageLabels.Candidate>, hashes: seq<seq<byte>>, es: multiset<Edit>,
                   c: ImageLabels.Candidate, hash: seq<byte>, r: Option<Edit>)
    requires |hashes| == |cs| && Collected(md, cs, hashes, es)
    requires forall e :: Replaces(md, c, hash, e) <==> r == Some(e)
    ensures Collected(md, cs + [c], hashes + [hash], if r.Some? then es + multiset{r.value} else es)
  {
    var cs', hashes' := cs + [c], hashes + [hash];
    assert cs'[..|cs|] == cs && hashes'[..|cs|] == hashes;
    forall e ensures Times(md, cs', hashes', e) == Times(md, cs, hashes, e) + if r == Some(e) then 1 else 0 {
      assert cs'[|cs|] == c && hashes'[|cs|] == hash;
    }
  }

  /** The `filter_map` that turns the labelled candidates into replacements. */
  method CollectEdits(md: seq<byte>, cs: seq<ImageLabels.Candidate>, hashes: seq<seq<byte>>) returns (es: seq<Edit>)
    requires |hashes| == |cs|
    ensures Collected(md, cs, hashes, multiset(es))
  {
    es := [];
    for i := 0 to |cs|
      invariant Collected(md, cs[..i], hashes[..i], multiset(es))
    {
      var r := EditFor(md, cs[i], hashes[i]);
      CollectOne(md, cs[..i], hashes[..i], multiset(es), cs[i], hashes[i], r);
      assert cs[..i + 1] == cs[..i] + [cs[i]] && hashes[..i + 1] == hashes[..i] + [hashes[i]];
      if r.Some? {
        es := es + [r.value];
      }
    }
    assert cs[..|cs|] == cs && hashes[..|cs|] == hashes;
  }

  lemma CollectedAreInBounds(md: seq<byte>, cs: seq<ImageLabels.Candidate>, hashes: seq<seq<byte>>, es: seq<Edit>)
    requires |hashes| == |cs| && Collected(md, cs, hashes, multiset(es))
    ensures forall i :: 0 <= i < |es| ==> es[i].start <= es[i].end <= |md|
  {
    forall i | 0 <= i < |es| ensures es[i].start <= es[i].end <= |md| {
      assert es[i] in multiset(es);
      TimesIsSome(md, cs, hashes, es[i]);
    }
  }

  /**
   * `rewrite_markdown_images` after the parser: label every candidate, locate the destinations, keep a
   * disjoint set and splice. The replacements considered are exactly the candidates' destinations, each
   * one left alone overlaps the last one kept before it, and the result can be undone byte for byte.
   */
  method RewriteMarkdownImages(md: seq<byte>, candidates: array<ImageLabels.Candidate>, hashes: seq<seq<byte>>)
    returns (out: seq<byte>, sorted: seq<Edit>, kept: seq<nat>, es: seq<Edit>)
    requires |hashes| == candidates.Length
    requires forall i :: 0 <= i < candidates.Length ==> ImageLabels.WellPlaced(md, candidates[i])
    requires forall i, j :: 0 <= i < j < candidates.Length ==> candidates[i].start < candidates[j].start
    modifies candidates
    ensures forall i :: 0 <= i < candidates.Length ==> ImageLabels.SameImage(candidates[i], old(candidates[i]))
    ensures forall i :: 0 <= i < candidates.Length ==> ImageLabels.Answered(md, candidates[i])
    ensures SortedEdits(sorted) && Collected(md, candidates[..], hashes, multiset(sorted))
    ensures |es| == |kept| && forall k :: 0 <= k < |kept| ==> kept[k] < |sorted| && es[k] == sorted[kept[k]]
    ensures forall k, m :: 0 <= k < m < |kept| ==> kept[k] < kept[m]
    ensures forall i :: 0 <= i < |sorted| ==> Accounted(sorted, kept, i)
    ensures Spliceable(es, 0, |md|) && out == Spliced(md, es, 0)
    ensures var undo := Undo(md, es, 0, 0); Spliceable(undo, 0, |out|) && Spliced(out, undo, 0) == md
  {
    ImageLabels.FindImageLabelEnds(md, candidates);
    var found := CollectEdits(md, candidates[..], hashes);
    sorted := SortByDestination(found);
    CollectedAreInBounds(md, candidates[..], hashes, sorted);
    kept, es := Retain(sorted, |md|);
    out := Splice(md, es);
  }
}
