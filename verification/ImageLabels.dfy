/** Matching every Markdown image's label in one pass, against the simple per-image definition. */
module ImageLabels {
  import opened Common
  import opened Escapes

  const BANG: byte := 33
  const OPEN: byte := 91
  const CLOSE: byte := 93

  /** One image the Markdown parser found: its source range, and the label end to be filled in. */
  datatype Candidate = Candidate(start: nat, end: nat, labelEnd: Option<nat>)

  // ---- The simple definition ----

  /** +1 at an unescaped `[`, -1 at an unescaped `]`, 0 elsewhere. */
  function Weight(b: seq<byte>, i: nat): int
    requires i < |b|
  {
    if EscapedFrom(b, 0, i) then 0 else if b[i] == OPEN then 1 else if b[i] == CLOSE then -1 else 0
  }

  /** Unescaped opening brackets less closing ones in `b[lo..hi]`. */
  function Balance(b: seq<byte>, lo: nat, hi: nat): int
    requires hi <= |b|
  {
    if hi <= lo then 0 else Balance(b, lo, hi - 1) + Weight(b, hi - 1)
  }

  /** `e` is an unescaped `]` at which the brackets from the image's own `[` balance. */
  predicate Closes(b: seq<byte>, start: nat, e: nat) {
    start + 1 < e < |b| && Weight(b, e) == -1 && Balance(b, start + 1, e + 1) == 0
  }

  /** `e` is the first such position: the label end of the image whose `![` is at `start`. */
  ghost predicate IsLabelEnd(b: seq<byte>, start: nat, e: nat) {
    Closes(b, start, e) && forall j :: start + 1 < j < e ==> !Closes(b, start, j)
  }

  lemma LabelEndIsUnique(b: seq<byte>, start: nat, e: nat, f: nat)
    requires IsLabelEnd(b, start, e) && IsLabelEnd(b, start, f)
    ensures e == f
  {
  }

  /** The matcher's answer for one candidate: the label end if it lies inside the image's range, else nothing. */
  ghost predicate Answered(b: seq<byte>, c: Candidate) {
    match c.labelEnd
    case Some(e) => e < c.end && IsLabelEnd(b, c.start, e)
    case None => forall e :: 0 <= e < c.end ==> !IsLabelEnd(b, c.start, e)
  }

  // ---- The one-pass matcher ----

  ghost predicate WellPlaced(b: seq<byte>, c: Candidate) {
    c.start + 1 < |b| && b[c.start] == BANG && b[c.start + 1] == OPEN && c.labelEnd.None?
  }

  ghost predicate SameImage(c: Candidate, d: Candidate) {
    c.start == d.start && c.end == d.end
  }

  /** Candidate `c`, pushed at bracket depth `d`, is still open before position `k`, where the depth is `depth`. */
  ghost predicate OpenAt(b: seq<byte>, c: Candidate, d: nat, depth: nat, k: nat)
    requires k <= |b|
  {
    && c.labelEnd.None? && 1 <= d <= depth && c.start + 1 < k
    && Balance(b, c.start + 1, k) == depth - d + 1
    && forall j :: c.start + 1 < j < k ==> !Closes(b, c.start, j)
  }

  /** Candidate `c` closed at `e`, before position `k`. */
  ghost predicate SettledAt(b: seq<byte>, c: Candidate, e: nat, k: nat) {
    e < k && IsLabelEnd(b, c.start, e) && c.labelEnd == if e < c.end then Some(e) else None
  }

  predicate OnStack(stack: seq<(nat, nat)>, i: nat) {
    exists x :: 0 <= x < |stack| && stack[x].1 == i
  }

  /** The matcher's state before position `k`: which candidates are open, and where the others closed. */
  ghost predicate Progress(b: seq<byte>, cs: seq<Candidate>, stack: seq<(nat, nat)>, ends: map<nat, nat>,
                           depth: nat, next: nat, k: nat) {
    && k <= |b| && next <= |cs|
    && (forall i :: 0 <= i < |cs| ==> (i < next <==> cs[i].start + 1 < k))
    && (forall i :: next <= i < |cs| ==> cs[i].labelEnd.None?)
    && (forall x :: 0 <= x < |stack| ==> stack[x].1 < next && OpenAt(b, cs[stack[x].1], stack[x].0, depth, k))
    && (forall x, y :: 0 <= x < y < |stack| ==> stack[x].0 < stack[y].0 && stack[x].1 != stack[y].1)
    && (forall i :: i in ends ==> i < next && SettledAt(b, cs[i], ends[i], k))
    && (forall i :: 0 <= i < next ==> i in ends || OnStack(stack, i))
    && (forall x :: 0 <= x < |stack| ==> stack[x].1 !in ends)
  }

  /** An open candidate stays open over a byte at which its own bracket does not close. */
  lemma StaysOpen(b: seq<byte>, c: Candidate, d: nat, depth: nat, depth': nat, k: nat)
    requires k < |b| && OpenAt(b, c, d, depth, k)
    requires depth' == depth + Weight(b, k) && d <= depth'
    ensures OpenAt(b, c, d, depth', k + 1)
  {
    assert Balance(b, c.start + 1, k + 1) == Balance(b, c.start + 1, k) + Weight(b, k);
    forall j | c.start + 1 < j < k + 1 ensures !Closes(b, c.start, j) {
      assert j < k || j == k;
    }
  }

  lemma AllStayOpen(b: seq<byte>, cs: seq<Candidate>, stack: seq<(nat, nat)>, ends: map<nat, nat>,
                    depth: nat, depth': nat, next: nat, k: nat)
    requires Progress(b, cs, stack, ends, depth, next, k) && k < |b|
    requires depth' == depth + Weight(b, k) || stack == []
    requires stack == [] || stack[|stack| - 1].0 <= depth'
    ensures forall x :: 0 <= x < |stack| ==> OpenAt(b, cs[stack[x].1], stack[x].0, depth', k + 1)
    ensures forall i :: i in ends ==> SettledAt(b, cs[i], ends[i], k + 1)
  {
    forall x | 0 <= x < |stack| ensures OpenAt(b, cs[stack[x].1], stack[x].0, depth', k + 1) {
      assert stack[x].0 <= stack[|stack| - 1].0;
      StaysOpen(b, cs[stack[x].1], stack[x].0, depth, depth', k);
    }
  }

  /** The `[` of an image is never escaped: the byte before it is `!`. */
  lemma ImageBracketOpens(b: seq<byte>, c: Candidate)
    requires WellPlaced(b, c)
    ensures Weight(b, c.start + 1) == 1
    ensures Balance(b, c.start + 1, c.start + 2) == 1
  {
    assert !EscapedFrom(b, 0, c.start + 1);
    assert Balance(b, c.start + 1, c.start + 1) == 0;
  }

  /** No unescaped bracket at `k`, or no byte of a candidate's own: nothing changes but the position. */
  lemma Skip(b: seq<byte>, cs: seq<Candidate>, stack: seq<(nat, nat)>, ends: map<nat, nat>, depth: nat, next: nat,
             k: nat)
    requires Progress(b, cs, stack, ends, depth, next, k) && k < |b| && Weight(b, k) == 0
    requires forall i :: next <= i < |cs| ==> WellPlaced(b, cs[i])
    ensures Progress(b, cs, stack, ends, depth, next, k + 1)
  {
    AllStayOpen(b, cs, stack, ends, depth, depth, next, k);
    forall i | next <= i < |cs| ensures cs[i].start + 1 != k {
      ImageBracketOpens(b, cs[i]);
    }
  }

  /** An unescaped `[` that starts no candidate. */
  lemma PlainOpen(b: seq<byte>, cs: seq<Candidate>, stack: seq<(nat, nat)>, ends: map<nat, nat>, depth: nat, next: nat,
                  k: nat)
    requires Progress(b, cs, stack, ends, depth, next, k) && k < |b| && Weight(b, k) == 1
    requires forall i :: next <= i < |cs| ==> cs[i].start + 1 > k
    ensures Progress(b, cs, stack, ends, depth + 1, next, k + 1)
  {
    AllStayOpen(b, cs, stack, ends, depth, depth + 1, next, k);
  }

  lemma PushedOnStack(stack: seq<(nat, nat)>, ends: map<nat, nat>, next: nat, depth: nat)
    requires forall i :: 0 <= i < next ==> i in ends || OnStack(stack, i)
    ensures forall i :: 0 <= i < next + 1 ==> i in ends || OnStack(stack + [(depth, next)], i)
  {
    var stack' := stack + [(depth, next)];
    forall i | 0 <= i < next + 1 && i !in ends ensures OnStack(stack', i) {
      if i == next {
        assert stack'[|stack|].1 == i;
      } else {
        var x :| 0 <= x < |stack| && stack[x].1 == i;
        assert stack'[x].1 == i;
      }
    }
  }

  lemma PushedOpen(b: seq<byte>, cs: seq<Candidate>, stack: seq<(nat, nat)>, ends: map<nat, nat>, depth: nat,
                   next: nat, k: nat)
    requires Progress(b, cs, stack, ends, depth, next, k) && k < |b|
    requires next < |cs| && WellPlaced(b, cs[next]) && cs[next].start + 1 == k
    ensures var stack' := stack + [(depth + 1, next)];
            && (forall x :: 0 <= x < |stack'| ==>
                  stack'[x].1 < next + 1 && OpenAt(b, cs[stack'[x].1], stack'[x].0, depth + 1, k + 1))
            && (forall x, y :: 0 <= x < y < |stack'| ==> stack'[x].0 < stack'[y].0 && stack'[x].1 != stack'[y].1)
    ensures forall i :: i in ends ==> SettledAt(b, cs[i], ends[i], k + 1)
  {
    ImageBracketOpens(b, cs[next]);
    AllStayOpen(b, cs, stack, ends, depth, depth + 1, next, k);
    assert OpenAt(b, cs[next], depth + 1, depth + 1, k + 1);
  }

  /** An unescaped `[` that is the next candidate's own bracket. */
  lemma Push(b: seq<byte>, cs: seq<Candidate>, stack: seq<(nat, nat)>, ends: map<nat, nat>, depth: nat, next: nat,
             k: nat)
    requires Progress(b, cs, stack, ends, depth, next, k) && k < |b|
    requires next < |cs| && WellPlaced(b, cs[next]) && cs[next].start + 1 == k
    requires forall i :: next < i < |cs| ==> cs[i].start + 1 > k
    ensures Progress(b, cs, stack + [(depth + 1, next)], ends, depth + 1, next + 1, k + 1)
  {
    PushedOpen(b, cs, stack, ends, depth, next, k);
    PushedOnStack(stack, ends, next, depth + 1);
  }

  /** An unescaped `]` that closes no candidate. */
  lemma PlainClose(b: seq<byte>, cs: seq<Candidate>, stack: seq<(nat, nat)>, ends: map<nat, nat>, depth: nat,
                   next: nat, k: nat)
    requires Progress(b, cs, stack, ends, depth, next, k) && k < |b| && Weight(b, k) == -1
    requires forall i :: next <= i < |cs| ==> WellPlaced(b, cs[i])
    requires stack == [] || stack[|stack| - 1].0 != depth
    ensures Progress(b, cs, stack, ends, if depth == 0 then 0 else depth - 1, next, k + 1)
  {
    AllStayOpen(b, cs, stack, ends, depth, if depth == 0 then 0 else depth - 1, next, k);
    forall i | next <= i < |cs| ensures cs[i].start + 1 != k {
      ImageBracketOpens(b, cs[i]);
    }
  }

  /** An open candidate whose depth is the current one closes at an unescaped `]`. */
  lemma ClosesHere(b: seq<byte>, c: Candidate, depth: nat, k: nat)
    requires k < |b| && OpenAt(b, c, depth, depth, k) && Weight(b, k) == -1
    ensures IsLabelEnd(b, c.start, k)
  {
    assert Balance(b, c.start + 1, k + 1) == Balance(b, c.start + 1, k) + Weight(b, k);
  }

  lemma PoppedStack(b: seq<byte>, cs: seq<Candidate>, stack: seq<(nat, nat)>, ends: map<nat, nat>, depth: nat,
                    next: nat, k: nat)
    requires Progress(b, cs, stack, ends, depth, next, k) && k < |b| && Weight(b, k) == -1
    requires stack != [] && stack[|stack| - 1].0 == depth
    ensures var n := |stack| - 1;
            && (forall x :: 0 <= x < n ==>
                  stack[x].1 != stack[n].1 && OpenAt(b, cs[stack[x].1], stack[x].0, depth - 1, k + 1))
            && (forall j :: 0 <= j < next && j != stack[n].1 ==> j in ends || OnStack(stack[..n], j))
  {
    var n := |stack| - 1;
    forall x | 0 <= x < n ensures stack[x].1 != stack[n].1 && OpenAt(b, cs[stack[x].1], stack[x].0, depth - 1, k + 1) {
      assert stack[x].0 < stack[n].0;
      StaysOpen(b, cs[stack[x].1], stack[x].0, depth, depth - 1, k);
    }
    forall j | 0 <= j < next && j != stack[n].1 && j !in ends ensures OnStack(stack[..n], j) {
      assert OnStack(stack, j);
      var x :| 0 <= x < |stack| && stack[x].1 == j;
      assert stack[..n][x].1 == j;
    }
  }

  lemma PoppedEnds(b: seq<byte>, cs: seq<Candidate>, cs': seq<Candidate>, ends: map<nat, nat>, next: nat, k: nat,
                   i: nat)
    requires i < next <= |cs| == |cs'| && (forall j :: 0 <= j < |cs| && j != i ==> cs'[j] == cs[j])
    requires (forall j :: j in ends ==> j < next && SettledAt(b, cs[j], ends[j], k)) && SettledAt(b, cs'[i], k, k + 1)
    ensures forall j :: j in ends[i := k] ==> j < next && SettledAt(b, cs'[j], ends[i := k][j], k + 1)
  {
    forall j | j in ends && j != i ensures SettledAt(b, cs'[j], ends[j], k + 1) {
      assert SettledAt(b, cs[j], ends[j], k);
    }
  }

  lemma PoppedStarts(b: seq<byte>, cs: seq<Candidate>, cs': seq<Candidate>, next: nat, k: nat, i: nat)
    requires k < |b| && Weight(b, k) == -1 && i < next <= |cs| == |cs'| && cs'[i].start == cs[i].start
    requires forall j :: 0 <= j < |cs| && j != i ==> cs'[j] == cs[j]
    requires forall j :: next <= j < |cs| ==> WellPlaced(b, cs[j])
    requires forall j :: 0 <= j < |cs| ==> (j < next <==> cs[j].start + 1 < k)
    ensures forall j :: 0 <= j < |cs'| ==> (j < next <==> cs'[j].start + 1 < k + 1)
  {
    forall j | next <= j < |cs| ensures cs[j].start + 1 != k {
      ImageBracketOpens(b, cs[j]);
    }
  }

  /** An unescaped `]` at the depth of the innermost open candidate is its label end. */
  lemma Pop(b: seq<byte>, cs: seq<Candidate>, stack: seq<(nat, nat)>, ends: map<nat, nat>, depth: nat, next: nat,
            k: nat,
            cs': seq<Candidate>)
    requires Progress(b, cs, stack, ends, depth, next, k) && k < |b| && Weight(b, k) == -1
    requires forall i :: next <= i < |cs| ==> WellPlaced(b, cs[i])
    requires stack != [] && stack[|stack| - 1].0 == depth
    requires var i := stack[|stack| - 1].1;
             cs' == if k < cs[i].end then cs[i := cs[i].(labelEnd := Some(k))] else cs
    ensures Progress(b, cs', stack[..|stack| - 1], ends[stack[|stack| - 1].1 := k], depth - 1, next, k + 1)
  {
    var i := stack[|stack| - 1].1;
    assert OpenAt(b, cs[i], depth, depth, k);
    ClosesHere(b, cs[i], depth, k);
    PoppedStack(b, cs, stack, ends, depth, next, k);
    assert SettledAt(b, cs'[i], k, k + 1);
    PoppedEnds(b, cs, cs', ends, next, k, i);
    PoppedStarts(b, cs, cs', next, k, i);
  }

  /** At the end of the document every candidate has its answer. */
  lemma Finish(b: seq<byte>, cs: seq<Candidate>, stack: seq<(nat, nat)>, ends: map<nat, nat>, depth: nat, next: nat)
    requires Progress(b, cs, stack, ends, depth, next, |b|)
    requires forall i :: 0 <= i < |cs| ==> cs[i].start + 1 < |b|
    ensures forall i :: 0 <= i < |cs| ==> Answered(b, cs[i])
  {
    forall i | 0 <= i < |cs| ensures Answered(b, cs[i]) {
      if i in ends {
        var e := ends[i];
        forall f | 0 <= f < |b| && IsLabelEnd(b, cs[i].start, f) ensures f == e {
          LabelEndIsUnique(b, cs[i].start, e, f);
        }
      } else {
        assert i < next && OnStack(stack, i);
        var x :| 0 <= x < |stack| && stack[x].1 == i;
        assert OpenAt(b, cs[i], stack[x].0, depth, |b|);
      }
    }
  }

  /** The loop variables of the matcher. */
  datatype Scanner = Scanner(stack: seq<(nat, nat)>, depth: nat, next: nat, escaped: bool)

  /** The matcher's invariant before position `k`, for candidates `cs` that started out as `first`. */
  ghost predicate Ready(b: seq<byte>, first: seq<Candidate>, cs: seq<Candidate>, s: Scanner, ends: map<nat, nat>,
                        k: nat) {
    && Progress(b, cs, s.stack, ends, s.depth, s.next, k)
    && s.escaped == EscapedFrom(b, 0, k)
    && |cs| == |first| && (forall i :: 0 <= i < |cs| ==> SameImage(cs[i], first[i]))
    && (forall i :: s.next <= i < |cs| ==> WellPlaced(b, cs[i]))
  }

  lemma PushReady(b: seq<byte>, first: seq<Candidate>, cs: seq<Candidate>, s: Scanner, ends: map<nat, nat>, k: nat)
    requires k < |b| && Ready(b, first, cs, s, ends, k) && !s.escaped && b[k] == OPEN
    requires s.next < |cs| && cs[s.next].start + 1 == k && forall i :: s.next < i < |cs| ==>
               cs[s.next].start < cs[i].start
    ensures Ready(b, first, cs, Scanner(s.stack + [(s.depth + 1, s.next)], s.depth + 1, s.next + 1, false), ends, k + 1)
  {
    Push(b, cs, s.stack, ends, s.depth, s.next, k);
  }

  lemma PlainOpenReady(b: seq<byte>, first: seq<Candidate>, cs: seq<Candidate>, s: Scanner, ends: map<nat, nat>, k: nat)
    requires k < |b| && Ready(b, first, cs, s, ends, k) && !s.escaped && b[k] == OPEN
    requires forall i :: s.next <= i < |cs| ==> cs[i].start + 1 != k
    ensures Ready(b, first, cs, s.(depth := s.depth + 1), ends, k + 1)
  {
    PlainOpen(b, cs, s.stack, ends, s.depth, s.next, k);
  }

  /** The candidates not yet reached all start at or after the next one. */
  lemma LaterStarts(b: seq<byte>, first: seq<Candidate>, cs: seq<Candidate>, s: Scanner, ends: map<nat, nat>, k: nat,
                    starts: seq<nat>)
    requires Ready(b, first, cs, s, ends, k)
    requires |starts| == |cs| && forall i :: 0 <= i < |cs| ==> starts[i] == cs[i].start
    requires forall i, j :: 0 <= i < j < |starts| ==> starts[i] < starts[j]
    ensures forall i :: s.next <= i < |cs| ==> cs[i].start + 1 >= k
    ensures forall i :: s.next < i < |cs| ==> cs[s.next].start < cs[i].start
  {
    forall i | s.next < i < |cs| ensures cs[s.next].start < cs[i].start {
      assert starts[s.next] < starts[i];
    }
  }

  /** An unescaped `[`. The starts are distinct, so the source's inner `while` pushes at most one candidate. */
  method OpenBracket(b: seq<byte>, starts: seq<nat>, s: Scanner, k: nat,
                     ghost first: seq<Candidate>, ghost cs: seq<Candidate>, ghost ends: map<nat, nat>)
    returns (s': Scanner)
    requires k < |b| && Ready(b, first, cs, s, ends, k) && !s.escaped && b[k] == OPEN
    requires |starts| == |cs| && forall i :: 0 <= i < |cs| ==> starts[i] == cs[i].start
    requires forall i, j :: 0 <= i < j < |starts| ==> starts[i] < starts[j]
    ensures Ready(b, first, cs, s', ends, k + 1)
  {
    LaterStarts(b, first, cs, s, ends, k, starts);
    if s.next < |starts| && starts[s.next] + 1 == k {
      PushReady(b, first, cs, s, ends, k);
      s' := Scanner(s.stack + [(s.depth + 1, s.next)], s.depth + 1, s.next + 1, false);
    } else {
      PlainOpenReady(b, first, cs, s, ends, k);
      s' := s.(depth := s.depth + 1);
    }
  }

  function Filled(cs: seq<Candidate>, closed: Option<nat>, k: nat): seq<Candidate> {
    if closed.Some? && closed.value < |cs| && k < cs[closed.value].end
    then cs[closed.value := cs[closed.value].(labelEnd := Some(k))] else cs
  }

  lemma FilledKeepsImages(b: seq<byte>, first: seq<Candidate>, cs: seq<Candidate>, s: Scanner, ends: map<nat, nat>,
                          k: nat, i: nat)
    requires Ready(b, first, cs, s, ends, k) && i < s.next
    ensures var cs' := Filled(cs, Some(i), k);
            && |cs'| == |first| && (forall j :: 0 <= j < |cs'| ==> SameImage(cs'[j], first[j]))
            && (forall j :: s.next <= j < |cs'| ==> WellPlaced(b, cs'[j]))
  {
  }

  lemma PopReady(b: seq<byte>, first: seq<Candidate>, cs: seq<Candidate>, s: Scanner, ends: map<nat, nat>, k: nat)
    requires k < |b| && Ready(b, first, cs, s, ends, k) && !s.escaped && b[k] == CLOSE
    requires s.stack != [] && s.stack[|s.stack| - 1].0 == s.depth
    ensures s.depth > 0 && s.stack[|s.stack| - 1].1 < |cs|
    ensures var n := |s.stack| - 1;
            var i := s.stack[n].1;
            Ready(b, first, Filled(cs, Some(i), k), s.(stack := s.stack[..n], depth := s.depth - 1), ends[i := k],
                  k + 1)
  {
    var i := s.stack[|s.stack| - 1].1;
    assert i < s.next && OpenAt(b, cs[i], s.depth, s.depth, k);
    Pop(b, cs, s.stack, ends, s.depth, s.next, k, Filled(cs, Some(i), k));
    FilledKeepsImages(b, first, cs, s, ends, k, i);
  }

  lemma PlainCloseReady(b: seq<byte>, first: seq<Candidate>, cs: seq<Candidate>, s: Scanner, ends: map<nat, nat>,
                        k: nat)
    requires k < |b| && Ready(b, first, cs, s, ends, k) && !s.escaped && b[k] == CLOSE
    requires s.stack == [] || s.stack[|s.stack| - 1].0 != s.depth
    ensures Ready(b, first, cs, s.(depth := if s.depth == 0 then 0 else s.depth - 1), ends, k + 1)
  {
    PlainClose(b, cs, s.stack, ends, s.depth, s.next, k);
  }

  /** An unescaped `]`: the candidate it closes, if any. */
  method CloseBracket(b: seq<byte>, s: Scanner, k: nat,
                      ghost first: seq<Candidate>, ghost cs: seq<Candidate>, ghost ends: map<nat, nat>)
    returns (s': Scanner, closed: Option<nat>, ghost ends': map<nat, nat>)
    requires k < |b| && Ready(b, first, cs, s, ends, k) && !s.escaped && b[k] == CLOSE
    ensures closed.Some? ==> closed.value < |cs|
    ensures Ready(b, first, Filled(cs, closed, k), s', ends', k + 1)
  {
    if |s.stack| > 0 && s.stack[|s.stack| - 1].0 == s.depth {
      PopReady(b, first, cs, s, ends, k);
      var i := s.stack[|s.stack| - 1].1;
      closed, ends' := Some(i), ends[i := k];
      s' := s.(stack := s.stack[..|s.stack| - 1], depth := s.depth - 1);
    } else {
      PlainCloseReady(b, first, cs, s, ends, k);
      closed, ends' := None, ends;
      s' := s.(depth := if s.depth == 0 then 0 else s.depth - 1);
    }
  }

  lemma OtherByte(b: seq<byte>, first: seq<Candidate>, cs: seq<Candidate>, s: Scanner, ends: map<nat, nat>, k: nat)
    requires k < |b| && Ready(b, first, cs, s, ends, k) && Weight(b, k) == 0
    ensures Ready(b, first, cs, s.(escaped := !s.escaped && b[k] == BACKSLASH), ends, k + 1)
  {
    Skip(b, cs, s.stack, ends, s.depth, s.next, k);
  }

  /** The label end of the closed candidate, recorded if it lies inside the image's range. */
  method Fill(candidates: array<Candidate>, closed: Option<nat>, k: nat)
    requires closed.Some? ==> closed.value < candidates.Length
    modifies candidates
    ensures candidates[..] == Filled(old(candidates[..]), closed, k)
  {
    if closed.Some? && k < candidates[closed.value].end {
      candidates[closed.value] := candidates[closed.value].(labelEnd := Some(k));
    }
  }

  /**
   * `find_image_label_ends`: one pass with a stack of open candidates. Candidates come sorted and with
   * distinct starts, since the parser reports one image per `![`.
   */
  method FindImageLabelEnds(b: seq<byte>, candidates: array<Candidate>)
    requires forall i :: 0 <= i < candidates.Length ==> WellPlaced(b, candidates[i])
    requires forall i, j :: 0 <= i < j < candidates.Length ==> candidates[i].start < candidates[j].start
    modifies candidates
    ensures forall i :: 0 <= i < candidates.Length ==> SameImage(candidates[i], old(candidates[i]))
    ensures forall i :: 0 <= i < candidates.Length ==> Answered(b, candidates[i])
  {
    var s := Scanner([], 0, 0, false);
    ghost var ends: map<nat, nat> := map[];
    ghost var first := candidates[..];
    var starts := seq(candidates.Length, i requires 0 <= i < candidates.Length reads candidates => candidates[i].start);
    for k := 0 to |b|
      invariant Ready(b, first, candidates[..], s, ends, k)
    {
      ghost var cs := candidates[..];
      if s.escaped || (b[k] != OPEN && b[k] != CLOSE) {
        OtherByte(b, first, cs, s, ends, k);
        s := s.(escaped := !s.escaped && b[k] == BACKSLASH);
      } else if b[k] == OPEN {
        SameStarts(b, first, cs, s, ends, k, starts);
        s := OpenBracket(b, starts, s, k, first, cs, ends);
      } else {
        var closed;
        s, closed, ends := CloseBracket(b, s, k, first, cs, ends);
        Fill(candidates, closed, k);
      }
    }
    FinishReady(b, first, candidates[..], s, ends);
  }

  lemma SameStarts(b: seq<byte>, first: seq<Candidate>, cs: seq<Candidate>, s: Scanner, ends: map<nat, nat>, k: nat,
                   starts: seq<nat>)
    requires Ready(b, first, cs, s, ends, k)
    requires |starts| == |first| && forall i :: 0 <= i < |first| ==> starts[i] == first[i].start
    ensures forall i :: 0 <= i < |cs| ==> starts[i] == cs[i].start
  {
    forall i | 0 <= i < |cs| ensures starts[i] == cs[i].start {
      assert SameImage(cs[i], first[i]);
    }
  }

  lemma FinishReady(b: seq<byte>, first: seq<Candidate>, cs: seq<Candidate>, s: Scanner, ends: map<nat, nat>)
    requires Ready(b, first, cs, s, ends, |b|) && forall i :: 0 <= i < |first| ==> first[i].start + 1 < |b|
    ensures forall i :: 0 <= i < |cs| ==> SameImage(cs[i], first[i]) && Answered(b, cs[i])
  {
    forall i | 0 <= i < |cs| ensures cs[i].start + 1 < |b| {
      assert SameImage(cs[i], first[i]);
    }
    Finish(b, cs, s.stack, ends, s.depth, s.next);
  }
}
