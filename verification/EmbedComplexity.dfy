/** The complexity limits on an embed's filter, sort and limit, checked by worklists instead of recursion. */
module EmbedComplexity {
  import opened Common
  import opened BaseFilter

  const MAX_FILTER_DEPTH: nat := 8
  const MAX_FILTER_NODES: nat := 64
  const MAX_LOGICAL_CHILDREN: nat := 32
  const MAX_IN_VALUES: nat := 100
  const MAX_SORT_KEYS: nat := 8
  const MAX_FIELD_BYTES: nat := 256
  const MAX_SCALAR_STRING_BYTES: nat := 4 * 1024
  const MIN_LIMIT: nat := 1
  const MAX_LIMIT: nat := 200

  /** What a request adds to a saved view. */
  datatype Overrides = Overrides(filter: Option<Filter>, sort: Option<seq<string>>, limit: Option<nat>)

  datatype Segment = AllAt(index: nat) | AnyAt(index: nat) | NotChild

  datatype Diagnostic =
    | LimitOutOfRange
    | TooManySortKeys
    | SortFieldTooLong(field: string)
    | TooManyNodes
    | TooDeep(path: seq<Segment>)
    | TooManyChildren(path: seq<Segment>)
    | FieldTooLong(path: seq<Segment>)
    | TooManyInValues(path: seq<Segment>)
    | StringTooLong(path: seq<Segment>)

  // ---- The recursive definition ----

  predicate IsLong(v: Json) {
    v.JString? && |v.s| > MAX_SCALAR_STRING_BYTES
  }

  /** How many oversized strings a value holds, at any depth. */
  function LongStrings(v: Json): nat {
    match v
    case JString(_) => if IsLong(v) then 1 else 0
    case JArray(items) => LongInAll(items)
    case JObject(_, values) => LongInAll(values)
    case _ => 0
  }

  function LongInAll(vs: seq<Json>): nat {
    if vs == [] then 0 else LongInAll(vs[..|vs| - 1]) + LongStrings(vs[|vs| - 1])
  }

  predicate CmpFits(field: string, op: Op, value: Json) {
    |field| <= MAX_FIELD_BYTES && !(op.In? && value.JArray? && |value.items| > MAX_IN_VALUES) && LongStrings(value) == 0
  }

  function Children(f: Filter): seq<Filter> {
    match f
    case All(children) => children
    case Any(children) => children
    case Not(child) => [child]
    case Cmp(_, _, _) => []
  }

  /** One node within its own limits: group width, or the sizes of a comparison. */
  predicate NodeFits(f: Filter) {
    match f
    case Cmp(field, op, value) => CmpFits(field, op, value)
    case Not(_) => true
    case _ => |Children(f)| <= MAX_LOGICAL_CHILDREN
  }

  /** Every node within its limits, none deeper than the maximum, counting from `depth`. */
  predicate Fits(f: Filter, depth: nat) {
    depth <= MAX_FILTER_DEPTH && NodeFits(f) &&
    match f
    case All(children) => forall i :: 0 <= i < |children| ==> Fits(children[i], depth + 1)
    case Any(children) => forall i :: 0 <= i < |children| ==> Fits(children[i], depth + 1)
    case Not(child) => Fits(child, depth + 1)
    case Cmp(_, _, _) => true
  }

  lemma FitsMeans(f: Filter, depth: nat)
    ensures Fits(f, depth) <==>
            && depth <= MAX_FILTER_DEPTH && NodeFits(f)
            && forall i :: 0 <= i < |Children(f)| ==> Fits(Children(f)[i], depth + 1)
  {
    if f.Not? {
      assert Children(f)[0] == f.child;
    }
  }

  function Nodes(f: Filter): (n: nat)
    ensures n >= 1
  {
    match f
    case All(children) => 1 + NodesOfAll(children)
    case Any(children) => 1 + NodesOfAll(children)
    case Not(child) => 1 + Nodes(child)
    case Cmp(_, _, _) => 1
  }

  function NodesOfAll(fs: seq<Filter>): nat {
    if fs == [] then 0 else Nodes(fs[0]) + NodesOfAll(fs[1..])
  }

  lemma NodesMeans(f: Filter)
    ensures Nodes(f) == 1 + NodesOfAll(Children(f))
  {
    if f.Not? {
      assert Children(f)[1..] == [];
    }
  }

  predicate FilterWithinLimits(root: Filter) {
    Fits(root, 1) && Nodes(root) <= MAX_FILTER_NODES
  }

  predicate WithinLimits(o: Overrides) {
    && (o.limit.Some? ==> MIN_LIMIT <= o.limit.value <= MAX_LIMIT)
    && (o.sort.Some? ==> |o.sort.value| <= MAX_SORT_KEYS
                         && forall i :: 0 <= i < |o.sort.value| ==> |o.sort.value[i]| <= MAX_FIELD_BYTES)
    && (o.filter.Some? ==> FilterWithinLimits(o.filter.value))
  }

  // ---- Where a diagnostic points ----

  function Step(f: Filter, s: Segment): Option<Filter> {
    match s
    case AllAt(i) => if f.All? && i < |f.children| then Some(f.children[i]) else None
    case AnyAt(i) => if f.Any? && i < |f.children| then Some(f.children[i]) else None
    case NotChild => if f.Not? then Some(f.child) else None
  }

  /** The node a path leads to. */
  function Resolve(root: Filter, path: seq<Segment>): Option<Filter> {
    if path == [] then Some(root)
    else
      var parent := Resolve(root, path[..|path| - 1]);
      if parent.None? then None else Step(parent.value, path[|path| - 1])
  }

  lemma ResolveChild(root: Filter, path: seq<Segment>, s: Segment)
    requires Resolve(root, path).Some?
    ensures Resolve(root, path + [s]) == Step(Resolve(root, path).value, s)
  {
    assert (path + [s])[..|path|] == path;
  }

  /** The diagnostic names a limit that its own node, or the whole filter, really exceeds. */
  ghost predicate Justified(root: Filter, d: Diagnostic) {
    match d
    case TooManyNodes => Nodes(root) > MAX_FILTER_NODES
    case TooDeep(path) => Resolve(root, path).Some? && |path| + 1 > MAX_FILTER_DEPTH
    case TooManyChildren(path) =>
      Resolve(root, path).Some? && |Children(Resolve(root, path).value)| > MAX_LOGICAL_CHILDREN
    case FieldTooLong(path) =>
      (match Resolve(root, path) case Some(Cmp(field, _, _)) => |field| > MAX_FIELD_BYTES case _ => false)
    case TooManyInValues(path) =>
      (match Resolve(root, path)
       case Some(Cmp(_, op, value)) => op.In? && value.JArray? && |value.items| > MAX_IN_VALUES
       case _ => false)
    case StringTooLong(path) =>
      (match Resolve(root, path) case Some(Cmp(_, _, value)) => LongStrings(value) > 0 case _ => false)
    case _ => false
  }

  // ---- The string worklist ----

  function JsonSize(v: Json): (n: nat)
    ensures n >= 1
  {
    match v
    case JArray(items) => 1 + SizeOfAll(items)
    case JObject(_, values) => 1 + SizeOfAll(values)
    case _ => 1
  }

  function SizeOfAll(vs: seq<Json>): nat {
    if vs == [] then 0 else SizeOfAll(vs[..|vs| - 1]) + JsonSize(vs[|vs| - 1])
  }

  lemma {:induction false} MeasureConcat(a: seq<Json>, b: seq<Json>)
    ensures LongInAll(a + b) == LongInAll(a) + LongInAll(b) && SizeOfAll(a + b) == SizeOfAll(a) + SizeOfAll(b)
    decreases |b|
  {
    if b == [] {
      assert a + b == a;
    } else {
      var front := b[..|b| - 1];
      assert (a + b)[..|a + b| - 1] == a + front;
      MeasureConcat(a, front);
    }
  }

  /** `validate_string_sizes`: one diagnostic per oversized string, wherever it is nested. */
  method ValidateStringSizes(value: Json, path: seq<Segment>) returns (ds: seq<Diagnostic>)
    ensures |ds| == LongStrings(value) && forall i :: 0 <= i < |ds| ==> ds[i] == StringTooLong(path)
  {
    ds := [];
    var stack := [value];
    assert stack[..0] == [];
    while stack != []
      invariant |ds| + LongInAll(stack) == LongStrings(value)
      invariant forall i :: 0 <= i < |ds| ==> ds[i] == StringTooLong(path)
      decreases SizeOfAll(stack)
    {
      var v, rest := stack[|stack| - 1], stack[..|stack| - 1];
      assert SizeOfAll(stack) == SizeOfAll(rest) + JsonSize(v);
      if IsLong(v) {
        ds := ds + [StringTooLong(path)];
        stack := rest;
      } else if v.JArray? {
        MeasureConcat(rest, v.items);
        stack := rest + v.items;
      } else if v.JObject? {
        MeasureConcat(rest, v.values);
        stack := rest + v.values;
      } else {
        stack := rest;
      }
    }
  }

  // ---- The filter worklist ----

  datatype Entry = Entry(filter: Filter, depth: nat, path: seq<Segment>)

  function SumNodes(stack: seq<Entry>): nat {
    if stack == [] then 0 else SumNodes(stack[..|stack| - 1]) + Nodes(stack[|stack| - 1].filter)
  }

  predicate EntryFits(e: Entry) {
    Fits(e.filter, e.depth)
  }

  predicate AllFit(stack: seq<Entry>) {
    forall i :: 0 <= i < |stack| ==> EntryFits(stack[i])
  }

  /** The entry is the node its path leads to, at the depth the path's length says. */
  ghost predicate At(root: Filter, e: Entry) {
    Resolve(root, e.path) == Some(e.filter) && e.depth == |e.path| + 1
  }

  ghost predicate Located(root: Filter, stack: seq<Entry>) {
    forall i :: 0 <= i < |stack| ==> At(root, stack[i])
  }

  /** The children still to be pushed from index `k` up, deepest index first. */
  function Pushed(e: Entry, k: nat): (r: seq<Entry>)
    requires k <= |Children(e.filter)|
    decreases |Children(e.filter)| - k
  {
    if k == |Children(e.filter)| then [] else Pushed(e, k + 1) + [ChildEntry(e, k)]
  }

  function ChildEntry(e: Entry, k: nat): Entry
    requires k < |Children(e.filter)|
  {
    var segment := if e.filter.All? then AllAt(k) else if e.filter.Any? then AnyAt(k) else NotChild;
    Entry(Children(e.filter)[k], e.depth + 1, e.path + [segment])
  }

  lemma ChildAt(root: Filter, e: Entry, k: nat)
    requires k < |Children(e.filter)| && At(root, e)
    ensures At(root, ChildEntry(e, k))
  {
    var c := ChildEntry(e, k);
    ResolveChild(root, e.path, c.path[|e.path|]);
  }

  lemma SumNodesPush(stack: seq<Entry>, e: Entry)
    ensures SumNodes(stack + [e]) == SumNodes(stack) + Nodes(e.filter)
  {
    assert (stack + [e])[..|stack|] == stack;
  }

  lemma {:induction false} PushedNodes(rest: seq<Entry>, e: Entry, k: nat)
    requires k <= |Children(e.filter)|
    ensures SumNodes(rest + Pushed(e, k)) == SumNodes(rest) + NodesOfAll(Children(e.filter)[k..])
    decreases |Children(e.filter)| - k
  {
    var cs := Children(e.filter);
    if k == |cs| {
      assert rest + Pushed(e, k) == rest;
    } else {
      PushedNodes(rest, e, k + 1);
      assert rest + Pushed(e, k) == (rest + Pushed(e, k + 1)) + [ChildEntry(e, k)];
      SumNodesPush(rest + Pushed(e, k + 1), ChildEntry(e, k));
      assert cs[k..][1..] == cs[k + 1..];
    }
  }

  /** Which entries are pushed: one per child, the last child deepest. */
  lemma {:induction false} PushedAt(e: Entry, k: nat)
    requires k <= |Children(e.filter)|
    ensures var n := |Children(e.filter)|;
            |Pushed(e, k)| == n - k && forall i :: 0 <= i < n - k ==> Pushed(e, k)[i] == ChildEntry(e, n - 1 - i)
    decreases |Children(e.filter)| - k
  {
    if k < |Children(e.filter)| {
      PushedAt(e, k + 1);
    }
  }

  lemma PushedLocated(root: Filter, e: Entry)
    requires At(root, e)
    ensures Located(root, Pushed(e, 0))
  {
    PushedAt(e, 0);
    var n := |Children(e.filter)|;
    forall i | 0 <= i < |Pushed(e, 0)| ensures At(root, Pushed(e, 0)[i]) {
      ChildAt(root, e, n - 1 - i);
    }
  }

  lemma PushedEntry(e: Entry, i: nat)
    requires i < |Children(e.filter)|
    ensures |Pushed(e, 0)| == |Children(e.filter)|
    ensures EntryFits(Pushed(e, 0)[|Children(e.filter)| - 1 - i]) <==> Fits(Children(e.filter)[i], e.depth + 1)
  {
    PushedAt(e, 0);
  }

  lemma PushedFitsIfChildrenDo(e: Entry)
    ensures AllFit(Pushed(e, 0)) <==>
            forall i :: 0 <= i < |Children(e.filter)| ==> Fits(Children(e.filter)[i], e.depth + 1)
  {
    var cs, pushed := Children(e.filter), Pushed(e, 0);
    PushedAt(e, 0);
    if AllFit(pushed) {
      forall i | 0 <= i < |cs| ensures Fits(cs[i], e.depth + 1) {
        PushedEntry(e, i);
      }
    }
    if forall i :: 0 <= i < |cs| ==> Fits(cs[i], e.depth + 1) {
      forall i | 0 <= i < |pushed| ensures EntryFits(pushed[i]) {
        PushedEntry(e, |cs| - 1 - i);
      }
    }
  }

  lemma PushedFit(e: Entry)
    requires e.depth <= MAX_FILTER_DEPTH && NodeFits(e.filter)
    ensures AllFit(Pushed(e, 0)) <==> EntryFits(e)
  {
    PushedFitsIfChildrenDo(e);
    FitsMeans(e.filter, e.depth);
  }

  lemma AllFitConcat(a: seq<Entry>, b: seq<Entry>)
    ensures AllFit(a + b) <==> AllFit(a) && AllFit(b)
  {
    if AllFit(a + b) {
      forall i | 0 <= i < |a| ensures EntryFits(a[i]) {
        assert EntryFits((a + b)[i]);
      }
      forall i | 0 <= i < |b| ensures EntryFits(b[i]) {
        assert EntryFits((a + b)[|a| + i]);
      }
    }
  }

  /** The checks on one comparison. */
  method CheckComparison(field: string, op: Op, value: Json, path: seq<Segment>, ghost root: Filter)
    returns (ds: seq<Diagnostic>)
    requires Resolve(root, path) == Some(Cmp(field, op, value))
    ensures ds == [] <==> CmpFits(field, op, value)
    ensures forall i :: 0 <= i < |ds| ==> Justified(root, ds[i])
  {
    ds := [];
    if |field| > MAX_FIELD_BYTES {
      ds := ds + [FieldTooLong(path)];
    }
    if op.In? && value.JArray? && |value.items| > MAX_IN_VALUES {
      ds := ds + [TooManyInValues(path)];
    }
    var strings := ValidateStringSizes(value, path);
    ds := ds + strings;
  }

  ghost predicate AllJustified(root: Filter, ds: seq<Diagnostic>) {
    forall i :: 0 <= i < |ds| ==> Justified(root, ds[i])
  }

  lemma JustifiedConcat(root: Filter, a: seq<Diagnostic>, b: seq<Diagnostic>)
    requires AllJustified(root, a) && AllJustified(root, b)
    ensures AllJustified(root, a + b)
  {
  }

  /**
   * What the walk knows: while nothing is reported, the verdict on the root is the verdict on what is left to
   * visit.
   */
  ghost predicate Tracks(root: Filter, stack: seq<Entry>, count: nat, ds: seq<Diagnostic>) {
    && count + SumNodes(stack) <= Nodes(root)
    && (ds == [] ==> count + SumNodes(stack) == Nodes(root) && (AllFit(stack) <==> Fits(root, 1)))
    && (ds != [] ==> !FilterWithinLimits(root))
    && AllJustified(root, ds)
    && Located(root, stack)
  }

  lemma Split(stack: seq<Entry>)
    requires stack != []
    ensures var rest, e := stack[..|stack| - 1], stack[|stack| - 1];
            && stack == rest + [e] && SumNodes(stack) == SumNodes(rest) + Nodes(e.filter)
            && (AllFit(stack) <==> AllFit(rest) && EntryFits(e))
  {
    var rest, e := stack[..|stack| - 1], stack[|stack| - 1];
    assert stack == rest + [e];
    AllFitConcat(rest, [e]);
    assert AllFit([e]) <==> EntryFits([e][0]);
  }

  lemma DropTop(root: Filter, stack: seq<Entry>, count: nat, ds: seq<Diagnostic>, more: seq<Diagnostic>)
    requires stack != [] && Tracks(root, stack, count, ds)
    requires more != [] && !EntryFits(stack[|stack| - 1]) && AllJustified(root, more)
    ensures Tracks(root, stack[..|stack| - 1], count + 1, ds + more)
  {
    Split(stack);
    JustifiedConcat(root, ds, more);
  }

  lemma ExpandNodes(rest: seq<Entry>, e: Entry)
    ensures SumNodes(rest + Pushed(e, 0)) + 1 == SumNodes(rest) + Nodes(e.filter)
  {
    PushedNodes(rest, e, 0);
    assert Children(e.filter)[0..] == Children(e.filter);
    NodesMeans(e.filter);
  }

  lemma ExpandFit(rest: seq<Entry>, e: Entry)
    requires e.depth <= MAX_FILTER_DEPTH && NodeFits(e.filter)
    ensures AllFit(rest + Pushed(e, 0)) <==> AllFit(rest) && EntryFits(e)
  {
    PushedFit(e);
    AllFitConcat(rest, Pushed(e, 0));
  }

  lemma ExpandLocated(root: Filter, stack: seq<Entry>)
    requires stack != [] && Located(root, stack)
    ensures Located(root, stack[..|stack| - 1] + Pushed(stack[|stack| - 1], 0))
  {
    PushedLocated(root, stack[|stack| - 1]);
  }

  /** Popping a node that is fine itself and pushing its children keeps the verdict. */
  lemma Expand(root: Filter, stack: seq<Entry>, count: nat, ds: seq<Diagnostic>)
    requires stack != [] && Tracks(root, stack, count, ds)
    requires var e := stack[|stack| - 1]; e.depth <= MAX_FILTER_DEPTH && NodeFits(e.filter)
    ensures Tracks(root, stack[..|stack| - 1] + Pushed(stack[|stack| - 1], 0), count + 1, ds)
  {
    Split(stack);
    ExpandNodes(stack[..|stack| - 1], stack[|stack| - 1]);
    ExpandFit(stack[..|stack| - 1], stack[|stack| - 1]);
    ExpandLocated(root, stack);
  }

  method PushChildren(rest: seq<Entry>, e: Entry) returns (stack: seq<Entry>)
    ensures stack == rest + Pushed(e, 0)
  {
    stack := rest;
    var cs := Children(e.filter);
    for k := |cs| downto 0
      invariant stack == rest + Pushed(e, k)
    {
      stack := stack + [ChildEntry(e, k)];
    }
  }

  /** The walk: it stops after the 65th node, and reports nothing exactly when the filter is within limits. */
  method WalkFilter(root: Filter) returns (ds: seq<Diagnostic>, pops: nat)
    ensures ds == [] <==> FilterWithinLimits(root)
    ensures forall i :: 0 <= i < |ds| ==> Justified(root, ds[i])
    ensures pops <= MAX_FILTER_NODES + 1
  {
    ds, pops := [], 0;
    var stack := [Entry(root, 1, [])];
    assert stack[..0] == [];
    while stack != []
      invariant pops <= MAX_FILTER_NODES && Tracks(root, stack, pops, ds)
      decreases MAX_FILTER_NODES + 1 - pops
    {
      ghost var before := stack;
      var e, rest := stack[|stack| - 1], stack[..|stack| - 1];
      if pops == MAX_FILTER_NODES {
        assert SumNodes(stack) >= 1;
        return ds + [TooManyNodes], pops + 1;
      }
      if e.depth > MAX_FILTER_DEPTH {
        DropTop(root, before, pops, ds, [TooDeep(e.path)]);
        ds, stack := ds + [TooDeep(e.path)], rest;
      } else if e.filter.Cmp? {
        var more := CheckComparison(e.filter.field, e.filter.op, e.filter.value, e.path, root);
        if more == [] {
          Expand(root, before, pops, ds);
          assert rest + Pushed(e, 0) == rest;
        } else {
          DropTop(root, before, pops, ds, more);
        }
        ds, stack := ds + more, rest;
      } else if !e.filter.Not? && |Children(e.filter)| > MAX_LOGICAL_CHILDREN {
        DropTop(root, before, pops, ds, [TooManyChildren(e.path)]);
        ds, stack := ds + [TooManyChildren(e.path)], rest;
      } else {
        Expand(root, before, pops, ds);
        stack := PushChildren(rest, e);
      }
      pops := pops + 1;
    }
  }

  /** The checks on the requested sort keys. */
  method CheckSort(sort: seq<string>) returns (ds: seq<Diagnostic>)
    ensures TooManySortKeys in ds <==> |sort| > 8
    ensures forall d :: d in ds ==> d == TooManySortKeys || d.SortFieldTooLong?
    ensures forall f :: SortFieldTooLong(f) in ds <==> f in sort && |f| > 256
    ensures ds == [] <==> |sort| <= MAX_SORT_KEYS && forall i :: 0 <= i < |sort| ==> |sort[i]| <= MAX_FIELD_BYTES
  {
    ds := [];
    if |sort| > MAX_SORT_KEYS {
      ds := ds + [TooManySortKeys];
    }
    for i := 0 to |sort|
      invariant TooManySortKeys in ds <==> |sort| > 8
      invariant forall d :: d in ds ==> d == TooManySortKeys || d.SortFieldTooLong?
      invariant forall f :: SortFieldTooLong(f) in ds <==> f in sort[..i] && |f| > 256
    {
      assert sort[..i + 1] == sort[..i] + [sort[i]];
      if |sort[i]| > MAX_FIELD_BYTES {
        ds := ds + [SortFieldTooLong(sort[i])];
      }
    }
    assert sort[..|sort|] == sort;
    if ds != [] {
      assert ds[0] in ds;
    }
  }

  /**
   * `validate_complexity`: no diagnostic if and only if the request satisfies the recursive definition; the limit and
   * the sort keys are reported exactly when they exceed theirs, and every other diagnostic is the filter's.
   */
  method ValidateComplexity(o: Overrides) returns (ds: seq<Diagnostic>)
    ensures ds == [] <==> WithinLimits(o)
    ensures LimitOutOfRange in ds <==> o.limit.Some? && !(1 <= o.limit.value <= 200)
    ensures TooManySortKeys in ds <==> o.sort.Some? && |o.sort.value| > 8
    ensures forall f :: SortFieldTooLong(f) in ds <==> o.sort.Some? && f in o.sort.value && |f| > 256
    ensures forall d :: d in ds && !d.LimitOutOfRange? && !d.TooManySortKeys? && !d.SortFieldTooLong? ==>
                          o.filter.Some? && Justified(o.filter.value, d)
  {
    ds := [];
    if o.limit.Some? && !(MIN_LIMIT <= o.limit.value <= MAX_LIMIT) {
      ds := ds + [LimitOutOfRange];
    }
    if o.sort.Some? {
      var found := CheckSort(o.sort.value);
      ds := ds + found;
    }
    if o.filter.Some? {
      var found, _ := WalkFilter(o.filter.value);
      ds := ds + found;
    }
  }

  // ---- The limits, node by node ----

  /** `x` is the value itself or a part of it, at any depth. */
  ghost predicate Within(x: Json, v: Json) {
    || x == v
    || (v.JArray? && exists i :: 0 <= i < |v.items| && Within(x, v.items[i]))
    || (v.JObject? && exists i :: 0 <= i < |v.values| && Within(x, v.values[i]))
  }

  ghost predicate NoLongString(v: Json) {
    forall x :: Within(x, v) && x.JString? ==> |x.s| <= 4096
  }

  lemma {:induction false} LongStringsMean(v: Json)
    ensures LongStrings(v) == 0 <==> NoLongString(v)
    decreases v
  {
    match v
    case JArray(items) =>
      LongInAllMeans(items);
      forall i | 0 <= i < |items| ensures LongStrings(items[i]) == 0 <==> NoLongString(items[i]) {
        LongStringsMean(items[i]);
      }
      PartsMean(v, items);
    case JObject(_, values) =>
      LongInAllMeans(values);
      forall i | 0 <= i < |values| ensures LongStrings(values[i]) == 0 <==> NoLongString(values[i]) {
        LongStringsMean(values[i]);
      }
      PartsMean(v, values);
    case JString(_) =>
      assert Within(v, v);
    case _ =>
  }

  lemma {:induction false} LongInAllMeans(vs: seq<Json>)
    ensures LongInAll(vs) == 0 <==> forall i :: 0 <= i < |vs| ==> LongStrings(vs[i]) == 0
  {
    if vs != [] {
      LongInAllMeans(vs[..|vs| - 1]);
      assert forall i :: 0 <= i < |vs| - 1 ==> vs[..|vs| - 1][i] == vs[i];
    }
  }

  lemma PartsMean(v: Json, parts: seq<Json>)
    requires (v.JArray? && parts == v.items) || (v.JObject? && parts == v.values)
    ensures NoLongString(v) <==> forall i :: 0 <= i < |parts| ==> NoLongString(parts[i])
  {
    if NoLongString(v) {
      forall i, x | 0 <= i < |parts| && Within(x, parts[i]) && x.JString? ensures |x.s| <= 4096 {
        assert Within(x, v);
      }
    }
    if forall i :: 0 <= i < |parts| ==> NoLongString(parts[i]) {
      forall x | Within(x, v) && x.JString? ensures |x.s| <= 4096 {
        var i :| 0 <= i < |parts| && Within(x, parts[i]);
      }
    }
  }

  /** One node's own limits, in numbers. */
  ghost predicate NodeOk(f: Filter) {
    match f
    case All(children) => |children| <= 32
    case Any(children) => |children| <= 32
    case Not(_) => true
    case Cmp(field, op, value) =>
      |field| <= 256 && (op == In && value.JArray? ==> |value.items| <= 100) && NoLongString(value)
  }

  lemma NodeMeans(f: Filter)
    ensures NodeFits(f) <==> NodeOk(f)
  {
    if f.Cmp? {
      LongStringsMean(f.value);
    }
  }

  lemma {:induction false} ResolveFirst(root: Filter, s: Segment, path: seq<Segment>)
    ensures Resolve(root, [s] + path) == if Step(root, s).Some? then Resolve(Step(root, s).value, path) else None
  {
    if path == [] {
      assert [s] + path == [s] && [s][..0] == [];
      ResolveChild(root, [], s);
    } else {
      var front, last := path[..|path| - 1], path[|path| - 1];
      ResolveFirst(root, s, front);
      assert ([s] + path)[..|path|] == [s] + front && ([s] + path)[|path|] == last;
    }
  }

  /** The node at the end of a path, if there is one, is within its limits and not too deep. */
  ghost predicate PlaceOk(f: Filter, depth: nat, path: seq<Segment>) {
    Resolve(f, path).Some? ==> depth + |path| <= 8 && NodeOk(Resolve(f, path).value)
  }

  ghost predicate AllPlacesOk(f: Filter, depth: nat) {
    forall path :: PlaceOk(f, depth, path)
  }

  function SegmentTo(f: Filter, i: nat): Segment {
    if f.All? then AllAt(i) else if f.Any? then AnyAt(i) else NotChild
  }

  lemma StepsAreChildren(f: Filter, s: Segment)
    ensures Step(f, s).Some? <==> exists i :: 0 <= i < |Children(f)| && s == SegmentTo(f, i)
    ensures forall i :: 0 <= i < |Children(f)| && s == SegmentTo(f, i) ==> Step(f, s) == Some(Children(f)[i])
  {
    if Step(f, s).Some? {
      var i := if s.NotChild? then 0 else s.index;
      assert 0 <= i < |Children(f)| && s == SegmentTo(f, i);
    }
  }

  /** The recursive definition, said of places: every node is within its limits, and its depth at most eight. */
  lemma {:induction false} FitsEverywhere(f: Filter, depth: nat)
    ensures Fits(f, depth) <==> AllPlacesOk(f, depth)
    decreases f
  {
    FitsMeans(f, depth);
    NodeMeans(f);
    forall i | 0 <= i < |Children(f)|
      ensures Fits(Children(f)[i], depth + 1) <==> AllPlacesOk(Children(f)[i], depth + 1)
    {
      ChildIsSmaller(f, i);
      FitsEverywhere(Children(f)[i], depth + 1);
    }
    if Fits(f, depth) {
      forall path ensures PlaceOk(f, depth, path) {
        FittingPlaces(f, depth, path);
      }
    }
    if AllPlacesOk(f, depth) {
      assert PlaceOk(f, depth, []);
      forall i | 0 <= i < |Children(f)| ensures AllPlacesOk(Children(f)[i], depth + 1) {
        ChildPlaces(f, depth, i);
      }
    }
  }

  lemma ChildPlaces(f: Filter, depth: nat, i: nat)
    requires AllPlacesOk(f, depth) && i < |Children(f)|
    ensures AllPlacesOk(Children(f)[i], depth + 1)
  {
    var child, deeper := Children(f)[i], depth + 1;
    forall path ensures PlaceOk(child, deeper, path) {
      StepsAreChildren(f, SegmentTo(f, i));
      ResolveFirst(f, SegmentTo(f, i), path);
      assert PlaceOk(f, depth, [SegmentTo(f, i)] + path);
    }
  }

  lemma ChildIsSmaller(f: Filter, i: nat)
    requires i < |Children(f)|
    ensures Children(f)[i] < f
  {
  }

  lemma FittingPlaces(f: Filter, depth: nat, path: seq<Segment>)
    requires depth <= 8 && NodeOk(f)
    requires forall i :: 0 <= i < |Children(f)| ==> AllPlacesOk(Children(f)[i], depth + 1)
    ensures PlaceOk(f, depth, path)
  {
    if path != [] {
      var s, rest := path[0], path[1..];
      assert path == [s] + rest;
      ResolveFirst(f, s, rest);
      StepsAreChildren(f, s);
      if Step(f, s).Some? {
        var i :| 0 <= i < |Children(f)| && s == SegmentTo(f, i);
        assert PlaceOk(Children(f)[i], depth + 1, rest);
      }
    }
  }

  /** What a request may ask for, in numbers. */
  lemma LimitsInNumbers(o: Overrides)
    ensures WithinLimits(o) <==>
            && (o.limit.Some? ==> 1 <= o.limit.value <= 200)
            && (o.sort.Some? ==> |o.sort.value| <= 8 && forall f :: f in o.sort.value ==> |f| <= 256)
            && (o.filter.Some? ==> Nodes(o.filter.value) <= 64 && AllPlacesOk(o.filter.value, 1))
  {
    if o.filter.Some? {
      FitsEverywhere(o.filter.value, 1);
    }
  }
}
