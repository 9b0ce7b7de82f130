/** What a base filter means on a page, in memory: the matcher the editor and the member checks use. */
module BaseFilter {
  import opened Common
  import opened Calendar

  datatype PropertyType = Text | Number | Bool | Date | Datetime | Select | MultiSelect | Url | Relation {
    predicate SupportsContains() { !Number? && !Bool? }
    predicate SupportsLinksTo() { Relation? }
    predicate SupportsRelativeDate() { Date? || Datetime? }
    predicate SupportsAffix() { Text? || Url? }
  }

  datatype Op =
    | Eq | Ne | Lt | Lte | Gt | Gte
    | Contains | NotContains | StartsWith | EndsWith | In | LinksTo | IsEmpty | NotEmpty
    | IsToday | IsThisWeek | IsPastWeek | IsNextWeek | IsThisMonth
  {
    predicate IsRelativeDate() { IsToday? || IsThisWeek? || IsPastWeek? || IsNextWeek? || IsThisMonth? }
    predicate IsAffix() { StartsWith? || EndsWith? }
  }

  /** An IEEE double up to rounding: comparison is partial because of NaN. */
  datatype F64 = NaN | NegInf | Finite(value: real) | PosInf

  datatype Json =
    | Null
    | JBool(b: bool)
    | JNumber(number: real, text: string)
    | JString(s: string)
    | JArray(items: seq<Json>)
    | JObject(keys: seq<string>, values: seq<Json>)

  datatype Toml =
    | TString(s: string)
    | TInteger(i: int)
    | TFloat(f: F64)
    | TBool(b: bool)
    | TDatetime(text: string)
    | TArray(items: seq<Toml>)
    | TTable

  datatype Comparable = CText(text: string) | CNumber(number: F64) | CBool(b: bool)

  datatype Ordering = Less | Equal | Greater

  datatype LinkTarget = LinkTarget(canonical: string, id: Option<string>)

  /** The evaluation date, its text, and the library calls the matcher makes. */
  datatype Env = Env(
    today: CivilDate,
    todayText: string,
    parseDate: string -> Option<int>,        // `%Y-%m-%d` on ten characters, as a day number
    numberText: F64 -> string,
    canonical: string -> string,
    normalizeLink: string -> (string, string))  // target id and canonical name

  datatype Filter =
    | All(children: seq<Filter>)
    | Any(children: seq<Filter>)
    | Not(child: Filter)
    | Cmp(field: string, op: Op, value: Json)

  datatype SysField =
    | Id | Path | Title | Kind | Project | Tags | Aliases | CreatedAt | UpdatedAt | Encryption | JournalDate | WordCount
  {
    function PropertyTypeOf(): PropertyType {
      if Encryption? then PropertyType.Bool
      else if WordCount? then Number
      else if JournalDate? then Date
      else Text
    }
    predicate SupportsRelativeDate() { CreatedAt? || UpdatedAt? || JournalDate? }
  }

  datatype Resolved = Sys(sys: SysField) | Prop(key: string, ty: PropertyType)

  /** A base's schema: how field names resolve, and which property keys it declares (or has built in). */
  datatype Schema = Schema(resolve: string -> Option<Resolved>, hasProperty: string -> bool)

  /** The page side of `MetaFilterContext`, with kind and tags already resolved. */
  datatype Page = Page(
    id: string, path: string, title: Option<string>, kind: string, project: Option<string>,
    tags: seq<string>, aliases: seq<string>,
    createdAt: Option<string>, updatedAt: Option<string>, encrypted: bool,
    extra: map<string, Toml>,
    wordCount: Option<nat>, journalDate: Option<string>,
    links: map<string, seq<LinkTarget>>)

  // ---- Scalars ----

  predicate TomlIsEmpty(v: Toml) {
    (v.TString? && v.s == "") || (v.TArray? && v.items == [])
  }

  function CurrentScalar(v: Toml, ty: PropertyType): Option<Comparable> {
    match ty
    case Number =>
      (match v case TInteger(i) => Some(CNumber(Finite(i as real))) case TFloat(f) => Some(CNumber(f)) case _ => None)
    case Bool => if v.TBool? then Some(CBool(v.b)) else None
    case Date => if v.TDatetime? then Some(CText(v.text)) else None
    case Datetime => if v.TDatetime? then Some(CText(v.text)) else None
    case _ => if v.TString? then Some(CText(v.s)) else None
  }

  function BoolText(b: bool): string {
    if b then "true" else "false"
  }

  function ExpectedScalar(ty: PropertyType, v: Json): Option<Comparable> {
    match ty
    case Number => if v.JNumber? then Some(CNumber(Finite(v.number))) else None
    case Bool => if v.JBool? then Some(CBool(v.b)) else None
    case _ =>
      (match v
       case JString(s) => Some(CText(s))
       case JNumber(_, text) => Some(CText(text))
       case JBool(b) => Some(CText(BoolText(b)))
       case _ => None)
  }

  function CompareText(a: string, b: string): Ordering {
    if a == "" && b == "" then Equal
    else if a == "" then Less
    else if b == "" then Greater
    else if a[0] != b[0] then (if a[0] < b[0] then Less else Greater)
    else CompareText(a[1..], b[1..])
  }

  function CompareNumber(a: F64, b: F64): Option<Ordering> {
    if a.NaN? || b.NaN? then None
    else if a == b then Some(Equal)
    else if a.NegInf? || b.PosInf? || (a.Finite? && b.Finite? && a.value < b.value) then Some(Less)
    else Some(Greater)
  }

  function CompareScalar(a: Comparable, b: Comparable): Option<Ordering> {
    if a.CText? && b.CText? then Some(CompareText(a.text, b.text))
    else if a.CNumber? && b.CNumber? then CompareNumber(a.number, b.number)
    else if a.CBool? && b.CBool? then Some(if a.b == b.b then Equal else if b.b then Less else Greater)
    else None
  }

  predicate ScalarEqual(a: Comparable, b: Comparable) {
    CompareScalar(a, b) == Some(Equal)
  }

  function SqlText(env: Env, c: Comparable): string {
    match c
    case CText(text) => text
    case CNumber(n) => env.numberText(n)
    case CBool(b) => if b then "1" else "0"
  }

  function LowerAscii(c: char): char {
    if 'A' <= c <= 'Z' then (c as int + 32) as char else c
  }

  predicate EqualsIgnoringCase(a: string, b: string) {
    |a| == |b| && forall i :: 0 <= i < |a| ==> LowerAscii(a[i]) == LowerAscii(b[i])
  }

  predicate SqlContains(env: Env, current: Comparable, expected: Comparable) {
    var c, e := SqlText(env, current), SqlText(env, expected);
    e == "" || exists i :: 0 <= i <= |c| - |e| && EqualsIgnoringCase(c[i..][..|e|], e)
  }

  predicate SqlAffix(env: Env, current: Comparable, expected: Comparable, prefix: bool) {
    var c, e := SqlText(env, current), SqlText(env, expected);
    |e| <= |c| && EqualsIgnoringCase(if prefix then c[..|e|] else c[|c| - |e|..], e)
  }

  // ---- Dates ----

  function DateFace(env: Env, text: string): Option<int> {
    if |text| >= 10 then env.parseDate(text[..10]) else None
  }

  /** The half-open window of a relative-date operator, in day numbers. */
  function RelativeDateWindow(op: Op, today: CivilDate): Option<(int, int)> {
    var day := DayNumber(today);
    match op
    case IsToday => Some((day, day + 1))
    case IsThisWeek => Some((day - Weekday(day), day - Weekday(day) + 7))
    case IsPastWeek => Some((day - 7, day + 1))
    case IsNextWeek => Some((day + 1, day + 8))
    case IsThisMonth => Some((DayNumber(FirstOfMonth(today)), DayNumber(FirstOfNextMonth(today))))
    case _ => None
  }

  // ---- The matcher ----

  predicate OrderingHolds(op: Op, ordering: Option<Ordering>) {
    match op
    case Eq => ordering == Some(Equal)
    case Ne => ordering != Some(Equal)
    case Lt => ordering == Some(Less)
    case Lte => ordering.Some? && ordering.value != Greater
    case Gt => ordering == Some(Greater)
    case Gte => ordering.Some? && ordering.value != Less
    case _ => false
  }

  predicate AllTyped(ty: PropertyType, values: seq<Json>) {
    forall i :: 0 <= i < |values| ==> ExpectedScalar(ty, values[i]).Some?
  }

  /** The fold over an `in` list: no verdict as soon as one member has the wrong type. */
  function FoldIn(current: Comparable, ty: PropertyType, values: seq<Json>, matched: bool): Option<bool> {
    if values == [] then Some(matched)
    else match ExpectedScalar(ty, values[0])
         case None => None
         case Some(expected) => FoldIn(current, ty, values[1..], matched || ScalarEqual(current, expected))
  }

  predicate ScalarMatches(env: Env, current: Option<Comparable>, ty: PropertyType, op: Op, value: Json,
                          membership: bool) {
    if op.IsEmpty? then current.None?
    else if op.NotEmpty? then current.Some?
    else if op.IsRelativeDate() then
      && ty.SupportsRelativeDate()
      && var window := RelativeDateWindow(op, env.today);
      && window.Some? && current.Some?
      && var day := DateFace(env, SqlText(env, current.value));
      && day.Some? && window.value.0 <= day.value < window.value.1
    else if (op.Contains? || op.NotContains?) && !ty.SupportsContains() then false
    else match current
         case None => (op.Ne? || op.NotContains?) && ExpectedScalar(ty, value).Some?
         case Some(c) =>
           if op.In? then value.JArray? && FoldIn(c, ty, value.items, false) == Some(true)
           else if op.IsAffix() && !ty.SupportsAffix() then false
           else if op.LinksTo? then false
           else match ExpectedScalar(ty, value)
                case None => false
                case Some(e) =>
                  if op.Contains? then (if membership then ScalarEqual(c, e) else SqlContains(env, c, e))
                  else if op.NotContains? then (if membership then !ScalarEqual(c, e) else !SqlContains(env, c, e))
                  else if op.IsAffix() then SqlAffix(env, c, e, op.StartsWith?)
                  else OrderingHolds(op, CompareScalar(c, e))
  }

  predicate IsMembership(ty: PropertyType) {
    ty.Select? || ty.MultiSelect? || ty.Relation?
  }

  predicate PropertyScalarMatches(env: Env, current: Toml, ty: PropertyType, op: Op, value: Json) {
    !op.LinksTo? && ScalarMatches(env, CurrentScalar(current, ty), ty, op, value, IsMembership(ty))
  }

  predicate LinkMatches(t: LinkTarget, expected: (string, string)) {
    t.id == Some(expected.0) || t.canonical == expected.1
  }

  function Positive(op: Op): Op {
    if op.Ne? then Eq else if op.NotContains? then Contains else op
  }

  /** Over a list, a negation holds only if no item matches the positive form. */
  predicate ItemsMatch(env: Env, items: seq<Toml>, ty: PropertyType, op: Op, value: Json) {
    if op.Ne? || op.NotContains? then
      forall i :: 0 <= i < |items| ==> !PropertyScalarMatches(env, items[i], ty, Positive(op), value)
    else
      exists i :: 0 <= i < |items| && PropertyScalarMatches(env, items[i], ty, op, value)
  }

  predicate PropertyMatches(env: Env, current: Option<Toml>, ty: PropertyType, op: Op, value: Json,
                            links: Option<seq<LinkTarget>>) {
    var present := current.Some? && !TomlIsEmpty(current.value);
    if op.IsEmpty? then !present
    else if op.NotEmpty? then present
    else if op.LinksTo? then
      ty.SupportsLinksTo() && value.JString? && links.Some?
      && exists i :: 0 <= i < |links.value| && LinkMatches(links.value[i], env.normalizeLink(value.s))
    else if (op.Contains? || op.NotContains?) && !ty.SupportsContains() then false
    else if !present then (op.Ne? || op.NotContains?) && ExpectedScalar(ty, value).Some?
    else if current.value.TArray? then ItemsMatch(env, current.value.items, ty, op, value)
    else PropertyScalarMatches(env, current.value, ty, op, value)
  }

  predicate Has(env: Env, current: seq<string>, expected: string, canonicalize: bool) {
    exists i :: 0 <= i < |current| &&
      if canonicalize then env.canonical(current[i]) == env.canonical(expected) else current[i] == expected
  }

  predicate MembershipMatches(env: Env, current: seq<string>, op: Op, value: Json, canonicalize: bool) {
    match op
    case Eq => value.JString? && Has(env, current, value.s, canonicalize)
    case Contains => value.JString? && Has(env, current, value.s, canonicalize)
    case Ne => value.JString? && !Has(env, current, value.s, canonicalize)
    case NotContains => value.JString? && !Has(env, current, value.s, canonicalize)
    case In =>
      value.JArray? && (forall i :: 0 <= i < |value.items| ==> value.items[i].JString?)
      && exists i :: 0 <= i < |value.items| && value.items[i].JString?
                     && Has(env, current, value.items[i].s, canonicalize)
    case IsEmpty => current == []
    case NotEmpty => current != []
    case _ => false
  }

  function TextOf(text: Option<string>): Option<Comparable> {
    if text.Some? then Some(CText(text.value)) else None
  }

  function SystemScalar(sys: SysField, page: Page): Option<Comparable> {
    match sys
    case Id => Some(CText(page.id))
    case Path => Some(CText(page.path))
    case Title => TextOf(page.title)
    case Kind => Some(CText(page.kind))
    case Project => TextOf(page.project)
    case CreatedAt => TextOf(page.createdAt)
    case UpdatedAt => TextOf(page.updatedAt)
    case Encryption => Some(CBool(page.encrypted))
    case JournalDate => TextOf(page.journalDate)
    case WordCount => if page.wordCount.Some? then Some(CNumber(Finite(page.wordCount.value as real))) else None
    case Tags => None
    case Aliases => None
  }

  /** Timestamps compare as text except under a relative-date operator, which reads them as datetimes. */
  function SystemMatchType(sys: SysField, op: Op): PropertyType {
    if op.IsRelativeDate() && sys.SupportsRelativeDate() then (if sys.JournalDate? then Date else Datetime)
    else sys.PropertyTypeOf()
  }

  function Lookup<V>(m: map<string, V>, key: string): Option<V> {
    if key in m then Some(m[key]) else None
  }

  predicate ResolvedMatches(env: Env, field: Resolved, op: Op, value: Json, page: Page) {
    match field
    case Sys(sys) =>
      if sys.Tags? then MembershipMatches(env, page.tags, op, value, false)
      else if sys.Aliases? then MembershipMatches(env, page.aliases, op, value, true)
      else ScalarMatches(env, SystemScalar(sys, page), SystemMatchType(sys, op), op, value, false)
    case Prop(key, ty) => PropertyMatches(env, Lookup(page.extra, key), ty, op, value, Lookup(page.links, key))
  }

  predicate CmpMatches(env: Env, schema: Schema, field: string, op: Op, value: Json, page: Page) {
    var resolved := schema.resolve(field);
    resolved.Some? && ResolvedMatches(env, resolved.value, op, value, page)
  }

  predicate FilterMatches(env: Env, schema: Schema, filter: Filter, page: Page) {
    match filter
    case All(children) => forall i :: 0 <= i < |children| ==> FilterMatches(env, schema, children[i], page)
    case Any(children) => exists i :: 0 <= i < |children| && FilterMatches(env, schema, children[i], page)
    case Not(child) => !FilterMatches(env, schema, child, page)
    case Cmp(field, op, value) => CmpMatches(env, schema, field, op, value, page)
  }

  // ---- Negations and `in` ----

  ghost predicate IsFilledArray(current: Option<Toml>) {
    current.Some? && current.value.TArray? && current.value.items != []
  }

  /** On one scalar, present or not, `ne` is the complement of `eq` exactly when the comparison value is well typed. */
  lemma ScalarNegation(env: Env, current: Option<Comparable>, ty: PropertyType, value: Json, membership: bool)
    ensures ScalarMatches(env, current, ty, Ne, value, membership) ==
            !ScalarMatches(env, current, ty, Eq, value, membership)
            <==> ExpectedScalar(ty, value).Some?
    ensures ScalarMatches(env, current, ty, NotContains, value, membership) ==
            !ScalarMatches(env, current, ty, Contains, value, membership)
            <==> ty.SupportsContains() && ExpectedScalar(ty, value).Some?
  {
  }

  /**
   * On a page property in any shape (absent, empty, scalar, ill typed, array), `ne` is the exact complement
   * of `eq` if and only if the comparison value is well typed or the page holds a non-empty array.
   */
  lemma NeComplementsEq(env: Env, current: Option<Toml>, ty: PropertyType, value: Json, links: Option<seq<LinkTarget>>)
    ensures PropertyMatches(env, current, ty, Ne, value, links) == !PropertyMatches(env, current, ty, Eq, value, links)
            <==> ExpectedScalar(ty, value).Some? || IsFilledArray(current)
  {
    NegationOn(env, current, ty, Ne, value, links);
  }

  /** `not_contains` complements `contains` if and only if, besides, the type supports `contains`. */
  lemma NotContainsComplementsContains(env: Env, current: Option<Toml>, ty: PropertyType, value: Json,
                                       links: Option<seq<LinkTarget>>)
    ensures PropertyMatches(env, current, ty, NotContains, value, links) ==
            !PropertyMatches(env, current, ty, Contains, value, links)
            <==> ty.SupportsContains() && (ExpectedScalar(ty, value).Some? || IsFilledArray(current))
  {
    if ty.SupportsContains() {
      NegationOn(env, current, ty, NotContains, value, links);
    }
  }

  /** Over an array the negation is defined as the complement, well typed or not. */
  lemma NegationOnArray(env: Env, items: seq<Toml>, ty: PropertyType, op: Op, value: Json,
                        links: Option<seq<LinkTarget>>)
    requires (op.Ne? || (op.NotContains? && ty.SupportsContains())) && items != []
    ensures PropertyMatches(env, Some(TArray(items)), ty, op, value, links) ==
            !PropertyMatches(env, Some(TArray(items)), ty, Positive(op), value, links)
  {
  }

  lemma NegationOnScalar(env: Env, current: Toml, ty: PropertyType, op: Op, value: Json, links: Option<seq<LinkTarget>>)
    requires (op.Ne? || (op.NotContains? && ty.SupportsContains())) && !current.TArray? && !TomlIsEmpty(current)
    ensures PropertyMatches(env, Some(current), ty, op, value, links) ==
            !PropertyMatches(env, Some(current), ty, Positive(op), value, links)
            <==> ExpectedScalar(ty, value).Some?
  {
    ScalarNegation(env, CurrentScalar(current, ty), ty, value, IsMembership(ty));
  }

  lemma NegationOn(env: Env, current: Option<Toml>, ty: PropertyType, op: Op, value: Json,
                   links: Option<seq<LinkTarget>>)
    requires op.Ne? || (op.NotContains? && ty.SupportsContains())
    ensures PropertyMatches(env, current, ty, op, value, links) ==
            !PropertyMatches(env, current, ty, Positive(op), value, links)
            <==> ExpectedScalar(ty, value).Some? || IsFilledArray(current)
  {
    if IsFilledArray(current) {
      NegationOnArray(env, current.value.items, ty, op, value, links);
    } else if current.Some? && !TomlIsEmpty(current.value) {
      NegationOnScalar(env, current.value, ty, op, value, links);
    }
  }

  ghost predicate SomeEqual(current: Comparable, ty: PropertyType, values: seq<Json>) {
    exists i :: 0 <= i < |values| && Equals(current, ty, values[i])
  }

  predicate Equals(current: Comparable, ty: PropertyType, value: Json) {
    ExpectedScalar(ty, value).Some? && ScalarEqual(current, ExpectedScalar(ty, value).value)
  }

  lemma AllTypedCons(ty: PropertyType, values: seq<Json>)
    requires values != []
    ensures AllTyped(ty, values) <==> ExpectedScalar(ty, values[0]).Some? && AllTyped(ty, values[1..])
  {
    assert forall i :: 1 <= i < |values| ==> values[i] == values[1..][i - 1];
  }

  lemma SomeEqualCons(current: Comparable, ty: PropertyType, values: seq<Json>)
    requires values != []
    ensures SomeEqual(current, ty, values) <==> Equals(current, ty, values[0]) || SomeEqual(current, ty, values[1..])
  {
    var rest := values[1..];
    if SomeEqual(current, ty, rest) {
      var i :| 0 <= i < |rest| && Equals(current, ty, rest[i]);
      assert values[i + 1] == rest[i];
    }
    if SomeEqual(current, ty, values) && !Equals(current, ty, values[0]) {
      var i :| 0 <= i < |values| && Equals(current, ty, values[i]);
      assert rest[i - 1] == values[i];
    }
  }

  /** The fold of `in`: nothing if any member is ill typed, else whether one is equal. */
  lemma {:induction false} FoldInMeans(current: Comparable, ty: PropertyType, values: seq<Json>, matched: bool)
    ensures FoldIn(current, ty, values, matched) ==
            if AllTyped(ty, values) then Some(matched || SomeEqual(current, ty, values)) else None
  {
    if values != [] {
      AllTypedCons(ty, values);
      SomeEqualCons(current, ty, values);
      if ExpectedScalar(ty, values[0]).Some? {
        FoldInMeans(current, ty, values[1..], matched || ScalarEqual(current, ExpectedScalar(ty, values[0]).value));
      }
    }
  }

  /** On one scalar value, `eq` is equality with the well-typed comparison value. */
  lemma EqMeans(env: Env, current: Toml, ty: PropertyType, value: Json)
    ensures PropertyScalarMatches(env, current, ty, Eq, value) <==>
            CurrentScalar(current, ty).Some? && Equals(CurrentScalar(current, ty).value, ty, value)
  {
  }

  lemma InMeans(env: Env, current: Toml, ty: PropertyType, values: seq<Json>)
    ensures PropertyScalarMatches(env, current, ty, In, JArray(values)) <==>
            && CurrentScalar(current, ty).Some?
            && FoldIn(CurrentScalar(current, ty).value, ty, values, false) == Some(true)
  {
  }

  lemma ScalarInIsDisjunction(env: Env, current: Toml, ty: PropertyType, values: seq<Json>)
    ensures PropertyScalarMatches(env, current, ty, In, JArray(values)) <==>
            && AllTyped(ty, values)
            && exists i :: 0 <= i < |values| && PropertyScalarMatches(env, current, ty, Eq, values[i])
  {
    InMeans(env, current, ty, values);
    forall i | 0 <= i < |values|
      ensures PropertyScalarMatches(env, current, ty, Eq, values[i]) <==>
              CurrentScalar(current, ty).Some? && Equals(CurrentScalar(current, ty).value, ty, values[i])
    {
      EqMeans(env, current, ty, values[i]);
    }
    if CurrentScalar(current, ty).Some? {
      FoldInMeans(CurrentScalar(current, ty).value, ty, values, false);
    }
  }

  lemma ArrayInIsDisjunction(env: Env, items: seq<Toml>, ty: PropertyType, values: seq<Json>)
    ensures (exists k :: 0 <= k < |items| && PropertyScalarMatches(env, items[k], ty, In, JArray(values))) <==>
            && AllTyped(ty, values)
            && exists i, k :: 0 <= i < |values| && 0 <= k < |items|
                              && PropertyScalarMatches(env, items[k], ty, Eq, values[i])
  {
    forall k | 0 <= k < |items|
      ensures PropertyScalarMatches(env, items[k], ty, In, JArray(values)) <==>
              && AllTyped(ty, values)
              && exists i :: 0 <= i < |values| && PropertyScalarMatches(env, items[k], ty, Eq, values[i])
    {
      ScalarInIsDisjunction(env, items[k], ty, values);
    }
  }

  /** For every page value, `in` over a list is: all members well typed, and `eq` holds for one of them. */
  lemma InIsDisjunctionOfEq(env: Env, current: Option<Toml>, ty: PropertyType, values: seq<Json>,
                            links: Option<seq<LinkTarget>>)
    ensures PropertyMatches(env, current, ty, In, JArray(values), links) <==>
            && AllTyped(ty, values)
            && exists i :: 0 <= i < |values| && PropertyMatches(env, current, ty, Eq, values[i], links)
  {
    if current.Some? && !TomlIsEmpty(current.value) {
      if current.value.TArray? {
        ArrayInIsDisjunction(env, current.value.items, ty, values);
      } else {
        ScalarInIsDisjunction(env, current.value, ty, values);
      }
    }
  }

  /** The same laws for tags and aliases, whose only well-typed comparison values are strings. */
  lemma MembershipNegation(env: Env, current: seq<string>, value: Json, canonicalize: bool)
    ensures MembershipMatches(env, current, Ne, value, canonicalize) ==
            !MembershipMatches(env, current, Eq, value, canonicalize)
            <==> value.JString?
    ensures MembershipMatches(env, current, Contains, value, canonicalize) ==
            MembershipMatches(env, current, Eq, value, canonicalize)
    ensures MembershipMatches(env, current, NotContains, value, canonicalize) ==
            MembershipMatches(env, current, Ne, value, canonicalize)
  {
  }

  /** And `in` over a list is: all members strings, and `eq` holds for one of them. */
  lemma MembershipInIsDisjunctionOfEq(env: Env, current: seq<string>, values: seq<Json>, canonicalize: bool)
    ensures MembershipMatches(env, current, In, JArray(values), canonicalize) <==>
            && (forall i :: 0 <= i < |values| ==> values[i].JString?)
            && exists i :: 0 <= i < |values| && MembershipMatches(env, current, Eq, values[i], canonicalize)
  {
  }

  predicate InWindow(op: Op, today: CivilDate, day: int) {
    var w := RelativeDateWindow(op, today);
    w.Some? && w.value.0 <= day < w.value.1
  }

  lemma DaysApart(today: CivilDate, d: CivilDate)
    requires ValidDate(today) && ValidDate(d)
    ensures DayNumber(d) == DayNumber(today) <==> d == today
  {
    if Before(d, today) {
      DayNumbersAreOrdered(d, today);
    } else if d != today {
      DayNumbersAreOrdered(today, d);
    }
  }

  /** The windows that only count days. */
  lemma DayWindowsMean(today: CivilDate, day: int)
    ensures InWindow(IsToday, today, day) <==> day == DayNumber(today)
    ensures InWindow(IsThisWeek, today, day) <==> Week(day) == Week(DayNumber(today))
    ensures InWindow(IsPastWeek, today, day) <==> 0 <= DayNumber(today) - day <= 7
    ensures InWindow(IsNextWeek, today, day) <==> 1 <= day - DayNumber(today) <= 7
  {
    WeekWindowMeans(DayNumber(today), day);
  }

  /**
   * What the relative-date operators mean, on every valid pair of dates: the same day, the same Monday-based
   * week, the same calendar month, today and the seven days before it, and the seven days after today.
   */
  lemma RelativeDatesMean(today: CivilDate, d: CivilDate)
    requires ValidDate(today) && ValidDate(d)
    ensures InWindow(IsToday, today, DayNumber(d)) <==> d == today
    ensures InWindow(IsThisWeek, today, DayNumber(d)) <==> Week(DayNumber(d)) == Week(DayNumber(today))
    ensures InWindow(IsThisMonth, today, DayNumber(d)) <==> d.year == today.year && d.month == today.month
    ensures InWindow(IsPastWeek, today, DayNumber(d)) <==> 0 <= DayNumber(today) - DayNumber(d) <= 7
    ensures InWindow(IsNextWeek, today, DayNumber(d)) <==> 1 <= DayNumber(d) - DayNumber(today) <= 7
  {
    DaysApart(today, d);
    DayWindowsMean(today, DayNumber(d));
    MonthWindowMeans(today, d);
  }

  /** What a relative-date operator says of a date. */
  predicate FallsIn(op: Op, today: CivilDate, d: CivilDate) {
    var apart := DayNumber(d) - DayNumber(today);
    match op
    case IsToday => d == today
    case IsThisWeek => Week(DayNumber(d)) == Week(DayNumber(today))
    case IsThisMonth => d.year == today.year && d.month == today.month
    case IsPastWeek => -7 <= apart <= 0
    case IsNextWeek => 1 <= apart <= 7
    case _ => false
  }

  /**
   * So the matcher, on a page value whose text starts with the valid date `d`: a relative-date operator matches if
   * and only if the type has dates and the date is where the operator says, whatever the comparison value.
   */
  lemma RelativeDateMatches(env: Env, current: Toml, ty: PropertyType, op: Op, value: Json, text: string, d: CivilDate)
    requires op.IsRelativeDate() && ValidDate(env.today) && ValidDate(d)
    requires CurrentScalar(current, ty) == Some(CText(text))
    requires |text| >= 10 && env.parseDate(text[..10]) == Some(DayNumber(d))
    ensures PropertyScalarMatches(env, current, ty, op, value) <==>
            (ty == Date || ty == Datetime) && FallsIn(op, env.today, d)
  {
    RelativeDatesMean(env.today, d);
    ScalarInWindow(env, text, ty, op, value, IsMembership(ty), DayNumber(d));
  }

  lemma ScalarInWindow(env: Env, text: string, ty: PropertyType, op: Op, value: Json, membership: bool, day: int)
    requires op.IsRelativeDate() && DateFace(env, text) == Some(day)
    ensures ScalarMatches(env, Some(CText(text)), ty, op, value, membership) <==>
            ty.SupportsRelativeDate() && InWindow(op, env.today, day)
  {
  }
}
