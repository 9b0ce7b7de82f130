/**
 * Deciding filters before a page exists: the partial evaluator for one comparison, the three-valued
 * analysis built on it, and their agreement with the full matcher on every page a user could create.
 */
module BaseMember {
  import opened Common
  import opened BaseFilter

  /** `fixed_candidate_comparison_matches`: the verdict on a new, still empty page, when one is already certain. */
  function FixedComparison(env: Env, schema: Schema, field: string, op: Op, value: Json): Option<bool> {
    var resolved := schema.resolve(field);
    if resolved.None? then None else FixedResolved(env, schema, resolved.value, op, value)
  }

  function FixedResolved(env: Env, schema: Schema, field: Resolved, op: Op, value: Json): Option<bool> {
    if op.LinksTo? && (!(field.Prop? && field.ty.SupportsLinksTo()) || !value.JString?) then Some(false)
    else match field
         case Sys(sys) =>
           if sys.WordCount? then Some(ScalarMatches(env, Some(CNumber(Finite(0.0))), Number, op, value, false))
           else if sys.JournalDate? then Some(ScalarMatches(env, None, Date, op, value, false))
           else if (sys.CreatedAt? || sys.UpdatedAt?) && op.IsRelativeDate() then
             Some(ScalarMatches(env, Some(CText(env.todayText)), SystemMatchType(sys, op), op, value, false))
           else None
         case Prop(key, ty) =>
           if (op.Contains? || op.NotContains?) && !ty.SupportsContains() then Some(false)
           else if op.IsRelativeDate() && !ty.SupportsRelativeDate() then Some(false)
           else if op.IsAffix() && !ty.SupportsAffix() then Some(false)
           else if !schema.hasProperty(key) then Some(PropertyMatches(env, None, ty, op, value, None))
           else None
  }

  /** A timestamp written on the evaluation date. */
  ghost predicate OnToday(env: Env, text: Option<string>) {
    text.Some? && |text.value| >= 10 && |env.todayText| >= 10 && text.value[..10] == env.todayText[..10]
  }

  /**
   * A page a new member could be: stamped today, not a journal page, and with no property the base does
   * not know. Its body, title, tags, declared properties and everything else are arbitrary.
   */
  ghost predicate Creatable(env: Env, schema: Schema, page: Page) {
    && OnToday(env, page.createdAt) && OnToday(env, page.updatedAt)
    && page.journalDate.None? && page.wordCount.Some?
    && (forall key :: key in page.extra || key in page.links ==> schema.hasProperty(key))
  }

  // ---- Soundness of the partial evaluator ----

  lemma LinksToNeedsARelation(env: Env, field: Resolved, value: Json, page: Page)
    requires !(field.Prop? && field.ty.SupportsLinksTo()) || !value.JString?
    ensures !ResolvedMatches(env, field, LinksTo, value, page)
  {
  }

  lemma SameDaySameVerdict(env: Env, sys: SysField, op: Op, value: Json, text: string)
    requires OnToday(env, Some(text)) && op.IsRelativeDate()
    ensures ScalarMatches(env, Some(CText(text)), SystemMatchType(sys, op), op, value, false) ==
            ScalarMatches(env, Some(CText(env.todayText)), SystemMatchType(sys, op), op, value, false)
  {
    assert DateFace(env, text) == DateFace(env, env.todayText);
  }

  /** The operator is not defined for the property's type. */
  predicate Unsupported(ty: PropertyType, op: Op) {
    || ((op.Contains? || op.NotContains?) && !ty.SupportsContains())
    || (op.IsRelativeDate() && !ty.SupportsRelativeDate())
    || (op.IsAffix() && !ty.SupportsAffix())
  }

  lemma UnsupportedScalar(env: Env, current: Option<Comparable>, ty: PropertyType, op: Op, value: Json,
                          membership: bool)
    requires Unsupported(ty, op)
    ensures !ScalarMatches(env, current, ty, op, value, membership)
  {
  }

  lemma UnsupportedProperty(env: Env, current: Toml, ty: PropertyType, op: Op, value: Json)
    requires Unsupported(ty, op)
    ensures !PropertyScalarMatches(env, current, ty, op, value)
  {
    UnsupportedScalar(env, CurrentScalar(current, ty), ty, op, value, IsMembership(ty));
  }

  /** An operator that matches no scalar and is not a negation matches no property value either. */
  lemma NoScalarNoProperty(env: Env, current: Option<Toml>, ty: PropertyType, op: Op, value: Json,
                           links: Option<seq<LinkTarget>>)
    requires op.IsRelativeDate() || op.IsAffix()
    requires forall v :: !PropertyScalarMatches(env, v, ty, op, value)
    ensures !PropertyMatches(env, current, ty, op, value, links)
  {
  }

  lemma UnsupportedNeverMatches(env: Env, current: Option<Toml>, ty: PropertyType, op: Op, value: Json,
                                links: Option<seq<LinkTarget>>)
    requires Unsupported(ty, op)
    ensures !PropertyMatches(env, current, ty, op, value, links)
  {
    if op.IsRelativeDate() || op.IsAffix() {
      forall v ensures !PropertyScalarMatches(env, v, ty, op, value) {
        UnsupportedProperty(env, v, ty, op, value);
      }
      NoScalarNoProperty(env, current, ty, op, value, links);
    }
  }

  lemma UnknownPropertyIsAbsent(env: Env, schema: Schema, key: string, ty: PropertyType, op: Op, value: Json,
                                page: Page)
    requires Creatable(env, schema, page) && !schema.hasProperty(key)
    requires !(op.LinksTo? && (!ty.SupportsLinksTo() || !value.JString?))
    ensures PropertyMatches(env, Lookup(page.extra, key), ty, op, value, Lookup(page.links, key)) ==
            PropertyMatches(env, None, ty, op, value, None)
  {
    assert key !in page.extra && key !in page.links;
  }

  lemma SystemVerdictIsSound(env: Env, schema: Schema, sys: SysField, op: Op, value: Json, page: Page)
    requires Creatable(env, schema, page) && page.wordCount == Some(0) && !op.LinksTo?
    requires FixedResolved(env, schema, Sys(sys), op, value).Some?
    ensures ResolvedMatches(env, Sys(sys), op, value, page) == FixedResolved(env, schema, Sys(sys), op, value).value
  {
    if sys.CreatedAt? {
      SameDaySameVerdict(env, sys, op, value, page.createdAt.value);
    } else if sys.UpdatedAt? {
      SameDaySameVerdict(env, sys, op, value, page.updatedAt.value);
    }
  }

  lemma PropertyVerdictIsSound(env: Env, schema: Schema, key: string, ty: PropertyType, op: Op, value: Json, page: Page)
    requires Creatable(env, schema, page) && !(op.LinksTo? && (!ty.SupportsLinksTo() || !value.JString?))
    requires FixedResolved(env, schema, Prop(key, ty), op, value).Some?
    ensures PropertyMatches(env, Lookup(page.extra, key), ty, op, value, Lookup(page.links, key)) ==
            FixedResolved(env, schema, Prop(key, ty), op, value).value
  {
    if Unsupported(ty, op) {
      UnsupportedNeverMatches(env, Lookup(page.extra, key), ty, op, value, Lookup(page.links, key));
    } else {
      UnknownPropertyIsAbsent(env, schema, key, ty, op, value, page);
    }
  }

  /**
   * Whenever the partial evaluator commits to a verdict, the full matcher gives it on every page with an empty
   * body.
   */
  lemma PartialEvaluationIsSound(env: Env, schema: Schema, field: Resolved, op: Op, value: Json, page: Page)
    requires Creatable(env, schema, page) && page.wordCount == Some(0)
    requires FixedResolved(env, schema, field, op, value).Some?
    ensures ResolvedMatches(env, field, op, value, page) == FixedResolved(env, schema, field, op, value).value
  {
    if op.LinksTo? && (!(field.Prop? && field.ty.SupportsLinksTo()) || !value.JString?) {
      LinksToNeedsARelation(env, field, value, page);
    } else {
      match field
      case Sys(sys) => SystemVerdictIsSound(env, schema, sys, op, value, page);
      case Prop(key, ty) => PropertyVerdictIsSound(env, schema, key, ty, op, value, page);
    }
  }

  // ---- When it commits ----

  predicate IsRelative(op: Op) {
    op == IsToday || op == IsThisWeek || op == IsPastWeek || op == IsNextWeek || op == IsThisMonth
  }

  /** Exactly when the partial evaluator commits on a page's own field. */
  lemma CommitsOnFields(env: Env, schema: Schema, sys: SysField, op: Op, value: Json)
    ensures FixedResolved(env, schema, Sys(sys), op, value).Some? <==>
            || op == LinksTo
            || sys == WordCount || sys == JournalDate
            || ((sys == CreatedAt || sys == UpdatedAt) && IsRelative(op))
  {
  }

  /** And on a property: an operator its type does not have, or a key the base does not know. */
  lemma CommitsOnProperties(env: Env, schema: Schema, key: string, ty: PropertyType, op: Op, value: Json)
    ensures FixedResolved(env, schema, Prop(key, ty), op, value).Some? <==>
            || (op == LinksTo && (ty != Relation || !value.JString?))
            || ((op == Contains || op == NotContains) && (ty == Number || ty == PropertyType.Bool))
            || (IsRelative(op) && ty != Date && ty != Datetime)
            || ((op == StartsWith || op == EndsWith) && ty != Text && ty != Url)
            || !schema.hasProperty(key)
  {
  }

  // ---- The three-valued analysis ----

  datatype Possibility = AlwaysTrue | Maybe | AlwaysFalse

  function FoldAll(values: seq<Possibility>): Possibility {
    if values == [] then AlwaysTrue
    else
      var acc, value := FoldAll(values[..|values| - 1]), values[|values| - 1];
      if acc.AlwaysFalse? || value.AlwaysFalse? then AlwaysFalse
      else if acc.AlwaysTrue? && value.AlwaysTrue? then AlwaysTrue
      else Maybe
  }

  function FoldAny(values: seq<Possibility>): Possibility {
    if values == [] then AlwaysFalse
    else
      var acc, value := FoldAny(values[..|values| - 1]), values[|values| - 1];
      if acc.AlwaysTrue? || value.AlwaysTrue? then AlwaysTrue
      else if acc.AlwaysFalse? && value.AlwaysFalse? then AlwaysFalse
      else Maybe
  }

  /** The body may be edited before the page is saved, so numeric word-count comparisons stay open. */
  function ComparisonPossibility(env: Env, schema: Schema, field: string, op: Op, value: Json): Possibility {
    if schema.resolve(field).Some? && ReadsTheCount(schema.resolve(field).value, op) then Maybe
    else match FixedComparison(env, schema, field, op, value)
         case Some(b) => if b then AlwaysTrue else AlwaysFalse
         case None => Maybe
  }

  function FilterPossibility(env: Env, schema: Schema, filter: Filter): Possibility {
    match filter
    case All(children) =>
      FoldAll(seq(|children|, i requires 0 <= i < |children| => FilterPossibility(env, schema, children[i])))
    case Any(children) =>
      FoldAny(seq(|children|, i requires 0 <= i < |children| => FilterPossibility(env, schema, children[i])))
    case Not(child) =>
      (match FilterPossibility(env, schema, child)
       case AlwaysTrue => AlwaysFalse
       case Maybe => Maybe
       case AlwaysFalse => AlwaysTrue)
    case Cmp(field, op, value) => ComparisonPossibility(env, schema, field, op, value)
  }

  lemma {:induction false} FoldAllMeans(values: seq<Possibility>)
    ensures FoldAll(values).AlwaysTrue? <==> forall i :: 0 <= i < |values| ==> values[i].AlwaysTrue?
    ensures FoldAll(values).AlwaysFalse? <==> exists i :: 0 <= i < |values| && values[i].AlwaysFalse?
  {
    if values != [] {
      var n := |values| - 1;
      FoldAllMeans(values[..n]);
      assert forall i :: 0 <= i < n ==> values[..n][i] == values[i];
    }
  }

  lemma {:induction false} FoldAnyMeans(values: seq<Possibility>)
    ensures FoldAny(values).AlwaysTrue? <==> exists i :: 0 <= i < |values| && values[i].AlwaysTrue?
    ensures FoldAny(values).AlwaysFalse? <==> forall i :: 0 <= i < |values| ==> values[i].AlwaysFalse?
  {
    if values != [] {
      var n := |values| - 1;
      FoldAnyMeans(values[..n]);
      assert forall i :: 0 <= i < n ==> values[..n][i] == values[i];
    }
  }

  /** Word count under the operators the analysis does decide gives the same verdict for every count. */
  lemma WordCountIsIrrelevant(env: Env, n: nat, op: Op, value: Json)
    requires !(op.Eq? || op.Ne? || op.Lt? || op.Lte? || op.Gt? || op.Gte? || op.In?)
    ensures ScalarMatches(env, Some(CNumber(Finite(n as real))), Number, op, value, false) ==
            ScalarMatches(env, Some(CNumber(Finite(0.0))), Number, op, value, false)
  {
  }

  lemma OnlyWordCountReadsTheBody(env: Env, field: Resolved, op: Op, value: Json, page: Page)
    requires field != Sys(WordCount)
    ensures ResolvedMatches(env, field, op, value, page) ==
            ResolvedMatches(env, field, op, value, page.(wordCount := Some(0)))
  {
  }

  predicate ReadsTheCount(field: Resolved, op: Op) {
    field == Sys(WordCount) && (op.Eq? || op.Ne? || op.Lt? || op.Lte? || op.Gt? || op.Gte? || op.In?)
  }

  /** The verdict also holds with any body, unless the comparison actually reads the word count. */
  lemma VerdictHoldsForAnyBody(env: Env, schema: Schema, field: Resolved, op: Op, value: Json, page: Page)
    requires Creatable(env, schema, page) && !ReadsTheCount(field, op)
    requires FixedResolved(env, schema, field, op, value).Some?
    ensures ResolvedMatches(env, field, op, value, page) == FixedResolved(env, schema, field, op, value).value
  {
    PartialEvaluationIsSound(env, schema, field, op, value, page.(wordCount := Some(0)));
    if field == Sys(WordCount) {
      WordCountIsIrrelevant(env, page.wordCount.value, op, value);
    } else {
      OnlyWordCountReadsTheBody(env, field, op, value, page);
    }
  }

  lemma ComparisonIsSound(env: Env, schema: Schema, field: string, op: Op, value: Json, page: Page)
    requires Creatable(env, schema, page)
    ensures ComparisonPossibility(env, schema, field, op, value).AlwaysTrue? ==>
              CmpMatches(env, schema, field, op, value, page)
    ensures ComparisonPossibility(env, schema, field, op, value).AlwaysFalse? ==>
              !CmpMatches(env, schema, field, op, value, page)
  {
    if !ComparisonPossibility(env, schema, field, op, value).Maybe? {
      VerdictHoldsForAnyBody(env, schema, schema.resolve(field).value, op, value, page);
    }
  }

  /**
   * Soundness over the whole filter tree: a filter judged always true matches, and one judged always false
   * rejects, every creatable page, whatever its body, tags, title and declared properties hold.
   */
  lemma {:induction false} PossibilityIsSound(env: Env, schema: Schema, filter: Filter, page: Page)
    requires Creatable(env, schema, page)
    ensures FilterPossibility(env, schema, filter).AlwaysTrue? ==> FilterMatches(env, schema, filter, page)
    ensures FilterPossibility(env, schema, filter).AlwaysFalse? ==> !FilterMatches(env, schema, filter, page)
    decreases filter
  {
    match filter
    case Cmp(field, op, value) => ComparisonIsSound(env, schema, field, op, value, page);
    case Not(child) => PossibilityIsSound(env, schema, child, page);
    case All(children) =>
      var ps := seq(|children|, i requires 0 <= i < |children| => FilterPossibility(env, schema, children[i]));
      FoldAllMeans(ps);
      forall i | 0 <= i < |children|
        ensures ps[i].AlwaysTrue? ==> FilterMatches(env, schema, children[i], page)
        ensures ps[i].AlwaysFalse? ==> !FilterMatches(env, schema, children[i], page)
      {
        PossibilityIsSound(env, schema, children[i], page);
      }
    case Any(children) =>
      var ps := seq(|children|, i requires 0 <= i < |children| => FilterPossibility(env, schema, children[i]));
      FoldAnyMeans(ps);
      forall i | 0 <= i < |children|
        ensures ps[i].AlwaysTrue? ==> FilterMatches(env, schema, children[i], page)
        ensures ps[i].AlwaysFalse? ==> !FilterMatches(env, schema, children[i], page)
      {
        PossibilityIsSound(env, schema, children[i], page);
      }
  }

  // ---- What the analysis leaves open ----

  /** A comparison is left open exactly when the evaluator does not commit or the comparison reads the word count. */
  lemma OpenComparisons(env: Env, schema: Schema, field: string, op: Op, value: Json)
    ensures ComparisonPossibility(env, schema, field, op, value).Maybe? <==>
            || schema.resolve(field) == None
            || FixedResolved(env, schema, schema.resolve(field).value, op, value) == None
            || (schema.resolve(field) == Some(Sys(WordCount))
                && (op == Eq || op == Ne || op == Lt || op == Lte || op == Gt || op == Gte || op == In))
  {
  }

  /** Every comparison in the filter is decided. */
  ghost predicate Decided(env: Env, schema: Schema, filter: Filter) {
    match filter
    case All(children) => forall i :: 0 <= i < |children| ==> Decided(env, schema, children[i])
    case Any(children) => forall i :: 0 <= i < |children| ==> Decided(env, schema, children[i])
    case Not(child) => Decided(env, schema, child)
    case Cmp(field, op, value) => !ComparisonPossibility(env, schema, field, op, value).Maybe?
  }

  /** A filter whose comparisons are all decided is itself decided: the connectives lose nothing. */
  lemma {:induction false} ConnectivesDecide(env: Env, schema: Schema, filter: Filter)
    requires Decided(env, schema, filter)
    ensures !FilterPossibility(env, schema, filter).Maybe?
    decreases filter
  {
    match filter
    case Cmp(field, op, value) =>
    case Not(child) => ConnectivesDecide(env, schema, child);
    case All(children) =>
      var ps := seq(|children|, i requires 0 <= i < |children| => FilterPossibility(env, schema, children[i]));
      FoldAllMeans(ps);
      forall i | 0 <= i < |children| ensures !ps[i].Maybe? {
        ConnectivesDecide(env, schema, children[i]);
      }
    case Any(children) =>
      var ps := seq(|children|, i requires 0 <= i < |children| => FilterPossibility(env, schema, children[i]));
      FoldAnyMeans(ps);
      forall i | 0 <= i < |children| ensures !ps[i].Maybe? {
        ConnectivesDecide(env, schema, children[i]);
      }
  }

  /** So such a filter is judged always true if any creatable page matches it, and always false if any does not. */
  lemma DecidedFiltersAreExact(env: Env, schema: Schema, filter: Filter, page: Page)
    requires Creatable(env, schema, page) && Decided(env, schema, filter)
    ensures FilterPossibility(env, schema, filter) ==
            if FilterMatches(env, schema, filter, page) then AlwaysTrue else AlwaysFalse
  {
    ConnectivesDecide(env, schema, filter);
    PossibilityIsSound(env, schema, filter, page);
  }

  function PossibilityOf(env: Env, schema: Schema, filter: Option<Filter>): Possibility {
    if filter.None? then AlwaysTrue else FilterPossibility(env, schema, filter.value)
  }

  function Possibilities(env: Env, schema: Schema, membership: Option<Filter>, view: Option<Filter>,
                         embed: Option<Filter>): seq<Possibility> {
    [PossibilityOf(env, schema, membership), PossibilityOf(env, schema, view), PossibilityOf(env, schema, embed)]
  }

  /** `enabled`: whether the base, the view and the embed together leave room for a new member. */
  predicate CreationEnabled(env: Env, schema: Schema, membership: Option<Filter>, view: Option<Filter>,
                            embed: Option<Filter>) {
    !FoldAll(Possibilities(env, schema, membership, view, embed)).AlwaysFalse?
  }

  /** Creation is disabled only when no creatable page whatever would pass all three filters. */
  lemma DisabledMeansImpossible(env: Env, schema: Schema, membership: Option<Filter>, view: Option<Filter>,
                                embed: Option<Filter>, page: Page)
    requires Creatable(env, schema, page) && !CreationEnabled(env, schema, membership, view, embed)
    ensures || (membership.Some? && !FilterMatches(env, schema, membership.value, page))
            || (view.Some? && !FilterMatches(env, schema, view.value, page))
            || (embed.Some? && !FilterMatches(env, schema, embed.value, page))
  {
    var all := Possibilities(env, schema, membership, view, embed);
    FoldAllMeans(all);
    var i :| 0 <= i < |all| && all[i].AlwaysFalse?;
    var filter := [membership, view, embed][i];
    PossibilityIsSound(env, schema, filter.value, page);
  }

  /** And it is disabled as soon as one of the three is judged always false. */
  lemma DisabledExactly(env: Env, schema: Schema, membership: Option<Filter>, view: Option<Filter>,
                        embed: Option<Filter>)
    ensures !CreationEnabled(env, schema, membership, view, embed) <==>
            || (membership.Some? && FilterPossibility(env, schema, membership.value) == AlwaysFalse)
            || (view.Some? && FilterPossibility(env, schema, view.value) == AlwaysFalse)
            || (embed.Some? && FilterPossibility(env, schema, embed.value) == AlwaysFalse)
  {
    var all := Possibilities(env, schema, membership, view, embed);
    FoldAllMeans(all);
    assert all[0] == PossibilityOf(env, schema, membership) && all[1] == PossibilityOf(env, schema, view)
           && all[2] == PossibilityOf(env, schema, embed);
  }
}
