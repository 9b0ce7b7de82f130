/**
 * What the matcher says in the values' own terms: numbers as reals, text in lexicographic order, parts of a text up
 * to the case of ASCII letters, page fields by name.
 */
module BaseMeaning {
  import opened Common
  import opened Calendar
  import opened BaseFilter

  // ---- Text ----

  /** `a` comes before `b`: it is a proper prefix, or the first character that differs is smaller. */
  ghost predicate Precedes(a: string, b: string) {
    exists k :: FirstDifference(a, b, k) && k < |b| && (k == |a| || a[k] < b[k])
  }

  /** The texts agree before `k` and not at `k`, where at least one of them goes on. */
  predicate FirstDifference(a: string, b: string, k: int) {
    0 <= k <= |a| && k <= |b| && a[..k] == b[..k] && !(k == |a| == |b|) && (k < |a| && k < |b| ==> a[k] != b[k])
  }

  lemma DifferenceStep(a: string, b: string, k: int)
    requires a != "" && b != "" && a[0] == b[0]
    ensures FirstDifference(a[1..], b[1..], k) <==> k >= 0 && FirstDifference(a, b, k + 1)
  {
    if 0 <= k < |a| && k < |b| {
      assert a[..k + 1] == [a[0]] + a[1..][..k];
      assert b[..k + 1] == [b[0]] + b[1..][..k];
      assert a[..k + 1] == b[..k + 1] <==> a[1..][..k] == b[1..][..k] by {
        if a[..k + 1] == b[..k + 1] {
          assert a[1..][..k] == a[..k + 1][1..] && b[1..][..k] == b[..k + 1][1..];
        }
      }
    }
  }

  lemma PrecedesStep(a: string, b: string)
    requires a != "" && b != "" && a[0] == b[0]
    ensures Precedes(a, b) <==> Precedes(a[1..], b[1..])
  {
    if Precedes(a[1..], b[1..]) {
      var k :| FirstDifference(a[1..], b[1..], k) && k < |b[1..]| && (k == |a[1..]| || a[1..][k] < b[1..][k]);
      DifferenceStep(a, b, k);
      assert FirstDifference(a, b, k + 1);
    }
    if Precedes(a, b) {
      var k :| FirstDifference(a, b, k) && k < |b| && (k == |a| || a[k] < b[k]);
      DifferenceStep(a, b, k - 1);
      assert FirstDifference(a[1..], b[1..], k - 1);
    }
  }

  lemma PrecedesAtOnce(a: string, b: string)
    requires a == "" || b == "" || a[0] != b[0]
    ensures Precedes(a, b) <==> b != "" && (a == "" || a[0] < b[0])
  {
    if b != "" && (a == "" || a[0] < b[0]) {
      assert FirstDifference(a, b, 0);
    }
    if Precedes(a, b) {
      var k :| FirstDifference(a, b, k) && k < |b| && (k == |a| || a[k] < b[k]);
      if k > 0 {
        SharedStart(a, b, k);
      }
    }
  }

  lemma SharedStart(a: string, b: string, k: int)
    requires FirstDifference(a, b, k) && k > 0
    ensures a[0] == b[0]
  {
    assert a[..k][0] == a[0] && b[..k][0] == b[0];
  }

  lemma {:induction false} CompareTextMeans(a: string, b: string)
    ensures CompareText(a, b) == Less <==> Precedes(a, b)
    ensures CompareText(a, b) == Greater <==> Precedes(b, a)
    ensures CompareText(a, b) == Equal <==> a == b
    decreases |a|
  {
    if a != "" && b != "" && a[0] == b[0] {
      PrecedesStep(a, b);
      PrecedesStep(b, a);
      CompareTextMeans(a[1..], b[1..]);
      assert a == [a[0]] + a[1..] && b == [b[0]] + b[1..];
    } else {
      PrecedesAtOnce(a, b);
      PrecedesAtOnce(b, a);
    }
  }

  /** The same character, or the same ASCII letter in its other case. */
  predicate SameLetter(c: char, d: char) {
    || c == d
    || ('A' <= c <= 'Z' && d as int == c as int + 32)
    || ('A' <= d <= 'Z' && c as int == d as int + 32)
  }

  predicate Alike(a: string, b: string) {
    |a| == |b| && forall i :: 0 <= i < |a| ==> SameLetter(a[i], b[i])
  }

  lemma SameLetterMeans(c: char, d: char)
    ensures LowerAscii(c) == LowerAscii(d) <==> SameLetter(c, d)
  {
  }

  lemma AlikeMeans(a: string, b: string)
    ensures EqualsIgnoringCase(a, b) <==> Alike(a, b)
  {
    forall i | 0 <= i < |a| && i < |b| ensures LowerAscii(a[i]) == LowerAscii(b[i]) <==> SameLetter(a[i], b[i]) {
      SameLetterMeans(a[i], b[i]);
    }
  }

  /** `e` is a prefix, a suffix, or some part of `s`, up to the case of ASCII letters. */
  ghost predicate StartsLike(s: string, e: string) {
    exists x, y :: s == x + y && Alike(x, e)
  }

  ghost predicate EndsLike(s: string, e: string) {
    exists x, y :: s == x + y && Alike(y, e)
  }

  ghost predicate HasPartLike(s: string, e: string) {
    exists x, y, z :: s == x + y + z && Alike(y, e)
  }

  lemma PrefixMeans(s: string, e: string)
    ensures |e| <= |s| && EqualsIgnoringCase(s[..|e|], e) <==> StartsLike(s, e)
  {
    if |e| <= |s| {
      AlikeMeans(s[..|e|], e);
      assert s == s[..|e|] + s[|e|..];
    }
    if x, y :| s == x + y && Alike(x, e) {
      assert s[..|e|] == x;
    }
  }

  lemma SuffixMeans(s: string, e: string)
    ensures |e| <= |s| && EqualsIgnoringCase(s[|s| - |e|..], e) <==> EndsLike(s, e)
  {
    if |e| <= |s| {
      AlikeMeans(s[|s| - |e|..], e);
      assert s == s[..|s| - |e|] + s[|s| - |e|..];
    }
    if x, y :| s == x + y && Alike(y, e) {
      assert s[|s| - |e|..] == y;
    }
  }

  lemma PartSplits(s: string, e: string, i: nat)
    requires i + |e| <= |s| && EqualsIgnoringCase(s[i..][..|e|], e)
    ensures HasPartLike(s, e)
  {
    AlikeMeans(s[i..][..|e|], e);
    assert s == s[..i] + s[i..][..|e|] + s[i + |e|..];
  }

  lemma SplitIsPart(s: string, e: string, x: string, y: string, z: string)
    requires s == x + y + z && Alike(y, e)
    ensures |x| + |e| <= |s| && EqualsIgnoringCase(s[|x|..][..|e|], e)
  {
    AlikeMeans(y, e);
    assert s[|x|..][..|e|] == y;
  }

  lemma PartIsFound(env: Env, s: string, e: string, i: nat)
    requires i + |e| <= |s| && EqualsIgnoringCase(s[i..][..|e|], e)
    ensures SqlContains(env, CText(s), CText(e))
  {
    var c := SqlText(env, CText(s));
    assert c == s && 0 <= i <= |c| - |e| && EqualsIgnoringCase(c[i..][..|e|], e);
  }

  lemma PartMeans(env: Env, s: string, e: string)
    ensures SqlContains(env, CText(s), CText(e)) <==> HasPartLike(s, e)
  {
    if e == "" {
      PartSplits(s, e, 0);
    } else if SqlContains(env, CText(s), CText(e)) {
      var i :| 0 <= i <= |s| - |e| && EqualsIgnoringCase(s[i..][..|e|], e);
      PartSplits(s, e, i);
    }
    if x, y, z :| s == x + y + z && Alike(y, e) {
      SplitIsPart(s, e, x, y, z);
      PartIsFound(env, s, e, |x|);
    }
  }

  // ---- Which comparison values and which page values count ----

  /** What a comparison value says as a text. */
  ghost predicate Says(v: Json, text: string) {
    || v == JString(text)
    || (v.JNumber? && v.text == text)
    || (v == JBool(true) && text == "true")
    || (v == JBool(false) && text == "false")
  }

  predicate Textual(ty: PropertyType) {
    ty != Number && ty != PropertyType.Bool
  }

  predicate WellTyped(ty: PropertyType, v: Json) {
    match ty
    case Number => v.JNumber?
    case Bool => v.JBool?
    case _ => v.JString? || v.JNumber? || v.JBool?
  }

  /** The comparison value of each type of property: a number, a boolean, or a text; nulls, lists and tables never. */
  lemma ExpectedMeans(ty: PropertyType, v: Json)
    ensures ExpectedScalar(ty, v).Some? <==> WellTyped(ty, v)
    ensures v.JNumber? ==> ExpectedScalar(Number, v) == Some(CNumber(Finite(v.number)))
    ensures v.JBool? ==> ExpectedScalar(PropertyType.Bool, v) == Some(CBool(v.b))
    ensures forall t :: Textual(ty) && Says(v, t) ==> ExpectedScalar(ty, v) == Some(CText(t))
  {
  }

  /** The page value has the form its property's type asks for. */
  predicate RightForm(ty: PropertyType, v: Toml) {
    match ty
    case Number => v.TInteger? || v.TFloat?
    case Bool => v.TBool?
    case Date => v.TDatetime?
    case Datetime => v.TDatetime?
    case _ => v.TString?
  }

  /** A value of another form is as good as none: it is unequal to everything well typed, and that is all. */
  lemma WrongFormMatches(env: Env, v: Toml, ty: PropertyType, op: Op, value: Json)
    requires !RightForm(ty, v)
    ensures PropertyScalarMatches(env, v, ty, op, value) <==>
            || op == IsEmpty
            || (op == Ne && WellTyped(ty, value))
            || (op == NotContains && WellTyped(ty, value) && Textual(ty))
  {
    ExpectedMeans(ty, value);
    assert CurrentScalar(v, ty) == None;
    NothingMatches(env, ty, op, value, IsMembership(ty));
  }

  lemma NothingMatches(env: Env, ty: PropertyType, op: Op, value: Json, membership: bool)
    ensures ScalarMatches(env, None, ty, op, value, membership) <==>
            || op == IsEmpty
            || (op == Ne && ExpectedScalar(ty, value).Some?)
            || (op == NotContains && ExpectedScalar(ty, value).Some? && Textual(ty))
  {
  }

  /** A right form is present. */
  lemma RightFormIsPresent(env: Env, v: Toml, ty: PropertyType, value: Json)
    requires RightForm(ty, v)
    ensures PropertyScalarMatches(env, v, ty, NotEmpty, value) && !PropertyScalarMatches(env, v, ty, IsEmpty, value)
  {
  }

  /** Against an ill-typed comparison value no operator that reads it matches. */
  lemma IllTypedNeverMatches(env: Env, v: Toml, ty: PropertyType, op: Op, value: Json)
    requires !WellTyped(ty, value) && !op.In? && !op.IsEmpty? && !op.NotEmpty?
    requires op !in {IsToday, IsThisWeek, IsPastWeek, IsNextWeek, IsThisMonth}
    ensures !PropertyScalarMatches(env, v, ty, op, value)
  {
    ExpectedMeans(ty, value);
  }

  // ---- One value against one ----

  predicate IsOrder(op: Op) {
    op.Eq? || op.Ne? || op.Lt? || op.Lte? || op.Gt? || op.Gte?
  }

  lemma Ordered(env: Env, v: Toml, ty: PropertyType, op: Op, value: Json, c: Comparable, e: Comparable)
    requires CurrentScalar(v, ty) == Some(c) && ExpectedScalar(ty, value) == Some(e) && IsOrder(op)
    ensures PropertyScalarMatches(env, v, ty, op, value) <==> OrderingHolds(op, CompareScalar(c, e))
  {
    ScalarOrdered(env, c, ty, op, value, e, IsMembership(ty));
  }

  lemma ScalarOrdered(env: Env, c: Comparable, ty: PropertyType, op: Op, value: Json, e: Comparable, membership: bool)
    requires ExpectedScalar(ty, value) == Some(e) && IsOrder(op)
    ensures ScalarMatches(env, Some(c), ty, op, value, membership) <==> OrderingHolds(op, CompareScalar(c, e))
  {
  }

  /** The number a page value holds, integer or finite float. */
  ghost predicate Holds(v: Toml, x: real) {
    (v.TInteger? && v.i as real == x) || v == TFloat(Finite(x))
  }

  lemma NumbersCompare(env: Env, v: Toml, x: real, op: Op, value: Json)
    requires Holds(v, x) && value.JNumber? && IsOrder(op)
    ensures PropertyScalarMatches(env, v, Number, op, value) <==>
            match op
            case Lt => x < value.number
            case Lte => x <= value.number
            case Gt => x > value.number
            case Gte => x >= value.number
            case Eq => x == value.number
            case _ => x != value.number
  {
    Ordered(env, v, Number, op, value, CNumber(Finite(x)), CNumber(Finite(value.number)));
  }

  /** NaN is unequal to every number and in no order with any; the infinities are beyond all of them. */
  lemma SpecialNumbersCompare(env: Env, op: Op, value: Json)
    requires IsOrder(op) && value.JNumber?
    ensures PropertyScalarMatches(env, TFloat(NaN), Number, op, value) <==> op == Ne
    ensures PropertyScalarMatches(env, TFloat(PosInf), Number, op, value) <==> op == Ne || op == Gt || op == Gte
    ensures PropertyScalarMatches(env, TFloat(NegInf), Number, op, value) <==> op == Ne || op == Lt || op == Lte
  {
    var e := CNumber(Finite(value.number));
    Ordered(env, TFloat(NaN), Number, op, value, CNumber(NaN), e);
    Ordered(env, TFloat(PosInf), Number, op, value, CNumber(PosInf), e);
    Ordered(env, TFloat(NegInf), Number, op, value, CNumber(NegInf), e);
  }

  /** False comes before true. */
  lemma BooleansCompare(env: Env, b: bool, op: Op, e: bool)
    requires IsOrder(op)
    ensures PropertyScalarMatches(env, TBool(b), PropertyType.Bool, op, JBool(e)) <==>
            match op
            case Lt => !b && e
            case Lte => !b || e
            case Gt => b && !e
            case Gte => b || !e
            case Eq => b == e
            case _ => b != e
  {
    Ordered(env, TBool(b), PropertyType.Bool, op, JBool(e), CBool(b), CBool(e));
  }

  /** The text a page value holds: a string, or a date in a date property. */
  ghost predicate Reads(ty: PropertyType, v: Toml, s: string) {
    if ty == Date || ty == Datetime then v == TDatetime(s) else Textual(ty) && v == TString(s)
  }

  lemma TextIsCurrent(ty: PropertyType, v: Toml, s: string)
    requires Reads(ty, v, s)
    ensures CurrentScalar(v, ty) == Some(CText(s)) && Textual(ty)
  {
  }

  lemma TextsCompare(env: Env, ty: PropertyType, v: Toml, s: string, op: Op, value: Json, e: string)
    requires Reads(ty, v, s) && Says(value, e) && IsOrder(op)
    ensures PropertyScalarMatches(env, v, ty, op, value) <==>
            match op
            case Lt => Precedes(s, e)
            case Lte => Precedes(s, e) || s == e
            case Gt => Precedes(e, s)
            case Gte => Precedes(e, s) || s == e
            case Eq => s == e
            case _ => s != e
  {
    CompareTextMeans(s, e);
    ExpectedMeans(ty, value);
    TextIsCurrent(ty, v, s);
    Ordered(env, v, ty, op, value, CText(s), CText(e));
  }

  lemma Affixed(env: Env, v: Toml, ty: PropertyType, op: Op, value: Json, c: Comparable, e: Comparable)
    requires CurrentScalar(v, ty) == Some(c) && ExpectedScalar(ty, value) == Some(e)
    requires op.StartsWith? || op.EndsWith?
    ensures PropertyScalarMatches(env, v, ty, op, value) <==>
            (ty == Text || ty == Url) && SqlAffix(env, c, e, op.StartsWith?)
  {
  }

  /** The affix operators, which only plain text and addresses have. */
  lemma AffixesMatch(env: Env, ty: PropertyType, v: Toml, s: string, value: Json, e: string)
    requires Reads(ty, v, s) && Says(value, e)
    ensures PropertyScalarMatches(env, v, ty, StartsWith, value) <==> (ty == Text || ty == Url) && StartsLike(s, e)
    ensures PropertyScalarMatches(env, v, ty, EndsWith, value) <==> (ty == Text || ty == Url) && EndsLike(s, e)
  {
    ExpectedMeans(ty, value);
    TextIsCurrent(ty, v, s);
    Affixed(env, v, ty, StartsWith, value, CText(s), CText(e));
    Affixed(env, v, ty, EndsWith, value, CText(s), CText(e));
    PrefixMeans(s, e);
    SuffixMeans(s, e);
  }

  lemma Contained(env: Env, v: Toml, ty: PropertyType, value: Json, c: Comparable, e: Comparable)
    requires CurrentScalar(v, ty) == Some(c) && ExpectedScalar(ty, value) == Some(e) && Textual(ty)
    ensures var yes := if ty == Select || ty == MultiSelect || ty == Relation then ScalarEqual(c, e)
                       else SqlContains(env, c, e);
            && (PropertyScalarMatches(env, v, ty, Contains, value) <==> yes)
            && (PropertyScalarMatches(env, v, ty, NotContains, value) <==> !yes)
  {
  }

  /** `contains` is equality with a choice or a link, and a part of any other text. */
  lemma ContainsMatches(env: Env, ty: PropertyType, v: Toml, s: string, value: Json, e: string)
    requires Reads(ty, v, s) && Says(value, e)
    ensures PropertyScalarMatches(env, v, ty, Contains, value) <==>
            if ty == Select || ty == MultiSelect || ty == Relation then s == e else HasPartLike(s, e)
    ensures PropertyScalarMatches(env, v, ty, NotContains, value) <==>
            if ty == Select || ty == MultiSelect || ty == Relation then s != e else !HasPartLike(s, e)
  {
    ExpectedMeans(ty, value);
    TextIsCurrent(ty, v, s);
    Contained(env, v, ty, value, CText(s), CText(e));
    PartMeans(env, s, e);
    CompareTextMeans(s, e);
  }

  /** Numbers and booleans have no parts. */
  lemma NumbersHaveNoParts(env: Env, v: Toml, ty: PropertyType, op: Op, value: Json)
    requires !Textual(ty) && op in {Contains, NotContains, StartsWith, EndsWith}
    ensures !PropertyScalarMatches(env, v, ty, op, value)
  {
  }

  // ---- Whole properties ----

  /** Nothing there, an empty text, or an empty list. */
  predicate Missing(current: Option<Toml>) {
    current == None || current == Some(TString("")) || current == Some(TArray([]))
  }

  lemma MissingMeans(current: Option<Toml>)
    ensures Missing(current) <==> !(current.Some? && !TomlIsEmpty(current.value))
  {
  }

  lemma EmptinessMatches(env: Env, current: Option<Toml>, ty: PropertyType, value: Json, links: Option<seq<LinkTarget>>)
    ensures PropertyMatches(env, current, ty, IsEmpty, value, links) <==> Missing(current)
    ensures PropertyMatches(env, current, ty, NotEmpty, value, links) <==> !Missing(current)
  {
    MissingMeans(current);
  }

  /** A property that is not there is unequal to everything well typed, and matches nothing else but `is_empty`. */
  lemma MissingMatches(env: Env, current: Option<Toml>, ty: PropertyType, op: Op, value: Json,
                       links: Option<seq<LinkTarget>>)
    requires Missing(current) && op != LinksTo && op != IsEmpty && op != NotEmpty
    ensures PropertyMatches(env, current, ty, op, value, links) <==>
            (op == Ne || (op == NotContains && Textual(ty))) && WellTyped(ty, value)
  {
    MissingMeans(current);
    ExpectedMeans(ty, value);
  }

  predicate Direct(op: Op) {
    !op.IsEmpty? && !op.NotEmpty? && !op.LinksTo?
  }

  /** One value is compared as it is. */
  lemma OneValueMatches(env: Env, v: Toml, ty: PropertyType, op: Op, value: Json, links: Option<seq<LinkTarget>>)
    requires !Missing(Some(v)) && !v.TArray? && Direct(op)
    ensures PropertyMatches(env, Some(v), ty, op, value, links) <==> PropertyScalarMatches(env, v, ty, op, value)
  {
    MissingMeans(Some(v));
    if !Textual(ty) && (op.Contains? || op.NotContains?) {
      NumbersHaveNoParts(env, v, ty, op, value);
    }
  }

  /** A list matches as its items do. */
  lemma ListMatches(env: Env, items: seq<Toml>, ty: PropertyType, op: Op, value: Json, links: Option<seq<LinkTarget>>)
    requires items != [] && Direct(op)
    ensures PropertyMatches(env, Some(TArray(items)), ty, op, value, links) <==>
            ((op == Contains || op == NotContains) ==> Textual(ty)) && ItemsMatch(env, items, ty, op, value)
  {
  }

  /** Its items do if one of them does. */
  lemma ItemsMean(env: Env, items: seq<Toml>, ty: PropertyType, op: Op, value: Json)
    requires op != Ne && op != NotContains
    ensures ItemsMatch(env, items, ty, op, value) <==>
            exists i :: 0 <= i < |items| && PropertyScalarMatches(env, items[i], ty, op, value)
  {
    if i :| 0 <= i < |items| && PropertyScalarMatches(env, items[i], ty, op, value) {
      assert ItemsMatch(env, items, ty, op, value);
    }
  }

  /** Under a negation, if none matches the positive form. */
  lemma ItemsNegationMeans(env: Env, items: seq<Toml>, ty: PropertyType, value: Json)
    ensures ItemsMatch(env, items, ty, Ne, value) <==>
            forall i :: 0 <= i < |items| ==> !PropertyScalarMatches(env, items[i], ty, Eq, value)
    ensures ItemsMatch(env, items, ty, NotContains, value) <==>
            forall i :: 0 <= i < |items| ==> !PropertyScalarMatches(env, items[i], ty, Contains, value)
  {
  }

  /** `links_to`: a relation, a text, and a known link of the page with that id or that canonical name. */
  lemma LinksToMatches(env: Env, current: Option<Toml>, ty: PropertyType, value: Json, links: Option<seq<LinkTarget>>)
    ensures PropertyMatches(env, current, ty, LinksTo, value, links) <==>
            && ty == Relation && value.JString? && links.Some?
            && exists t :: t in links.value && (t.id == Some(env.normalizeLink(value.s).0)
                                                || t.canonical == env.normalizeLink(value.s).1)
  {
    if ty == Relation && value.JString? && links.Some? {
      if t :| t in links.value && (t.id == Some(env.normalizeLink(value.s).0)
                                   || t.canonical == env.normalizeLink(value.s).1) {
        var i :| 0 <= i < |links.value| && links.value[i] == t;
        assert LinkMatches(links.value[i], env.normalizeLink(value.s));
      }
    }
  }

  /** The labels of a multi-select, for one: equality with some label, and with none. */
  lemma LabelsMatch(env: Env, labels: seq<string>, e: string, links: Option<seq<LinkTarget>>)
    requires labels != []
    ensures var v := Some(TArray(seq(|labels|, i requires 0 <= i < |labels| => TString(labels[i]))));
            && (PropertyMatches(env, v, MultiSelect, Eq, JString(e), links) <==> e in labels)
            && (PropertyMatches(env, v, MultiSelect, Contains, JString(e), links) <==> e in labels)
            && (PropertyMatches(env, v, MultiSelect, Ne, JString(e), links) <==> e !in labels)
            && (PropertyMatches(env, v, MultiSelect, NotContains, JString(e), links) <==> e !in labels)
  {
    var items := seq(|labels|, i requires 0 <= i < |labels| => TString(labels[i]));
    ListMatches(env, items, MultiSelect, Eq, JString(e), links);
    ListMatches(env, items, MultiSelect, Contains, JString(e), links);
    ListMatches(env, items, MultiSelect, Ne, JString(e), links);
    ListMatches(env, items, MultiSelect, NotContains, JString(e), links);
    ItemsMean(env, items, MultiSelect, Eq, JString(e));
    ItemsMean(env, items, MultiSelect, Contains, JString(e));
    ItemsNegationMeans(env, items, MultiSelect, JString(e));
    forall i | 0 <= i < |labels|
      ensures PropertyScalarMatches(env, items[i], MultiSelect, Eq, JString(e)) <==> labels[i] == e
      ensures PropertyScalarMatches(env, items[i], MultiSelect, Contains, JString(e)) <==> labels[i] == e
    {
      TextsCompare(env, MultiSelect, items[i], labels[i], Eq, JString(e), e);
      ContainsMatches(env, MultiSelect, items[i], labels[i], JString(e), e);
    }
  }

  // ---- Dates ----

  /** A relative-date operator on a text that is not a date in its first ten characters. */
  lemma NoDateNeverMatches(env: Env, text: string, ty: PropertyType, op: Op, value: Json, membership: bool)
    requires op.IsRelativeDate() && (|text| < 10 || env.parseDate(text[..10]) == None)
    ensures !ScalarMatches(env, Some(CText(text)), ty, op, value, membership)
    ensures !ScalarMatches(env, None, ty, op, value, membership)
  {
  }

  /** On a text that starts with the date `d`: where the operator says, if the type has dates at all. */
  lemma DateMatches(env: Env, text: string, d: CivilDate, ty: PropertyType, op: Op, value: Json, membership: bool)
    requires op in {IsToday, IsThisWeek, IsPastWeek, IsNextWeek, IsThisMonth}
    requires ValidDate(env.today) && ValidDate(d) && |text| >= 10 && env.parseDate(text[..10]) == Some(DayNumber(d))
    ensures ScalarMatches(env, Some(CText(text)), ty, op, value, membership) <==>
            && (ty == Date || ty == Datetime)
            && match op
               case IsToday => d == env.today
               case IsThisMonth => d.year == env.today.year && d.month == env.today.month
               case IsThisWeek => Week(DayNumber(d)) == Week(DayNumber(env.today))
               case IsPastWeek => -7 <= DayNumber(d) - DayNumber(env.today) <= 0
               case _ => 1 <= DayNumber(d) - DayNumber(env.today) <= 7
  {
    RelativeDatesMean(env.today, d);
    ScalarInWindow(env, text, ty, op, value, membership, DayNumber(d));
  }

  // ---- Page fields ----

  ghost predicate FieldMatches(env: Env, sys: SysField, op: Op, value: Json, page: Page) {
    ResolvedMatches(env, Sys(sys), op, value, page)
  }

  /** The fields every page has, each read from its own place. */
  lemma OwnFieldsMatch(env: Env, page: Page, e: string)
    ensures FieldMatches(env, Id, Eq, JString(e), page) <==> page.id == e
    ensures FieldMatches(env, Path, Eq, JString(e), page) <==> page.path == e
    ensures FieldMatches(env, Kind, Eq, JString(e), page) <==> page.kind == e
  {
    TextFieldMatches(env, page, Id, Some(page.id), e);
    TextFieldMatches(env, page, Path, Some(page.path), e);
    TextFieldMatches(env, page, Kind, Some(page.kind), e);
  }

  /** The fields a page may have. */
  lemma TextFieldsMatch(env: Env, page: Page, e: string)
    ensures FieldMatches(env, Title, Eq, JString(e), page) <==> page.title == Some(e)
    ensures FieldMatches(env, Project, Eq, JString(e), page) <==> page.project == Some(e)
  {
    TextFieldMatches(env, page, Title, page.title, e);
    TextFieldMatches(env, page, Project, page.project, e);
  }

  lemma DateFieldsMatch(env: Env, page: Page, e: string)
    ensures FieldMatches(env, CreatedAt, Eq, JString(e), page) <==> page.createdAt == Some(e)
    ensures FieldMatches(env, UpdatedAt, Eq, JString(e), page) <==> page.updatedAt == Some(e)
    ensures FieldMatches(env, JournalDate, Eq, JString(e), page) <==> page.journalDate == Some(e)
  {
    TextFieldMatches(env, page, CreatedAt, page.createdAt, e);
    TextFieldMatches(env, page, UpdatedAt, page.updatedAt, e);
    TextFieldMatches(env, page, JournalDate, page.journalDate, e);
  }

  lemma TextFieldMatches(env: Env, page: Page, sys: SysField, held: Option<string>, e: string)
    requires SystemScalar(sys, page) == TextOf(held) && sys.PropertyTypeOf() != Number
    requires sys.PropertyTypeOf() != PropertyType.Bool && !sys.Tags? && !sys.Aliases?
    ensures FieldMatches(env, sys, Eq, JString(e), page) <==> held == Some(e)
  {
    if held.Some? {
      CompareTextMeans(held.value, e);
    }
  }

  /** A field with a text matches under the other operators as a text property of that value would. */
  lemma TextFieldIsProperty(env: Env, page: Page, sys: SysField, held: string, op: Op, value: Json)
    requires sys in {Id, Path, Kind, Title, Project, CreatedAt, UpdatedAt}
    requires SystemScalar(sys, page) == Some(CText(held))
    requires Direct(op) && op !in {IsToday, IsThisWeek, IsPastWeek, IsNextWeek, IsThisMonth}
    ensures FieldMatches(env, sys, op, value, page) <==> PropertyScalarMatches(env, TString(held), Text, op, value)
  {
    assert SystemMatchType(sys, op) == Text;
  }

  /** The journal date matches as a date property of that value would. */
  lemma JournalDateIsProperty(env: Env, page: Page, held: string, op: Op, value: Json)
    requires page.journalDate == Some(held) && Direct(op)
    ensures FieldMatches(env, JournalDate, op, value, page) <==>
            PropertyScalarMatches(env, TDatetime(held), Date, op, value)
  {
    assert SystemMatchType(JournalDate, op) == Date;
  }

  /** No field is a relation. */
  lemma FieldsHaveNoLinks(env: Env, page: Page, sys: SysField, value: Json)
    ensures !FieldMatches(env, sys, LinksTo, value, page)
  {
    match sys
    case Id =>
    case Path =>
    case Title =>
    case Kind =>
    case Project =>
    case Tags =>
    case Aliases =>
    case CreatedAt =>
    case UpdatedAt =>
    case Encryption =>
    case JournalDate =>
    case WordCount =>
  }

  /** Whether a page is encrypted is a boolean. */
  lemma EncryptionMatches(env: Env, page: Page, e: bool)
    ensures FieldMatches(env, Encryption, Eq, JBool(e), page) <==> page.encrypted == e
  {
  }

  /** Its length is a number, and in no order while unknown. */
  lemma WordCountMatches(env: Env, page: Page, op: Op, value: Json)
    requires value.JNumber? && IsOrder(op)
    ensures page.wordCount == None ==> (FieldMatches(env, WordCount, op, value, page) <==> op == Ne)
    ensures page.wordCount.Some? ==>
              (FieldMatches(env, WordCount, op, value, page) <==>
               PropertyScalarMatches(env, TInteger(page.wordCount.value), Number, op, value))
  {
    if page.wordCount.Some? {
      var c := CNumber(Finite(page.wordCount.value as real));
      var e := CNumber(Finite(value.number));
      Ordered(env, TInteger(page.wordCount.value), Number, op, value, c, e);
      ScalarOrdered(env, c, Number, op, value, e, false);
    }
  }

  /** A field is empty when the page has no value for it, which some fields never are. */
  lemma FieldsAreEmpty(env: Env, page: Page, sys: SysField, value: Json)
    ensures FieldMatches(env, sys, IsEmpty, value, page) <==>
            match sys
            case Title => page.title == None
            case Project => page.project == None
            case CreatedAt => page.createdAt == None
            case UpdatedAt => page.updatedAt == None
            case JournalDate => page.journalDate == None
            case WordCount => page.wordCount == None
            case Tags => page.tags == []
            case Aliases => page.aliases == []
            case _ => false
    ensures FieldMatches(env, sys, NotEmpty, value, page) <==> !FieldMatches(env, sys, IsEmpty, value, page)
  {
    match sys
    case Id =>
    case Path =>
    case Title =>
    case Kind =>
    case Project =>
    case Tags =>
    case Aliases =>
    case CreatedAt =>
    case UpdatedAt =>
    case Encryption =>
    case JournalDate =>
    case WordCount =>
  }

  /** Tags are compared as they are, aliases by their canonical names. */
  lemma ListFieldsMatch(env: Env, page: Page, e: string)
    ensures FieldMatches(env, Tags, Eq, JString(e), page) <==> e in page.tags
    ensures FieldMatches(env, Aliases, Eq, JString(e), page) <==>
            exists a :: a in page.aliases && env.canonical(a) == env.canonical(e)
  {
    if a :| a in page.aliases && env.canonical(a) == env.canonical(e) {
      var i :| 0 <= i < |page.aliases| && page.aliases[i] == a;
    }
  }

  /** The text of a field that has dates. */
  ghost predicate HasDateText(page: Page, sys: SysField, text: string) {
    || (sys == CreatedAt && page.createdAt == Some(text))
    || (sys == UpdatedAt && page.updatedAt == Some(text))
    || (sys == JournalDate && page.journalDate == Some(text))
  }

  lemma FieldReadsDate(env: Env, page: Page, sys: SysField, op: Op, value: Json, text: string)
    requires op.IsRelativeDate() && HasDateText(page, sys, text)
    ensures FieldMatches(env, sys, op, value, page) <==>
            ScalarMatches(env, Some(CText(text)), if sys == JournalDate then Date else Datetime, op, value, false)
  {
  }

  /** Timestamps and the journal date have dates. */
  lemma FieldsHaveDates(env: Env, page: Page, sys: SysField, op: Op, value: Json, text: string, d: CivilDate)
    requires op in {IsToday, IsThisWeek, IsPastWeek, IsNextWeek, IsThisMonth} && HasDateText(page, sys, text)
    requires ValidDate(env.today) && ValidDate(d) && |text| >= 10 && env.parseDate(text[..10]) == Some(DayNumber(d))
    ensures FieldMatches(env, sys, op, value, page) <==> FallsIn(op, env.today, d)
  {
    FieldReadsDate(env, page, sys, op, value, text);
    DateMatches(env, text, d, if sys == JournalDate then Date else Datetime, op, value, false);
  }

  /** No other field has. */
  lemma OtherFieldsHaveNoDates(env: Env, page: Page, sys: SysField, op: Op, value: Json)
    requires op in {IsToday, IsThisWeek, IsPastWeek, IsNextWeek, IsThisMonth}
    requires sys != CreatedAt && sys != UpdatedAt && sys != JournalDate
    ensures !FieldMatches(env, sys, op, value, page)
  {
  }

  /** A property is looked up under its own key among the page's properties and among its links. */
  lemma PropertiesAreLookedUp(env: Env, key: string, ty: PropertyType, op: Op, value: Json, page: Page,
                              current: Option<Toml>, links: Option<seq<LinkTarget>>)
    requires if key in page.extra then current == Some(page.extra[key]) else current == None
    requires if key in page.links then links == Some(page.links[key]) else links == None
    ensures ResolvedMatches(env, Prop(key, ty), op, value, page) <==>
            PropertyMatches(env, current, ty, op, value, links)
  {
    assert Lookup(page.extra, key) == current && Lookup(page.links, key) == links;
  }

  /** A name that resolves to nothing matches nothing. */
  lemma UnknownFieldsNeverMatch(env: Env, schema: Schema, field: string, op: Op, value: Json, page: Page)
    ensures schema.resolve(field) == None ==> !FilterMatches(env, schema, Cmp(field, op, value), page)
    ensures schema.resolve(field).Some? ==>
              (FilterMatches(env, schema, Cmp(field, op, value), page) <==>
               ResolvedMatches(env, schema.resolve(field).value, op, value, page))
  {
  }
}
