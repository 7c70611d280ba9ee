/** A balanced variant of the search-action builder. The builder as written never
    opens a level before `C.Model.` yet closes one after the badge group, so with a
    badge group it opens five levels and closes seven, and without one it opens
    four and closes six. The worked example URL kept next to the builder opens the
    model level and closes exactly what it opened; this module builds that shape
    and proves it balanced. */
module BalancedQuery {
  import opened Text
  import opened Codecs
  import opened UrlHelpers
  import opened SearchQuery

  /** `n` copies of `c`. */
  function Repeat(c: char, n: nat): (r: string)
    ensures |r| == n
    ensures forall i :: 0 <= i < n ==> r[i] == c
  {
    if n == 0 then [] else [c] + Repeat(c, n - 1)
  }

  lemma {:induction false} RepeatCloses(n: nat)
    ensures Opens(Repeat(')', n)) == 0 && Closes(Repeat(')', n)) == n
    decreases n
  {
    if n > 0 {
      RepeatCloses(n - 1);
      CloseLiteral();
      ParensAppend(")", Repeat(')', n - 1));
    }
  }

  /** Levels the action opens: the And root, CarType, Manufacturer, ModelGroup,
      and, with a badge group, Model and BadgeGroup. */
  function Levels(spec: SearchSpec): nat {
    4 + 2 * BadgeOpen(spec)
  }

  /** The model level is opened only when something is nested inside it. */
  function ModelOpen(spec: SearchSpec): string {
    if Truthy(spec.badgeGroup) then "(" else ""
  }

  /** The badge group and its leaf, nested inside the model level. */
  function BadgeSegment(spec: SearchSpec): string {
    if Truthy(spec.badgeGroup) then
      BadgeGroupText + spec.badgeGroup.value + "." + BadgeLeaf(spec)
    else ""
  }

  /** The action string with exactly one `)` for every level opened. */
  function CorrectedAction(spec: SearchSpec): string {
    Head(spec) + ModelOpen(spec) + ModelText + spec.model + "." + BadgeSegment(spec)
    + Repeat(')', Levels(spec))
  }

  /** Everything between the head and the closing run, shared by both builders. */
  function Body(spec: SearchSpec): string {
    ModelText + spec.model + "." + BadgeSegment(spec)
  }

  /** The two builders differ exactly in where one parenthesis goes: with a badge
      group the as-written builder drops the `(` before `C.Model.` and adds a `)`
      after the badge segment; without one it appends two `)` too many. */
  lemma AsWrittenVersusCorrected(spec: SearchSpec)
    ensures Truthy(spec.badgeGroup) ==>
      && CorrectedAction(spec) == Head(spec) + "(" + Body(spec) + Closers
      && Action(spec) == Head(spec) + Body(spec) + ")" + Closers
    ensures !Truthy(spec.badgeGroup) ==>
      && CorrectedAction(spec) == Head(spec) + Body(spec) + "))))"
      && Action(spec) == CorrectedAction(spec) + "))"
  {
    if Truthy(spec.badgeGroup) {
      WithBadgeGroup(spec);
    } else {
      WithoutBadgeGroup(spec);
    }
  }

  lemma WithBadgeGroup(spec: SearchSpec)
    requires Truthy(spec.badgeGroup)
    ensures CorrectedAction(spec) == Head(spec) + "(" + Body(spec) + Closers
    ensures Action(spec) == Head(spec) + Body(spec) + ")" + Closers
  {
    SixCloses();
    Regroup(Head(spec), "(", ModelText, spec.model, ".", BadgeSegment(spec), Closers);
    RegroupClose(Head(spec), ModelText, spec.model, ".", BadgeSegment(spec), ")", Closers);
  }

  lemma WithoutBadgeGroup(spec: SearchSpec)
    requires !Truthy(spec.badgeGroup)
    ensures CorrectedAction(spec) == Head(spec) + Body(spec) + "))))"
    ensures Action(spec) == CorrectedAction(spec) + "))"
  {
    CorrectedWithout(spec);
    ActionWithout(spec);
  }

  lemma CorrectedWithout(spec: SearchSpec)
    requires !Truthy(spec.badgeGroup)
    ensures CorrectedAction(spec) == Head(spec) + Body(spec) + "))))"
  {
    FourCloses();
    assert Levels(spec) == 4;
    Regroup(Head(spec), "", ModelText, spec.model, ".", "", "))))");
  }

  lemma ActionWithout(spec: SearchSpec)
    requires !Truthy(spec.badgeGroup)
    ensures Action(spec) == Head(spec) + Body(spec) + "))))" + "))"
  {
    ClosersSplit();
    var h, b := Head(spec), Body(spec);
    assert b == ModelText + spec.model + ".";
    assert Action(spec) == h + ModelText + spec.model + "." + "" + Closers;
    Tail2(h + b, "))))", "))");
  }

  lemma Regroup(h: string, o: string, m: string, x: string, d: string, s: string, t: string)
    ensures h + o + m + x + d + s + t == h + o + (m + x + d + s) + t
  {
  }

  lemma RegroupClose(h: string, m: string, x: string, d: string, s: string, r: string, t: string)
    ensures h + m + x + d + (s + r) + t == h + (m + x + d + s) + r + t
  {
  }

  lemma Tail2(a: string, b: string, c: string)
    ensures a + (b + c) == a + b + c
  {
  }

  lemma ClosersSplit()
    ensures Closers == "))))" + "))"
  {
  }

  lemma SixCloses()
    ensures Repeat(')', 6) == Closers
  {
    assert Repeat(')', 6) == [')'] + Repeat(')', 5);
    assert Repeat(')', 5) == [')'] + Repeat(')', 4);
    FourCloses();
  }

  lemma FourCloses()
    ensures Repeat(')', 4) == "))))"
  {
    assert Repeat(')', 4) == [')'] + Repeat(')', 3);
    assert Repeat(')', 3) == [')'] + Repeat(')', 2);
    assert Repeat(')', 2) == [')'] + Repeat(')', 1);
  }

  /** The as-written action is never the balanced one. */
  lemma AsWrittenDiffers(spec: SearchSpec)
    ensures Action(spec) != CorrectedAction(spec)
  {
    AsWrittenVersusCorrected(spec);
    var h := Head(spec);
    if Truthy(spec.badgeGroup) {
      var a, c := Action(spec), CorrectedAction(spec);
      assert c[|h|] == '(';
      assert a[|h|] == ModelText[0] == 'C';
    } else {
      assert |Action(spec)| == |CorrectedAction(spec)| + 2;
    }
  }

  /** The balanced action opens and closes `Levels` levels of its own, whatever the
      field values contribute. */
  lemma CorrectedParens(spec: SearchSpec)
    ensures Opens(CorrectedAction(spec)) == Levels(spec) + FieldCount(spec, '(')
    ensures Closes(CorrectedAction(spec)) == Levels(spec) + FieldCount(spec, ')')
  {
    HeadParens(spec);
    ModelOpenParens(spec);
    BadgeSegmentParens(spec);
    RepeatCloses(Levels(spec));
    ModelLiteral();
    DotLiteral();
    CorrectedCounts(Head(spec), ModelOpen(spec), ModelText, spec.model, ".", BadgeSegment(spec),
                    Repeat(')', Levels(spec)));
  }

  lemma ModelOpenParens(spec: SearchSpec)
    ensures Opens(ModelOpen(spec)) == BadgeOpen(spec) && Closes(ModelOpen(spec)) == 0
  {
    if Truthy(spec.badgeGroup) {
      OpenLiteral("");
      assert "(" + "" == "(";
    } else {
      NoParens("");
    }
  }

  lemma BadgeSegmentParens(spec: SearchSpec)
    ensures Opens(BadgeSegment(spec)) == BadgeOpen(spec) + BadgeFieldCount(spec, '(')
    ensures Closes(BadgeSegment(spec)) == BadgeFieldCount(spec, ')')
  {
    if Truthy(spec.badgeGroup) {
      var bg := spec.badgeGroup.value;
      BadgeGroupLiteral();
      DotLiteral();
      BadgeLeafParens(spec);
      SegmentCounts(BadgeGroupText, bg, ".", BadgeLeaf(spec));
    } else {
      NoParens("");
    }
  }

  lemma SegmentCounts(lead: string, bg: string, dot: string, leaf: string)
    requires Opens(lead) == 1 && Closes(lead) == 0
    requires Opens(dot) == 0 && Closes(dot) == 0
    ensures Opens(lead + bg + dot + leaf) == 1 + Opens(bg) + Opens(leaf)
    ensures Closes(lead + bg + dot + leaf) == Closes(bg) + Closes(leaf)
  {
    ParensAppend(lead, bg);
    ParensAppend(lead + bg, dot);
    ParensAppend(lead + bg + dot, leaf);
  }

  lemma CorrectedCounts(head: string, open: string, lead: string, model: string, dot: string,
                        badge: string, closers: string)
    requires Opens(lead) == 0 && Closes(lead) == 0 && Opens(dot) == 0 && Closes(dot) == 0
    ensures Opens(head + open + lead + model + dot + badge + closers)
         == Opens(head) + Opens(open) + Opens(model) + Opens(badge) + Opens(closers)
    ensures Closes(head + open + lead + model + dot + badge + closers)
         == Closes(head) + Closes(open) + Closes(model) + Closes(badge) + Closes(closers)
  {
    ParensAppend(head, open);
    ParensAppend(head + open, lead);
    ParensAppend(head + open + lead, model);
    ParensAppend(head + open + lead + model, dot);
    ParensAppend(head + open + lead + model + dot, badge);
    ParensAppend(head + open + lead + model + dot + badge, closers);
  }

  /** With paren-free field values the balanced action closes what it opens. */
  lemma CorrectedBalanced(spec: SearchSpec)
    requires FieldCount(spec, '(') == 0 && FieldCount(spec, ')') == 0
    ensures Closes(CorrectedAction(spec)) == Opens(CorrectedAction(spec))
  {
    CorrectedParens(spec);
  }

  /** The search URL built from the balanced action. */
  function CorrectedSearchUrl(lib: Library, spec: SearchSpec): (url: string)
    ensures IsPrefix(BaseUrl, url)
  {
    SearchUrl(lib, CorrectedAction(spec))
  }

  /** Reading a balanced search URL back gives the search page and its action. */
  lemma CorrectedUrlRoundTrip(lib: Library, spec: SearchSpec)
    requires RoundTrips(lib)
    ensures Base(CorrectedSearchUrl(lib, spec)) == Some(SearchPage)
    ensures Payload(lib, CorrectedSearchUrl(lib, spec)).Some?
    ensures Payload(lib, CorrectedSearchUrl(lib, spec)).value.JObject?
    ensures GetField(Payload(lib, CorrectedSearchUrl(lib, spec)).value.fields, "action")
         == Some(JString(CorrectedAction(spec)))
  {
    SearchUrlRoundTrip(lib, CorrectedAction(spec));
    PayloadFixedFields(CorrectedAction(spec));
  }

  // ---------------------------------------------------------------------------
  // The worked example
  // ---------------------------------------------------------------------------

  /** The action inside the example URL the builder is compared against, decoded,
      with its field values set apart. */
  const FixtureAction :=
    FixtureHeadText + "(C.Model." + "스팅어" + "._.(C.BadgeGroup." + "가솔린 2000cc"
    + "._.Badge." + RewrittenBadge + "." + "))))))"

  const FixtureHeadText :=
    "(And.Hidden.N._.(C.CarType." + "Y" + "._.(C.Manufacturer." + "기아"
    + "._.(C.ModelGroup." + "스팅어" + "._."

  /** The balanced builder reproduces the example's action. */
  lemma CorrectedFixture()
    ensures CorrectedAction(FixtureSpec) == FixtureAction
  {
    SixCloses();
    FixtureBadge();
    FixtureJoints();
    var h := Head(FixtureSpec);
    assert h == FixtureHeadText;
    assert BadgeSegment(FixtureSpec) == BadgeGroupText + "가솔린 2000cc" + "." + (BadgeText + RewrittenBadge + ".");
    Assemble(h, "(", ModelText, "스팅어", ".", BadgeGroupText, "가솔린 2000cc", ".", BadgeText,
             RewrittenBadge, ".", Closers);
  }

  /** The builder's literal pieces meet the way the example writes them. */
  lemma FixtureJoints()
    ensures "(" + ModelText == "(C.Model."
    ensures "." + BadgeGroupText == "._.(C.BadgeGroup."
    ensures "." + BadgeText == "._.Badge."
  {
  }

  lemma Assemble(h: string, o: string, m: string, x: string, d: string, g: string, gv: string,
                 d2: string, t: string, b: string, d3: string, cl: string)
    ensures h + o + m + x + d + (g + gv + d2 + (t + b + d3)) + cl
         == h + (o + m) + x + (d + g) + gv + (d2 + t) + b + d3 + cl
  {
  }

  /** Field values without parentheses contribute none to the counts. */
  lemma ParenFreeFields(spec: SearchSpec)
    requires ParenFree(spec.country) && ParenFree(spec.manufacturer)
    requires ParenFree(spec.modelGroup) && ParenFree(spec.model)
    requires spec.badgeGroup.Some? ==> ParenFree(spec.badgeGroup.value)
    requires spec.badge.Some? ==> ParenFree(spec.badge.value)
    ensures FieldCount(spec, '(') == 0 && FieldCount(spec, ')') == 0
  {
    NoParens(spec.country);
    NoParens(spec.manufacturer);
    NoParens(spec.modelGroup);
    NoParens(spec.model);
    if spec.badgeGroup.Some? {
      NoParens(spec.badgeGroup.value);
    }
    if spec.badge.Some? {
      NoParens(spec.badge.value);
    }
  }

  /** The fixture's field values carry no parentheses. */
  lemma FixtureParenFree()
    ensures FieldCount(FixtureSpec, '(') == 0 && FieldCount(FixtureSpec, ')') == 0
  {
    ParenFreeFields(FixtureSpec);
  }

  /** On the example's own inputs the builder as written closes two levels more
      than it opens and misses the example's action, which the balanced builder hits. */
  lemma FixtureAsWritten()
    ensures Closes(Action(FixtureSpec)) == Opens(Action(FixtureSpec)) + 2
    ensures Action(FixtureSpec) != FixtureAction
    ensures Closes(FixtureAction) == Opens(FixtureAction)
  {
    FixtureParenFree();
    ActionUnbalanced(FixtureSpec);
    AsWrittenDiffers(FixtureSpec);
    CorrectedFixture();
    CorrectedBalanced(FixtureSpec);
  }
}
