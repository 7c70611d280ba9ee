/** The search-URL builder as the crawler's companion script writes it: a nested
    `And…C.<Field>.<value>._.` action string, wrapped in a fixed JSON payload and
    appended, percent-encoded, to the search page after `#!`. */
module SearchQuery {
  import opened Text
  import opened Codecs
  import opened UrlHelpers

  /** The search page every generated URL starts with, and the full base including `#!`. */
  const SearchPage := SiteRoot + ListPath + DomesticQuery
  const SiteRoot := "http://www.encar.com"
  const ListPath := "/dc/dc_carsearchlist.do"
  const DomesticQuery := "?carType=kor"
  const BaseUrl := SearchPage + Marker

  /** The filter a search is built from. `badgeDetails` is accepted and never read. */
  datatype SearchSpec = SearchSpec(
    country: string,
    manufacturer: string,
    modelGroup: string,
    model: string,
    badgeGroup: Option<string>,
    badge: Option<string>,
    badgeDetails: Option<seq<string>>)

  /** Python truthiness of an optional string argument. */
  predicate Truthy(o: Option<string>) {
    o.Some? && o.value != ""
  }

  // ---------------------------------------------------------------------------
  // Decimal rewrite: re.sub(r'(\d+)\.(\d+)', r'\1_.\2', badge)
  // ---------------------------------------------------------------------------

  /** Length of the run of digits at the start of `s`. */
  function DigitRun(s: string): (n: nat)
    ensures n <= |s|
    ensures forall i :: 0 <= i < n ==> IsDigit(s[i])
    ensures n < |s| ==> !IsDigit(s[n])
  {
    if s != [] && IsDigit(s[0]) then 1 + DigitRun(s[1..]) else 0
  }

  /** `s[..e]` is digits, a dot at `d`, and digits: a match of `\d+\.\d+` at the start. */
  predicate DecimalShape(s: string, d: int, e: int) {
    0 < d && d + 1 < e <= |s| && s[d] == '.'
    && forall i :: 0 <= i < e && i != d ==> IsDigit(s[i])
  }

  /** When `s` starts with digits, a dot and digits, the index of that dot and
      the end of the longest such match. */
  function DecimalAt(s: string): (m: Option<(nat, nat)>)
    ensures m.Some? ==> 0 < m.value.0 && m.value.0 + 1 < m.value.1 <= |s|
    ensures m.Some? ==> s[m.value.0] == '.'
    ensures m.Some? ==> forall i :: 0 <= i < m.value.1 && i != m.value.0 ==> IsDigit(s[i])
    ensures m.Some? ==> m.value.1 == |s| || !IsDigit(s[m.value.1])
    ensures m.None? <==> forall d, e :: !DecimalShape(s, d, e)
  {
    ShapeFacts(s);
    var a := DigitRun(s);
    if 0 < a < |s| && s[a] == '.' then
      var b := DigitRun(s[a + 1..]);
      assert a + 1 + b < |s| ==> s[a + 1 + b] == s[a + 1..][b];
      if b > 0 then
        assert DecimalShape(s, a, a + 1 + b) by {
          assert forall i :: a < i < a + 1 + b ==> s[i] == s[a + 1..][i - a - 1];
        }
        Some((a, a + 1 + b))
      else None
    else None
  }

  /** Any match at the start has its dot where the leading digits stop, and its
      fraction within the digits after the dot. */
  lemma ShapeFacts(s: string)
    ensures forall d, e :: DecimalShape(s, d, e) ==>
      DigitRun(s) == d && d + 1 <= |s| && DigitRun(s[d + 1..]) >= e - d - 1
  {
    forall d, e | DecimalShape(s, d, e)
      ensures DigitRun(s) == d && DigitRun(s[d + 1..]) >= e - d - 1
    {
      var t := s[d + 1..];
      assert forall i :: 0 <= i < e - d - 1 ==> t[i] == s[d + 1 + i];
    }
  }

  /** Every leftmost, non-overlapping `digits.digits` becomes `digits_.digits`. */
  function RewriteDecimals(s: string): string
    decreases |s|
  {
    if s == [] then []
    else match DecimalAt(s)
      case Some((dot, end)) => s[..dot] + "_." + s[dot + 1..end] + RewriteDecimals(s[end..])
      case None => [s[0]] + RewriteDecimals(s[1..])
  }

  const Underscore: set<char> := {'_'}

  lemma {:induction false} RemoveAllAppend(a: string, b: string, cs: set<char>)
    ensures RemoveAll(a + b, cs) == RemoveAll(a, cs) + RemoveAll(b, cs)
    decreases |a|
  {
    if a == [] {
      assert a + b == b;
    } else {
      assert (a + b)[1..] == a[1..] + b;
      RemoveAllAppend(a[1..], b, cs);
    }
  }

  /** The rewrite only inserts underscores: deleting them gives back a badge that
      had none. */
  lemma {:induction false} RewriteOnlyInsertsUnderscores(s: string)
    requires '_' !in s
    ensures RemoveAll(RewriteDecimals(s), Underscore) == s
    decreases |s|
  {
    if s != [] {
      var m := DecimalAt(s);
      if m.Some? {
        var end := m.value.1;
        assert forall i :: 0 <= i < |s[end..]| ==> s[end..][i] == s[end + i];
        RewriteOnlyInsertsUnderscores(s[end..]);
        RemoveAtDecimal(s, m.value.0, end);
      } else {
        assert forall i :: 0 <= i < |s[1..]| ==> s[1..][i] == s[1 + i];
        RewriteOnlyInsertsUnderscores(s[1..]);
        RemoveAtPlain(s);
      }
    }
  }

  /** One character copied by the rewrite, followed by a tail it already undoes. */
  lemma RemoveAtPlain(s: string)
    requires s != [] && s[0] != '_' && DecimalAt(s).None?
    requires RemoveAll(RewriteDecimals(s[1..]), Underscore) == s[1..]
    ensures RemoveAll(RewriteDecimals(s), Underscore) == s
  {
    assert RewriteDecimals(s) == [s[0]] + RewriteDecimals(s[1..]);
    RemoveAllAppend([s[0]], RewriteDecimals(s[1..]), Underscore);
    assert RemoveAll([s[0]], Underscore) == [s[0]];
    assert s == [s[0]] + s[1..];
  }

  /** One rewritten match, followed by a tail the rewrite already undoes. */
  lemma RemoveAtDecimal(s: string, dot: nat, end: nat)
    requires '_' !in s
    requires DecimalAt(s) == Some((dot, end))
    requires RemoveAll(RewriteDecimals(s[end..]), Underscore) == s[end..]
    ensures RemoveAll(RewriteDecimals(s), Underscore) == s
  {
    var whole, frac, rest := s[..dot], s[dot + 1..end], s[end..];
    RewriteAt(s, dot, end);
    assert '_' !in whole && '_' !in frac by {
      assert forall i :: 0 <= i < |whole| ==> whole[i] == s[i];
      assert forall i :: 0 <= i < |frac| ==> frac[i] == s[dot + 1 + i];
    }
    RemoveAllAppend(whole + "_." + frac, RewriteDecimals(rest), Underscore);
    DropInsertedUnderscore(whole, frac);
    SplitAtDot(s, dot, end);
  }

  /** The rewrite at a decimal match. */
  lemma RewriteAt(s: string, dot: nat, end: nat)
    requires DecimalAt(s) == Some((dot, end))
    ensures RewriteDecimals(s) == s[..dot] + "_." + s[dot + 1..end] + RewriteDecimals(s[end..])
  {
  }

  lemma SplitAtDot(s: string, dot: nat, end: nat)
    requires dot < end <= |s| && s[dot] == '.'
    ensures s == s[..dot] + "." + s[dot + 1..end] + s[end..]
  {
  }

  lemma DropInsertedUnderscore(whole: string, frac: string)
    requires '_' !in whole && '_' !in frac
    ensures RemoveAll(whole + "_." + frac, Underscore) == whole + "." + frac
  {
    RemoveAllAppend(whole + "_.", frac, Underscore);
    RemoveAllAppend(whole, "_.", Underscore);
    assert RemoveAll("_.", Underscore) == ".";
  }

  /** A badge without a `digits.digits` anywhere is left as it is. */
  lemma {:induction false} RewriteWithoutDecimals(s: string)
    requires forall i :: 0 <= i <= |s| ==> DecimalAt(s[i..]).None?
    ensures RewriteDecimals(s) == s
    decreases |s|
  {
    if s != [] {
      assert DecimalAt(s[0..]).None? && s[0..] == s;
      forall i | 0 <= i <= |s[1..]|
        ensures DecimalAt(s[1..][i..]).None?
      {
        assert s[1..][i..] == s[i + 1..];
      }
      RewriteWithoutDecimals(s[1..]);
    }
  }

  /** The rewrite changes no character other than by inserting `_`. */
  lemma {:induction false} RewriteKeepsCount(s: string, c: char)
    requires c != '_'
    ensures CountChar(RewriteDecimals(s), c) == CountChar(s, c)
    decreases |s|
  {
    if s != [] {
      match DecimalAt(s)
      case Some((dot, end)) =>
        RewriteKeepsCount(s[end..], c);
        CountAtDecimal(s, dot, end, c);
      case None =>
        RewriteKeepsCount(s[1..], c);
    }
  }

  lemma CountAtDecimal(s: string, dot: nat, end: nat, c: char)
    requires c != '_'
    requires DecimalAt(s) == Some((dot, end))
    requires CountChar(RewriteDecimals(s[end..]), c) == CountChar(s[end..], c)
    ensures CountChar(RewriteDecimals(s), c) == CountChar(s, c)
  {
    RewriteAt(s, dot, end);
    SplitAtDot(s, dot, end);
    CountInserted(s[..dot], s[dot + 1..end], RewriteDecimals(s[end..]), s[end..], c);
  }

  /** Inserting `_` before a dot does not change the count of any other character. */
  lemma CountInserted(w: string, f: string, r1: string, r2: string, c: char)
    requires c != '_'
    requires CountChar(r1, c) == CountChar(r2, c)
    ensures CountChar(w + "_." + f + r1, c) == CountChar(w + "." + f + r2, c)
  {
    CountCharAppend(w + "_." + f, r1, c);
    CountCharAppend(w + "." + f, r2, c);
    CountCharAppend(w + "_.", f, c);
    CountCharAppend(w + ".", f, c);
    CountCharAppend(w, "_.", c);
    CountCharAppend(w, ".", c);
    UnderscoreDotCount(c);
  }

  lemma UnderscoreDotCount(c: char)
    requires c != '_'
    ensures CountChar("_.", c) == CountChar(".", c)
  {
    assert "_."[1..] == ".";
  }

  /** A character that can neither extend a run of digits nor serve as the dot of
      a match. */
  predicate Separator(c: char) {
    !IsDigit(c) && c != '.'
  }

  lemma DigitRunStops(w: string, x: string)
    requires AllDigits(w)
    requires x == [] || !IsDigit(x[0])
    ensures DigitRun(w + x) == |w|
  {
    var n := DigitRun(w + x);
    assert x != [] ==> (w + x)[|w|] == x[0];
  }

  lemma {:induction false} DigitRunAppend(u: string, t: string)
    requires DigitRun(u) < |u|
    ensures DigitRun(u + t) == DigitRun(u)
    decreases |u|
  {
    assert (u + t)[0] == u[0];
    if IsDigit(u[0]) {
      assert (u + t)[1..] == u[1..] + t;
      DigitRunAppend(u[1..], t);
    }
  }

  /** Text after a separator cannot change the match at the start. */
  lemma DecimalAtAppend(u: string, t: string)
    requires u != [] && Separator(u[|u| - 1])
    ensures DecimalAt(u + t) == DecimalAt(u)
    ensures DecimalAt(u).Some? ==> DecimalAt(u).value.1 < |u|
  {
    var a := DigitRun(u);
    assert a < |u|;
    DigitRunAppend(u, t);
    assert (u + t)[a] == u[a];
    if 0 < a && u[a] == '.' {
      var v := u[a + 1..];
      assert a + 1 < |u|;
      assert v[|v| - 1] == u[|u| - 1];
      assert DigitRun(v) < |v|;
      DigitRunAppend(v, t);
      assert (u + t)[a + 1..] == v + t;
    }
  }

  /** The rewrite works piece by piece across a separator. */
  lemma {:induction false} RewriteSplit(u: string, t: string)
    requires u != [] && Separator(u[|u| - 1])
    ensures RewriteDecimals(u + t) == RewriteDecimals(u) + RewriteDecimals(t)
    decreases |u|
  {
    DecimalAtAppend(u, t);
    if DecimalAt(u).Some? {
      var (d, e) := DecimalAt(u).value;
      var r := u[e..];
      assert r[|r| - 1] == u[|u| - 1];
      RewriteSplit(r, t);
      SplitAtMatch(u, t, d, e);
    } else {
      var r := u[1..];
      if r == [] {
        EmptyLeft(t);
      } else {
        assert r[|r| - 1] == u[|u| - 1];
        RewriteSplit(r, t);
      }
      SplitAtPlain(u, t);
    }
  }

  lemma SplitAtMatch(u: string, t: string, d: nat, e: nat)
    requires DecimalAt(u) == Some((d, e)) && DecimalAt(u + t) == Some((d, e))
    requires RewriteDecimals(u[e..] + t) == RewriteDecimals(u[e..]) + RewriteDecimals(t)
    ensures RewriteDecimals(u + t) == RewriteDecimals(u) + RewriteDecimals(t)
  {
    MatchStepAppend(u, t, d, e);
    MatchStep(u, d, e);
    Assoc(Marked(u[..d], u[d + 1..e]), RewriteDecimals(u[e..]), RewriteDecimals(t));
  }

  /** A match that ends inside `u` is rewritten the same with text after `u`. */
  lemma MatchStepAppend(u: string, t: string, d: nat, e: nat)
    requires d < e <= |u|
    requires DecimalAt(u + t) == Some((d, e))
    ensures RewriteDecimals(u + t) == Marked(u[..d], u[d + 1..e]) + RewriteDecimals(u[e..] + t)
  {
    MatchStep(u + t, d, e);
    SlicesOfAppend(u, t, d, e);
  }

  lemma SlicesOfAppend(u: string, t: string, d: nat, e: nat)
    requires d < e <= |u|
    ensures (u + t)[..d] == u[..d] && (u + t)[d + 1..e] == u[d + 1..e] && (u + t)[e..] == u[e..] + t
  {
  }

  /** A rewritten match: the whole part, `_.`, the fraction (`\1_.\2`). */
  function Marked(whole: string, frac: string): string {
    whole + "_." + frac
  }

  lemma MatchStep(s: string, d: nat, e: nat)
    requires DecimalAt(s) == Some((d, e))
    ensures RewriteDecimals(s) == Marked(s[..d], s[d + 1..e]) + RewriteDecimals(s[e..])
  {
    RewriteAt(s, d, e);
  }

  lemma SplitAtPlain(u: string, t: string)
    requires u != [] && DecimalAt(u).None? && DecimalAt(u + t).None?
    requires RewriteDecimals(u[1..] + t) == RewriteDecimals(u[1..]) + RewriteDecimals(t)
    ensures RewriteDecimals(u + t) == RewriteDecimals(u) + RewriteDecimals(t)
  {
    CopyStepAppend(u, t);
    CopyStep(u);
    Assoc([u[0]], RewriteDecimals(u[1..]), RewriteDecimals(t));
  }

  lemma CopyStepAppend(u: string, t: string)
    requires u != [] && DecimalAt(u + t).None?
    ensures RewriteDecimals(u + t) == [u[0]] + RewriteDecimals(u[1..] + t)
  {
    CopyStep(u + t);
    HeadOfAppend(u, t);
  }

  lemma HeadOfAppend(u: string, t: string)
    requires u != []
    ensures (u + t)[0] == u[0] && (u + t)[1..] == u[1..] + t
  {
  }

  lemma EmptyLeft(t: string)
    ensures RewriteDecimals([] + t) == RewriteDecimals([]) + RewriteDecimals(t)
  {
    assert [] + t == t;
  }

  /** Without a match at the start, the first character is copied. */
  lemma CopyStep(s: string)
    requires s != [] && DecimalAt(s).None?
    ensures RewriteDecimals(s) == [s[0]] + RewriteDecimals(s[1..])
  {
  }

  lemma Assoc(a: string, b: string, c: string)
    ensures a + (b + c) == a + b + c
  {
  }

  /** Every `digits.digits` that stands after a separator, or at the start, and
      runs to a non-digit or the end, gets an underscore before its dot. */
  lemma DecimalRewritten(u: string, w: string, f: string, v: string)
    requires u == [] || Separator(u[|u| - 1])
    requires w != [] && AllDigits(w) && f != [] && AllDigits(f)
    requires v == [] || !IsDigit(v[0])
    ensures RewriteDecimals(u + (w + "." + f + v)) == RewriteDecimals(u) + Marked(w, f) + RewriteDecimals(v)
  {
    var m := w + "." + f + v;
    LoneDecimal(w, f, v);
    if u == [] {
      EmptyLeft(m);
    } else {
      RewriteSplit(u, m);
    }
    Assoc(RewriteDecimals(u), Marked(w, f), RewriteDecimals(v));
  }

  /** A decimal at the start, ended by a non-digit or the end of the text. */
  lemma LoneDecimal(w: string, f: string, v: string)
    requires w != [] && AllDigits(w) && f != [] && AllDigits(f)
    requires v == [] || !IsDigit(v[0])
    ensures RewriteDecimals(w + "." + f + v) == Marked(w, f) + RewriteDecimals(v)
  {
    var m := w + "." + f + v;
    var e := |w| + 1 + |f|;
    DecimalAtLone(w, f, v);
    MatchStep(m, |w|, e);
    LoneSlices(w, f, v);
  }

  lemma LoneSlices(w: string, f: string, v: string)
    ensures var m := w + "." + f + v;
      m[..|w|] == w && m[|w| + 1..|w| + 1 + |f|] == f && m[|w| + 1 + |f|..] == v
  {
  }

  lemma DecimalAtLone(w: string, f: string, v: string)
    requires w != [] && AllDigits(w) && f != [] && AllDigits(f)
    requires v == [] || !IsDigit(v[0])
    ensures DecimalAt(w + "." + f + v) == Some((|w|, |w| + 1 + |f|))
  {
    var m := w + "." + f + v;
    DigitRunStops(w, "." + f + v);
    assert w + ("." + f + v) == m;
    assert m[|w|] == '.';
    assert m[|w| + 1..] == f + v;
    DigitRunStops(f, v);
  }

  /** Matches do not chain: in `1.2.3` the second dot is not rewritten, since the
      first match took its leading digit. */
  lemma ChainedDecimals(x: char, y: char, z: char)
    requires IsDigit(x) && IsDigit(y) && IsDigit(z)
    ensures RewriteDecimals([x, '.', y, '.', z]) == [x, '_', '.', y, '.', z]
  {
    var s := [x, '.', y, '.', z];
    DigitRunStops([x], s[1..]);
    assert [x] + s[1..] == s;
    DigitRunStops([y], s[3..]);
    assert s[2..] == [y] + s[3..];
    assert DecimalAt(s) == Some((1, 3));
    assert s[3..] == ['.', z];
    assert DigitRun(['.', z]) == 0;
    assert RewriteDecimals(['.', z]) == ['.'] + RewriteDecimals([z]);
    assert [z][1..] == [];
    assert RewriteDecimals([z]) == [z] + RewriteDecimals([]);
    assert s[..1] == [x] && s[2..3] == [y];
  }

  // ---------------------------------------------------------------------------
  // The action string
  // ---------------------------------------------------------------------------

  /** The fixed head of every action: the And root and the opened CarType,
      Manufacturer and ModelGroup levels. */
  function Head(spec: SearchSpec): string {
    RootText + spec.country + ManufacturerText + spec.manufacturer
    + ModelGroupText + spec.modelGroup + Sibling
  }

  /** The literal pieces of the head, in the order they are written. */
  const RootText := "(And.Hidden.N._.(C.CarType."
  const ManufacturerText := "._.(C.Manufacturer."
  const ModelGroupText := "._.(C.ModelGroup."
  const Sibling := "._."

  /** The optional badge-group segment, closed by one `)`. */
  function BadgePart(spec: SearchSpec): string {
    if Truthy(spec.badgeGroup) then
      BadgeGroupText + spec.badgeGroup.value + "." + BadgeLeaf(spec) + ")"
    else ""
  }

  /** The badge leaf inside the badge-group segment, with its decimals rewritten. */
  function BadgeLeaf(spec: SearchSpec): string {
    if Truthy(spec.badge) then BadgeText + RewriteDecimals(spec.badge.value) + "." else ""
  }

  const BadgeGroupText := "_.(C.BadgeGroup."
  const BadgeText := "_.Badge."

  const Closers := "))))))"

  /** The action string as the builder writes it: the head, the model leaf, the
      optional badge segment and six closing parentheses. */
  function Action(spec: SearchSpec): string {
    Head(spec) + ModelText + spec.model + "." + BadgePart(spec) + Closers
  }

  const ModelText := "C.Model."

  /** The badge-group segment appears exactly when a badge group is given, and a
      badge without a badge group is ignored. */
  lemma BadgeNeedsGroup(spec: SearchSpec, badge: Option<string>)
    ensures Truthy(spec.badgeGroup) <==> BadgePart(spec) != ""
    ensures !Truthy(spec.badgeGroup) ==> Action(spec.(badge := badge)) == Action(spec)
  {
  }

  /** The badge details never reach the action string. */
  lemma BadgeDetailsIgnored(spec: SearchSpec, details: Option<seq<string>>)
    ensures Action(spec.(badgeDetails := details)) == Action(spec)
  {
  }

  // ---------------------------------------------------------------------------
  // Parenthesis counts
  // ---------------------------------------------------------------------------

  function Opens(s: string): nat { CountChar(s, '(') }
  function Closes(s: string): nat { CountChar(s, ')') }

  predicate ParenFree(s: string) {
    '(' !in s && ')' !in s
  }

  lemma ParensAppend(a: string, b: string)
    ensures Opens(a + b) == Opens(a) + Opens(b)
    ensures Closes(a + b) == Closes(a) + Closes(b)
  {
    CountCharAppend(a, b, '(');
    CountCharAppend(a, b, ')');
  }

  lemma NoParens(s: string)
    requires ParenFree(s)
    ensures Opens(s) == 0 && Closes(s) == 0
  {
    CountCharAbsent(s, '(');
    CountCharAbsent(s, ')');
  }

  /** A paren-free text with one `(` inserted opens one level and closes none. */
  lemma OneOpen(a: string, b: string)
    requires ParenFree(a) && ParenFree(b)
    ensures Opens(a + "(" + b) == 1 && Closes(a + "(" + b) == 0
  {
    NoParens(a);
    NoParens(b);
    ParensAppend(a, "(");
    ParensAppend(a + "(", b);
    assert "("[1..] == [];
  }

  /** `c` counted over the field values the head carries. */
  function HeadFieldCount(spec: SearchSpec, c: char): nat {
    CountChar(spec.country, c) + CountChar(spec.manufacturer, c) + CountChar(spec.modelGroup, c)
  }

  /** `(` followed by a paren-free text. */
  lemma OpenLiteral(b: string)
    requires ParenFree(b)
    ensures Opens("(" + b) == 1 && Closes("(" + b) == 0
  {
    OneOpen("", b);
    assert "" + "(" + b == "(" + b;
  }

  /** Parenthesis counts of the literal pieces of the head. */
  lemma RootLiteral()
    ensures Opens(RootText) == 2 && Closes(RootText) == 0
  {
    RootSplit();
    AndLiteral();
    CarTypeLiteral();
    ParensAppend("(And.Hidden.N._.", "(C.CarType.");
  }

  lemma RootSplit()
    ensures RootText == "(And.Hidden.N._." + "(C.CarType."
  {
  }

  lemma AndLiteral()
    ensures Opens("(And.Hidden.N._.") == 1 && Closes("(And.Hidden.N._.") == 0
  {
    AndJoin();
    AndFree();
    OpenLiteral(AndLevel);
  }

  const AndLevel := "And.Hidden.N._."

  lemma AndJoin()
    ensures "(" + AndLevel == "(And.Hidden.N._."
  {
  }

  lemma AndFree()
    ensures ParenFree(AndLevel)
  {
  }

  lemma CarTypeLiteral()
    ensures Opens("(C.CarType.") == 1 && Closes("(C.CarType.") == 0
  {
    LevelsFree();
    CarTypeJoin();
    OpenLiteral(CarTypeLevel);
  }

  lemma ManufacturerLiteral()
    ensures Opens(ManufacturerText) == 1 && Closes(ManufacturerText) == 0
  {
    LevelsFree();
    ManufacturerJoin();
    OneOpen(Sibling, ManufacturerLevel);
  }

  lemma ModelGroupLiteral()
    ensures Opens(ModelGroupText) == 1 && Closes(ModelGroupText) == 0
  {
    LevelsFree();
    ModelGroupJoin();
    OneOpen(Sibling, ModelGroupLevel);
  }

  /** The level names, without their opening parenthesis. */
  const CarTypeLevel := "C.CarType."
  const ManufacturerLevel := "C.Manufacturer."
  const ModelGroupLevel := "C.ModelGroup."
  const BadgeGroupLevel := "C.BadgeGroup."

  lemma LevelsFree()
    ensures ParenFree(Sibling) && ParenFree(CarTypeLevel) && ParenFree(ManufacturerLevel)
    ensures ParenFree(ModelGroupLevel) && ParenFree(BadgeGroupLevel) && ParenFree("_.")
  {
    SiblingFree();
    CarTypeFree();
    ManufacturerFree();
    ModelGroupFree();
    BadgeGroupFree();
  }

  lemma SiblingFree() ensures ParenFree(Sibling) && ParenFree("_.") {}
  lemma CarTypeFree() ensures ParenFree(CarTypeLevel) {}
  lemma ManufacturerFree() ensures ParenFree(ManufacturerLevel) {}
  lemma ModelGroupFree() ensures ParenFree(ModelGroupLevel) {}
  lemma BadgeGroupFree() ensures ParenFree(BadgeGroupLevel) {}

  lemma CarTypeJoin()
    ensures "(" + CarTypeLevel == "(C.CarType."
  {
  }

  lemma ManufacturerJoin()
    ensures Sibling + "(" + ManufacturerLevel == ManufacturerText
  {
  }

  lemma ModelGroupJoin()
    ensures Sibling + "(" + ModelGroupLevel == ModelGroupText
  {
  }

  lemma BadgeGroupJoin()
    ensures "_." + "(" + BadgeGroupLevel == BadgeGroupText
  {
  }

  lemma SiblingLiteral()
    ensures Opens(Sibling) == 0 && Closes(Sibling) == 0
  {
    NoParens(Sibling);
  }

  /** The head opens four levels of its own and closes none. */
  lemma HeadParens(spec: SearchSpec)
    ensures Opens(Head(spec)) == 4 + HeadFieldCount(spec, '(')
    ensures Closes(Head(spec)) == HeadFieldCount(spec, ')')
  {
    RootLiteral();
    ManufacturerLiteral();
    ModelGroupLiteral();
    SiblingLiteral();
    HeadCounts(RootText, ManufacturerText, ModelGroupText, Sibling, spec);
  }

  /** Counting over the head's shape, whatever its literal pieces. */
  lemma HeadCounts(l1: string, l2: string, l3: string, l4: string, spec: SearchSpec)
    requires Opens(l1) == 2 && Opens(l2) == 1 && Opens(l3) == 1 && Opens(l4) == 0
    requires Closes(l1) == 0 && Closes(l2) == 0 && Closes(l3) == 0 && Closes(l4) == 0
    ensures Opens(l1 + spec.country + l2 + spec.manufacturer + l3 + spec.modelGroup + l4)
         == 4 + HeadFieldCount(spec, '(')
    ensures Closes(l1 + spec.country + l2 + spec.manufacturer + l3 + spec.modelGroup + l4)
         == HeadFieldCount(spec, ')')
  {
    var p1 := l1 + spec.country;
    ParensAppend(l1, spec.country);
    var p2 := p1 + l2;
    ParensAppend(p1, l2);
    var p3 := p2 + spec.manufacturer;
    ParensAppend(p2, spec.manufacturer);
    var p4 := p3 + l3;
    ParensAppend(p3, l3);
    var p5 := p4 + spec.modelGroup;
    ParensAppend(p4, spec.modelGroup);
    ParensAppend(p5, l4);
  }

  /** `c` counted over the badge values the badge segment carries. */
  function BadgeFieldCount(spec: SearchSpec, c: char): nat {
    if Truthy(spec.badgeGroup) then
      CountChar(spec.badgeGroup.value, c)
      + (if Truthy(spec.badge) then CountChar(spec.badge.value, c) else 0)
    else 0
  }

  function BadgeOpen(spec: SearchSpec): nat {
    if Truthy(spec.badgeGroup) then 1 else 0
  }

  /** The badge segment opens and closes one level of its own when present. */
  lemma BadgeParens(spec: SearchSpec)
    ensures Opens(BadgePart(spec)) == BadgeOpen(spec) + BadgeFieldCount(spec, '(')
    ensures Closes(BadgePart(spec)) == BadgeOpen(spec) + BadgeFieldCount(spec, ')')
  {
    if Truthy(spec.badgeGroup) {
      BadgeGroupLiteral();
      DotLiteral();
      CloseLiteral();
      BadgeLeafParens(spec);
      BadgeCounts(BadgeGroupText, spec.badgeGroup.value, ".", BadgeLeaf(spec), ")");
    } else {
      NoParens("");
    }
  }

  lemma BadgeCounts(lead: string, bg: string, dot: string, leaf: string, close: string)
    requires Opens(lead) == 1 && Closes(lead) == 0
    requires Opens(dot) == 0 && Closes(dot) == 0
    requires Opens(close) == 0 && Closes(close) == 1
    ensures Opens(lead + bg + dot + leaf + close) == 1 + Opens(bg) + Opens(leaf)
    ensures Closes(lead + bg + dot + leaf + close) == 1 + Closes(bg) + Closes(leaf)
  {
    ParensAppend(lead, bg);
    ParensAppend(lead + bg, dot);
    ParensAppend(lead + bg + dot, leaf);
    ParensAppend(lead + bg + dot + leaf, close);
  }

  /** The badge leaf carries only the badge's own parentheses. */
  lemma BadgeLeafParens(spec: SearchSpec)
    ensures Opens(BadgeLeaf(spec)) == (if Truthy(spec.badge) then Opens(spec.badge.value) else 0)
    ensures Closes(BadgeLeaf(spec)) == (if Truthy(spec.badge) then Closes(spec.badge.value) else 0)
  {
    if Truthy(spec.badge) {
      var b := spec.badge.value;
      RewriteKeepsCount(b, '(');
      RewriteKeepsCount(b, ')');
      BadgeLiteral();
      DotLiteral();
      ParensAppend(BadgeText, RewriteDecimals(b));
      ParensAppend(BadgeText + RewriteDecimals(b), ".");
    } else {
      NoParens("");
    }
  }

  lemma BadgeGroupLiteral()
    ensures Opens(BadgeGroupText) == 1 && Closes(BadgeGroupText) == 0
  {
    LevelsFree();
    BadgeGroupJoin();
    OneOpen("_.", BadgeGroupLevel);
  }

  lemma BadgeLiteral()
    ensures Opens(BadgeText) == 0 && Closes(BadgeText) == 0
  {
    NoParens(BadgeText);
  }

  lemma DotLiteral()
    ensures Opens(".") == 0 && Closes(".") == 0
  {
    NoParens(".");
  }

  lemma CloseLiteral()
    ensures Opens(")") == 0 && Closes(")") == 1
  {
    assert ")"[1..] == [];
  }

  /** `c` counted over every field value that reaches the action string. */
  function FieldCount(spec: SearchSpec, c: char): nat {
    HeadFieldCount(spec, c) + CountChar(spec.model, c) + BadgeFieldCount(spec, c)
  }

  lemma CloserCounts()
    ensures Opens(Closers) == 0 && Closes(Closers) == 6
  {
    CountCharAbsent(Closers, '(');
    assert Closers[1..][1..][1..][1..][1..][1..] == [];
  }

  /** Four `(` are always opened, plus one for a badge group; six `)` are always
      appended, plus one for a badge group; the field values add their own. */
  lemma ActionParens(spec: SearchSpec)
    ensures Opens(Action(spec)) == 4 + BadgeOpen(spec) + FieldCount(spec, '(')
    ensures Closes(Action(spec)) == 6 + BadgeOpen(spec) + FieldCount(spec, ')')
  {
    HeadParens(spec);
    BadgeParens(spec);
    CloserCounts();
    ModelLiteral();
    DotLiteral();
    ActionCounts(Head(spec), ModelText, spec.model, ".", BadgePart(spec), Closers);
  }

  lemma ActionCounts(head: string, lead: string, model: string, dot: string, badge: string, closers: string)
    requires Opens(lead) == 0 && Closes(lead) == 0 && Opens(dot) == 0 && Closes(dot) == 0
    ensures Opens(head + lead + model + dot + badge + closers)
         == Opens(head) + Opens(model) + Opens(badge) + Opens(closers)
    ensures Closes(head + lead + model + dot + badge + closers)
         == Closes(head) + Closes(model) + Closes(badge) + Closes(closers)
  {
    ParensAppend(head, lead);
    ParensAppend(head + lead, model);
    ParensAppend(head + lead + model, dot);
    ParensAppend(head + lead + model + dot, badge);
    ParensAppend(head + lead + model + dot + badge, closers);
  }

  lemma ModelLiteral()
    ensures Opens(ModelText) == 0 && Closes(ModelText) == 0
  {
    NoParens(ModelText);
  }

  /** With paren-free field values the action closes exactly two more
      parentheses than it opens, whatever the badge arguments. */
  lemma ActionUnbalanced(spec: SearchSpec)
    requires FieldCount(spec, '(') == 0 && FieldCount(spec, ')') == 0
    ensures Closes(Action(spec)) == Opens(Action(spec)) + 2
  {
    ActionParens(spec);
  }

  /** The action ends with a dot and then six `)`, or seven with a badge group. */
  lemma ActionTail(spec: SearchSpec)
    ensures var a := Action(spec);
      var k := 6 + BadgeOpen(spec);
      |a| > k && a[|a| - k - 1] == '.' && forall i :: |a| - k <= i < |a| ==> a[i] == ')'
  {
  }

  // ---------------------------------------------------------------------------
  // The payload and the URL
  // ---------------------------------------------------------------------------

  /** The payload fields, in the order the builder writes them. */
  function QueryFields(action: string): seq<(string, Json)> {
    [ ("action", JString(action)),
      ("toggle", JObject([])),
      ("layer", JString("")),
      ("sort", JString("ModifiedDate")),
      ("page", JNumber(1)),
      (LimitKey, JNumber(20)),
      ("searchKey", JString("")),
      ("loginCheck", JBool(false)) ]
  }

  /** The search URL for a given action string. */
  function SearchUrl(lib: Library, action: string): (url: string)
    ensures IsPrefix(BaseUrl, url)
  {
    BaseUrl + lib.quote(lib.dumps(JObject(QueryFields(action))))
  }

  function GenerateSearchUrl(lib: Library, spec: SearchSpec): string {
    SearchUrl(lib, Action(spec))
  }

  /** The fixed payload fields: page 1, an integer limit of 20, newest first,
      no login check, and empty toggle, layer and search key. */
  lemma PayloadFixedFields(action: string)
    ensures GetField(QueryFields(action), "action") == Some(JString(action))
    ensures GetField(QueryFields(action), "toggle") == Some(JObject([]))
    ensures GetField(QueryFields(action), "layer") == Some(JString(""))
    ensures GetField(QueryFields(action), "sort") == Some(JString("ModifiedDate"))
    ensures GetField(QueryFields(action), "page") == Some(JNumber(1))
    ensures GetField(QueryFields(action), LimitKey) == Some(JNumber(20))
    ensures GetField(QueryFields(action), "searchKey") == Some(JString(""))
    ensures GetField(QueryFields(action), "loginCheck") == Some(JBool(false))
  {
    PayloadLeadingFields(action);
    PayloadTrailingFields(action);
  }

  lemma PayloadLeadingFields(action: string)
    ensures GetField(QueryFields(action), "action") == Some(JString(action))
    ensures GetField(QueryFields(action), "toggle") == Some(JObject([]))
    ensures GetField(QueryFields(action), "layer") == Some(JString(""))
    ensures GetField(QueryFields(action), "sort") == Some(JString("ModifiedDate"))
  {
    var f := QueryFields(action);
    GetFieldAt(f, 0);
    GetFieldAt(f, 1);
    GetFieldAt(f, 2);
    GetFieldAt(f, 3);
  }

  lemma PayloadTrailingFields(action: string)
    ensures GetField(QueryFields(action), "page") == Some(JNumber(1))
    ensures GetField(QueryFields(action), LimitKey) == Some(JNumber(20))
    ensures GetField(QueryFields(action), "searchKey") == Some(JString(""))
    ensures GetField(QueryFields(action), "loginCheck") == Some(JBool(false))
  {
    var f := QueryFields(action);
    var g := f[4..];
    assert g == [("page", JNumber(1)), (LimitKey, JNumber(20)), ("searchKey", JString("")), ("loginCheck", JBool(false))];
    PayloadKeysAhead(action);
    GetFieldAt(g, 0);
    GetFieldAt(g, 1);
    GetFieldAt(g, 2);
    GetFieldAt(g, 3);
    GetFieldSkip(f, 4, "page");
    GetFieldSkip(f, 4, LimitKey);
    GetFieldSkip(f, 4, "searchKey");
    GetFieldSkip(f, 4, "loginCheck");
  }

  /** The payload names every key once. */
  lemma PayloadNoRepeats(action: string)
    ensures NoRepeatedKeys(JObject(QueryFields(action)))
  {
    var f := QueryFields(action);
    PayloadKeysAhead(action);
    assert f[4..] == [("page", JNumber(1)), (LimitKey, JNumber(20)), ("searchKey", JString("")), ("loginCheck", JBool(false))];
    assert DistinctKeys(f[..4]);
    assert DistinctKeys(f[4..]);
    assert NoRepeatedKeys(f[1].1);
  }

  /** None of the first four payload keys is a trailing one. */
  lemma PayloadKeysAhead(action: string)
    ensures forall i, k :: 0 <= i < 4 && k in ["page", LimitKey, "searchKey", "loginCheck"] ==>
      QueryFields(action)[i].0 != k
  {
  }

  /** A prefix without `#` keeps the marker that follows it as the first one. */
  lemma SplitAfterPlainPrefix(p: string, x: string)
    requires '#' !in p
    ensures SplitFirst(p + Marker + x, Marker) == Some((p, x))
  {
    var s := p + Marker + x;
    forall j | 0 <= j < |p|
      ensures !OccursAt(s, Marker, j)
    {
      assert s[j] == p[j];
      if j + 2 <= |s| {
        assert s[j..j + 2][0] == s[j];
      }
    }
    assert s[|p|..|p| + 2] == Marker;
    IndexOfIs(s, Marker, |p|);
    assert s[..|p|] == p;
    assert s[|p| + 2..] == x;
  }

  lemma SearchPagePlain()
    ensures '#' !in SearchPage
  {
    assert '#' !in SiteRoot;
    assert '#' !in ListPath;
    assert '#' !in DomesticQuery;
    NotInJoin(SiteRoot, ListPath, DomesticQuery, '#');
  }

  lemma NotInJoin(a: string, b: string, c: string, x: char)
    requires x !in a && x !in b && x !in c
    ensures x !in a + b + c
  {
  }

  /** Reading a generated URL back gives the search page and the payload written. */
  lemma SearchUrlRoundTrip(lib: Library, action: string)
    requires RoundTrips(lib)
    ensures Base(SearchUrl(lib, action)) == Some(SearchPage)
    ensures Payload(lib, SearchUrl(lib, action)) == Some(JObject(QueryFields(action)))
    ensures DecodeUrl(lib, SearchUrl(lib, action))
         == SearchPage + Marker + "\n" + lib.pretty(JObject(QueryFields(action)))
  {
    var encoded := lib.quote(lib.dumps(JObject(QueryFields(action))));
    PayloadNoRepeats(action);
    SearchPagePlain();
    SplitAfterPlainPrefix(SearchPage, encoded);
    assert SearchUrl(lib, action) == SearchPage + Marker + encoded;
  }

  /** Forcing the limit of a generated URL changes only `limit`, to the decimal
      text of the new value. */
  lemma GeneratedLimit(lib: Library, spec: SearchSpec, n: int)
    requires RoundTrips(lib)
    ensures var url := SetLimit(lib, GenerateSearchUrl(lib, spec), n);
      && Base(url) == Some(SearchPage)
      && Payload(lib, url).Some? && Payload(lib, url).value.JObject?
      && GetField(Payload(lib, url).value.fields, LimitKey) == Some(JString(IntToString(n)))
      && GetField(Payload(lib, url).value.fields, "action") == Some(JString(Action(spec)))
  {
    SearchUrlRoundTrip(lib, Action(spec));
    SetLimitUpdatesPayload(lib, GenerateSearchUrl(lib, spec), n);
  }

  // ---------------------------------------------------------------------------
  // The companion script's own inputs
  // ---------------------------------------------------------------------------

  const FixtureSpec := SearchSpec("Y", "기아", "스팅어", "스팅어", Some("가솔린 2000cc"), Some(FixtureBadgeText), None)

  /** The fixture badge, and the form the site expects it in. */
  const FixtureBadgeText := "2.0" + BadgeTail
  const RewrittenBadge := "2_.0" + BadgeTail
  const BadgeTail := " 터보 2WD"

  /** The displacement in the fixture badge is rewritten the way the site expects. */
  lemma FixtureBadge()
    ensures RewriteDecimals(FixtureBadgeText) == RewrittenBadge
  {
    FixtureDecimal();
    TailHasNoDot();
    NoDotUnchanged(BadgeTail);
    FixtureGlue(BadgeTail);
  }

  lemma FixtureDecimal()
    ensures RewriteDecimals(FixtureBadgeText) == "2" + "_." + "0" + RewriteDecimals(BadgeTail)
  {
    var s := FixtureBadgeText;
    assert s[0] == '2' && s[1] == '.' && s[2] == '0' && s[3] == ' ';
    assert DigitRun(s) == 1 by { assert !IsDigit(s[1]); assert DigitRun(s[1..]) == 0; }
    assert DigitRun(s[2..]) == 1 by { assert s[2..][1] == ' '; assert DigitRun(s[2..][1..]) == 0; }
    assert DecimalAt(s) == Some((1, 3));
    assert s[..1] == "2" && s[2..3] == "0" && s[3..] == BadgeTail;
  }

  lemma TailHasNoDot()
    ensures '.' !in BadgeTail
  {
  }

  lemma FixtureGlue(t: string)
    ensures "2" + "_." + "0" + t == "2_.0" + t
  {
  }

  /** A dot-free badge has no decimal to rewrite. */
  lemma NoDotUnchanged(s: string)
    requires '.' !in s
    ensures RewriteDecimals(s) == s
  {
    RewriteWithoutDecimals(s);
  }
}
