/** The URL helpers of the crawler: pretty-printing a search URL, forcing its
    page size, pulling a listing identifier out of a detail link, and reading a
    number out of free text. A search URL is `prefix ++ "#!" ++ payload`, where the
    payload is percent-encoded JSON. */
module UrlHelpers {
  import opened Text
  import opened Codecs

  const Marker := "#!"

  /** The page-size field of the payload. */
  const LimitKey := "limit"

  /** Marker text of the two supported detail-link shapes. */
  const CheckViewPage := "dc_cardetailview.do"
  const DetailPath := "/cars/detail/"
  const IdParam := "carid"

  /** The detail link the listing scraper builds for an identifier. */
  const DetailHost := "https://fem.encar.com/cars/detail/"

  function DetailLink(id: string): string {
    DetailHost + id
  }

  // ---------------------------------------------------------------------------
  // decode_url and set_limit_in_search_url
  // ---------------------------------------------------------------------------

  /** The payload after the first `#!`, percent-decoded and parsed, when there is one
      and it parses. */
  function Payload(lib: Library, url: string): Option<Json> {
    match SplitFirst(url, Marker)
    case None => None
    case Some((_, encoded)) => lib.loads(lib.unquote(encoded))
  }

  /** The text before the first `#!`, when there is one. */
  function Base(url: string): Option<string> {
    match SplitFirst(url, Marker)
    case None => None
    case Some((base, _)) => Some(base)
  }

  predicate IsPrefix(p: string, s: string) {
    |p| <= |s| && s[..|p|] == p
  }

  /** Human-readable form of a search URL; it never fails. With a `#!`, the text
      before it is kept and the payload is shown pretty-printed when it parses and
      percent-decoded otherwise; without one, the whole URL is percent-decoded. */
  function DecodeUrl(lib: Library, url: string): (r: string)
    ensures Base(url).Some? ==> IsPrefix(Base(url).value + Marker, r)
    ensures Base(url).None? ==> r == lib.unquote(url)
    ensures Payload(lib, url).Some? ==> r == Base(url).value + Marker + "\n" + lib.pretty(Payload(lib, url).value)
    ensures Base(url).Some? && Payload(lib, url).None? ==>
      r == Base(url).value + Marker + lib.unquote(SplitFirst(url, Marker).value.1)
  {
    match SplitFirst(url, Marker)
    case None => lib.unquote(url)
    case Some((base, encoded)) =>
      var decoded := lib.unquote(encoded);
      match lib.loads(decoded)
      case Some(parsed) => base + Marker + "\n" + lib.pretty(parsed)
      case None => base + Marker + decoded
  }

  /** Forces the payload's `limit` field to the string form of `newLimit`. A URL
      without `#!`, or whose payload is not a JSON object, comes back unchanged. */
  function SetLimit(lib: Library, url: string, newLimit: int): (r: string)
    ensures Base(url).None? ==> r == url
    ensures Payload(lib, url).None? || !Payload(lib, url).value.JObject? ==> r == url
    ensures Base(url).Some? ==> IsPrefix(Base(url).value + Marker, r)
  {
    match SplitFirst(url, Marker)
    case None => url
    case Some((base, encoded)) =>
      match lib.loads(lib.unquote(encoded))
      case Some(JObject(fields)) =>
        var updated := SetField(fields, LimitKey, JString(IntToString(newLimit)));
        base + Marker + lib.quote(lib.dumps(JObject(updated)))
      case _ => url
  }

  /** Replacing what follows the first `#!` does not move it. */
  lemma SplitKeepsBase(base: string, x: string, y: string)
    requires SplitFirst(base + Marker + x, Marker) == Some((base, x))
    ensures SplitFirst(base + Marker + y, Marker) == Some((base, y))
  {
    var s, s' := base + Marker + x, base + Marker + y;
    forall j | 0 <= j < |base|
      ensures !OccursAt(s', Marker, j)
    {
      assert !OccursAt(s, Marker, j);
      assert s[j..j + 2] == s'[j..j + 2];
    }
    assert s'[|base|..|base| + 2] == Marker;
    IndexOfIs(s', Marker, |base|);
    assert s'[..|base|] == base;
    assert s'[|base| + 2..] == y;
  }

  /** On success, the prefix is kept and the payload is the old one with only
      `limit` changed, to the decimal text of the new value. */
  lemma SetLimitUpdatesPayload(lib: Library, url: string, newLimit: int)
    requires RoundTrips(lib)
    requires Payload(lib, url).Some? && Payload(lib, url).value.JObject?
    ensures Base(SetLimit(lib, url, newLimit)) == Base(url)
    ensures Payload(lib, SetLimit(lib, url, newLimit))
         == Some(JObject(SetField(Payload(lib, url).value.fields, LimitKey, JString(IntToString(newLimit)))))
  {
    var (base, encoded) := SplitFirst(url, Marker).value;
    var fields := Payload(lib, url).value.fields;
    var updated := JObject(SetField(fields, LimitKey, JString(IntToString(newLimit))));
    assert NoRepeatedKeys(JObject(fields)) by {
      assert lib.loads(lib.unquote(encoded)).Some?;
    }
    SetFieldNoRepeats(fields, LimitKey, JString(IntToString(newLimit)));
    SplitKeepsBase(base, encoded, lib.quote(lib.dumps(updated)));
    assert lib.loads(lib.unquote(lib.quote(lib.dumps(updated)))) == Some(updated);
  }

  /** Setting the limit twice leaves the URL the second call alone would give. */
  lemma SetLimitTwice(lib: Library, url: string, n1: int, n2: int)
    requires RoundTrips(lib)
    ensures SetLimit(lib, SetLimit(lib, url, n1), n2) == SetLimit(lib, url, n2)
  {
    if Payload(lib, url).Some? && Payload(lib, url).value.JObject? {
      var (base, encoded) := SplitFirst(url, Marker).value;
      var fields := Payload(lib, url).value.fields;
      var once := JObject(SetField(fields, LimitKey, JString(IntToString(n1))));
      assert NoRepeatedKeys(JObject(fields)) by {
        assert lib.loads(lib.unquote(encoded)).Some?;
      }
      SetFieldNoRepeats(fields, LimitKey, JString(IntToString(n1)));
      var url1 := base + Marker + lib.quote(lib.dumps(once));
      assert SetLimit(lib, url, n1) == url1;
      SplitKeepsBase(base, encoded, lib.quote(lib.dumps(once)));
      assert lib.loads(lib.unquote(lib.quote(lib.dumps(once)))) == Some(once);
      SetFieldTwice(fields, LimitKey, JString(IntToString(n1)), JString(IntToString(n2)));
    }
  }

  // ---------------------------------------------------------------------------
  // The query string of a URL (urllib.parse.urlsplit and parse_qsl)
  // ---------------------------------------------------------------------------

  /** Characters `urlsplit` deletes from anywhere in the URL. */
  const Unsafe: set<char> := {'\t', '\r', '\n'}

  predicate IsAsciiLetter(c: char) {
    'a' <= c <= 'z' || 'A' <= c <= 'Z'
  }

  predicate IsSchemeChar(c: char) {
    IsAsciiLetter(c) || IsDigit(c) || c == '+' || c == '-' || c == '.'
  }

  /** Leading C0 control characters and spaces removed. */
  function StripLeading(s: string): (r: string)
    ensures |r| <= |s| && r == s[|s| - |r|..]
    ensures forall i :: 0 <= i < |s| - |r| ==> s[i] <= ' '
  {
    if s != [] && s[0] <= ' ' then StripLeading(s[1..]) else s
  }

  /** Length of the scheme prefix (`scheme:`), or 0 when the URL has none. */
  function SchemeLength(u: string): (n: nat)
    ensures n <= |u|
    ensures forall k :: 0 <= k < n ==> u[k] != '#' && u[k] != '?'
  {
    match IndexOf(u, ":")
    case None => 0
    case Some(i) =>
      if i > 0 && IsAsciiLetter(u[0]) && (forall k :: 0 <= k < i ==> IsSchemeChar(u[k])) then
        assert u[i..i + 1] == ":";
        i + 1
      else 0
  }

  /** First index at or after `from` of `/`, `?` or `#`, or the length. */
  function NetlocEnd(u: string, from: nat): (n: nat)
    requires from <= |u|
    ensures from <= n <= |u|
    ensures forall k :: from <= k < n ==> u[k] != '/' && u[k] != '?' && u[k] != '#'
    decreases |u| - from
  {
    if from == |u| || u[from] in "/?#" then from else NetlocEnd(u, from + 1)
  }

  predicate UnbalancedBrackets(netloc: string) {
    ('[' in netloc && ']' !in netloc) || (']' in netloc && '[' !in netloc)
  }

  /** The part of a URL after the first `?` and before the first `#`, or empty. */
  function QueryPart(s: string): string {
    match AfterFirst(BeforeFirst(s, '#'), '?')
    case None => ""
    case Some(q) => q
  }

  /** The cleaned URL with its scheme prefix removed. */
  function AfterScheme(url: string): string {
    var u := RemoveAll(StripLeading(url), Unsafe);
    u[SchemeLength(u)..]
  }

  /** `urlsplit(url).query`; `None` when `urlsplit` raises for an unbalanced
      IPv6 bracket in the network location. */
  function UrlQuery(url: string): Option<string> {
    var rest := AfterScheme(url);
    if |rest| >= 2 && rest[..2] == "//" then
      var e := NetlocEnd(rest, 2);
      if UnbalancedBrackets(rest[2..e]) then None
      else Some(QueryPart(rest[e..]))
    else Some(QueryPart(rest))
  }

  /** `urlsplit` raises only for a URL that holds a square bracket. */
  lemma UrlQueryFailsOnlyOnBrackets(url: string)
    requires '[' !in url && ']' !in url
    ensures UrlQuery(url).Some?
  {
    var rest := AfterScheme(url);
    if |rest| >= 2 && rest[..2] == "//" {
      var e := NetlocEnd(rest, 2);
      var netloc := rest[2..e];
      if UnbalancedBrackets(netloc) {
        var c := if '[' in netloc then '[' else ']';
        var s := StripLeading(url);
        assert c in RemoveAll(s, Unsafe);
        RemoveAllSubset(s, Unsafe, c);
        assert false;
      }
    }
  }

  lemma {:induction false} RemoveAllSubset(s: string, cs: set<char>, c: char)
    requires c in RemoveAll(s, cs)
    ensures c in s
    decreases |s|
  {
    if s[0] != c {
      assert c in RemoveAll(s[1..], cs);
      RemoveAllSubset(s[1..], cs, c);
    }
  }

  /** The query is everything between the first `?` and the first `#` of the
      cleaned URL: the scheme and network location hold neither character. */
  lemma UrlQueryIsQueryPart(url: string)
    requires UrlQuery(url).Some?
    ensures UrlQuery(url) == Some(QueryPart(RemoveAll(StripLeading(url), Unsafe)))
  {
    var u := RemoveAll(StripLeading(url), Unsafe);
    var n := SchemeLength(u);
    var rest := u[n..];
    assert rest == AfterScheme(url);
    QueryPartDrops(u, n);
    if |rest| >= 2 && rest[..2] == "//" {
      var e := NetlocEnd(rest, 2);
      assert rest[0] == rest[..2][0] == '/';
      assert rest[1] == rest[..2][1] == '/';
      QueryPartDrops(rest, e);
      assert UrlQuery(url) == Some(QueryPart(rest[e..]));
    } else {
      assert UrlQuery(url) == Some(QueryPart(rest));
    }
  }

  /** Dropping a prefix free of `?` and `#` keeps the query. */
  lemma QueryPartDrops(u: string, n: nat)
    requires n <= |u|
    requires forall k :: 0 <= k < n ==> u[k] != '#' && u[k] != '?'
    ensures QueryPart(u[n..]) == QueryPart(u)
  {
    assert u == u[..n] + u[n..];
    QueryPartSkips(u[..n], u[n..]);
  }

  lemma QueryPartSkips(p: string, s: string)
    requires forall k :: 0 <= k < |p| ==> p[k] != '#' && p[k] != '?'
    ensures QueryPart(p + s) == QueryPart(s)
  {
    BeforeFirstSkips(p, s, '#');
    AfterFirstSkips(p, BeforeFirst(s, '#'), '?');
  }

  /** `parse_qsl(query)`: `&`-separated `name=value` pieces; a piece without `=`
      or with an empty value is dropped; `+` means a space and both halves are
      percent-decoded. */
  function QueryPairs(lib: Library, pieces: seq<string>): (pairs: seq<(string, string)>)
    ensures |pairs| <= |pieces|
  {
    if pieces == [] then []
    else
      var rest := QueryPairs(lib, pieces[1..]);
      var piece := pieces[0];
      match AfterFirst(piece, '=')
      case None => rest
      case Some(value) =>
        if value == [] then rest
        else
          var name := BeforeFirst(piece, '=');
          [(lib.unquote(ReplaceChar(name, '+', ' ')), lib.unquote(ReplaceChar(value, '+', ' ')))] + rest
  }

  /** `parse_qsl` reads the pieces one by one: the pairs of two runs of pieces
      are the pairs of each, in order. */
  lemma {:induction false} QueryPairsAppend(lib: Library, a: seq<string>, b: seq<string>)
    ensures QueryPairs(lib, a + b) == QueryPairs(lib, a) + QueryPairs(lib, b)
    decreases |a|
  {
    if a == [] {
      assert a + b == b;
    } else {
      assert (a + b)[0] == a[0];
      assert (a + b)[1..] == a[1..] + b;
      QueryPairsAppend(lib, a[1..], b);
    }
  }

  /** A piece `name=value` with a non-empty value becomes one pair, `+` read as a
      space and both halves percent-decoded; with an empty value it is dropped. */
  lemma QueryPairsPiece(lib: Library, name: string, v: string)
    requires '=' !in name
    ensures v == [] ==> QueryPairs(lib, [name + "=" + v]) == []
    ensures v != [] ==>
      QueryPairs(lib, [name + "=" + v])
        == [(lib.unquote(ReplaceChar(name, '+', ' ')), lib.unquote(ReplaceChar(v, '+', ' ')))]
  {
    var piece := name + "=" + v;
    assert piece == name + ("=" + v);
    AfterFirstSkips(name, "=" + v, '=');
    BeforeFirstSkips(name, "=" + v, '=');
    assert [piece][1..] == [];
  }

  /** A piece without `=` is dropped. */
  lemma QueryPairsBare(lib: Library, piece: string)
    requires '=' !in piece
    ensures QueryPairs(lib, [piece]) == []
  {
    assert [piece][1..] == [];
  }

  /** `dict(pairs).get(key)`: the value of the last pair with that name. */
  function LookupLast(pairs: seq<(string, string)>, key: string): (r: Option<string>)
    ensures r.Some? ==> exists i :: LastWith(pairs, key, i) && pairs[i].1 == r.value
    ensures r.None? <==> forall i :: 0 <= i < |pairs| ==> pairs[i].0 != key
  {
    if pairs == [] then None
    else if pairs[|pairs| - 1].0 == key then
      assert LastWith(pairs, key, |pairs| - 1);
      Some(pairs[|pairs| - 1].1)
    else
      var init := pairs[..|pairs| - 1];
      var r := LookupLast(init, key);
      assert forall i :: 0 <= i < |pairs| - 1 ==> init[i] == pairs[i];
      if r.Some? then
        var i :| LastWith(init, key, i) && init[i].1 == r.value;
        assert LastWith(pairs, key, i);
        r
      else r
  }

  /** Pair `i` carries `key`, and no later pair does. */
  predicate LastWith(pairs: seq<(string, string)>, key: string, i: int) {
    0 <= i < |pairs| && pairs[i].0 == key && forall t :: i < t < |pairs| ==> pairs[t].0 != key
  }

  // ---------------------------------------------------------------------------
  // extract_car_id_from_url and extract_number
  // ---------------------------------------------------------------------------

  /** The listing identifier in a detail link. The query-parameter shape is tried
      first and yields its `carid` parameter; the path shape yields the last path
      segment up to any `?`; any other link yields nothing. */
  function ExtractCarId(lib: Library, url: string): (r: Option<string>)
    ensures !Contains(url, CheckViewPage) && !Contains(url, DetailPath) ==> r.None?
    ensures !Contains(url, CheckViewPage) && Contains(url, DetailPath) ==>
      r.Some? && '/' !in r.value && '?' !in r.value
    ensures Contains(url, CheckViewPage) && r.Some? ==>
      UrlQuery(url).Some? && (IdParam, r.value) in QueryPairs(lib, SplitAll(UrlQuery(url).value, '&'))
    ensures Contains(url, CheckViewPage) ==>
      r == (if UrlQuery(url).None? then None
            else LookupLast(QueryPairs(lib, SplitAll(UrlQuery(url).value, '&')), IdParam))
  {
    if Contains(url, CheckViewPage) then
      match UrlQuery(url)
      case None => None
      case Some(query) => LookupLast(QueryPairs(lib, SplitAll(query, '&')), IdParam)
    else if Contains(url, DetailPath) then Some(PathId(url))
    else None
  }

  /** The last path segment of a link up to any `?`. */
  function PathId(url: string): (id: string)
    ensures '/' !in id && '?' !in id
  {
    BeforeFirst(AfterLast(url, '/'), '?')
  }

  /** A `carid` pair at the end of a query wins over whatever comes before it. */
  lemma LookupLastAppend(pairs: seq<(string, string)>, key: string, x: string)
    ensures LookupLast(pairs + [(key, x)], key) == Some(x)
  {
    var ps := pairs + [(key, x)];
    assert ps[|ps| - 1].0 == key;
    var r := LookupLast(ps, key);
    var i :| LastWith(ps, key, i) && ps[i].1 == r.value;
  }

  /** A query-shape link whose query ends in `&carid=<v>` yields `v` read by
      `parse_qsl`, whatever parameters come first. */
  lemma ExtractCarIdLastParam(lib: Library, url: string, q: string, v: string)
    requires Contains(url, CheckViewPage)
    requires UrlQuery(url) == Some(q + "&" + IdParam + "=" + v)
    requires v != [] && '&' !in v
    requires lib.unquote(IdParam) == IdParam
    ensures ExtractCarId(lib, url) == Some(lib.unquote(ReplaceChar(v, '+', ' ')))
  {
    var piece := IdParam + "=" + v;
    IdParamPlain();
    LastPiece(q, IdParam, v);
    SplitAllAppend(q, piece, '&');
    var front := QueryPairs(lib, SplitAll(q, '&'));
    QueryPairsAppend(lib, SplitAll(q, '&'), [piece]);
    QueryPairsPiece(lib, IdParam, v);
    ReplaceAbsent(IdParam, '+', ' ');
    LookupLastAppend(front, IdParam, lib.unquote(ReplaceChar(v, '+', ' ')));
  }

  /** The last `&`-separated piece of `q&name=v`. */
  lemma LastPiece(q: string, name: string, v: string)
    requires '&' !in name && '&' !in v
    ensures '&' !in name + "=" + v
    ensures q + "&" + name + "=" + v == q + ['&'] + (name + "=" + v)
  {
    assert name + "=" + v == name + ("=" + v);
  }

  /** A query-shape link whose query is exactly `carid=<v>` yields `v`, percent-decoded. */
  lemma ExtractCarIdQueryShape(lib: Library, url: string, v: string)
    requires Contains(url, CheckViewPage)
    requires UrlQuery(url) == Some(IdParam + "=" + v)
    requires v != [] && '&' !in v && '+' !in v
    requires lib.unquote(IdParam) == IdParam
    ensures ExtractCarId(lib, url) == Some(lib.unquote(v))
  {
    SingleIdPair(lib, v);
  }

  lemma SingleIdPair(lib: Library, v: string)
    requires v != [] && '&' !in v && '+' !in v
    requires lib.unquote(IdParam) == IdParam
    ensures LookupLast(QueryPairs(lib, SplitAll(IdParam + "=" + v, '&')), IdParam) == Some(lib.unquote(v))
  {
    IdParamPlain();
    SinglePair(lib, IdParam, v);
  }

  lemma IdParamPlain()
    ensures '=' !in IdParam && '&' !in IdParam && '+' !in IdParam
  {
  }

  /** A query made of one `name=value` piece parses to that one pair. */
  lemma SinglePair(lib: Library, name: string, v: string)
    requires v != [] && '&' !in v && '+' !in v
    requires '=' !in name && '&' !in name && '+' !in name
    ensures QueryPairs(lib, SplitAll(name + "=" + v, '&')) == [(lib.unquote(name), lib.unquote(v))]
  {
    var piece := name + "=" + v;
    PieceHalves(name, v);
    SplitWithout(piece, '&');
    ReplaceAbsent(name, '+', ' ');
    ReplaceAbsent(v, '+', ' ');
    assert QueryPairs(lib, [piece]) == [(lib.unquote(name), lib.unquote(v))] + QueryPairs(lib, []);
  }

  lemma PieceHalves(name: string, v: string)
    requires '=' !in name && '&' !in name && '&' !in v
    ensures '&' !in name + "=" + v
    ensures AfterFirst(name + "=" + v, '=') == Some(v)
    ensures BeforeFirst(name + "=" + v, '=') == name
  {
    assert name + "=" + v == name + ("=" + v);
    AfterFirstSkips(name, "=" + v, '=');
    BeforeFirstSkips(name, "=" + v, '=');
  }

  lemma SplitWithout(s: string, c: char)
    requires c !in s
    ensures SplitAll(s, c) == [s]
  {
  }

  lemma ReplaceAbsent(s: string, a: char, b: char)
    requires a !in s
    ensures ReplaceChar(s, a, b) == s
  {
  }

  /** A path-shape identifier is the text that starts right after the last `/`
      and runs to the next `?` or the end of the link. */
  lemma ExtractCarIdPathShape(lib: Library, url: string)
    requires !Contains(url, CheckViewPage) && Contains(url, DetailPath)
    ensures ExtractCarId(lib, url) == Some(PathId(url))
    ensures var k := |url| - |AfterLast(url, '/')|;
      && 0 < k && url[k - 1] == '/' && '/' !in url[k..]
      && IsPrefix(PathId(url), url[k..])
      && (k + |PathId(url)| == |url| || url[k + |PathId(url)|] == '?')
  {
    ContainsSlash(url);
    PathIdPosition(url);
  }

  /** Where the path id sits in a link that holds a `/`. */
  lemma PathIdPosition(url: string)
    requires '/' in url
    ensures var k := |url| - |AfterLast(url, '/')|;
      && 0 < k && url[k - 1] == '/' && '/' !in url[k..]
      && IsPrefix(PathId(url), url[k..])
      && (k + |PathId(url)| == |url| || url[k + |PathId(url)|] == '?')
  {
    var seg := AfterLast(url, '/');
    var k := |url| - |seg|;
    assert url[k..] == seg;
  }

  lemma ContainsSlash(url: string)
    requires Contains(url, DetailPath)
    ensures '/' in url
  {
    var i := IndexOf(url, DetailPath).value;
    assert url[i..i + |DetailPath|][0] == '/';
  }

  /** The links the listing scraper builds read back as their identifier. */
  lemma DetailLinkRoundTrip(lib: Library, id: string)
    requires '/' !in id && '?' !in id && '_' !in id
    ensures ExtractCarId(lib, DetailLink(id)) == Some(id)
  {
    var url := DetailLink(id);
    assert '_' !in DetailHost;
    assert '_' !in url;
    DetailLinkShape(id);
    AfterLastSkips(DetailHost, id, '/');
    assert PathId(url) == BeforeFirst(id, '?');
    assert BeforeFirst(id, '?') == id;
  }

  lemma DetailLinkShape(id: string)
    requires '_' !in DetailLink(id)
    ensures Contains(DetailLink(id), DetailPath)
    ensures !Contains(DetailLink(id), CheckViewPage)
  {
    var url := DetailLink(id);
    assert url[21..21 + |DetailPath|] == DetailPath;
    ContainsAt(url, DetailPath, 21);
    NoUnderscoreNoCheckView(url);
  }

  lemma NoUnderscoreNoCheckView(url: string)
    requires '_' !in url
    ensures !Contains(url, CheckViewPage)
  {
    if Contains(url, CheckViewPage) {
      CharInOccurrence(url, CheckViewPage, IndexOf(url, CheckViewPage).value, 2);
      assert false;
    }
  }

  lemma CharInOccurrence(s: string, t: string, i: nat, k: nat)
    requires OccursAt(s, t, i) && k < |t|
    ensures t[k] in s
  {
    assert s[i..i + |t|][k] == s[i + k];
  }

  lemma AfterLastSkips(p: string, s: string, c: char)
    requires p != [] && p[|p| - 1] == c && c !in s
    ensures AfterLast(p + s, c) == s
    decreases |s|
  {
    if s != [] {
      var ps := p + s;
      assert ps[..|ps| - 1] == p + s[..|s| - 1];
      AfterLastSkips(p, s[..|s| - 1], c);
    } else {
      assert p + s == p;
    }
  }

  /** Python's `extract_number`: the decimal value of all digits of the text
      concatenated, or nothing when it holds no digit. */
  function ExtractNumber(text: string): (r: Option<nat>)
    ensures r.None? <==> forall i :: 0 <= i < |text| ==> !IsDigit(text[i])
    ensures r.Some? ==> r.value == Value(Digits(text))
  {
    var digits := Digits(text);
    if digits == [] then None else Some(Value(digits))
  }

  /** Digits surrounded by digit-free text read back as their number. */
  lemma ExtractNumberRoundTrip(before: string, n: nat, after: string)
    requires Digits(before) == [] && Digits(after) == []
    ensures ExtractNumber(before + NatToString(n) + after) == Some(n)
  {
    var s := NatToString(n);
    DigitsAppend(before + s, after);
    DigitsAppend(before, s);
    DigitsOfDigitString(s);
    assert Digits(before + s + after) == s;
  }

  /** Zeros ahead of the digits do not change the number. */
  lemma ExtractNumberLeadingZeros(before: string, zeros: string, n: nat, after: string)
    requires Digits(before) == [] && Digits(after) == []
    requires forall i :: 0 <= i < |zeros| ==> zeros[i] == '0'
    ensures ExtractNumber(before + zeros + NatToString(n) + after) == Some(n)
  {
    var d := zeros + NatToString(n);
    ValueLeadingZeros(zeros, NatToString(n));
    DigitsBetween(before, d, after);
    assert before + zeros + NatToString(n) + after == before + d + after;
  }

  lemma DigitsBetween(before: string, d: string, after: string)
    requires Digits(before) == [] && Digits(after) == [] && AllDigits(d)
    ensures Digits(before + d + after) == d
  {
    DigitsAppend(before + d, after);
    DigitsAppend(before, d);
    DigitsOfDigitString(d);
  }

  /** Non-digit characters anywhere do not change the number. */
  lemma ExtractNumberIgnoresNoise(a: string, noise: string, b: string)
    requires Digits(noise) == []
    ensures ExtractNumber(a + noise + b) == ExtractNumber(a + b)
  {
    DigitsAppend(a + noise, b);
    DigitsAppend(a, noise);
    DigitsAppend(a, b);
    assert Digits(a + noise + b) == Digits(a + b);
  }
}
