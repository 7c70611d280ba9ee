/** String helpers shared by the rest of the model: the handful of Python
    string operations the crawler relies on (`in`, `split`, `filter(str.isdigit, …)`,
    `int(…)` and `str(…)`), over ASCII digits only. */
module Text {

  datatype Option<+T> = None | Some(value: T)

  predicate IsDigit(c: char) {
    '0' <= c <= '9'
  }

  predicate AllDigits(s: string) {
    forall i :: 0 <= i < |s| ==> IsDigit(s[i])
  }

  function DigitValue(c: char): (d: nat)
    requires IsDigit(c)
    ensures d < 10
  {
    c as int - '0' as int
  }

  function DigitChar(d: nat): (c: char)
    requires d < 10
    ensures IsDigit(c) && DigitValue(c) == d
  {
    ('0' as int + d) as char
  }

  // ---------------------------------------------------------------------------
  // Digits and decimal numbers
  // ---------------------------------------------------------------------------

  /** Python's `''.join(filter(str.isdigit, s))`: the digit characters of `s`, in order. */
  function Digits(s: string): (r: string)
    ensures AllDigits(r)
    ensures |r| <= |s|
    ensures r == [] <==> forall i :: 0 <= i < |s| ==> !IsDigit(s[i])
  {
    DigitFilterFacts(s);
    DigitFilter(s)
  }

  /** The recursion behind `Digits`. */
  function DigitFilter(s: string): string {
    if s == [] then [] else (if IsDigit(s[0]) then [s[0]] else []) + DigitFilter(s[1..])
  }

  lemma {:induction false} DigitFilterFacts(s: string)
    ensures AllDigits(DigitFilter(s))
    ensures |DigitFilter(s)| <= |s|
    ensures DigitFilter(s) == [] <==> forall i :: 0 <= i < |s| ==> !IsDigit(s[i])
    decreases |s|
  {
    if s != [] {
      DigitFilterFacts(s[1..]);
      var h := if IsDigit(s[0]) then [s[0]] else [];
      assert DigitFilter(s) == h + DigitFilter(s[1..]);
      if DigitFilter(s) == [] {
        forall i | 0 <= i < |s| ensures !IsDigit(s[i]) {
          if i > 0 { assert s[i] == s[1..][i - 1]; }
        }
      }
    }
  }

  lemma {:induction false} DigitsAppend(a: string, b: string)
    ensures Digits(a + b) == Digits(a) + Digits(b)
    decreases |a|
  {
    if a == [] {
      assert a + b == b;
    } else {
      assert (a + b)[0] == a[0];
      assert (a + b)[1..] == a[1..] + b;
      DigitsAppend(a[1..], b);
    }
  }

  lemma {:induction false} DigitsOfDigitString(s: string)
    requires AllDigits(s)
    ensures Digits(s) == s
    decreases |s|
  {
    if s != [] {
      DigitsOfDigitString(s[1..]);
    }
  }

  /** Decimal value of a digit string, most significant digit first. */
  function Value(ds: string): nat
    requires AllDigits(ds)
  {
    if ds == [] then 0 else Value(ds[..|ds| - 1]) * 10 + DigitValue(ds[|ds| - 1])
  }

  /** Leading zeros do not change the value: `int("01") == 1`. */
  lemma {:induction false} ValueLeadingZeros(z: string, t: string)
    requires forall i :: 0 <= i < |z| ==> z[i] == '0'
    requires AllDigits(t)
    ensures AllDigits(z + t) && Value(z + t) == Value(t)
    decreases |z| + |t|
  {
    if t == [] {
      assert z + t == z;
      if z != [] {
        ValueLeadingZeros(z[..|z| - 1], []);
        assert z[..|z| - 1] + [] == z[..|z| - 1];
      }
    } else {
      var s := z + t;
      assert s[..|s| - 1] == z + t[..|t| - 1];
      assert s[|s| - 1] == t[|t| - 1];
      ValueLeadingZeros(z, t[..|t| - 1]);
    }
  }

  /** Python's `str(n)` for a non-negative integer: shortest decimal rendering. */
  function NatToString(n: nat): (s: string)
    ensures AllDigits(s) && s != []
    ensures Value(s) == n
    ensures |s| > 1 ==> s[0] != '0'
    decreases n
  {
    if n < 10 then [DigitChar(n)]
    else
      var p := NatToString(n / 10);
      assert (p + [DigitChar(n % 10)])[..|p|] == p;
      p + [DigitChar(n % 10)]
  }

  /** Python's `str(n)` for any integer: no `+`, and no leading zero but in `0` itself. */
  function IntToString(n: int): (s: string)
    ensures s != []
    ensures n >= 0 ==> AllDigits(s) && Value(s) == n
    ensures n >= 0 && |s| > 1 ==> s[0] != '0'
    ensures n < 0 ==> |s| > 1 && s[0] == '-' && AllDigits(s[1..]) && Value(s[1..]) == -n
    ensures n < 0 ==> s[1] != '0'
  {
    if n < 0 then
      var t := NatToString(-n);
      assert t[0] != '0' by {
        if |t| == 1 { assert Value(t) == DigitValue(t[0]); }
      }
      "-" + t
    else NatToString(n)
  }

  /** Python's `int(s)` on stripped text: an optional sign followed by at least one
      digit; anything else raises, which is `None` here. */
  function ParseInt(s: string): (r: Option<int>)
    ensures r.Some? <==> s != [] && (AllDigits(s) || (|s| > 1 && (s[0] == '+' || s[0] == '-') && AllDigits(s[1..])))
    ensures AllDigits(s) && s != [] ==> r == Some(Value(s) as int)
    ensures |s| > 1 && s[0] == '+' && AllDigits(s[1..]) ==> r == Some(Value(s[1..]) as int)
    ensures |s| > 1 && s[0] == '-' && AllDigits(s[1..]) ==> r == Some(-(Value(s[1..]) as int))
  {
    if s == [] then None
    else if (s[0] == '-' || s[0] == '+') && |s| > 1 && AllDigits(s[1..]) then
      Some(if s[0] == '-' then -(Value(s[1..]) as int) else Value(s[1..]) as int)
    else if AllDigits(s) then Some(Value(s))
    else None
  }

  lemma ParseIntRoundTrip(n: int)
    ensures ParseInt(IntToString(n)) == Some(n)
  {
    var s := IntToString(n);
    if n < 0 {
      assert !IsDigit(s[0]);
    }
  }

  // ---------------------------------------------------------------------------
  // Substring search
  // ---------------------------------------------------------------------------

  predicate OccursAt(s: string, t: string, i: nat) {
    i + |t| <= |s| && s[i..i + |t|] == t
  }

  /** Index of the first occurrence of `t` in `s` (Python's `s.find(t)`), if any. */
  function IndexOf(s: string, t: string): (r: Option<nat>)
    ensures r.Some? ==> OccursAt(s, t, r.value)
    ensures r.Some? ==> forall j :: 0 <= j < r.value ==> !OccursAt(s, t, j)
    ensures r.None? ==> forall j: nat :: !OccursAt(s, t, j)
    decreases |s|
  {
    if |s| < |t| then None
    else if s[..|t|] == t then Some(0)
    else
      var rest := IndexOf(s[1..], t);
      ShiftOccurrence(s, t);
      assert !OccursAt(s, t, 0) by { assert s[0..|t|] == s[..|t|]; }
      match rest
      case None => None
      case Some(k) => Some(k + 1)
  }

  lemma ShiftOccurrence(s: string, t: string)
    requires s != []
    ensures forall j: nat :: j > 0 ==> (OccursAt(s, t, j) <==> OccursAt(s[1..], t, j - 1))
  {
    forall j: nat | j > 0
      ensures OccursAt(s, t, j) <==> OccursAt(s[1..], t, j - 1)
    {
      if j + |t| <= |s| {
        assert s[1..][j - 1..j - 1 + |t|] == s[j..j + |t|];
      }
    }
  }

  /** An occurrence with none before it is the first one. */
  lemma IndexOfIs(s: string, t: string, i: nat)
    requires OccursAt(s, t, i)
    requires forall j :: 0 <= j < i ==> !OccursAt(s, t, j)
    ensures IndexOf(s, t) == Some(i)
  {
  }

  /** Python's `t in s`. */
  predicate Contains(s: string, t: string) {
    IndexOf(s, t).Some?
  }

  lemma ContainsAt(s: string, t: string, i: nat)
    requires OccursAt(s, t, i)
    ensures Contains(s, t)
  {
  }

  lemma ContainsAppend(a: string, b: string, t: string)
    requires Contains(a, t)
    ensures Contains(a + b, t) && Contains(b + a, t)
  {
    var i := IndexOf(a, t).value;
    assert (a + b)[i..i + |t|] == a[i..i + |t|];
    assert (b + a)[|b| + i..|b| + i + |t|] == a[i..i + |t|];
    ContainsAt(a + b, t, i);
    ContainsAt(b + a, t, |b| + i);
  }

  /** Python's `s.split(sep, 1)` when `sep` occurs: the text before the first
      occurrence and the text after it. */
  function SplitFirst(s: string, sep: string): (r: Option<(string, string)>)
    ensures r.None? <==> !Contains(s, sep)
    ensures r.Some? ==> s == r.value.0 + sep + r.value.1
    ensures r.Some? ==> forall j :: 0 <= j < |r.value.0| ==> !OccursAt(s, sep, j)
  {
    match IndexOf(s, sep)
    case None => None
    case Some(i) =>
      assert s == s[..i] + sep + s[i + |sep|..];
      Some((s[..i], s[i + |sep|..]))
  }

  // ---------------------------------------------------------------------------
  // Single-character splitting and filtering
  // ---------------------------------------------------------------------------

  /** Python's `s.split(c)[0]`: the text before the first `c`, or all of `s`. */
  function BeforeFirst(s: string, c: char): (r: string)
    ensures c !in r
    ensures |r| <= |s| && r == s[..|r|]
    ensures |r| < |s| ==> s[|r|] == c
  {
    if s == [] then []
    else if s[0] == c then []
    else [s[0]] + BeforeFirst(s[1..], c)
  }

  /** Python's `s.split(c, 1)[1]` when `c` occurs: the text after the first `c`. */
  function AfterFirst(s: string, c: char): (r: Option<string>)
    ensures r.None? <==> c !in s
    ensures r.Some? ==> s == BeforeFirst(s, c) + [c] + r.value
  {
    if s == [] then None
    else if s[0] == c then Some(s[1..])
    else
      var rest := AfterFirst(s[1..], c);
      assert rest.Some? ==> s == [s[0]] + s[1..];
      rest
  }

  lemma {:induction false} BeforeFirstSkips(p: string, s: string, c: char)
    requires c !in p
    ensures BeforeFirst(p + s, c) == p + BeforeFirst(s, c)
    decreases |p|
  {
    if p == [] {
      assert p + s == s;
    } else {
      assert (p + s)[1..] == p[1..] + s;
      BeforeFirstSkips(p[1..], s, c);
    }
  }

  lemma {:induction false} AfterFirstSkips(p: string, s: string, c: char)
    requires c !in p
    ensures AfterFirst(p + s, c) == AfterFirst(s, c)
    decreases |p|
  {
    if p == [] {
      assert p + s == s;
    } else {
      assert (p + s)[1..] == p[1..] + s;
      AfterFirstSkips(p[1..], s, c);
    }
  }

  /** Python's `s.split(c)[-1]`: the text after the last `c`, or all of `s`. */
  function AfterLast(s: string, c: char): (r: string)
    ensures c !in r
    ensures |r| <= |s| && r == s[|s| - |r|..]
    ensures |r| < |s| ==> s[|s| - |r| - 1] == c
  {
    if s == [] then []
    else if s[|s| - 1] == c then []
    else AfterLast(s[..|s| - 1], c) + [s[|s| - 1]]
  }

  /** Python's `s.split(c)`: the maximal `c`-free pieces, in order. */
  function SplitAll(s: string, c: char): (pieces: seq<string>)
    ensures |pieces| >= 1
    ensures forall i :: 0 <= i < |pieces| ==> c !in pieces[i]
    ensures Join(pieces, c) == s
    decreases |s|
  {
    var head := BeforeFirst(s, c);
    if |head| == |s| then [s]
    else
      var rest := SplitAll(s[|head| + 1..], c);
      assert s == head + [c] + s[|head| + 1..];
      [head] + rest
  }

  /** Python's `c.join(pieces)`. */
  function Join(pieces: seq<string>, c: char): string
    requires |pieces| >= 1
  {
    if |pieces| == 1 then pieces[0] else pieces[0] + [c] + Join(pieces[1..], c)
  }

  /** Once `c` occurs in `q`, what follows `q` does not move the first `c`. */
  lemma {:induction false} BeforeFirstPrefix(q: string, x: string, c: char)
    requires c in q
    ensures BeforeFirst(q + x, c) == BeforeFirst(q, c)
    decreases |q|
  {
    assert (q + x)[0] == q[0];
    if q[0] != c {
      assert (q + x)[1..] == q[1..] + x;
      BeforeFirstPrefix(q[1..], x, c);
    }
  }

  /** Splitting a text followed by `c` and a `c`-free piece ends with that piece. */
  lemma {:induction false} SplitAllAppend(q: string, piece: string, c: char)
    requires c !in piece
    ensures SplitAll(q + [c] + piece, c) == SplitAll(q, c) + [piece]
    decreases |q|
  {
    if c !in q {
      SplitAllPair(q, piece, c);
    } else {
      var s := q + [c] + piece;
      var head := BeforeFirst(q, c);
      var q' := q[|head| + 1..];
      AppendedTail(q, piece, c);
      SplitAllStep(s, c);
      SplitAllStep(q, c);
      SplitAllAppend(q', piece, c);
      var rest := SplitAll(q', c);
      assert SplitAll(s, c) == [head] + (rest + [piece]);
      AppendAssoc([head], rest, [piece]);
    }
  }

  lemma AppendAssoc<T>(a: seq<T>, b: seq<T>, c: seq<T>)
    ensures a + (b + c) == (a + b) + c
  {
  }

  lemma SplitAllStep(s: string, c: char)
    requires c in s
    ensures |BeforeFirst(s, c)| < |s|
    ensures SplitAll(s, c) == [BeforeFirst(s, c)] + SplitAll(s[|BeforeFirst(s, c)| + 1..], c)
  {
  }

  lemma SplitAllPair(q: string, piece: string, c: char)
    requires c !in q && c !in piece
    ensures SplitAll(q + [c] + piece, c) == SplitAll(q, c) + [piece]
  {
    SplitWithoutSeparator(q, c);
    PairHalves(q, piece, c);
    SplitAllStep(q + [c] + piece, c);
    SplitWithoutSeparator(piece, c);
  }

  lemma PairHalves(q: string, piece: string, c: char)
    requires c !in q
    ensures c in q + [c] + piece
    ensures BeforeFirst(q + [c] + piece, c) == q
    ensures (q + [c] + piece)[|q| + 1..] == piece
  {
    var s := q + [c] + piece;
    assert s == q + ([c] + piece);
    assert s[|q|] == c;
    BeforeFirstSkips(q, [c] + piece, c);
    assert BeforeFirst([c] + piece, c) == [];
  }

  lemma AppendedTail(q: string, piece: string, c: char)
    requires c in q
    ensures BeforeFirst(q + [c] + piece, c) == BeforeFirst(q, c)
    ensures |BeforeFirst(q, c)| < |q|
    ensures (q + [c] + piece)[|BeforeFirst(q, c)| + 1..]
         == q[|BeforeFirst(q, c)| + 1..] + [c] + piece
  {
    var s := q + [c] + piece;
    assert s == q + ([c] + piece);
    BeforeFirstPrefix(q, [c] + piece, c);
  }

  lemma SplitWithoutSeparator(s: string, c: char)
    requires c !in s
    ensures SplitAll(s, c) == [s]
  {
  }

  /** Python's `s.replace(a, b)` for single characters. */
  function ReplaceChar(s: string, a: char, b: char): (r: string)
    ensures |r| == |s|
    ensures forall i :: 0 <= i < |s| ==> r[i] == if s[i] == a then b else s[i]
  {
    if s == [] then [] else [if s[0] == a then b else s[0]] + ReplaceChar(s[1..], a, b)
  }

  /** `s` with every character of `cs` deleted. */
  function RemoveAll(s: string, cs: set<char>): (r: string)
    ensures forall i :: 0 <= i < |r| ==> r[i] !in cs
    ensures |r| <= |s|
    ensures (forall i :: 0 <= i < |s| ==> s[i] !in cs) ==> r == s
  {
    if s == [] then []
    else (if s[0] in cs then [] else [s[0]]) + RemoveAll(s[1..], cs)
  }

  /** Number of occurrences of `c` in `s`. */
  function CountChar(s: string, c: char): nat {
    if s == [] then 0 else (if s[0] == c then 1 else 0) + CountChar(s[1..], c)
  }

  lemma {:induction false} CountCharAppend(a: string, b: string, c: char)
    ensures CountChar(a + b, c) == CountChar(a, c) + CountChar(b, c)
    decreases |a|
  {
    if a == [] {
      assert a + b == b;
    } else {
      assert (a + b)[1..] == a[1..] + b;
      CountCharAppend(a[1..], b, c);
    }
  }

  lemma {:induction false} CountCharAbsent(s: string, c: char)
    requires c !in s
    ensures CountChar(s, c) == 0
    decreases |s|
  {
    if s != [] {
      CountCharAbsent(s[1..], c);
    }
  }
}
