/** The viewer's grouping of the qualified-car list into one tab per title, and
    the lookup a tab performs. The grouped record is a sequence of groups in the
    order their keys were first created. */
module Viewer {
  import opened Text

  /** One qualified car as the viewer reads it; every field may be missing. */
  datatype Car = Car(title: Option<string>, price: Option<string>, region: Option<string>, url: Option<string>)

  /** The key of cars with a missing or empty title. */
  const Untitled := "제목 없음"

  /** A tab: its key and its cars. */
  datatype Group = Group(key: string, cars: seq<Car>)

  /** The title a car is grouped under: its own when present and non-empty,
      otherwise the fallback. */
  function TitleKey(c: Car): (k: string)
    ensures k != []
    ensures c.title.Some? && c.title.value != [] ==> k == c.title.value
    ensures k == Untitled <==> c.title.None? || c.title == Some([]) || c.title == Some(Untitled)
  {
    match c.title
    case Some(t) => if t != [] then t else Untitled
    case None => Untitled
  }

  // ---------------------------------------------------------------------------
  // The grouping fold
  // ---------------------------------------------------------------------------

  function Keys(gs: seq<Group>): (ks: seq<string>)
    ensures |ks| == |gs|
    ensures forall i :: 0 <= i < |gs| ==> ks[i] == gs[i].key
  {
    if gs == [] then [] else [gs[0].key] + Keys(gs[1..])
  }

  /** `grouped[key]`, with a missing key read as the empty group. */
  function Lookup(gs: seq<Group>, key: string): seq<Car> {
    if gs == [] then []
    else if gs[0].key == key then gs[0].cars
    else Lookup(gs[1..], key)
  }

  /** Push a car onto the group of `key`, creating the group at the end when the
      key is new. */
  function Push(gs: seq<Group>, key: string, c: Car): (r: seq<Group>)
    ensures Keys(r) == if key in Keys(gs) then Keys(gs) else Keys(gs) + [key]
    ensures forall k :: Lookup(r, k) == Lookup(gs, k) + (if k == key then [c] else [])
  {
    if gs == [] then [Group(key, [c])]
    else if gs[0].key == key then [Group(key, gs[0].cars + [c])] + gs[1..]
    else
      var r := [gs[0]] + Push(gs[1..], key, c);
      assert r[1..] == Push(gs[1..], key, c);
      r
  }

  /** The reduce over the cars, first to last. */
  function GroupByTitle(cars: seq<Car>): seq<Group> {
    if cars == [] then []
    else
      var c := cars[|cars| - 1];
      Push(GroupByTitle(cars[..|cars| - 1]), TitleKey(c), c)
  }

  // ---------------------------------------------------------------------------
  // Reference definitions
  // ---------------------------------------------------------------------------

  /** The cars with the given key, in input order. */
  function Filter(cars: seq<Car>, key: string): seq<Car> {
    if cars == [] then []
    else
      var c := cars[|cars| - 1];
      Filter(cars[..|cars| - 1], key) + (if TitleKey(c) == key then [c] else [])
  }

  /** The distinct keys of the cars, in order of first appearance. */
  function FirstSeen(cars: seq<Car>): seq<string> {
    if cars == [] then []
    else
      var seen := FirstSeen(cars[..|cars| - 1]);
      var k := TitleKey(cars[|cars| - 1]);
      if k in seen then seen else seen + [k]
  }

  predicate Distinct(ks: seq<string>) {
    forall i, j :: 0 <= i < j < |ks| ==> ks[i] != ks[j]
  }

  /** The number of cars over all groups. */
  function Total(gs: seq<Group>): nat {
    if gs == [] then 0 else |gs[0].cars| + Total(gs[1..])
  }

  // ---------------------------------------------------------------------------
  // Properties of the grouping
  // ---------------------------------------------------------------------------

  lemma {:induction false} FilterKeys(cars: seq<Car>, key: string)
    ensures forall i :: 0 <= i < |Filter(cars, key)| ==> TitleKey(Filter(cars, key)[i]) == key
    decreases |cars|
  {
    if cars != [] {
      FilterKeys(cars[..|cars| - 1], key);
    }
  }

  lemma {:induction false} FilterEmpty(cars: seq<Car>, key: string)
    ensures Filter(cars, key) == [] <==> key !in FirstSeen(cars)
    decreases |cars|
  {
    if cars != [] {
      FilterEmpty(cars[..|cars| - 1], key);
    }
  }

  lemma {:induction false} FirstSeenDistinct(cars: seq<Car>)
    ensures Distinct(FirstSeen(cars))
    decreases |cars|
  {
    if cars != [] {
      FirstSeenDistinct(cars[..|cars| - 1]);
    }
  }

  /** The reduce builds one group per distinct key, in order of first appearance,
      and the group of every key holds exactly that key's cars in input order. */
  lemma {:induction false} GroupByTitleSpec(cars: seq<Car>)
    ensures Keys(GroupByTitle(cars)) == FirstSeen(cars)
    ensures forall key :: Lookup(GroupByTitle(cars), key) == Filter(cars, key)
    decreases |cars|
  {
    if cars != [] {
      GroupByTitleSpec(cars[..|cars| - 1]);
    }
  }

  /** With distinct keys, looking a group's key up finds that group. */
  lemma {:induction false} LookupAt(gs: seq<Group>, i: nat)
    requires i < |gs| && Distinct(Keys(gs))
    ensures Lookup(gs, gs[i].key) == gs[i].cars
    decreases i
  {
    if i > 0 {
      assert Keys(gs)[0] != Keys(gs)[i];
      assert Keys(gs[1..]) == Keys(gs)[1..];
      LookupAt(gs[1..], i - 1);
    }
  }

  /** Each group holds exactly its key's cars in input order, no group is empty,
      and no key appears twice. */
  lemma GroupsAreFilters(cars: seq<Car>)
    ensures var gs := GroupByTitle(cars);
      && Distinct(Keys(gs))
      && (forall i :: 0 <= i < |gs| ==> gs[i].cars == Filter(cars, gs[i].key))
      && (forall i :: 0 <= i < |gs| ==> gs[i].cars != [])
  {
    var gs := GroupByTitle(cars);
    GroupByTitleSpec(cars);
    FirstSeenDistinct(cars);
    forall i | 0 <= i < |gs|
      ensures gs[i].cars == Filter(cars, gs[i].key) && gs[i].cars != []
    {
      LookupAt(gs, i);
      assert Keys(gs)[i] == gs[i].key;
      FilterEmpty(cars, gs[i].key);
    }
  }

  /** Every car lands in the group of its own key and in no other. */
  lemma EveryCarInOneGroup(cars: seq<Car>, j: nat, key: string)
    requires j < |cars|
    ensures cars[j] in Lookup(GroupByTitle(cars), key) <==> key == TitleKey(cars[j])
  {
    GroupByTitleSpec(cars);
    FilterKeys(cars, key);
    FilterContains(cars, j);
  }

  lemma {:induction false} FilterContains(cars: seq<Car>, j: nat)
    requires j < |cars|
    ensures cars[j] in Filter(cars, TitleKey(cars[j]))
    decreases |cars|
  {
    var n := |cars| - 1;
    if j < n {
      FilterContains(cars[..n], j);
    }
  }

  lemma {:induction false} TotalPush(gs: seq<Group>, key: string, c: Car)
    ensures Total(Push(gs, key, c)) == Total(gs) + 1
    decreases |gs|
  {
    if gs != [] && gs[0].key != key {
      var r := Push(gs, key, c);
      assert r[1..] == Push(gs[1..], key, c);
      TotalPush(gs[1..], key, c);
    }
  }

  /** The group sizes add up to the number of cars. */
  lemma {:induction false} SizesSum(cars: seq<Car>)
    ensures Total(GroupByTitle(cars)) == |cars|
    decreases |cars|
  {
    if cars != [] {
      var n := |cars| - 1;
      SizesSum(cars[..n]);
      TotalPush(GroupByTitle(cars[..n]), TitleKey(cars[n]), cars[n]);
    }
  }

  /** A car without a title, one with an empty title and one literally titled
      with the fallback text share a group. */
  lemma UntitledShareGroup(cars: seq<Car>, i: nat, j: nat)
    requires i < |cars| && j < |cars|
    requires cars[i].title.None? || cars[i].title == Some([])
    requires cars[j].title == Some(Untitled)
    ensures cars[i] in Lookup(GroupByTitle(cars), Untitled)
    ensures cars[j] in Lookup(GroupByTitle(cars), Untitled)
  {
    EveryCarInOneGroup(cars, i, Untitled);
    EveryCarInOneGroup(cars, j, Untitled);
  }

  // ---------------------------------------------------------------------------
  // Tabs
  // ---------------------------------------------------------------------------

  /** The cars a tab shows: the key at the index, or the empty key when the index
      is out of range, and the group of that key, or none. */
  function SelectGroup(gs: seq<Group>, idx: int): (shown: seq<Car>)
    ensures !(0 <= idx < |gs|) ==> shown == []
  {
    var titleKey := if 0 <= idx < |gs| then gs[idx].key else "";
    if titleKey != "" && Lookup(gs, titleKey) != [] then Lookup(gs, titleKey) else []
  }

  /** An in-range tab shows the cars of its title, in input order. */
  lemma SelectInRange(cars: seq<Car>, idx: int)
    requires 0 <= idx < |GroupByTitle(cars)|
    ensures var gs := GroupByTitle(cars);
      SelectGroup(gs, idx) == gs[idx].cars == Filter(cars, gs[idx].key)
  {
    var gs := GroupByTitle(cars);
    GroupsAreFilters(cars);
    GroupByTitleSpec(cars);
    LookupAt(gs, idx);
    assert gs[idx].key != [] by {
      FilterKeys(cars, gs[idx].key);
      assert TitleKey(gs[idx].cars[0]) == gs[idx].key;
    }
  }

  /** What the viewer shows first. */
  datatype View = EmptyMessage | Tabs(titles: seq<string>, shown: seq<Car>)

  /** The first render: the empty message for no cars, otherwise one tab per
      title with the first tab's group shown. */
  function InitialView(cars: seq<Car>): (v: View)
    ensures cars == [] <==> v.EmptyMessage?
  {
    if cars == [] then EmptyMessage
    else
      var gs := GroupByTitle(cars);
      Tabs(Keys(gs), SelectGroup(gs, 0))
  }

  /** The first tab is the first car's title and shows every car with that title. */
  lemma InitialViewShowsFirstTitle(cars: seq<Car>)
    requires cars != []
    ensures InitialView(cars).titles == FirstSeen(cars)
    ensures InitialView(cars).titles[0] == TitleKey(cars[0])
    ensures InitialView(cars).shown == Filter(cars, TitleKey(cars[0]))
  {
    GroupByTitleSpec(cars);
    FirstSeenStartsWithFirst(cars);
    SelectInRange(cars, 0);
  }

  lemma {:induction false} FirstSeenStartsWithFirst(cars: seq<Car>)
    requires cars != []
    ensures |FirstSeen(cars)| > 0 && FirstSeen(cars)[0] == TitleKey(cars[0])
    decreases |cars|
  {
    if |cars| > 1 {
      FirstSeenStartsWithFirst(cars[..|cars| - 1]);
    }
  }
}
