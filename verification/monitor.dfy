/** One pass of the monitor loop: every listing of a search result that has not
    been seen before is inspected once, judged, recorded when it qualifies, and
    remembered. The crawler, the clock and the files are parameters: the detail
    page of a link is a function, the timestamp is a string, and what the files
    hold is the state. */
module Monitor {
  import opened Text
  import opened Qualification

  /** One row of the search result. */
  datatype Listing = Listing(id: string, title: string, price: string, region: string, link: string)

  /** What the detail page of a listing yields: the inspection counters and the
      history note, each possibly missing. */
  datatype Detail = Detail(performance: Option<Counters>, note: Option<string>)

  /** A qualifying car as it is appended to the good-car list. */
  datatype GoodCar = GoodCar(
    carId: string, url: string, title: string,
    exchange: int, panel: int, corrosion: int,
    specialNote: string, price: string, region: string, checkTime: string)

  /** A listing inspected in this pass, with its verdict. */
  datatype Checked = Checked(listing: Listing, good: bool)

  /** The known ids and the good-car list. */
  datatype State = State(known: set<string>, goodCars: seq<GoodCar>)

  /** The state after a pass and the listings inspected in it, in order. */
  datatype Outcome = Outcome(state: State, inspected: seq<Checked>)

  /** The detail page's verdict. */
  predicate Qualifies(d: Detail) {
    IsGoodCar(d.performance, d.note)
  }

  /** The record written for a qualifying car. */
  function Record(l: Listing, d: Detail, now: string): (r: GoodCar)
    requires Qualifies(d)
    ensures r.carId == l.id && r.url == l.link && r.title == l.title
    ensures r.price == l.price && r.region == l.region && r.checkTime == now
    ensures r.exchange == Count(d.performance.value, Exchange) && r.specialNote == d.note.value
    ensures r.exchange <= 1 && r.panel == 0 && r.corrosion == 0 && r.specialNote == NoHistory
  {
    var m := d.performance.value;
    GoodCar(l.id, l.link, l.title, Count(m, Exchange), Count(m, Panel), Count(m, Corrosion),
            d.note.value, l.price, l.region, now)
  }

  /** One iteration of the loop over the search result. */
  function Visit(s: State, l: Listing, detail: string -> Detail, now: string): (r: (State, Option<Checked>))
    ensures l.id in s.known ==> r == (s, None)
    ensures r.0.known == s.known + {l.id}
    ensures l.id !in s.known ==> r.1 == Some(Checked(l, Qualifies(detail(l.link))))
    ensures l.id !in s.known ==>
      r.0.goodCars == s.goodCars + (if Qualifies(detail(l.link)) then [Record(l, detail(l.link), now)] else [])
  {
    if l.id in s.known then (s, None)
    else
      var d := detail(l.link);
      var good := Qualifies(d);
      var cars := if good then s.goodCars + [Record(l, d, now)] else s.goodCars;
      (State(s.known + {l.id}, cars), Some(Checked(l, good)))
  }

  /** The loop over the search result, first listing to last. */
  function Cycle(s: State, batch: seq<Listing>, detail: string -> Detail, now: string): Outcome
    decreases |batch|
  {
    if batch == [] then Outcome(s, [])
    else
      var v := Visit(s, batch[0], detail, now);
      var rest := Cycle(v.0, batch[1..], detail, now);
      Outcome(rest.state, (if v.1.Some? then [v.1.value] else []) + rest.inspected)
  }

  // ---------------------------------------------------------------------------
  // Reference definitions
  // ---------------------------------------------------------------------------

  function Ids(batch: seq<Listing>): set<string> {
    set l | l in batch :: l.id
  }

  /** Listing `i` is new: its id is neither known nor seen earlier in the batch. */
  predicate NewAt(known: set<string>, batch: seq<Listing>, i: nat)
    requires i < |batch|
  {
    batch[i].id !in known && forall j :: 0 <= j < i ==> batch[j].id != batch[i].id
  }

  /** The new listings of a batch, in order. */
  function Diff(known: set<string>, batch: seq<Listing>): seq<Listing> {
    if batch == [] then []
    else Diff(known, batch[..|batch| - 1])
         + (if NewAt(known, batch, |batch| - 1) then [batch[|batch| - 1]] else [])
  }

  /** The records a sequence of inspected listings contributes. */
  function Records(ls: seq<Listing>, detail: string -> Detail, now: string): seq<GoodCar> {
    if ls == [] then []
    else Records(ls[..|ls| - 1], detail, now)
         + (var l := ls[|ls| - 1]; if Qualifies(detail(l.link)) then [Record(l, detail(l.link), now)] else [])
  }

  function Listings(cs: seq<Checked>): seq<Listing> {
    if cs == [] then [] else [cs[0].listing] + Listings(cs[1..])
  }

  /** Every recorded car is known. */
  predicate RecordsKnown(s: State) {
    forall i :: 0 <= i < |s.goodCars| ==> s.goodCars[i].carId in s.known
  }

  /** No car is recorded twice. */
  predicate DistinctRecords(cars: seq<GoodCar>) {
    forall i, j :: 0 <= i < j < |cars| ==> cars[i].carId != cars[j].carId
  }

  // ---------------------------------------------------------------------------
  // Properties of one pass
  // ---------------------------------------------------------------------------

  lemma {:induction false} ListingsSnoc(cs: seq<Checked>, c: seq<Checked>)
    ensures Listings(cs + c) == Listings(cs) + Listings(c)
    decreases |cs|
  {
    if cs == [] {
      assert cs + c == c;
    } else {
      assert (cs + c)[1..] == cs[1..] + c;
      ListingsSnoc(cs[1..], c);
    }
  }

  /** Appending a listing to the batch runs one more iteration at the end. */
  lemma {:induction false} CycleSnoc(s: State, batch: seq<Listing>, l: Listing, detail: string -> Detail, now: string)
    ensures var o := Cycle(s, batch, detail, now);
      var (s1, c) := Visit(o.state, l, detail, now);
      Cycle(s, batch + [l], detail, now) == Outcome(s1, o.inspected + (if c.Some? then [c.value] else []))
    decreases |batch|
  {
    if batch == [] {
      assert [] + [l] == [l];
    } else {
      var (s1, c) := Visit(s, batch[0], detail, now);
      assert (batch + [l])[1..] == batch[1..] + [l];
      assert (batch + [l])[0] == batch[0];
      CycleSnoc(s1, batch[1..], l, detail, now);
    }
  }

  /** After a pass every id of the batch is known, and nothing else was added. */
  lemma {:induction false} KnownGrows(s: State, batch: seq<Listing>, detail: string -> Detail, now: string)
    ensures Cycle(s, batch, detail, now).state.known == s.known + Ids(batch)
    decreases |batch|
  {
    if batch != [] {
      var (s1, c) := Visit(s, batch[0], detail, now);
      KnownGrows(s1, batch[1..], detail, now);
      assert Ids(batch) == {batch[0].id} + Ids(batch[1..]) by {
        assert batch == [batch[0]] + batch[1..];
        forall x | x in Ids(batch) ensures x in {batch[0].id} + Ids(batch[1..]) {
          var l :| l in batch && l.id == x;
          if l != batch[0] {
            assert l in batch[1..];
          }
        }
      }
    }
  }

  /** The listings inspected in a pass are exactly the new ones, in batch order,
      and the pass appends exactly their records; known listings are never
      inspected and a listing repeated in the batch is inspected once. */
  lemma {:induction false} CycleIsDiff(s: State, batch: seq<Listing>, detail: string -> Detail, now: string)
    ensures var o := Cycle(s, batch, detail, now);
      && Listings(o.inspected) == Diff(s.known, batch)
      && o.state.goodCars == s.goodCars + Records(Diff(s.known, batch), detail, now)
      && o.state.known == s.known + Ids(batch)
    decreases |batch|
  {
    KnownGrows(s, batch, detail, now);
    CycleListsDiff(s, batch, detail, now);
    CycleRecordsDiff(s, batch, detail, now);
  }

  lemma {:induction false} CycleListsDiff(s: State, batch: seq<Listing>, detail: string -> Detail, now: string)
    ensures Listings(Cycle(s, batch, detail, now).inspected) == Diff(s.known, batch)
    decreases |batch|
  {
    if batch != [] {
      var n := |batch| - 1;
      var init, l := batch[..n], batch[n];
      assert batch == init + [l];
      CycleListsDiff(s, init, detail, now);
      CycleSnoc(s, init, l, detail, now);
      KnownGrows(s, init, detail, now);
      var o := Cycle(s, init, detail, now);
      var (s1, c) := Visit(o.state, l, detail, now);
      var tail := if c.Some? then [c.value] else [];
      ListingsSnoc(o.inspected, tail);
      NewIffUnseen(s.known, batch);
      assert Diff(s.known, batch) == Diff(s.known, init) + (if NewAt(s.known, batch, n) then [l] else []);
      if c.Some? {
        assert Listings(tail) == [l];
      } else {
        assert Listings(tail) == [];
      }
    }
  }

  lemma {:induction false} CycleRecordsDiff(s: State, batch: seq<Listing>, detail: string -> Detail, now: string)
    ensures Cycle(s, batch, detail, now).state.goodCars == s.goodCars + Records(Diff(s.known, batch), detail, now)
    decreases |batch|
  {
    if batch != [] {
      var n := |batch| - 1;
      var init, l := batch[..n], batch[n];
      assert batch == init + [l];
      CycleRecordsDiff(s, init, detail, now);
      CycleSnoc(s, init, l, detail, now);
      KnownGrows(s, init, detail, now);
      var o := Cycle(s, init, detail, now);
      NewIffUnseen(s.known, batch);
      var d0 := Diff(s.known, init);
      assert Diff(s.known, batch) == d0 + (if NewAt(s.known, batch, n) then [l] else []);
      var extra := if Qualifies(detail(l.link)) then [Record(l, detail(l.link), now)] else [];
      var after := Cycle(s, batch, detail, now).state.goodCars;
      assert after == Visit(o.state, l, detail, now).0.goodCars;
      if NewAt(s.known, batch, n) {
        RecordsSnoc(d0, l, detail, now);
        AppendAssoc(s.goodCars, Records(d0, detail, now), extra);
      } else {
        assert after == o.state.goodCars;
        assert Diff(s.known, batch) == d0 + [] == d0;
      }
    }
  }

  lemma AppendAssoc<T>(a: seq<T>, b: seq<T>, c: seq<T>)
    ensures a + b + c == a + (b + c)
  {
  }

  lemma RecordsSnoc(ls: seq<Listing>, l: Listing, detail: string -> Detail, now: string)
    ensures Records(ls + [l], detail, now) == Records(ls, detail, now)
      + (if Qualifies(detail(l.link)) then [Record(l, detail(l.link), now)] else [])
  {
    assert (ls + [l])[..|ls|] == ls;
  }

  /** The last listing is new exactly when the pass over the earlier ones has not
      yet seen its id. */
  lemma NewIffUnseen(known: set<string>, batch: seq<Listing>)
    requires batch != []
    ensures NewAt(known, batch, |batch| - 1) <==> batch[|batch| - 1].id !in known + Ids(batch[..|batch| - 1])
  {
    var n := |batch| - 1;
    if batch[n].id in Ids(batch[..n]) {
      var l :| l in batch[..n] && l.id == batch[n].id;
      var j :| 0 <= j < n && batch[..n][j] == l;
      assert batch[j].id == batch[n].id;
    }
    if !NewAt(known, batch, n) && batch[n].id !in known {
      var j :| 0 <= j < n && batch[j].id == batch[n].id;
      assert batch[..n][j] == batch[j];
    }
  }

  /** Every verdict is the qualification of the listing's own detail page. */
  predicate JudgedByDetail(cs: seq<Checked>, detail: string -> Detail) {
    forall i :: 0 <= i < |cs| ==> cs[i].good == Qualifies(detail(cs[i].listing.link))
  }

  /** Each inspected listing is judged by its own detail page. */
  lemma {:induction false} VerdictsMatch(s: State, batch: seq<Listing>, detail: string -> Detail, now: string)
    ensures JudgedByDetail(Cycle(s, batch, detail, now).inspected, detail)
    decreases |batch|
  {
    if batch != [] {
      var r := Visit(s, batch[0], detail, now);
      var s1, c := r.0, r.1;
      VerdictsMatch(s1, batch[1..], detail, now);
      var rest := Cycle(s1, batch[1..], detail, now).inspected;
      assert c.Some? ==> batch[0].id !in s.known;
      var head := if c.Some? then [c.value] else [];
      var all := head + rest;
      assert Cycle(s, batch, detail, now).inspected == all;
      forall i | 0 <= i < |all|
        ensures all[i].good == Qualifies(detail(all[i].listing.link))
      {
        if i >= |head| {
          assert all[i] == rest[i - |head|];
          assert rest[i - |head|].good == Qualifies(detail(rest[i - |head|].listing.link));
        } else {
          assert all[i] == c.value == Checked(batch[0], Qualifies(detail(batch[0].link)));
        }
      }
    }
  }

  /** A pass keeps every recorded car known and no car recorded twice. */
  lemma {:induction false} CyclePreservesRecords(s: State, batch: seq<Listing>, detail: string -> Detail, now: string)
    requires RecordsKnown(s) && DistinctRecords(s.goodCars)
    ensures RecordsKnown(Cycle(s, batch, detail, now).state)
    ensures DistinctRecords(Cycle(s, batch, detail, now).state.goodCars)
    decreases |batch|
  {
    if batch != [] {
      var l := batch[0];
      var (s1, c) := Visit(s, l, detail, now);
      if l.id !in s.known && Qualifies(detail(l.link)) {
        var cars := s1.goodCars;
        assert cars == s.goodCars + [Record(l, detail(l.link), now)];
        forall i, j | 0 <= i < j < |cars| ensures cars[i].carId != cars[j].carId {
          if j == |cars| - 1 {
            assert cars[i] == s.goodCars[i];
          }
        }
      }
      CyclePreservesRecords(s1, batch[1..], detail, now);
    }
  }

  /** A batch whose ids are all known leaves the state alone and inspects nothing. */
  lemma {:induction false} KnownBatchIsNoOp(s: State, batch: seq<Listing>, detail: string -> Detail, now: string)
    requires Ids(batch) <= s.known
    ensures Cycle(s, batch, detail, now) == Outcome(s, [])
    decreases |batch|
  {
    if batch != [] {
      assert batch[0] in batch;
      assert Ids(batch[1..]) <= Ids(batch) by {
        forall x | x in Ids(batch[1..]) ensures x in Ids(batch) {
          var l :| l in batch[1..] && l.id == x;
          assert l in batch;
        }
      }
      KnownBatchIsNoOp(s, batch[1..], detail, now);
    }
  }

  /** Running the same batch a second time changes nothing. */
  lemma SecondPassIsNoOp(s: State, batch: seq<Listing>, detail: string -> Detail, now1: string, now2: string)
    ensures var s1 := Cycle(s, batch, detail, now1).state;
      Cycle(s1, batch, detail, now2) == Outcome(s1, [])
  {
    KnownGrows(s, batch, detail, now1);
    KnownBatchIsNoOp(Cycle(s, batch, detail, now1).state, batch, detail, now2);
  }

  // ---------------------------------------------------------------------------
  // Interrupted passes
  // ---------------------------------------------------------------------------

  /** The good-car file is rewritten after every record, but the known ids only at
      the end of the pass. A pass interrupted after its first listing was
      recorded, then restarted from the files, records that car a second time. */
  lemma CrashReplayDuplicates(s: State, l: Listing, rest: seq<Listing>, detail: string -> Detail, now1: string, now2: string)
    requires l.id !in s.known && Qualifies(detail(l.link))
    ensures var onDisk := State(s.known, Visit(s, l, detail, now1).0.goodCars);
      var cars := Cycle(onDisk, [l] + rest, detail, now2).state.goodCars;
      && |cars| >= |s.goodCars| + 2
      && cars[|s.goodCars|].carId == l.id
      && cars[|s.goodCars| + 1].carId == l.id
  {
    var onDisk := State(s.known, Visit(s, l, detail, now1).0.goodCars);
    var (s1, c) := Visit(onDisk, l, detail, now2);
    assert ([l] + rest)[0] == l && ([l] + rest)[1..] == rest;
    assert s1.goodCars == s.goodCars + [Record(l, detail(l.link), now1)] + [Record(l, detail(l.link), now2)];
    GoodCarsOnlyGrow(s1, rest, detail, now2);
  }

  /** A pass only appends to the good-car list. */
  lemma {:induction false} GoodCarsOnlyGrow(s: State, batch: seq<Listing>, detail: string -> Detail, now: string)
    ensures var cars := Cycle(s, batch, detail, now).state.goodCars;
      |cars| >= |s.goodCars| && cars[..|s.goodCars|] == s.goodCars
    decreases |batch|
  {
    if batch != [] {
      var (s1, c) := Visit(s, batch[0], detail, now);
      GoodCarsOnlyGrow(s1, batch[1..], detail, now);
      assert s1.goodCars[..|s.goodCars|] == s.goodCars;
    }
  }
  // ---------------------------------------------------------------------------
  // A worked pass
  // ---------------------------------------------------------------------------

  const Clean := Detail(Some(map[Exchange := 1, Panel := 0, Corrosion := 0]), Some(NoHistory))
  const Repaired := Detail(Some(map[Exchange := 0, Panel := 2, Corrosion := 0]), Some(NoHistory))

  /** A batch holding a known listing, a clean new one, the clean one again and a
      repaired one: the known and the repeated rows are skipped, both new rows
      are inspected, and only the clean car is recorded. */
  lemma WorkedPass(a: Listing, b: Listing, c: Listing, detail: string -> Detail, now: string)
    requires a.id != b.id && b.id != c.id && a.id != c.id
    requires detail(b.link) == Clean && detail(c.link) == Repaired
    ensures var o := Cycle(State({a.id}, []), [a, b, b, c], detail, now);
      && o.inspected == [Checked(b, true), Checked(c, false)]
      && o.state.known == {a.id, b.id, c.id}
      && o.state.goodCars == [Record(b, Clean, now)]
  {
    assert Qualifies(Clean);
    assert !Qualifies(Repaired);
    var s0 := State({a.id}, []);
    var s1 := State({a.id, b.id}, [Record(b, Clean, now)]);
    var s2 := State({a.id, b.id, c.id}, [Record(b, Clean, now)]);
    assert Visit(s0, a, detail, now) == (s0, None);
    assert Visit(s0, b, detail, now).0.known == s1.known;
    assert Visit(s0, b, detail, now).0.goodCars == s1.goodCars;
    assert Visit(s0, b, detail, now).1 == Some(Checked(b, true));
    assert Visit(s1, b, detail, now) == (s1, None);
    assert Visit(s1, c, detail, now).0.known == s2.known;
    assert Visit(s1, c, detail, now).0.goodCars == s2.goodCars;
    assert Visit(s1, c, detail, now).1 == Some(Checked(c, false));
    assert Cycle(s2, [], detail, now) == Outcome(s2, []);
    assert Cycle(s1, [c], detail, now) == Outcome(s2, [Checked(c, false)]);
    assert [b, c][1..] == [c];
    assert Cycle(s1, [b, c], detail, now) == Outcome(s2, [Checked(c, false)]);
    assert [b, b, c][1..] == [b, c];
    assert Cycle(s0, [b, b, c], detail, now) == Outcome(s2, [Checked(b, true), Checked(c, false)]);
    assert [a, b, b, c][1..] == [b, b, c];
  }
}
