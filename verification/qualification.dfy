/** The qualification rule: a car is worth recording when its inspection report
    shows at most one exchanged panel, no sheet-metal repair, no corrosion, and its
    history note reads "none". */
module Qualification {
  import opened Text

  /** The three inspection counters the crawler reads. */
  datatype Category = Exchange | Panel | Corrosion

  /** Sentinel for a counter the report did not state. */
  const Unknown := 999

  /** The history note of a car with nothing to report. */
  const NoHistory := "없음"

  /** Counters keyed by category; a key may be missing. */
  type Counters = map<Category, int>

  /** `d.get(key, 999)`. */
  function Count(m: Counters, k: Category): (n: int)
    ensures k !in m ==> n == Unknown
    ensures k in m ==> n == m[k]
  {
    if k in m then m[k] else Unknown
  }

  /** Python truthiness of the counters argument: `None` and `{}` are false. */
  predicate Present(perf: Option<Counters>) {
    perf.Some? && perf.value != map[]
  }

  /** The qualification test over the parsed report and the history note. */
  function IsGoodCar(perf: Option<Counters>, note: Option<string>): (good: bool)
    ensures !Present(perf) || note.None? ==> !good
    ensures good <==>
      && perf.Some? && note == Some(NoHistory)
      && Count(perf.value, Exchange) <= 1
      && Count(perf.value, Panel) == 0
      && Count(perf.value, Corrosion) == 0
  {
    if !Present(perf) || note.None? then false
    else
      var m := perf.value;
      Count(m, Exchange) <= 1 && Count(m, Panel) == 0 && Count(m, Corrosion) == 0
      && note.value == NoHistory
  }

  /** A counter that is missing or still at the sentinel never qualifies. */
  lemma UnknownNeverQualifies(m: Counters, k: Category, note: Option<string>)
    requires k !in m || m[k] == Unknown
    ensures !IsGoodCar(Some(m), note)
  {
  }

  /** Qualification depends only on the three counters and the note: two reports
      that agree on every counter are judged alike. */
  lemma OnlyCountersMatter(m1: Counters, m2: Counters, note: Option<string>)
    requires forall k :: Count(m1, k) == Count(m2, k)
    ensures IsGoodCar(Some(m1), note) == IsGoodCar(Some(m2), note)
  {
    assert Count(m1, Exchange) == Count(m2, Exchange);
    assert Count(m1, Panel) == Count(m2, Panel);
    assert Count(m1, Corrosion) == Count(m2, Corrosion);
  }

  /** The boundary cases of the rule. */
  lemma Examples()
    ensures IsGoodCar(Some(map[Exchange := 1, Panel := 0, Corrosion := 0]), Some(NoHistory))
    ensures !IsGoodCar(Some(map[Exchange := 2, Panel := 0, Corrosion := 0]), Some(NoHistory))
    ensures !IsGoodCar(Some(map[Exchange := 0, Panel := 1, Corrosion := 0]), Some(NoHistory))
    ensures !IsGoodCar(Some(map[Exchange := 0, Panel := 0, Corrosion := 0]), Some("렌트"))
    ensures !IsGoodCar(Some(map[Exchange := 0, Panel := 0, Corrosion := 0]), None)
    ensures IsGoodCar(Some(map[Exchange := -3, Panel := 0, Corrosion := 0]), Some(NoHistory))
  {
    assert "렌트" != NoHistory by { assert "렌트"[0] != NoHistory[0]; }
  }
}
