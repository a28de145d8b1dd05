/**
 * The run planning at the top of run.py: weekend runs are cancelled, a
 * Monday run looks back over the weekend, the result cap is checked, and the
 * two ends of the submission window are rendered as `YYYYMMDDTTTT` tokens.
 */
module Window {
  import opened Results
  import opened Calendar

  /** arXiv serves at most this many results per query. */
  const MaxResults := 10000

  /** What a run does: nothing at the weekend, or query the window from `yesterday` to `today`. */
  datatype Plan = Skip | Query(dayWindow: nat, yesterday: string, today: string)

  /**
   * `TooManyResults` is the `ValueError` about `max_results`; `DateOutOfRange`
   * is the `OverflowError` of a window reaching before 0001-01-01.
   */
  datatype PlanError = TooManyResults(maxResults: int) | DateOutOfRange

  predicate IsWeekend(weekday: int) {
    weekday == 5 || weekday == 6
  }

  /**
   * Planning a run on `day` with a cap of `maxResults`, in the order of the
   * script: the weekend check, the window, the cap, then the two tokens.
   */
  method PlanRun(day: Date, maxResults: int) returns (r: Result<Plan, PlanError>)
    requires ValidDate(day)
    ensures r == Ok(Skip) <==> IsWeekend(Weekday(day))
    ensures r == Err(TooManyResults(maxResults)) <==> !IsWeekend(Weekday(day)) && maxResults > MaxResults
    ensures r == Err(DateOutOfRange) <==>
      !IsWeekend(Weekday(day)) && maxResults <= MaxResults && Ordinal(day) <= (if Weekday(day) == 0 then 3 else 1)
    ensures !IsWeekend(Weekday(day)) && maxResults <= MaxResults && Ordinal(day) > (if Weekday(day) == 0 then 3 else 1) ==>
      r.Ok? && r.value.Query?
    ensures r.Ok? && r.value.Query? ==> r.value.dayWindow == (if Weekday(day) == 0 then 3 else 1)
    ensures r.Ok? && r.value.Query? ==> r.value.today == DateToken(day)
    ensures r.Ok? && r.value.Query? ==> exists e :: ValidDate(e) && Ordinal(e) == Ordinal(day) - r.value.dayWindow && r.value.yesterday == DateToken(e)
  {
    var weekday := Weekday(day);
    if weekday == 5 || weekday == 6 {
      return Ok(Skip);
    }
    var dayWindow := 1;
    if weekday == 0 {
      dayWindow := 3;
    }
    if maxResults > MaxResults {
      return Err(TooManyResults(maxResults));
    }
    var today := DateToken(day);
    var start := MinusDays(day, dayWindow);
    if start.None? {
      return Err(DateOutOfRange);
    }
    var yesterday := DateToken(start.value);
    r := Ok(Query(dayWindow, yesterday, today));
  }

  /**
   * The window reaches back to the previous weekday: a Monday run starts on
   * Friday and every day strictly inside its window is a weekend day; any
   * other weekday run starts on the day before.
   */
  lemma WindowStartsOnPreviousWeekday(o: int, dayWindow: int)
    requires !IsWeekend(WeekdayOf(o))
    requires dayWindow == (if WeekdayOf(o) == 0 then 3 else 1)
    ensures WeekdayOf(o - dayWindow) == if WeekdayOf(o) == 0 then 4 else WeekdayOf(o) - 1
    ensures forall p :: o - dayWindow < p < o ==> IsWeekend(WeekdayOf(p))
  {
    if WeekdayOf(o) == 0 {
      assert WeekdayOf(o - 1) == 6;
      assert WeekdayOf(o - 2) == 5;
    }
  }
}
