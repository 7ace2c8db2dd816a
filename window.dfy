/** Instants, day flooring and the fetch window of the generation job, plus the
    production-type allow-list read from the environment. Time is whole
    seconds since 1970-01-01T00:00:00Z. */
module Window {
  import opened Common
  import opened Strings

  const SECONDS_PER_DAY: int := 86400

  /** The history duration used when none is configured: one day. */
  const DEFAULT_HISTORY: int := 86400

  /** A moment parsed from a timestamp: a valid instant, or an invalid one. */
  datatype Instant = At(secs: int) | Invalid

  /** moment's `a.isSameOrBefore(b)` against a valid `b`: false whenever `a`
      is invalid. */
  predicate SameOrBefore(a: Instant, b: int) {
    a.At? && a.secs <= b
  }

  /** `startOf('day')` in UTC: the midnight at or before `t`. */
  function FloorDay(t: int): (r: int)
    ensures r % SECONDS_PER_DAY == 0
    ensures r <= t < r + SECONDS_PER_DAY
  {
    t - t % SECONDS_PER_DAY
  }

  /** The requested `[start, end)` range. */
  datatype FetchWindow = FetchWindow(start: int, end: int)

  /** The window requested at instant `now` with `history` seconds of
      history: from the midnight at or before `now - history` to the midnight
      at or before `now` plus one day (the upstream API only looks at dates). */
  function WindowAt(now: int, history: int): (w: FetchWindow)
    ensures w.start % SECONDS_PER_DAY == 0 && w.end % SECONDS_PER_DAY == 0
    ensures w.start <= now - history < w.start + SECONDS_PER_DAY
    ensures w.end - SECONDS_PER_DAY <= now < w.end
  {
    FetchWindow(FloorDay(now - history), FloorDay(now + SECONDS_PER_DAY))
  }

  /** With a non-negative history the window contains `now`, its end is the
      midnight that follows `now`, and it spans whole days. */
  lemma WindowContainsNow(now: int, history: int)
    requires history >= 0
    ensures WindowAt(now, history).start <= now < WindowAt(now, history).end
    ensures WindowAt(now, history).end == FloorDay(now) + SECONDS_PER_DAY
    ensures (WindowAt(now, history).end - WindowAt(now, history).start) % SECONDS_PER_DAY == 0
    ensures WindowAt(now, history).end - WindowAt(now, history).start > history
  {
    var w := WindowAt(now, history);
    var f := FloorDay(now);
    assert f <= now < f + SECONDS_PER_DAY;
    // Two multiples of a day that are less than a day apart are equal.
    assert w.end - SECONDS_PER_DAY == f by {
      var d := w.end - SECONDS_PER_DAY - f;
      assert d % SECONDS_PER_DAY == 0;
      assert -SECONDS_PER_DAY < d < SECONDS_PER_DAY;
    }
  }

  /** 2024-03-10T15:00:00Z with one day of history asks for
      2024-03-09T00:00:00Z to 2024-03-11T00:00:00Z. */
  lemma WindowExample()
    ensures WindowAt(1710082800, DEFAULT_HISTORY) == FetchWindow(1709942400, 1710115200)
  {
  }

  /** The allow-list of production types: the comma-separated value of the
      environment variable when it is set and not empty, otherwise just
      NUCLEAR. The pieces contain no comma and join back to the value, which
      (by `SplitJoin`) makes them exactly the pieces of `split(',')`. */
  function TypeFilterFromEnv(env: Option<string>): (r: seq<string>)
    ensures |r| >= 1
    ensures (env.None? || env == Some("")) ==> r == ["NUCLEAR"]
    ensures env.Some? && env.value != "" ==> Join(r, ',') == env.value
    ensures env.Some? && env.value != "" ==> forall i :: 0 <= i < |r| ==> ',' !in r[i]
  {
    if env.Some? && env.value != "" then
      JoinSplit(env.value, ',');
      Split(env.value, ',')
    else
      ["NUCLEAR"]
  }

  /** The allow-list is the one list of comma-free pieces that joins back to
      the variable's value: any such list is what the job uses. */
  lemma TypeFilterIsSplit(env: string, types: seq<string>)
    requires env != "" && |types| >= 1
    requires Join(types, ',') == env
    requires forall i :: 0 <= i < |types| ==> ',' !in types[i]
    ensures TypeFilterFromEnv(Some(env)) == types
  {
    SplitJoin(types, ',');
  }

  /** `PRODUCTION_TYPE_FILTER=NUCLEAR,WIND` allows both types. */
  lemma TypeFilterExample()
    ensures TypeFilterFromEnv(Some("NUCLEAR,WIND")) == ["NUCLEAR", "WIND"]
  {
    TypeFilterIsSplit("NUCLEAR,WIND", ["NUCLEAR", "WIND"]);
  }
}
