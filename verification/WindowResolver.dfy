/** Which days a project reads from a connector: a stored choice, clamped on every read to what the
    connector holds. A day is a number. */
module WindowResolver {
  import opened Sequences

  datatype Connector = Connector(maxWindowDays: int, freshnessLagDays: int)

  datatype Kind = Relative | Absolute

  /** A stored row; a well-shaped one has the columns its kind calls for. */
  datatype Stored = Stored(kind: Kind, days: Option<int>, start: Option<int>, end: Option<int>, enabled: bool)

  datatype Window = Window(
    effectivelyOn: bool, kind: Kind, start: int, end: int, days: int, clamped: bool, earliest: int, latest: int)

  datatype Outcome = Absent | ShapeViolation | Resolved(window: Window)

  function Min(a: int, b: int): int {
    if b < a then b else a
  }

  function Max(a: int, b: int): int {
    if b > a then b else a
  }

  predicate WellShaped(row: Stored) {
    if row.kind == Relative then row.days.Some? else row.start.Some? && row.end.Some?
  }

  /** What the write side guarantees: a preset within the connector's cap, or a pair in order. */
  predicate Valid(connector: Connector, row: Stored) {
    && connector.maxWindowDays >= 1 && WellShaped(row)
    && if row.kind == Relative then 1 <= row.days.value <= connector.maxWindowDays
       else row.start.value <= row.end.value
  }

  ghost predicate InBounds(connector: Connector, w: Window) {
    && w.earliest <= w.start <= w.end <= w.latest
    && w.days == w.end - w.start + 1
    && 1 <= w.days <= connector.maxWindowDays
  }

  /** What an absolute pick comes to. One that meets the bounds resolves to its intersection with them;
      one wholly in the future to the one ceiling day; one wholly aged out to as many days as it had, up
      to the cap, ending at the ceiling. It is never widened, and is reported as moved exactly when it was
      not within the bounds. */
  ghost predicate AnswersPick(connector: Connector, start: int, end: int, w: Window) {
    && (start <= w.latest && end >= w.earliest ==>
          w.start == Max(start, w.earliest) && w.end == Min(end, w.latest))
    && (start > w.latest ==> w.start == w.end == w.latest)
    && (end < w.earliest ==> w.end == w.latest && w.days == Min(end - start + 1, connector.maxWindowDays))
    && w.days <= end - start + 1
    && (w.clamped <==> !(w.earliest <= start && end <= w.latest))
  }

  /** The absolute arm, for the two bounds. */
  function ResolvePick(connector: Connector, picked: int, until: int, enabled: bool, latest: int): (w: Window)
    ensures w.latest == latest && w.effectivelyOn == enabled && w.kind == Absolute
    ensures w.latest - w.earliest + 1 == connector.maxWindowDays
    ensures connector.maxWindowDays >= 1 && picked <= until ==>
              InBounds(connector, w) && AnswersPick(connector, picked, until, w)
  {
    var earliest := latest - (connector.maxWindowDays - 1);
    var end := Min(until, latest);
    var start := Min(picked, end);
    var length := Min(until - picked + 1, connector.maxWindowDays);
    var aged := end < earliest;
    var to := if aged then latest else end;
    var from :=
      if aged then latest - (length - 1)
      else Max(Max(start, earliest), end - (connector.maxWindowDays - 1));
    Window(enabled, Absolute, from, to, to - from + 1, from != picked || to != until, earliest, latest)
  }

  /** No row has no window, and a row that disagrees with its kind is an error. A valid one stays within
      the bounds: a preset is its days up to the ceiling, a pick is answered case by case. */
  function Resolve(connector: Connector, stored: Option<Stored>, today: int): (r: Outcome)
    ensures r.Absent? <==> stored == None
    ensures r.ShapeViolation? <==> stored.Some? && !WellShaped(stored.value)
    ensures r.Resolved? ==>
              && r.window.effectivelyOn == stored.value.enabled && r.window.kind == stored.value.kind
              && r.window.latest == today - connector.freshnessLagDays
              && r.window.latest - r.window.earliest + 1 == connector.maxWindowDays
    ensures stored.Some? && Valid(connector, stored.value) ==> r.Resolved? && InBounds(connector, r.window)
    ensures stored.Some? && Valid(connector, stored.value) && stored.value.kind == Relative ==>
              r.window.end == r.window.latest && r.window.days == stored.value.days.value && !r.window.clamped
    ensures stored.Some? && Valid(connector, stored.value) && stored.value.kind == Absolute ==>
              AnswersPick(connector, stored.value.start.value, stored.value.end.value, r.window)
  {
    var latest := today - connector.freshnessLagDays;
    var earliest := latest - (connector.maxWindowDays - 1);
    match stored
    case None => Absent
    case Some(Stored(Relative, None, _, _, _)) => ShapeViolation
    case Some(Stored(Relative, Some(days), _, _, on)) =>
      Resolved(Window(on, Relative, latest - (days - 1), latest, days, false, earliest, latest))
    case Some(Stored(Absolute, _, Some(start), Some(end), on)) =>
      Resolved(ResolvePick(connector, start, end, on, latest))
    case Some(Stored(Absolute, _, _, _, _)) => ShapeViolation
  }

  function WindowFor(connector: Connector, row: Stored, today: int): Window
    requires WellShaped(row)
  {
    Resolve(connector, Some(row), today).window
  }

  /** The resolved window keeps to the bounds exactly when a preset is within the cap, and when a pair is in
      order or not yet aged out. */
  lemma InBoundsIff(connector: Connector, row: Stored, today: int)
    requires connector.maxWindowDays >= 1 && WellShaped(row)
    ensures
      var w := WindowFor(connector, row, today);
      InBounds(connector, w) <==>
      if row.kind == Relative then 1 <= row.days.value <= connector.maxWindowDays
      else row.start.value <= row.end.value || row.end.value >= w.earliest
  {
  }

  // ----- two readings ----------------------------------------------------------------------

  function AsAbsolute(w: Window): Stored {
    Stored(Absolute, None, Some(w.start), Some(w.end), w.effectivelyOn)
  }

  /** Storing what was resolved and resolving it again the same day changes nothing. */
  lemma ResolveTwice(connector: Connector, row: Stored, today: int)
    requires Valid(connector, row)
    ensures
      var w := WindowFor(connector, row, today);
      WindowFor(connector, AsAbsolute(w), today) == w.(kind := Absolute, clamped := false)
  {
    InBoundsIff(connector, row, today);
  }

  /** As days pass neither end of the window moves back, through every change of case. */
  lemma NeverMovesBack(connector: Connector, row: Stored, today: int, later: int)
    requires Valid(connector, row) && today <= later
    ensures WindowFor(connector, row, today).start <= WindowFor(connector, row, later).start
    ensures WindowFor(connector, row, today).end <= WindowFor(connector, row, later).end
  {
  }

  /** In the end a pick is a fixed number of days kept at the ceiling: from the day it ages out it moves on
      with the connector, a day for a day. */
  lemma AgedOutFollows(connector: Connector, row: Stored, today: int, later: int)
    requires Valid(connector, row) && row.kind == Absolute && today <= later
    requires row.end.value < WindowFor(connector, row, today).earliest
    ensures
      var w, v := WindowFor(connector, row, today), WindowFor(connector, row, later);
      v.days == w.days && v.start - w.start == v.end - w.end == later - today
  {
  }
}
