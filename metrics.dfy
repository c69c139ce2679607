/**
 * The consumer loop's state machine with the socket, the poller and the clock
 * replaced by a sequence of events.
 *
 * Each iteration either receives a message (whose send time gives a latency
 * sample), times out, or wakes up with no input; then it compares the last
 * clock reading with the second of the last report and, when a new whole
 * second has started, reports the window and starts a new one.
 */
module Metrics {
  import opened Wire
  import opened Results

  const MICROS_PER_SECOND: int := 1_000_000

  /**
   * The loop's variables: messages received so far, the count at the last
   * report, the second of the last report, the latency sum of the window, and
   * the last clock reading `tv2`.
   */
  datatype Window = Window(count: nat, lastItems: nat, lastTv: int, runningDiff: int, tv2: TimeVal)

  /** What one poll of the inbound socket yields. */
  datatype Event =
    | Arrival(frames: seq<Frame>, now: TimeVal)  // a message arrived; `now` is read after decoding it
    | Timeout(now: TimeVal)                      // the 100 ms poll timed out; `now` is read then
    | NoInput                                    // the poll returned without input on the socket

  /** One status line: messages in the window, its length in seconds, their latency sum in microseconds. */
  datatype Report = Report(items: nat, elapsed: nat, latencySum: int)

  datatype Outcome =
    | Continue(window: Window, report: Option<Report>)
    | Crash(error: DecodeError)  // the decoding error escapes the loop

  /** Reachable states: the window never counts more than was received, and an empty window has no latency. */
  ghost predicate Inv(w: Window)
  {
    w.lastItems <= w.count && (w.count == w.lastItems ==> w.runningDiff == 0)
  }

  /**
   * The state the loop starts in: `start` is `std::time` at start-up and
   * `unset` whatever the not yet assigned `tv2` holds.
   */
  function Initial(start: int, unset: TimeVal): (w: Window)
    ensures Inv(w) && w.count == 0 && w.lastTv == start
  {
    Window(0, 0, start, 0, unset)
  }

  /** A reading in microseconds since the epoch. */
  function Micros(sec: int64, usec: int64): int
  {
    sec as int * MICROS_PER_SECOND + usec as int
  }

  /**
   * The latency sample of message `m` received at `now`, in microseconds; with
   * valid microsecond fields it is never negative for a message received no
   * earlier than it was sent.
   */
  function Latency(m: Msg, now: TimeVal): (d: int)
    ensures d == Micros(now.sec, now.usec) - Micros(m.sec, m.usec)
    ensures (ValidTime(now) && 0 <= m.usec < 1_000_000 &&
             (m.sec < now.sec || (m.sec == now.sec && m.usec <= now.usec))) ==> d >= 0
  {
    assert m.sec < now.sec ==> (now.sec as int - m.sec as int) * MICROS_PER_SECOND >= MICROS_PER_SECOND;
    (now.sec as int - m.sec as int) * MICROS_PER_SECOND + (now.usec as int - m.usec as int)
  }

  /** The latency an event adds to the window: that of the message it brings, if any. */
  function Sample(ev: Event): int
  {
    if ev.Arrival? && Decode(ev.frames).Ok? then Latency(Decode(ev.frames).value, ev.now) else 0
  }

  /** The receive half of an iteration. */
  function Receive(w: Window, ev: Event): (r: Result<Window, DecodeError>)
    ensures r.Err? <==> ev.Arrival? && Decode(ev.frames).Err?
    ensures r.Err? ==> r.error == Decode(ev.frames).error
    ensures r.Ok? ==> r.value.lastItems == w.lastItems && r.value.lastTv == w.lastTv
    ensures r.Ok? ==> r.value.count == w.count + (if ev.Arrival? then 1 else 0)
    ensures r.Ok? && ev.Arrival? ==>
              r.value.runningDiff == w.runningDiff + Latency(Decode(ev.frames).value, ev.now) &&
              r.value.tv2 == ev.now
    ensures r.Ok? && ev.Timeout? ==> r.value == w.(tv2 := ev.now)
    ensures ev.NoInput? ==> r == Ok(w)
  {
    match ev
    case Arrival(frames, now) =>
      (match Decode(frames)
       case Err(e) => Err(e)
       case Ok(m) => Ok(w.(count := w.count + 1, runningDiff := w.runningDiff + Latency(m, now), tv2 := now)))
    case Timeout(now) => Ok(w.(tv2 := now))
    case NoInput => Ok(w)
  }

  /** The window check that ends every iteration. */
  function Check(w: Window): (c: (Window, Option<Report>))
    requires w.lastItems <= w.count
    ensures c.1.Some? <==> w.lastTv < w.tv2.sec as int
    ensures c.1.None? ==> c.0 == w
    ensures c.1.Some? ==>
              c.1.value == Report(w.count - w.lastItems, w.tv2.sec as int - w.lastTv, w.runningDiff) &&
              c.1.value.elapsed > 0
    ensures c.1.Some? ==>
              c.0 == w.(lastItems := w.count, lastTv := w.tv2.sec as int, runningDiff := 0)
    ensures c.0.lastItems <= c.0.count && c.0.count == w.count && c.0.tv2 == w.tv2
  {
    var timeDiff := w.tv2.sec as int - w.lastTv;
    if 0 < timeDiff then
      (w.(lastItems := w.count, lastTv := w.tv2.sec as int, runningDiff := 0),
       Some(Report(w.count - w.lastItems, timeDiff, w.runningDiff)))
    else
      (w, None)
  }

  /** One iteration of the loop. */
  function Next(w: Window, ev: Event): (o: Outcome)
    requires Inv(w)
    // a message that cannot be decoded ends the loop, and nothing else does
    ensures o.Crash? <==> ev.Arrival? && Decode(ev.frames).Err?
    // the invariant is kept and the report second never goes back
    ensures o.Continue? ==> Inv(o.window) && o.window.lastTv >= w.lastTv
    // each received message counts once; tv2 is refreshed except on a poll without input
    ensures o.Continue? ==> o.window.count == w.count + (if ev.Arrival? then 1 else 0)
    ensures o.Continue? ==> o.window.tv2 == if ev.NoInput? then w.tv2 else ev.now
    // a report is made exactly when tv2 is in a later second than the last report
    ensures o.Continue? ==> (o.report.Some? <==> o.window.tv2.sec as int > w.lastTv)
    // without a report the window only accumulates
    ensures o.Continue? && o.report.None? ==>
              o.window.lastItems == w.lastItems && o.window.lastTv == w.lastTv &&
              o.window.runningDiff == w.runningDiff + Sample(ev)
    // a report covers the messages since the last one and resets the window
    ensures o.Continue? && o.report.Some? ==>
              o.report.value == Report(o.window.count - w.lastItems, o.window.tv2.sec as int - w.lastTv,
                                       w.runningDiff + Sample(ev)) &&
              o.report.value.elapsed > 0 &&
              o.window.runningDiff == 0 && o.window.lastItems == o.window.count &&
              o.window.lastTv == o.window.tv2.sec as int
    // an empty window has a zero latency sum (the program then divides zero by zero)
    ensures o.Continue? && o.report.Some? && o.report.value.items == 0 ==> o.report.value.latencySum == 0
  {
    match Receive(w, ev)
    case Err(e) => Crash(e)
    case Ok(w') =>
      var (w'', r) := Check(w');
      Continue(w'', r)
  }

  /** Messages per second of a report. */
  function ItemsPerSecond(r: Report): (ips: real)
    requires r.elapsed > 0
    ensures ips * r.elapsed as real == r.items as real
    ensures ips >= 0.0
  {
    r.items as real / r.elapsed as real
  }

  /** Mean latency of a report; the program divides zero by zero when the window is empty. */
  function MeanLatency(r: Report): (mean: Option<real>)
    ensures mean.Some? <==> r.items > 0
    ensures mean.Some? ==> mean.value * r.items as real == r.latencySum as real
  {
    if r.items == 0 then None else Some(r.latencySum as real / r.items as real)
  }

  // ---------------------------------------------------------------------------
  // Runs of the loop

  /** Where a run of the loop is: its state, the reports so far, and the error that ended it, if any. */
  datatype Trace = Trace(window: Window, reports: seq<Report>, error: Option<DecodeError>)

  /** A run extended by the outcome of one more iteration. */
  function Extend(t: Trace, o: Outcome): Trace
  {
    match o
    case Crash(e) => Trace(t.window, t.reports, Some(e))
    case Continue(w', r) => Trace(w', t.reports + (if r.Some? then [r.value] else []), None)
  }

  /** The loop run from `w` over the events `evs`, stopping at the first message it cannot decode. */
  function RunEvents(w: Window, evs: seq<Event>): (t: Trace)
    requires Inv(w)
    ensures Inv(t.window)
    ensures t.window.lastTv >= w.lastTv && t.window.count >= w.count
  {
    if evs == [] then Trace(w, [], None)
    else
      var t := RunEvents(w, evs[..|evs| - 1]);
      if t.error.Some? then t else Extend(t, Next(t.window, evs[|evs| - 1]))
  }

  /** One more iteration of a run that has not ended. */
  lemma RunSnoc(w: Window, evs: seq<Event>, ev: Event)
    requires Inv(w) && RunEvents(w, evs).error.None?
    ensures RunEvents(w, evs + [ev]) == Extend(RunEvents(w, evs), Next(RunEvents(w, evs).window, ev))
  {
    assert (evs + [ev])[..|evs|] == evs;
  }

  /** Once the loop has ended, later events change nothing. */
  lemma {:induction false} RunAfterCrash(w: Window, evs: seq<Event>, i: nat)
    requires Inv(w) && i <= |evs|
    requires RunEvents(w, evs[..i]).error.Some?
    ensures RunEvents(w, evs) == RunEvents(w, evs[..i])
    decreases |evs| - i
  {
    if i < |evs| {
      assert evs[..i + 1][..i] == evs[..i];
      RunAfterCrash(w, evs, i + 1);
    } else {
      assert evs[..i] == evs;
    }
  }

  function TotalItems(rs: seq<Report>): nat
  {
    if rs == [] then 0 else TotalItems(rs[..|rs| - 1]) + rs[|rs| - 1].items
  }

  /**
   * Every message received is reported exactly once: the reports of a run
   * account for all the messages up to the last report.
   */
  lemma {:induction false} ReportsAccountForAll(w: Window, evs: seq<Event>)
    requires Inv(w)
    ensures var t := RunEvents(w, evs);
            w.lastItems + TotalItems(t.reports) == t.window.lastItems
  {
    if evs != [] {
      var t := RunEvents(w, evs[..|evs| - 1]);
      ReportsAccountForAll(w, evs[..|evs| - 1]);
      if t.error.None? {
        match Next(t.window, evs[|evs| - 1])
        case Crash(_) =>
        case Continue(w', r) =>
          var rs := t.reports + (if r.Some? then [r.value] else []);
          if r.Some? {
            assert rs[..|rs| - 1] == t.reports;
          } else {
            assert rs == t.reports;
          }
      }
    }
  }

  /** The messages of `evs` all decode and arrive no later than second `sec`. */
  ghost predicate ArrivalsUntil(evs: seq<Event>, sec: int)
  {
    forall i :: 0 <= i < |evs| ==>
      evs[i].Arrival? && Decode(evs[i].frames).Ok? && evs[i].now.sec as int <= sec
  }

  function SampleSum(evs: seq<Event>): int
  {
    if evs == [] then 0 else SampleSum(evs[..|evs| - 1]) + Sample(evs[|evs| - 1])
  }

  /** Messages that arrive within the second of the last report only accumulate. */
  lemma {:induction false} ArrivalsAccumulate(w: Window, evs: seq<Event>)
    requires Inv(w) && ArrivalsUntil(evs, w.lastTv)
    ensures var t := RunEvents(w, evs);
            t.error.None? && t.reports == [] &&
            t.window.count == w.count + |evs| && t.window.lastItems == w.lastItems &&
            t.window.lastTv == w.lastTv && t.window.runningDiff == w.runningDiff + SampleSum(evs)
  {
    if evs != [] {
      var prefix := evs[..|evs| - 1];
      assert ArrivalsUntil(prefix, w.lastTv) by {
        forall i | 0 <= i < |prefix|
          ensures prefix[i].Arrival? && Decode(prefix[i].frames).Ok? && prefix[i].now.sec as int <= w.lastTv
        {
          assert prefix[i] == evs[i];
        }
      }
      ArrivalsAccumulate(w, prefix);
      assert evs[|evs| - 1].Arrival?;
    }
  }

  /**
   * A window that starts empty, receives `evs` within its second and is then
   * closed by a timeout in a later second is reported once, with all of those
   * messages and their latencies: 1000 messages and a timeout one second
   * later report 1000 items per second.
   */
  lemma WindowReport(w: Window, evs: seq<Event>, now: TimeVal)
    requires Inv(w) && w.count == w.lastItems
    requires ArrivalsUntil(evs, w.lastTv)
    requires now.sec as int > w.lastTv
    ensures var t := RunEvents(w, evs + [Timeout(now)]);
            t.error.None? && t.reports == [Report(|evs|, now.sec as int - w.lastTv, SampleSum(evs))]
    ensures now.sec as int == w.lastTv + 1 ==>
              ItemsPerSecond(Report(|evs|, now.sec as int - w.lastTv, SampleSum(evs))) == |evs| as real
  {
    var all := evs + [Timeout(now)];
    ArrivalsAccumulate(w, evs);
    var t := RunEvents(w, evs);
    assert all[..|all| - 1] == evs && all[|all| - 1] == Timeout(now);
    var o := Next(t.window, Timeout(now));
    assert o.Continue? && o.report.Some?;
    assert o.report.value == Report(|evs|, now.sec as int - w.lastTv, SampleSum(evs));
    assert RunEvents(w, all) == Trace(o.window, [] + [o.report.value], None);
  }
}
