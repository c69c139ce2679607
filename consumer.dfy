/**
 * The consumer thread: it owns the inbound socket and, while it runs, polls
 * it, takes each message apart and accumulates its latency. At most once per
 * second, on an iteration whose clock reading falls in a later second than the
 * last report's, it writes the window's messages per second and mean latency.
 */
module Consumer {
  import opened Wire
  import opened Results
  import opened Metrics

  class Consumer {
    var running: bool
    /** Messages received since the loop started. */
    var count: nat
    /** `count` at the last report. */
    var lastItems: nat
    /** The second of the last report. */
    var lastTv: int
    /** Latency sum, in microseconds, of the messages since the last report. */
    var runningDiff: int
    /** The last clock reading taken by the loop. */
    var tv2: TimeVal
    /** The status lines written, oldest first. */
    var reports: seq<Report>

    function State(): Window
      reads this
    {
      Window(count, lastItems, lastTv, runningDiff, tv2)
    }

    constructor ()
      ensures !running && reports == []
    {
      running := false;
      count, lastItems, lastTv, runningDiff := 0, 0, 0, 0;
      tv2 := TimeVal(0, 0);
      reports := [];
    }

    /** Asks the loop to stop after its current iteration. */
    method Terminate()
      modifies this`running
      ensures !running
    {
      running := false;
    }

    /** One iteration for the poll result `ev`; a message that cannot be decoded ends the loop with its error. */
    method Step(ev: Event) returns (error: Option<DecodeError>)
      requires Inv(State())
      modifies this`count, this`lastItems, this`lastTv, this`runningDiff, this`tv2, this`reports
      ensures Inv(State())
      ensures match Next(old(State()), ev)
              case Crash(e) => error == Some(e) && State() == old(State()) && reports == old(reports)
              case Continue(w, r) =>
                error == None && State() == w &&
                reports == old(reports) + if r.Some? then [r.value] else []
      ensures Trace(State(), reports, error) == Extend(Trace(old(State()), old(reports), None), Next(old(State()), ev))
    {
      match ev {
        case Arrival(frames, now) =>
          var decoded := Decode(frames);
          if decoded.Err? {
            return Some(decoded.error);
          }
          var sent := decoded.value;
          tv2 := now;
          runningDiff := runningDiff + Latency(sent, tv2);
          count := count + 1;
        case Timeout(now) =>
          tv2 := now;
        case NoInput =>
      }
      var timeDiff := tv2.sec as int - lastTv;
      if 0 < timeDiff {
        var items := count - lastItems;
        reports := reports + [Report(items, timeDiff, runningDiff)];
        lastItems := count;
        lastTv := tv2.sec as int;
        runningDiff := 0;
      }
      return None;
    }

    /**
     * The start of the loop: the flag is raised and the loop's variables take
     * their initial values; `start` is `std::time` at that moment and `unset`
     * the contents of `tv2` before the loop first assigns it.
     */
    method Begin(start: int, unset: TimeVal)
      modifies this
      ensures running && State() == Initial(start, unset) && reports == []
    {
      running := true;
      count, lastItems, lastTv, runningDiff, tv2 := 0, 0, start, 0, unset;
      reports := [];
    }

    /**
     * The iterations for the poll results `evs` that come before a stop
     * request is seen, stopping early at a message that cannot be decoded.
     */
    method Loop(evs: seq<Event>) returns (error: Option<DecodeError>)
      requires Inv(State()) && reports == []
      modifies this`count, this`lastItems, this`lastTv, this`runningDiff, this`tv2, this`reports
      ensures Trace(State(), reports, error) == RunEvents(old(State()), evs)
    {
      ghost var init := State();
      var i := 0;
      error := None;
      while i < |evs|
        invariant 0 <= i <= |evs| && Inv(State())
        invariant Trace(State(), reports, error) == RunEvents(init, evs[..i]) && error.None?
      {
        assert evs[..i + 1] == evs[..i] + [evs[i]];
        RunSnoc(init, evs[..i], evs[i]);
        error := Step(evs[i]);
        if error.Some? {
          RunAfterCrash(init, evs, i + 1);
          return;
        }
        i := i + 1;
      }
      assert evs[..i] == evs;
    }

    /** `operator()`: the start of the loop followed by its iterations. */
    method Run(start: int, unset: TimeVal, evs: seq<Event>) returns (error: Option<DecodeError>)
      modifies this
      ensures running
      ensures Trace(State(), reports, error) == RunEvents(Initial(start, unset), evs)
    {
      Begin(start, unset);
      error := Loop(evs);
    }
  }
}
