/**
 * The stopwatch: an elapsed time in milliseconds and a running flag, changed
 * by the Start, Stop and Reset buttons and by a one-second tick that the
 * host's timer delivers while the watch is running.
 */
module Stopwatch {
  import opened Wrappers
  import TimeFormat

  /** Milliseconds added by one tick. */
  const TickMillis: int := 1000

  datatype Watch = Watch(time: int, isRunning: bool)

  /** The time shown is a whole number of seconds and never negative. */
  predicate Valid(w: Watch) {
    0 <= w.time && w.time % TickMillis == 0
  }

  function Initial(): (w: Watch)
    ensures Valid(w) && w.time == 0 && !w.isRunning
  {
    Watch(0, false)
  }

  function Start(w: Watch): (r: Watch)
    ensures r.isRunning && r.time == w.time
  {
    w.(isRunning := true)
  }

  function Stop(w: Watch): (r: Watch)
    ensures !r.isRunning && r.time == w.time
  {
    w.(isRunning := false)
  }

  /** Reset stops the watch and clears the time, whatever it showed. */
  function Reset(w: Watch): (r: Watch)
    ensures r == Initial()
  {
    Watch(0, false)
  }

  /** One elapsed second: a running watch gains a second, a stopped one is
      left alone. */
  function Tick(w: Watch): (r: Watch)
    ensures r.isRunning == w.isRunning
    ensures w.isRunning ==> r.time == w.time + TickMillis
    ensures !w.isRunning ==> r == w
    ensures Valid(w) ==> Valid(r)
  {
    if w.isRunning then w.(time := w.time + TickMillis) else w
  }

  datatype Press = StartPressed | StopPressed | ResetPressed | TimerTick

  function Step(w: Watch, e: Press): (r: Watch)
    ensures Valid(w) ==> Valid(r)
    ensures !e.ResetPressed? ==> w.time <= r.time
  {
    match e
    case StartPressed => Start(w)
    case StopPressed => Stop(w)
    case ResetPressed => Reset(w)
    case TimerTick => Tick(w)
  }

  function Run(w: Watch, es: seq<Press>): (r: Watch)
    ensures Valid(w) ==> Valid(r)
    decreases |es|
  {
    if |es| == 0 then w else Run(Step(w, es[0]), es[1..])
  }

  /** `n` ticks of the timer and nothing else. */
  function Ticks(n: nat): (es: seq<Press>)
    ensures |es| == n && forall i :: 0 <= i < n ==> es[i] == TimerTick
  {
    seq(n, _ => TimerTick)
  }

  /** While running, `n` ticks add exactly `n` seconds; while stopped they add
      nothing. */
  lemma {:induction false} RunTicks(w: Watch, n: nat)
    ensures Run(w, Ticks(n)) == if w.isRunning then w.(time := w.time + n * TickMillis) else w
    decreases n
  {
    if n != 0 {
      assert Ticks(n)[1..] == Ticks(n - 1);
      RunTicks(Tick(w), n - 1);
    }
  }

  /** Without a reset the elapsed time never goes back. */
  lemma {:induction false} RunMonotone(w: Watch, es: seq<Press>)
    requires forall i :: 0 <= i < |es| ==> !es[i].ResetPressed?
    ensures w.time <= Run(w, es).time
    decreases |es|
  {
    if |es| != 0 {
      RunMonotone(Step(w, es[0]), es[1..]);
    }
  }

  /** What the display reads back after one tick: one more second exactly when
      the watch is running. */
  lemma TickDisplay(w: Watch)
    requires Valid(w)
    ensures TimeFormat.ParseTime(TimeFormat.FormatTime(Tick(w).time))
            == Some(w.time / TickMillis + if w.isRunning then 1 else 0)
  {
    TimeFormat.ParseFormatTime(Tick(w).time);
    assert (w.time + TickMillis) / TickMillis == w.time / TickMillis + 1;
  }
}
