/**
 * Sequences of events driving the bubble game, as the host's two timers, the
 * tap handler and the Restart button deliver them, and the properties that
 * hold along any such sequence.
 */
module GameRuns {
  import opened BubbleGame

  datatype Event = CountdownTick | SpawnTick(bubble: Bubble) | TapAt(point: Point) | RestartPressed

  /** One event applied to the state. Apart from a restart, an event moves the
      clock down by at most one second and the score up by at most one point. */
  function Step(s: GameState, e: Event): (r: GameState)
    ensures Valid(s) ==> Valid(r)
    ensures !e.RestartPressed? ==> r.score == s.score || r.score == s.score + 1
    ensures !e.RestartPressed? ==> r.timeLeft == s.timeLeft || r.timeLeft == s.timeLeft - 1
    ensures !e.RestartPressed? && s.isGameOver ==> r.isGameOver
  {
    match e
    case CountdownTick => Tick(s)
    case SpawnTick(b) => Spawn(s, b)
    case TapAt(p) => Tap(s, p)
    case RestartPressed => Restart(s)
  }

  /** The events applied in order. */
  function Run(s: GameState, es: seq<Event>): (r: GameState)
    ensures Valid(s) ==> Valid(r)
    decreases |es|
  {
    if |es| == 0 then s else Run(Step(s, es[0]), es[1..])
  }

  predicate RestartFree(es: seq<Event>) {
    forall i :: 0 <= i < |es| ==> !es[i].RestartPressed?
  }

  /** The number of spawn ticks among the events. */
  function SpawnCount(es: seq<Event>): nat
    decreases |es|
  {
    if |es| == 0 then 0 else (if es[0].SpawnTick? then 1 else 0) + SpawnCount(es[1..])
  }

  /** `n` consecutive countdown ticks and nothing else. */
  function Ticks(n: nat): (es: seq<Event>)
    ensures |es| == n && forall i :: 0 <= i < n ==> es[i] == CountdownTick
  {
    seq(n, _ => CountdownTick)
  }

  /** Without a restart the clock never goes up, the score never goes down,
      and a finished game stays finished. */
  lemma {:induction false} RunMonotone(s: GameState, es: seq<Event>)
    requires RestartFree(es)
    ensures Run(s, es).timeLeft <= s.timeLeft
    ensures Run(s, es).score >= s.score
    ensures s.isGameOver ==> Run(s, es).isGameOver
    decreases |es|
  {
    if |es| != 0 {
      RunMonotone(Step(s, es[0]), es[1..]);
    }
  }

  /** Without a restart, every point scored took at least one bubble off the
      field, and bubbles only arrive through spawn ticks. */
  lemma {:induction false} BubbleAccounting(s: GameState, es: seq<Event>)
    requires RestartFree(es)
    ensures |Run(s, es).bubbles| + (Run(s, es).score - s.score) <= |s.bubbles| + SpawnCount(es)
    decreases |es|
  {
    if |es| != 0 {
      var t := Step(s, es[0]);
      BubbleAccounting(t, es[1..]);
      match es[0]
      case CountdownTick =>
      case SpawnTick(b) =>
      case TapAt(p) =>
    }
  }

  /** Once the game is over only a restart brings it back: ticks and spawns
      do nothing, and the clock stays at 0. */
  lemma {:induction false} GameOverIsFinal(s: GameState, es: seq<Event>)
    requires Valid(s) && s.isGameOver && RestartFree(es)
    ensures Run(s, es).isGameOver && Run(s, es).timeLeft == 0
    ensures |Run(s, es).bubbles| <= |s.bubbles|
    ensures forall b :: b in Run(s, es).bubbles ==> b in s.bubbles
    decreases |es|
  {
    if |es| != 0 {
      assert forall b :: b in Step(s, es[0]).bubbles ==> b in s.bubbles;
      GameOverIsFinal(Step(s, es[0]), es[1..]);
    }
  }

  /** `n` countdown ticks lower the clock by `n`, stopping at 0, and end the
      game exactly when the clock has run out; bubbles and score are kept. */
  lemma {:induction false} Countdown(s: GameState, n: nat)
    requires Valid(s)
    ensures Run(s, Ticks(n)) == s.(timeLeft := if n < s.timeLeft then s.timeLeft - n else 0,
                                   isGameOver := s.timeLeft <= n)
    decreases n
  {
    if n != 0 {
      assert Ticks(n)[1..] == Ticks(n - 1);
      Countdown(Tick(s), n - 1);
    }
  }

  /** A fresh game left alone for thirty ticks is over with no points, and
      one tick earlier it was still running. */
  lemma ThirtyTicksEndTheGame()
    ensures Run(Initial(), Ticks(InitialTime)) == GameState([], 0, 0, true)
    ensures !Run(Initial(), Ticks(InitialTime - 1)).isGameOver
  {
    Countdown(Initial(), InitialTime);
    Countdown(Initial(), InitialTime - 1);
  }

  /** A bubble of radius 50 at (100, 100), tapped at (120, 120), is popped
      and scores a point. */
  lemma PopScenario(c: Color)
    ensures Run(Initial(), [SpawnTick(Bubble(7, Point(100.0, 100.0), 50.0, c)), TapAt(Point(120.0, 120.0))])
            == GameState([], 1, InitialTime, false)
  {
    var b := Bubble(7, Point(100.0, 100.0), 50.0, c);
    var es := [SpawnTick(b), TapAt(Point(120.0, 120.0))];
    var s1 := Spawn(Initial(), b);
    assert s1.bubbles == [b];
    assert IsLastHit(s1.bubbles, Point(120.0, 120.0), 0);
    TapRemovesLastHit(s1, Point(120.0, 120.0), 0);
    assert RemoveId([b], 7) == [];
    assert es[1..] == [TapAt(Point(120.0, 120.0))];
    assert Run(Initial(), es) == Run(s1, es[1..]);
    assert Run(s1, es[1..]) == Run(Tap(s1, Point(120.0, 120.0)), []);
  }
}
