/**
 * The bubble-popping game: its state record, the spawned bubbles, and the four
 * transitions that act on the state (countdown tick, spawn, tap, restart).
 *
 * Randomness and timing are not part of the rules: a spawn receives the random
 * draws as parameters, and each elapsed second is one call of `Tick`.
 * Coordinates and radii are real numbers.
 */
module BubbleGame {
  import opened Wrappers

  /** Seconds on the clock of a fresh game. */
  const InitialTime: int := 30

  /** Spawn area and radius range, as scaled from draws in [0, 1). */
  const FieldWidth: real := 800.0
  const FieldHeight: real := 1600.0
  const MinRadius: real := 40.0
  const RadiusSpan: real := 60.0

  /** Alpha channel of every spawned bubble. */
  const BubbleAlpha: int := 220

  /** A colour is carried along and drawn; the rules never inspect it. */
  datatype Color = Color(red: int, green: int, blue: int, alpha: int)

  datatype Point = Point(x: real, y: real)

  datatype Bubble = Bubble(id: int, position: Point, radius: real, color: Color)

  /** Bubbles are kept in spawn order: the last one is drawn on top. */
  datatype GameState = GameState(bubbles: seq<Bubble>, score: int, timeLeft: int, isGameOver: bool)

  /** The states the game can reach: the clock stays within [0, InitialTime],
      and the game is over exactly when the clock shows 0. */
  predicate Valid(s: GameState) {
    && 0 <= s.timeLeft <= InitialTime
    && (s.isGameOver <==> s.timeLeft == 0)
    && 0 <= s.score
  }

  /** The state of a fresh game, also the one a restart installs. */
  function Initial(): (s: GameState)
    ensures Valid(s) && !s.isGameOver
    ensures s.bubbles == [] && s.score == 0 && s.timeLeft == InitialTime
  {
    GameState([], 0, InitialTime, false)
  }

  /** The Restart button of the game-over dialog: the prior state is discarded. */
  function Restart(s: GameState): (r: GameState)
    ensures r == Initial()
  {
    Initial()
  }

  /** The countdown runs while the game is not over and time is left. */
  predicate CountdownActive(s: GameState) {
    !s.isGameOver && s.timeLeft > 0
  }

  /** One elapsed second of the countdown: the clock goes down by one, and the
      game ends in the same step in which the clock reaches 0. */
  function Tick(s: GameState): (r: GameState)
    ensures r.bubbles == s.bubbles && r.score == s.score
    ensures !CountdownActive(s) ==> r == s
    ensures CountdownActive(s) ==> r.timeLeft == s.timeLeft - 1 && 0 <= r.timeLeft
    ensures CountdownActive(s) ==> (r.isGameOver <==> r.timeLeft == 0)
    ensures r.isGameOver ==> s.isGameOver || r.timeLeft == 0
  {
    if CountdownActive(s) then
      var t := s.timeLeft - 1;
      s.(timeLeft := t, isGameOver := t == 0)
    else
      s
  }

  /** The bubble built from one round of random draws: `fx`, `fy`, `fr` are
      uniform draws in [0, 1), the channels are draws in [0, 256). */
  function NewBubble(id: int, fx: real, fy: real, fr: real, red: int, green: int, blue: int): (b: Bubble)
    requires 0.0 <= fx < 1.0 && 0.0 <= fy < 1.0 && 0.0 <= fr < 1.0
    requires 0 <= red < 256 && 0 <= green < 256 && 0 <= blue < 256
    ensures b.id == id
    ensures 0.0 <= b.position.x < FieldWidth && 0.0 <= b.position.y < FieldHeight
    ensures MinRadius <= b.radius < MinRadius + RadiusSpan
    ensures b.color == Color(red, green, blue, BubbleAlpha)
  {
    Bubble(id, Point(fx * FieldWidth, fy * FieldHeight), fr * RadiusSpan + MinRadius,
           Color(red, green, blue, BubbleAlpha))
  }

  /** One spawn tick: while the game is running the new bubble goes on top of
      the stack, after every earlier bubble; once it is over nothing changes. */
  function Spawn(s: GameState, b: Bubble): (r: GameState)
    ensures s.isGameOver ==> r == s
    ensures !s.isGameOver ==> |r.bubbles| == |s.bubbles| + 1
    ensures !s.isGameOver ==> r.bubbles[..|s.bubbles|] == s.bubbles && r.bubbles[|s.bubbles|] == b
    ensures r.score == s.score && r.timeLeft == s.timeLeft && r.isGameOver == s.isGameOver
  {
    if s.isGameOver then s else s.(bubbles := s.bubbles + [b])
  }

  /** A tap at `p` hits `b` when its distance to the centre is strictly less
      than the radius. Comparing squares is exact because a distance is never
      negative (see `HitMeansInsideRadius`). */
  predicate Hit(b: Bubble, p: Point) {
    var dx := p.x - b.position.x;
    var dy := p.y - b.position.y;
    0.0 < b.radius && dx * dx + dy * dy < b.radius * b.radius
  }

  /** `i` is the last position in `bs` whose bubble the tap hits. */
  predicate IsLastHit(bs: seq<Bubble>, p: Point, i: int) {
    && 0 <= i < |bs|
    && Hit(bs[i], p)
    && forall j :: i < j < |bs| ==> !Hit(bs[j], p)
  }

  predicate HitsNone(bs: seq<Bubble>, p: Point) {
    forall j :: 0 <= j < |bs| ==> !Hit(bs[j], p)
  }

  /** The search of the tap handler: scans from the top of the stack down and
      stops at the first bubble hit. */
  function LastHit(bs: seq<Bubble>, p: Point): (r: Option<nat>)
    ensures r.Some? ==> IsLastHit(bs, p, r.value)
    ensures r.None? ==> HitsNone(bs, p)
    decreases |bs|
  {
    if |bs| == 0 then None
    else if Hit(bs[|bs| - 1], p) then Some(|bs| - 1)
    else LastHit(bs[..|bs| - 1], p)
  }

  /** The bubbles whose id differs from `id`, in their original order. */
  function RemoveId(bs: seq<Bubble>, id: int): (r: seq<Bubble>)
    ensures |r| <= |bs|
    ensures forall b :: b in r <==> b in bs && b.id != id
    ensures |r| == |bs| <==> forall i :: 0 <= i < |bs| ==> bs[i].id != id
    decreases |bs|
  {
    if |bs| == 0 then []
    else (if bs[0].id == id then [] else [bs[0]]) + RemoveId(bs[1..], id)
  }

  /** A tap: on a hit the score goes up by one and every bubble sharing the
      hit bubble's id disappears; a miss leaves the state as it was. */
  function Tap(s: GameState, p: Point): (r: GameState)
    ensures r.timeLeft == s.timeLeft && r.isGameOver == s.isGameOver
    ensures HitsNone(s.bubbles, p) ==> r == s
    ensures !HitsNone(s.bubbles, p) ==> r.score == s.score + 1 && |r.bubbles| < |s.bubbles|
    ensures forall b :: b in r.bubbles ==> b in s.bubbles
  {
    match LastHit(s.bubbles, p)
    case None => s
    case Some(i) =>
      var bs := RemoveId(s.bubbles, s.bubbles[i].id);
      assert s.bubbles[i] !in bs;
      s.(score := s.score + 1, bubbles := bs)
  }

  /** The squared comparison of `Hit` agrees with comparing the Euclidean
      distance `d` (any non-negative root of dx*dx + dy*dy) against the radius;
      in particular a tap exactly on the rim is a miss. */
  lemma HitMeansInsideRadius(b: Bubble, p: Point, d: real)
    requires 0.0 <= d
    requires d * d == (p.x - b.position.x) * (p.x - b.position.x) + (p.y - b.position.y) * (p.y - b.position.y)
    ensures Hit(b, p) <==> d < b.radius
  {
    var r := b.radius;
    assert Hit(b, p) <==> 0.0 < r && d * d < r * r;
    if 0.0 < r {
      if d < r {
        SquareStrictlyMonotone(d, r);
      } else {
        SquareMonotone(r, d);
      }
    }
  }

  lemma SquareMonotone(x: real, y: real)
    requires 0.0 <= x <= y
    ensures x * x <= y * y
  {
    assert x * x <= x * y;
    assert x * y <= y * y;
  }

  lemma SquareStrictlyMonotone(x: real, y: real)
    requires 0.0 <= x < y
    ensures x * x < y * y
  {
    calc {
      x * x;
    <= { assert x * (y - x) >= 0.0; }
      x * y;
    < { assert y * (y - x) > 0.0; }
      y * y;
    }
  }

  /** Removal by id works piecewise, so it keeps the relative order of the
      survivors. */
  lemma {:induction false} RemoveIdConcat(a: seq<Bubble>, c: seq<Bubble>, id: int)
    ensures RemoveId(a + c, id) == RemoveId(a, id) + RemoveId(c, id)
    decreases |a|
  {
    if |a| == 0 {
      assert a + c == c;
    } else {
      assert (a + c)[1..] == a[1..] + c;
      RemoveIdConcat(a[1..], c, id);
    }
  }

  /** Removing an id no bubble carries changes nothing. */
  lemma {:induction false} RemoveIdAbsent(bs: seq<Bubble>, id: int)
    requires forall i :: 0 <= i < |bs| ==> bs[i].id != id
    ensures RemoveId(bs, id) == bs
    decreases |bs|
  {
    if |bs| != 0 {
      RemoveIdAbsent(bs[1..], id);
      assert [bs[0]] + bs[1..] == bs;
    }
  }

  /** Only one position can be the last hit. */
  lemma LastHitUnique(bs: seq<Bubble>, p: Point, i: int, k: int)
    requires IsLastHit(bs, p, i) && IsLastHit(bs, p, k)
    ensures i == k
  {
  }

  /** The tap handler pops exactly the bubbles sharing the id of the last
      bubble in spawn order that the tap hits, and scores one point. */
  lemma TapRemovesLastHit(s: GameState, p: Point, i: int)
    requires IsLastHit(s.bubbles, p, i)
    ensures Tap(s, p) == s.(score := s.score + 1, bubbles := RemoveId(s.bubbles, s.bubbles[i].id))
  {
    var k := LastHit(s.bubbles, p);
    LastHitUnique(s.bubbles, p, i, k.value);
  }

  /** Of two overlapping bubbles under the tap, the later-spawned one is
      popped and the earlier one (with another id) survives. */
  lemma TapLastMatchWins(s: GameState, p: Point, i: int, j: int)
    requires 0 <= i < j && IsLastHit(s.bubbles, p, j) && Hit(s.bubbles[i], p)
    requires s.bubbles[i].id != s.bubbles[j].id
    ensures s.bubbles[i] in Tap(s, p).bubbles
    ensures s.bubbles[j] !in Tap(s, p).bubbles
  {
    TapRemovesLastHit(s, p, j);
  }

  /** Removing the id of the only bubble carrying it takes out just that one. */
  lemma RemoveIdSingle(bs: seq<Bubble>, i: int)
    requires 0 <= i < |bs|
    requires forall j :: 0 <= j < |bs| && j != i ==> bs[j].id != bs[i].id
    ensures RemoveId(bs, bs[i].id) == bs[..i] + bs[i + 1..]
  {
    var id := bs[i].id;
    var pre, post := bs[..i], bs[i + 1..];
    assert bs == pre + ([bs[i]] + post);
    assert forall j :: 0 <= j < |pre| ==> pre[j].id != id by {
      forall j | 0 <= j < |pre| ensures pre[j].id != id {
        assert pre[j] == bs[j];
      }
    }
    assert forall j :: 0 <= j < |post| ==> post[j].id != id by {
      forall j | 0 <= j < |post| ensures post[j].id != id {
        assert post[j] == bs[i + 1 + j];
      }
    }
    calc {
      RemoveId(bs, id);
      { RemoveIdConcat(pre, [bs[i]] + post, id); }
      RemoveId(pre, id) + RemoveId([bs[i]] + post, id);
      { RemoveIdConcat([bs[i]], post, id); }
      RemoveId(pre, id) + (RemoveId([bs[i]], id) + RemoveId(post, id));
      { RemoveIdAbsent(pre, id); RemoveIdAbsent(post, id); assert RemoveId([bs[i]], id) == []; }
      pre + ([] + post);
    }
    assert [] + post == post;
  }

  /** When ids happen to be distinct, a hit pops exactly the one bubble hit. */
  lemma TapDistinctIds(s: GameState, p: Point, i: int)
    requires IsLastHit(s.bubbles, p, i)
    requires forall j, k :: 0 <= j < k < |s.bubbles| ==> s.bubbles[j].id != s.bubbles[k].id
    ensures Tap(s, p).bubbles == s.bubbles[..i] + s.bubbles[i + 1..]
    ensures |Tap(s, p).bubbles| == |s.bubbles| - 1
  {
    var bs := s.bubbles;
    forall j | 0 <= j < |bs| && j != i
      ensures bs[j].id != bs[i].id
    {
      if j < i {
        assert bs[j].id != bs[i].id;
      } else {
        assert bs[i].id != bs[j].id;
      }
    }
    TapRemovesLastHit(s, p, i);
    RemoveIdSingle(bs, i);
  }
}
