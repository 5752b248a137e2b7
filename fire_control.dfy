/** The ship's fire cooldown: a two-state machine over the fields
    `can_shoot` and `shoot_time`, driven by millisecond ticks. */
module FireControl {

  /** Milliseconds that must have passed, strictly, before the next shot. */
  const COOLDOWN_MS := 500

  /** `Ready` is `can_shoot == True`; `Cooling(since)` is `can_shoot == False`
      with `shoot_time == since`. */
  datatype Trigger = Ready | Cooling(since: int)

  /** The outcome of one frame: the new trigger state and whether a laser
      was spawned. */
  datatype Shot = Shot(trigger: Trigger, fired: bool)

  /** `Ship._laser_timer`: a cooling trigger becomes ready once more than the
      cooldown has passed; a ready trigger is left alone. */
  function LaserTimer(t: Trigger, now: int): (r: Trigger)
    ensures r.Ready? <==> t.Ready? || now - t.since > COOLDOWN_MS
    ensures r.Cooling? ==> r == t
  {
    match t
    case Ready => Ready
    case Cooling(since) => if now - since > COOLDOWN_MS then Ready else t
  }

  /** `Ship._laser_shoot`: fires exactly when the button is held and the
      trigger is ready, and then starts cooling from `now`. */
  function LaserShoot(t: Trigger, now: int, pressed: bool): (r: Shot)
    ensures r.fired <==> pressed && t.Ready?
    ensures r.fired ==> r.trigger == Cooling(now)
    ensures !r.fired ==> r.trigger == t
  {
    if pressed && t.Ready? then Shot(Cooling(now), true) else Shot(t, false)
  }

  /** The first two steps of `Ship.update`: the timer runs, then the shot. */
  function FireStep(t: Trigger, now: int, pressed: bool): (r: Shot)
    ensures r.fired <==> pressed && (t.Ready? || now - t.since > COOLDOWN_MS)
    ensures r.fired ==> r.trigger == Cooling(now)
    ensures !r.fired ==> r.trigger == LaserTimer(t, now)
  {
    LaserShoot(LaserTimer(t, now), now, pressed)
  }

  /** One frame's view of the inputs the trigger depends on. */
  datatype Tick = Tick(now: int, pressed: bool)

  predicate Nondecreasing(ticks: seq<Tick>) {
    forall i, j :: 0 <= i <= j < |ticks| ==> ticks[i].now <= ticks[j].now
  }

  /** The ticks at which lasers are spawned over a run of frames. */
  function FireTimes(t: Trigger, ticks: seq<Tick>): seq<int>
    decreases |ticks|
  {
    if ticks == [] then []
    else
      var r := FireStep(t, ticks[0].now, ticks[0].pressed);
      (if r.fired then [ticks[0].now] else []) + FireTimes(r.trigger, ticks[1..])
  }

  lemma TailNondecreasing(ticks: seq<Tick>)
    requires Nondecreasing(ticks) && ticks != []
    ensures Nondecreasing(ticks[1..])
  {
    forall i, j | 0 <= i <= j < |ticks[1..]| ensures ticks[1..][i].now <= ticks[1..][j].now {
      assert ticks[1..][i] == ticks[i + 1] && ticks[1..][j] == ticks[j + 1];
    }
  }

  /** When the clock does not go backwards, no shot comes before the first
      frame's tick. */
  lemma {:induction false} FireTimesNotEarly(t: Trigger, ticks: seq<Tick>)
    requires Nondecreasing(ticks)
    ensures forall x :: x in FireTimes(t, ticks) ==> ticks[0].now <= x
    decreases |ticks|
  {
    if ticks != [] {
      var r := FireStep(t, ticks[0].now, ticks[0].pressed);
      TailNondecreasing(ticks);
      FireTimesNotEarly(r.trigger, ticks[1..]);
      if ticks[1..] != [] {
        assert ticks[1..][0] == ticks[1];
      }
    }
  }

  /** Every shot time is the tick of a frame in which the button was held. */
  lemma {:induction false} FireTimesArePressedTicks(t: Trigger, ticks: seq<Tick>)
    ensures forall x :: x in FireTimes(t, ticks) ==>
      exists i :: 0 <= i < |ticks| && ticks[i].now == x && ticks[i].pressed
    decreases |ticks|
  {
    if ticks != [] {
      var r := FireStep(t, ticks[0].now, ticks[0].pressed);
      FireTimesArePressedTicks(r.trigger, ticks[1..]);
      forall x | x in FireTimes(t, ticks)
        ensures exists i :: 0 <= i < |ticks| && ticks[i].now == x && ticks[i].pressed
      {
        if x in FireTimes(r.trigger, ticks[1..]) {
          var i :| 0 <= i < |ticks[1..]| && ticks[1..][i].now == x && ticks[1..][i].pressed;
          assert ticks[i + 1] == ticks[1..][i];
        } else {
          assert r.fired && x == ticks[0].now;
        }
      }
    }
  }

  /** While cooling from `since`, the next shot comes more than the cooldown
      after `since`. */
  lemma {:induction false} FirstShotAfterCooldown(since: int, ticks: seq<Tick>)
    requires Nondecreasing(ticks)
    requires FireTimes(Cooling(since), ticks) != []
    ensures FireTimes(Cooling(since), ticks)[0] - since > COOLDOWN_MS
    decreases |ticks|
  {
    var r := FireStep(Cooling(since), ticks[0].now, ticks[0].pressed);
    if !r.fired {
      TailNondecreasing(ticks);
      if r.trigger.Cooling? {
        FirstShotAfterCooldown(since, ticks[1..]);
      } else {
        FireTimesNotEarly(r.trigger, ticks[1..]);
        assert ticks[1..][0] == ticks[1];
        assert FireTimes(Cooling(since), ticks)[0] in FireTimes(r.trigger, ticks[1..]);
      }
    }
  }

  /** Consecutive entries more than the cooldown apart. */
  predicate Spaced(f: seq<int>) {
    forall i :: 0 <= i < |f| - 1 ==> f[i + 1] - f[i] > COOLDOWN_MS
  }

  lemma ConsSpaced(x: int, f: seq<int>)
    requires Spaced(f) && (f != [] ==> f[0] - x > COOLDOWN_MS)
    ensures Spaced([x] + f)
  {
    var g := [x] + f;
    forall i | 0 <= i < |g| - 1 ensures g[i + 1] - g[i] > COOLDOWN_MS {
      if i > 0 {
        assert g[i] == f[i - 1] && g[i + 1] == f[i];
      }
    }
  }

  /** With the clock never going backwards, consecutive shots are more than
      the cooldown apart. */
  lemma {:induction false} FireTimesSpaced(t: Trigger, ticks: seq<Tick>)
    requires Nondecreasing(ticks)
    ensures Spaced(FireTimes(t, ticks))
    decreases |ticks|
  {
    if ticks != [] {
      var r := FireStep(t, ticks[0].now, ticks[0].pressed);
      var rest := FireTimes(r.trigger, ticks[1..]);
      TailNondecreasing(ticks);
      FireTimesSpaced(r.trigger, ticks[1..]);
      if r.fired {
        if rest != [] {
          FirstShotAfterCooldown(ticks[0].now, ticks[1..]);
        }
        ConsSpaced(ticks[0].now, rest);
      } else {
        assert FireTimes(t, ticks) == rest;
      }
    }
  }

  /** Holding the button at ticks 0, 100, 499 and 501 spawns exactly two
      lasers, at 0 and at 501: at 501 the timer clears the cooldown before
      the shot is checked in the same frame. */
  lemma HeldButtonTrace()
    ensures FireTimes(Ready, [Tick(0, true), Tick(100, true), Tick(499, true), Tick(501, true)]) == [0, 501]
  {
    var ticks := [Tick(0, true), Tick(100, true), Tick(499, true), Tick(501, true)];
    assert FireTimes(Cooling(0), ticks[3..]) == [501];
    assert FireTimes(Cooling(0), ticks[2..]) == [501];
    assert FireTimes(Cooling(0), ticks[1..]) == [501];
  }

  /** The cooldown boundary is strict: exactly 500 ms after a shot the ship
      still cannot fire, 501 ms after it can. */
  lemma CooldownIsStrict(since: int)
    ensures !FireStep(Cooling(since), since + COOLDOWN_MS, true).fired
    ensures FireStep(Cooling(since), since + COOLDOWN_MS + 1, true).fired
  {
  }
}
