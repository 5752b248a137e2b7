/** The game's discrete rules as functions on a value snapshot of the world:
    meteor spawning, the ship's update (cooldown, firing, pointer snap,
    collision), the laser group's update, the meteor group's update, one
    whole frame, and the score. The classes in module Game are proved to
    change their fields exactly as these functions say. */
module Rules {
  import opened Seqs
  import opened Geometry
  import opened FireControl

  const MIN_RATE := 400
  const MAX_RATE := 600

  /** A laser: identity, rect, and the mask of the laser image. */
  datatype Laser = Laser(id: nat, rect: Rect, mask: Mask) {
    function Body(): Body { Geometry.Body(rect, mask) }
  }

  /** A meteor: identity, rect, current (rotated) mask, and the two integer
      rates drawn when it was created. */
  datatype Meteor = Meteor(id: nat, rect: Rect, mask: Mask, speed: int, rotationSpeed: int) {
    function Body(): Body { Geometry.Body(rect, mask) }
  }

  /** The images loaded once at start-up. */
  datatype Assets = Assets(ship: Image, laser: Image)

  /** The random values one timer event draws: the spawn centre, the scaled
      meteor image, and the two rates. */
  datatype SpawnDraw = SpawnDraw(x: int, y: int, image: Image, speed: int, rotationSpeed: int)

  /** Where a meteor's float motion and rotation put it this frame: the
      rounded centre and the rotated image. */
  datatype Placement = Placement(center: Point, image: Image)

  /** What the float motion decides each frame: a laser's rounded new top,
      and a meteor's placement. */
  datatype Motion = Motion(laserTop: Laser -> int, meteorPlacement: Meteor -> Placement)

  /** The inputs of one frame: the tick count, the primary button, the pointer
      and one draw per timer event polled this frame. */
  datatype Input = Input(now: nat, pressed: bool, mouse: Point, spawns: seq<SpawnDraw>)

  /** The game's state: the ship's trigger and rect, the laser and meteor
      groups in insertion order, and the next fresh sprite identity. */
  datatype State = State(trigger: Trigger, ship: Rect, lasers: seq<Laser>, meteors: seq<Meteor>, nextId: nat)

  predicate InRange(v: int) { MIN_RATE <= v <= MAX_RATE }

  /** `randint(-100, WINDOW_WIDTH + 100)`, `randint(-150, -50)` and the two
      `randint(400, 600)`. */
  predicate ValidDraw(d: SpawnDraw) {
    && -100 <= d.x <= WINDOW_WIDTH + 100
    && -150 <= d.y <= -50
    && InRange(d.speed) && InRange(d.rotationSpeed)
  }

  function LaserId(l: Laser): nat { l.id }
  function MeteorId(m: Meteor): nat { m.id }

  /** The identities of a group's sprites, in group order. */
  function LaserIds(ls: seq<Laser>): seq<nat> { Map(ls, LaserId) }
  function MeteorIds(ms: seq<Meteor>): seq<nat> { Map(ms, MeteorId) }

  /** Each group holds distinct sprites, every identity in use is below
      `nextId`, and every meteor's rates lie in the drawn range. */
  ghost predicate Inv(s: State) {
    && NoDup(LaserIds(s.lasers)) && NoDup(MeteorIds(s.meteors))
    && (forall id :: id in LaserIds(s.lasers) ==> id < s.nextId)
    && (forall id :: id in MeteorIds(s.meteors) ==> id < s.nextId)
    && (forall m :: m in s.meteors ==> InRange(m.speed) && InRange(m.rotationSpeed))
  }

  // ---------------------------------------------------------------------
  // Collision against the meteor group

  /** Some meteor of the group overlaps `b`. */
  predicate HitsAny(b: Body, ms: seq<Meteor>) {
    exists m :: m in ms && Collides(b, m.Body())
  }

  /** `spritecollide(sprite, meteor_group, True, collide_mask)`: the meteor
      group after every meteor overlapping `b` has been killed. */
  function Unhit(b: Body, ms: seq<Meteor>): (r: seq<Meteor>)
    ensures |r| <= |ms|
    ensures forall m :: m in r ==> m in ms && !Collides(b, m.Body())
    decreases |ms|
  {
    if ms == [] then []
    else
      var rest := Unhit(b, ms[1..]);
      if Collides(b, ms[0].Body()) then rest else [ms[0]] + rest
  }

  /** Every meteor overlapping `b` is removed, the rest stay, unchanged and
      in order, and the group changes iff some meteor overlaps `b`. */
  lemma {:induction false} UnhitSpec(b: Body, ms: seq<Meteor>)
    ensures Subseq(Unhit(b, ms), ms)
    ensures forall m :: m in Unhit(b, ms) <==> m in ms && !Collides(b, m.Body())
    ensures Unhit(b, ms) == ms <==> !HitsAny(b, ms)
    decreases |ms|
  {
    if ms != [] {
      var rest := Unhit(b, ms[1..]);
      UnhitSpec(b, ms[1..]);
      SubseqLength(rest, ms[1..]);
      forall m ensures m in Unhit(b, ms) <==> m in ms && !Collides(b, m.Body()) {
        assert m in ms <==> m == ms[0] || m in ms[1..];
      }
      if !Collides(b, ms[0].Body()) {
        assert Unhit(b, ms) == [ms[0]] + rest;
        if rest == ms[1..] {
          assert ms == [ms[0]] + ms[1..];
        }
        if HitsAny(b, ms[1..]) {
          var m :| m in ms[1..] && Collides(b, m.Body());
          assert m in ms;
        }
      } else {
        assert ms[0] in ms;
      }
    }
  }

  // ---------------------------------------------------------------------
  // Spawning

  /** `Meteor((x, y), meteor_group)`: the scaled image centred on the drawn
      point, with the drawn rates. */
  function NewMeteor(id: nat, d: SpawnDraw): (m: Meteor)
    requires ValidDraw(d)
    ensures m.id == id && m.rect.Center() == Point(d.x, d.y)
    ensures -100 <= m.rect.CenterX() <= WINDOW_WIDTH + 100 && -150 <= m.rect.CenterY() <= -50
    ensures InRange(m.speed) && InRange(m.rotationSpeed)
    ensures m.mask == d.image.mask && m.rect.width == d.image.width && m.rect.height == d.image.height
  {
    Meteor(id, CenteredAt(d.image.width, d.image.height, Point(d.x, d.y)), d.image.mask, d.speed, d.rotationSpeed)
  }

  /** One timer event adds exactly one new meteor at the end of the group. */
  function Spawn(s: State, d: SpawnDraw): (r: State)
    requires ValidDraw(d)
    ensures |r.meteors| == |s.meteors| + 1 && r.meteors[..|s.meteors|] == s.meteors
    ensures r.meteors[|s.meteors|] == NewMeteor(s.nextId, d)
    ensures r.nextId == s.nextId + 1
    ensures r.trigger == s.trigger && r.ship == s.ship && r.lasers == s.lasers
  {
    s.(meteors := s.meteors + [NewMeteor(s.nextId, d)], nextId := s.nextId + 1)
  }

  /** Spawning one more polled event extends the spawns of the ones before. */
  lemma SpawnAllStep(s: State, ds: seq<SpawnDraw>, k: nat)
    requires k < |ds| && forall i :: 0 <= i < |ds| ==> ValidDraw(ds[i])
    ensures SpawnAll(s, ds[..k + 1]) == Spawn(SpawnAll(s, ds[..k]), ds[k])
  {
    assert ds[..k + 1][..k] == ds[..k];
  }

  /** The timer events of one frame, in the order they were polled. */
  function SpawnAll(s: State, ds: seq<SpawnDraw>): (r: State)
    requires forall i :: 0 <= i < |ds| ==> ValidDraw(ds[i])
    ensures |r.meteors| == |s.meteors| + |ds| && r.meteors[..|s.meteors|] == s.meteors
    ensures forall i :: 0 <= i < |ds| ==> r.meteors[|s.meteors| + i] == NewMeteor(s.nextId + i, ds[i])
    ensures r.nextId == s.nextId + |ds|
    ensures r.trigger == s.trigger && r.ship == s.ship && r.lasers == s.lasers
    decreases |ds|
  {
    if ds == [] then s
    else
      var p := SpawnAll(s, ds[..|ds| - 1]);
      assert forall i :: 0 <= i < |ds| - 1 ==> ds[..|ds| - 1][i] == ds[i];
      Spawn(p, ds[|ds| - 1])
  }

  // ---------------------------------------------------------------------
  // The ship

  /** `Laser(self.rect.midtop, laser_group)`: a laser whose bottom edge is
      centred on the ship's top edge. */
  function NewLaser(id: nat, image: Image, ship: Rect): (l: Laser)
    ensures l.id == id && l.mask == image.mask
    ensures l.rect.MidBottom() == ship.MidTop()
    ensures l.rect.width == image.width && l.rect.height == image.height
  {
    Laser(id, MidBottomAt(image.width, image.height, ship.MidTop()), image.mask)
  }

  /** `Ship.update`: timer, shot (a laser at the rect from before the
      pointer snap), pointer snap, then every meteor overlapping the snapped
      ship is removed. */
  function ShipUpdate(s: State, a: Assets, now: int, pressed: bool, mouse: Point): (r: State)
    ensures r.trigger == FireStep(s.trigger, now, pressed).trigger
    ensures r.ship.Center() == mouse
    ensures |r.meteors| <= |s.meteors|
    ensures forall m :: m in r.meteors ==> !Collides(Body(r.ship, a.ship.mask), m.Body())
  {
    var shot := FireStep(s.trigger, now, pressed);
    var lasers := if shot.fired then s.lasers + [NewLaser(s.nextId, a.laser, s.ship)] else s.lasers;
    var ship := MoveCenter(s.ship, mouse);
    State(shot.trigger, ship, lasers, Unhit(Body(ship, a.ship.mask), s.meteors),
          if shot.fired then s.nextId + 1 else s.nextId)
  }

  /** The "Your dead" signal: some meteor overlaps the snapped ship, which
      is exactly when the ship's collision changes the meteor group. */
  predicate ShipHit(s: State, a: Assets, mouse: Point): (hit: bool)
    ensures hit <==> Unhit(Body(MoveCenter(s.ship, mouse), a.ship.mask), s.meteors) != s.meteors
  {
    UnhitSpec(Body(MoveCenter(s.ship, mouse), a.ship.mask), s.meteors);
    HitsAny(Body(MoveCenter(s.ship, mouse), a.ship.mask), s.meteors)
  }

  /** What one ship update does, stated as the source promises it. */
  lemma ShipUpdateSpec(s: State, a: Assets, now: int, pressed: bool, mouse: Point)
    ensures var r := ShipUpdate(s, a, now, pressed, mouse);
      var fired := pressed && (s.trigger.Ready? || now - s.trigger.since > COOLDOWN_MS);
      && r.ship.Center() == mouse && r.ship.width == s.ship.width && r.ship.height == s.ship.height
      && (fired ==> r.trigger == Cooling(now) && |r.lasers| == |s.lasers| + 1
                    && r.lasers[..|s.lasers|] == s.lasers
                    && r.lasers[|s.lasers|].rect.MidBottom() == s.ship.MidTop()
                    && r.lasers[|s.lasers|].id == s.nextId && r.nextId == s.nextId + 1)
      && (!fired ==> r.trigger == LaserTimer(s.trigger, now) && r.lasers == s.lasers && r.nextId == s.nextId)
      && Subseq(r.meteors, s.meteors)
      && (forall m :: m in r.meteors <==> m in s.meteors && !Collides(Body(r.ship, a.ship.mask), m.Body()))
      && (r.meteors == s.meteors <==> !ShipHit(s, a, mouse))
  {
    UnhitSpec(Body(MoveCenter(s.ship, mouse), a.ship.mask), s.meteors);
  }

  /** The ship's collision removes meteors only: the trigger state after the
      update is the one the timer and the shot alone produce. */
  lemma ShipCollisionLeavesTrigger(s: State, a: Assets, now: int, pressed: bool, mouse: Point)
    ensures ShipUpdate(s, a, now, pressed, mouse).trigger == FireStep(s.trigger, now, pressed).trigger
    ensures ShipUpdate(s, a, now, pressed, mouse).trigger
         == ShipUpdate(s.(meteors := []), a, now, pressed, mouse).trigger
  {
  }

  // ---------------------------------------------------------------------
  // The laser group

  /** `Laser.update`'s motion: the rect's top-left snaps to the rounded float
      position; the x coordinate never changes because the direction is
      (0, -1) and the position starts at the integer top-left. */
  function AdvanceLaser(l: Laser, top: int): (r: Laser)
    ensures r.id == l.id && r.mask == l.mask && r.rect.top == top
    ensures r.rect == Rect(l.rect.left, top, l.rect.width, l.rect.height)
  {
    l.(rect := l.rect.(top := top))
  }

  /** `laser_group.update()` over the group's members in order: each laser
      moves, removes every meteor it overlaps, and is itself removed if it
      overlapped one or its bottom is above the screen. Returns the lasers
      kept and the meteors left. */
  function LaserPass(ls: seq<Laser>, ms: seq<Meteor>, laserTop: Laser -> int): (r: (seq<Laser>, seq<Meteor>))
    ensures |r.0| <= |ls| && |r.1| <= |ms|
    decreases |ls|
  {
    if ls == [] then ([], ms)
    else
      var l := AdvanceLaser(ls[0], laserTop(ls[0]));
      var rest := LaserPass(ls[1..], Unhit(l.Body(), ms), laserTop);
      if HitsAny(l.Body(), ms) || l.rect.Bottom() < 0 then rest
      else ([l] + rest.0, rest.1)
  }

  /** The laser group's update touches the two groups only. */
  function LaserUpdate(s: State, laserTop: Laser -> int): (r: State)
    ensures r.trigger == s.trigger && r.ship == s.ship && r.nextId == s.nextId
    ensures forall l :: l in r.lasers ==> l.rect.Bottom() >= 0
    ensures forall m :: m in r.meteors ==> m in s.meteors
  {
    LaserPassMeteors(s.lasers, s.meteors, laserTop);
    LaserPassKept(s.lasers, s.meteors, laserTop);
    var p := LaserPass(s.lasers, s.meteors, laserTop);
    s.(lasers := p.0, meteors := p.1)
  }

  /** One more laser of the walk: with `ms` the meteors left when `ls[i]`
      moves, the pass's outcome is what it kept before, plus `ls[i]` if it
      stays, followed by the rest of the walk on the meteors it leaves. */
  lemma LaserPassStep(ls: seq<Laser>, ms0: seq<Meteor>, i: nat, kept: seq<Laser>, ms: seq<Meteor>, laserTop: Laser -> int)
    requires i < |ls|
    requires LaserPass(ls, ms0, laserTop).0 == kept + LaserPass(ls[i..], ms, laserTop).0
    requires LaserPass(ls, ms0, laserTop).1 == LaserPass(ls[i..], ms, laserTop).1
    ensures var l := AdvanceLaser(ls[i], laserTop(ls[i]));
      var kept' := if HitsAny(l.Body(), ms) || l.rect.Bottom() < 0 then kept else kept + [l];
      && LaserPass(ls, ms0, laserTop).0 == kept' + LaserPass(ls[i + 1..], Unhit(l.Body(), ms), laserTop).0
      && LaserPass(ls, ms0, laserTop).1 == LaserPass(ls[i + 1..], Unhit(l.Body(), ms), laserTop).1
  {
    assert ls[i..][0] == ls[i] && ls[i..][1..] == ls[i + 1..];
    var l := AdvanceLaser(ls[i], laserTop(ls[i]));
    var rest := LaserPass(ls[i + 1..], Unhit(l.Body(), ms), laserTop);
    if HitsAny(l.Body(), ms) || l.rect.Bottom() < 0 {
      assert LaserPass(ls[i..], ms, laserTop) == rest;
    } else {
      assert LaserPass(ls[i..], ms, laserTop) == ([l] + rest.0, rest.1);
      assert kept + ([l] + rest.0) == (kept + [l]) + rest.0;
    }
  }

  /** A meteor survives the laser pass iff no laser, once moved, overlaps it;
      survivors keep their order and are unchanged. */
  lemma {:induction false} LaserPassMeteors(ls: seq<Laser>, ms: seq<Meteor>, laserTop: Laser -> int)
    ensures Subseq(LaserPass(ls, ms, laserTop).1, ms)
    ensures forall m :: m in LaserPass(ls, ms, laserTop).1 <==>
      m in ms && forall l :: l in ls ==> !Collides(AdvanceLaser(l, laserTop(l)).Body(), m.Body())
    decreases |ls|
  {
    if ls == [] {
      SubseqRefl(ms);
    } else {
      var l := AdvanceLaser(ls[0], laserTop(ls[0]));
      var ms' := Unhit(l.Body(), ms);
      UnhitSpec(l.Body(), ms);
      LaserPassMeteors(ls[1..], ms', laserTop);
      SubseqTrans(LaserPass(ls[1..], ms', laserTop).1, ms', ms);
      forall m ensures m in LaserPass(ls, ms, laserTop).1 <==>
        m in ms && forall k :: k in ls ==> !Collides(AdvanceLaser(k, laserTop(k)).Body(), m.Body())
      {
        assert forall k :: k in ls <==> k == ls[0] || k in ls[1..];
      }
    }
  }

  /** The lasers kept by the pass keep their order and identities. */
  lemma {:induction false} LaserPassKeptIds(ls: seq<Laser>, ms: seq<Meteor>, laserTop: Laser -> int)
    ensures Subseq(LaserIds(LaserPass(ls, ms, laserTop).0), LaserIds(ls))
    decreases |ls|
  {
    if ls != [] {
      var l := AdvanceLaser(ls[0], laserTop(ls[0]));
      var rest := LaserPass(ls[1..], Unhit(l.Body(), ms), laserTop).0;
      LaserPassKeptIds(ls[1..], Unhit(l.Body(), ms), laserTop);
      assert LaserIds(ls)[0] == ls[0].id && LaserIds(ls)[1..] == LaserIds(ls[1..]);
      if HitsAny(l.Body(), ms) || l.rect.Bottom() < 0 {
        assert LaserPass(ls, ms, laserTop).0 == rest;
      } else {
        var r := [l] + rest;
        assert LaserPass(ls, ms, laserTop).0 == r;
        assert LaserIds(r)[0] == l.id && LaserIds(r)[1..] == LaserIds(rest);
      }
    }
  }

  /** Every laser kept by the pass is a moved laser of the group whose bottom
      is on or below the top of the screen and which overlaps no meteor left
      after the pass; kept lasers keep their order and identities. */
  lemma {:induction false} LaserPassKept(ls: seq<Laser>, ms: seq<Meteor>, laserTop: Laser -> int)
    ensures Subseq(LaserIds(LaserPass(ls, ms, laserTop).0), LaserIds(ls))
    ensures forall k :: k in LaserPass(ls, ms, laserTop).0 ==>
      && (exists l :: l in ls && k == AdvanceLaser(l, laserTop(l)))
      && k.rect.Bottom() >= 0
      && forall m :: m in LaserPass(ls, ms, laserTop).1 ==> !Collides(k.Body(), m.Body())
    decreases |ls|
  {
    LaserPassKeptIds(ls, ms, laserTop);
    if ls != [] {
      var l := AdvanceLaser(ls[0], laserTop(ls[0]));
      var ms' := Unhit(l.Body(), ms);
      var rest := LaserPass(ls[1..], ms', laserTop);
      LaserPassKept(ls[1..], ms', laserTop);
      LaserPassMeteors(ls[1..], ms', laserTop);
      if !(HitsAny(l.Body(), ms) || l.rect.Bottom() < 0) {
        UnhitSpec(l.Body(), ms);
        forall m | m in rest.1 ensures !Collides(l.Body(), m.Body()) {
          SubseqMember(rest.1, ms', m);
        }
      }
    }
  }

  /** A laser that moves to a place on or below the top of the screen where
      it overlaps none of the meteors present at the start of the pass is
      kept, in its moved form. */
  lemma {:induction false} LaserPassKeepsClear(ls: seq<Laser>, ms: seq<Meteor>, laserTop: Laser -> int, l: Laser)
    requires l in ls
    requires AdvanceLaser(l, laserTop(l)).rect.Bottom() >= 0
    requires forall m :: m in ms ==> !Collides(AdvanceLaser(l, laserTop(l)).Body(), m.Body())
    ensures AdvanceLaser(l, laserTop(l)) in LaserPass(ls, ms, laserTop).0
    decreases |ls|
  {
    var h := AdvanceLaser(ls[0], laserTop(ls[0]));
    var ms' := Unhit(h.Body(), ms);
    UnhitSpec(h.Body(), ms);
    if l == ls[0] {
      assert !HitsAny(h.Body(), ms);
    } else {
      assert l in ls[1..];
      LaserPassKeepsClear(ls[1..], ms', laserTop, l);
    }
  }

  /** The walk over the group can be cut anywhere: the pass over `a + b`
      is the pass over `a`, then the pass over `b` on the meteors `a` left. */
  lemma {:induction false} LaserPassConcat(a: seq<Laser>, b: seq<Laser>, ms: seq<Meteor>, laserTop: Laser -> int)
    ensures var front := LaserPass(a, ms, laserTop);
      var back := LaserPass(b, front.1, laserTop);
      LaserPass(a + b, ms, laserTop) == (front.0 + back.0, back.1)
    decreases |a|
  {
    if a == [] {
      assert a + b == b;
      assert LaserPass(a, ms, laserTop) == ([], ms);
      assert [] + LaserPass(b, ms, laserTop).0 == LaserPass(b, ms, laserTop).0;
    } else {
      var l := AdvanceLaser(a[0], laserTop(a[0]));
      var ms' := Unhit(l.Body(), ms);
      assert (a + b)[0] == a[0] && (a + b)[1..] == a[1..] + b;
      LaserPassConcat(a[1..], b, ms', laserTop);
      var front' := LaserPass(a[1..], ms', laserTop);
      var back := LaserPass(b, front'.1, laserTop);
      if HitsAny(l.Body(), ms) || l.rect.Bottom() < 0 {
        assert LaserPass(a, ms, laserTop) == front';
        assert LaserPass(a + b, ms, laserTop) == LaserPass(a[1..] + b, ms', laserTop);
      } else {
        assert LaserPass(a, ms, laserTop) == ([l] + front'.0, front'.1);
        assert LaserPass(a + b, ms, laserTop) == ([l] + (front'.0 + back.0), back.1);
        assert [l] + (front'.0 + back.0) == ([l] + front'.0) + back.0;
      }
    }
  }

  /** With distinct identities, moved lasers from before and after `ls[i]`
      never carry its identity. */
  lemma OthersKeepOtherIds(ls: seq<Laser>, i: nat, before: seq<Laser>, after: seq<Laser>, laserTop: Laser -> int)
    requires i < |ls| && NoDup(LaserIds(ls))
    requires forall k :: k in before ==> exists l :: l in ls[..i] && k == AdvanceLaser(l, laserTop(l))
    requires forall k :: k in after ==> exists l :: l in ls[i + 1..] && k == AdvanceLaser(l, laserTop(l))
    ensures forall k :: k in before + after ==> k.id != ls[i].id
  {
    forall k | k in before + after ensures k.id != ls[i].id {
      assert LaserIds(ls)[i] == ls[i].id;
      if k in before {
        var h :| h in ls[..i] && k == AdvanceLaser(h, laserTop(h));
        var j :| 0 <= j < i && ls[..i][j] == h;
        assert LaserIds(ls)[j] == h.id;
      } else {
        var h :| h in ls[i + 1..] && k == AdvanceLaser(h, laserTop(h));
        var j :| 0 <= j < |ls[i + 1..]| && ls[i + 1..][j] == h;
        assert LaserIds(ls)[i + 1 + j] == h.id;
      }
    }
  }

  /** Whether a laser stays is decided at its own turn, against the meteors
      the lasers before it have left: with distinct identities, `ls[i]`
      stays, moved, iff it overlaps none of those meteors and its bottom is
      on or below the top of the screen; otherwise no laser with its
      identity is left. */
  lemma LaserPassDecidesAtTurn(ls: seq<Laser>, ms: seq<Meteor>, laserTop: Laser -> int, i: nat)
    requires i < |ls| && NoDup(LaserIds(ls))
    ensures var l := AdvanceLaser(ls[i], laserTop(ls[i]));
      var left := LaserPass(ls[..i], ms, laserTop).1;
      var stays := !HitsAny(l.Body(), left) && l.rect.Bottom() >= 0;
      && (stays ==> l in LaserPass(ls, ms, laserTop).0)
      && (!stays ==> forall k :: k in LaserPass(ls, ms, laserTop).0 ==> k.id != ls[i].id)
  {
    var l := AdvanceLaser(ls[i], laserTop(ls[i]));
    var front := LaserPass(ls[..i], ms, laserTop);
    var ms' := Unhit(l.Body(), front.1);
    var after := LaserPass(ls[i + 1..], ms', laserTop);
    assert ls == ls[..i] + ls[i..];
    LaserPassConcat(ls[..i], ls[i..], ms, laserTop);
    assert ls[i..][0] == ls[i] && ls[i..][1..] == ls[i + 1..];
    if HitsAny(l.Body(), front.1) || l.rect.Bottom() < 0 {
      assert LaserPass(ls, ms, laserTop).0 == front.0 + after.0;
      LaserPassKept(ls[..i], ms, laserTop);
      LaserPassKept(ls[i + 1..], ms', laserTop);
      OthersKeepOtherIds(ls, i, front.0, after.0, laserTop);
    } else {
      assert LaserPass(ls, ms, laserTop).0 == front.0 + ([l] + after.0);
    }
  }

  /** The order of the group matters: two lasers moving onto the same meteor
      in one frame are not both removed. The first removes the meteor and
      itself; the second then finds no meteor and is kept. */
  lemma SecondLaserOnSameMeteorSurvives()
    ensures var dot := {Point(0, 0)};
      var meteor := Meteor(0, Rect(0, 0, 1, 1), dot, 500, 500);
      var first := Laser(1, Rect(0, 5, 1, 1), dot);
      var second := Laser(2, Rect(0, 6, 1, 1), dot);
      LaserPass([first, second], [meteor], (l: Laser) => 0)
        == ([Laser(2, Rect(0, 0, 1, 1), dot)], [])
  {
    var dot := {Point(0, 0)};
    var meteor := Meteor(0, Rect(0, 0, 1, 1), dot, 500, 500);
    var first := Laser(1, Rect(0, 5, 1, 1), dot);
    var second := Laser(2, Rect(0, 6, 1, 1), dot);
    var top := (l: Laser) => 0;
    var moved := AdvanceLaser(first, 0);
    assert Across(moved.Body(), meteor.Body(), Point(0, 0)) == Point(0, 0);
    assert Collides(moved.Body(), meteor.Body());
    assert HitsAny(moved.Body(), [meteor]);
    assert Unhit(moved.Body(), [meteor]) == [];
    var moved2 := AdvanceLaser(second, 0);
    assert !HitsAny(moved2.Body(), []);
    assert [second][1..] == [];
    assert top(second) == 0;
    assert Unhit(moved2.Body(), []) == [];
    assert LaserPass([], [], top) == ([], []);
    assert [second][0] == second;
    assert !HitsAny(moved2.Body(), []) && moved2.rect.Bottom() >= 0;
    assert [moved2] + [] == [moved2];
    assert LaserPass([second], [], top) == ([moved2], []);
    assert [first, second][1..] == [second];
  }

  // ---------------------------------------------------------------------
  // The meteor group

  /** `Meteor.update`'s effect on the rect and mask: the rotated image,
      centred on the rounded position. The rates never change. */
  function AdvanceMeteor(m: Meteor, p: Placement): (r: Meteor)
    ensures r.id == m.id && r.speed == m.speed && r.rotationSpeed == m.rotationSpeed
    ensures r.rect.Center() == p.center && r.mask == p.image.mask
    ensures r.rect.width == p.image.width && r.rect.height == p.image.height
  {
    m.(rect := CenteredAt(p.image.width, p.image.height, p.center), mask := p.image.mask)
  }

  /** `meteor_group.update()`: each meteor moves, and is removed if its top
      is below the bottom of the window. */
  function MeteorPass(ms: seq<Meteor>, place: Meteor -> Placement): (r: seq<Meteor>)
    ensures |r| <= |ms|
    decreases |ms|
  {
    if ms == [] then []
    else
      var m := AdvanceMeteor(ms[0], place(ms[0]));
      (if m.rect.top > WINDOW_HEIGHT then [] else [m]) + MeteorPass(ms[1..], place)
  }

  /** The meteor group's update touches that group only. */
  function MeteorUpdate(s: State, place: Meteor -> Placement): (r: State)
    ensures r.trigger == s.trigger && r.ship == s.ship && r.lasers == s.lasers && r.nextId == s.nextId
    ensures forall m :: m in r.meteors ==> m.rect.top <= WINDOW_HEIGHT
  {
    MeteorPassSpec(s.meteors, place);
    s.(meteors := MeteorPass(s.meteors, place))
  }

  /** One more meteor of the walk: what the pass keeps of `ms[i]` extends
      what it kept of the meteors before it. */
  lemma MeteorPassStep(ms: seq<Meteor>, i: nat, kept: seq<Meteor>, place: Meteor -> Placement)
    requires i < |ms|
    requires MeteorPass(ms, place) == kept + MeteorPass(ms[i..], place)
    ensures var m := AdvanceMeteor(ms[i], place(ms[i]));
      MeteorPass(ms, place)
        == (if m.rect.top > WINDOW_HEIGHT then kept else kept + [m]) + MeteorPass(ms[i + 1..], place)
  {
    assert ms[i..][0] == ms[i] && ms[i..][1..] == ms[i + 1..];
    var m := AdvanceMeteor(ms[i], place(ms[i]));
    var rest := MeteorPass(ms[i + 1..], place);
    if m.rect.top > WINDOW_HEIGHT {
      assert MeteorPass(ms[i..], place) == rest;
    } else {
      assert MeteorPass(ms[i..], place) == [m] + rest;
      assert kept + ([m] + rest) == (kept + [m]) + rest;
    }
  }

  /** A moved meteor stays in the group iff its top is not below the bottom
      of the window; identities keep their order. */
  lemma {:induction false} MeteorPassSpec(ms: seq<Meteor>, place: Meteor -> Placement)
    ensures forall k :: k in MeteorPass(ms, place) <==>
      exists m :: m in ms && k == AdvanceMeteor(m, place(m)) && k.rect.top <= WINDOW_HEIGHT
    ensures Subseq(MeteorIds(MeteorPass(ms, place)), MeteorIds(ms))
    decreases |ms|
  {
    if ms != [] {
      var m := AdvanceMeteor(ms[0], place(ms[0]));
      var rest := MeteorPass(ms[1..], place);
      MeteorPassSpec(ms[1..], place);
      assert MeteorIds(ms)[1..] == MeteorIds(ms[1..]);
      if m.rect.top <= WINDOW_HEIGHT {
        var r := [m] + rest;
        assert r[1..] == rest;
        assert MeteorIds(r)[1..] == MeteorIds(rest);
        assert MeteorIds(r)[0] == MeteorIds(ms)[0];
      } else {
        assert MeteorPass(ms, place) == rest;
      }
      forall k ensures k in MeteorPass(ms, place) <==>
        exists n :: n in ms && k == AdvanceMeteor(n, place(n)) && k.rect.top <= WINDOW_HEIGHT
      {
        assert forall n :: n in ms <==> n == ms[0] || n in ms[1..];
      }
    }
  }

  // ---------------------------------------------------------------------
  // One frame

  /** One pass of the game loop: the polled timer events spawn meteors, then
      the groups update in the order they were created: ship, lasers,
      meteors. Afterwards the ship is on the pointer, the trigger is what
      the timer and the shot made it, every laser left has its bottom on or
      below the top of the screen, and every meteor left has its top on or
      above the bottom of the window. */
  function Frame(s: State, a: Assets, input: Input, motion: Motion): (r: State)
    requires forall i :: 0 <= i < |input.spawns| ==> ValidDraw(input.spawns[i])
    ensures r.ship.Center() == input.mouse
    ensures r.trigger == FireStep(s.trigger, input.now, input.pressed).trigger
    ensures forall l :: l in r.lasers ==> l.rect.Bottom() >= 0
    ensures forall m :: m in r.meteors ==> m.rect.top <= WINDOW_HEIGHT
  {
    var spawned := SpawnAll(s, input.spawns);
    var shipped := ShipUpdate(spawned, a, input.now, input.pressed, input.mouse);
    var lasered := LaserUpdate(shipped, motion.laserTop);
    MeteorUpdate(lasered, motion.meteorPlacement)
  }

  // ---------------------------------------------------------------------
  // The invariant is kept by every rule

  /** Dropping meteors drops their identities, in the same order. */
  lemma MeteorIdsSubseq(a: seq<Meteor>, b: seq<Meteor>)
    requires Subseq(a, b)
    ensures Subseq(MeteorIds(a), MeteorIds(b))
  {
    MapSubseq(a, b, MeteorId);
  }

  lemma BoundedSubseq(a: seq<nat>, b: seq<nat>, n: nat)
    requires Subseq(a, b) && NoDup(b) && forall x :: x in b ==> x < n
    ensures NoDup(a) && forall x :: x in a ==> x < n
  {
    SubseqNoDup(a, b);
    forall x | x in a ensures x < n {
      SubseqMember<nat>(a, b, x);
    }
  }

  lemma SpawnKeepsInv(s: State, d: SpawnDraw)
    requires Inv(s) && ValidDraw(d)
    ensures Inv(Spawn(s, d))
  {
    assert MeteorIds(s.meteors + [NewMeteor(s.nextId, d)]) == MeteorIds(s.meteors) + [s.nextId];
    AppendFresh(MeteorIds(s.meteors), s.nextId);
  }

  lemma {:induction false} SpawnAllKeepsInv(s: State, ds: seq<SpawnDraw>)
    requires Inv(s) && forall i :: 0 <= i < |ds| ==> ValidDraw(ds[i])
    ensures Inv(SpawnAll(s, ds))
    decreases |ds|
  {
    if ds != [] {
      SpawnAllKeepsInv(s, ds[..|ds| - 1]);
      SpawnKeepsInv(SpawnAll(s, ds[..|ds| - 1]), ds[|ds| - 1]);
    }
  }

  lemma ShipUpdateKeepsInv(s: State, a: Assets, now: int, pressed: bool, mouse: Point)
    requires Inv(s)
    ensures Inv(ShipUpdate(s, a, now, pressed, mouse))
  {
    var r := ShipUpdate(s, a, now, pressed, mouse);
    UnhitSpec(Body(r.ship, a.ship.mask), s.meteors);
    MeteorIdsSubseq(r.meteors, s.meteors);
    BoundedSubseq(MeteorIds(r.meteors), MeteorIds(s.meteors), s.nextId);
    if r.nextId == s.nextId + 1 {
      assert LaserIds(s.lasers + [NewLaser(s.nextId, a.laser, s.ship)]) == LaserIds(s.lasers) + [s.nextId];
      AppendFresh(LaserIds(s.lasers), s.nextId);
    }
  }

  lemma LaserUpdateKeepsInv(s: State, laserTop: Laser -> int)
    requires Inv(s)
    ensures Inv(LaserUpdate(s, laserTop))
  {
    var r := LaserUpdate(s, laserTop);
    LaserPassKept(s.lasers, s.meteors, laserTop);
    LaserPassMeteors(s.lasers, s.meteors, laserTop);
    BoundedSubseq(LaserIds(r.lasers), LaserIds(s.lasers), s.nextId);
    MeteorIdsSubseq(r.meteors, s.meteors);
    BoundedSubseq(MeteorIds(r.meteors), MeteorIds(s.meteors), s.nextId);
  }

  lemma MeteorUpdateKeepsInv(s: State, place: Meteor -> Placement)
    requires Inv(s)
    ensures Inv(MeteorUpdate(s, place))
  {
    var r := MeteorUpdate(s, place);
    MeteorPassSpec(s.meteors, place);
    BoundedSubseq(MeteorIds(r.meteors), MeteorIds(s.meteors), s.nextId);
    forall m | m in r.meteors ensures InRange(m.speed) && InRange(m.rotationSpeed) {
      var n :| n in s.meteors && m == AdvanceMeteor(n, place(n)) && m.rect.top <= WINDOW_HEIGHT;
    }
  }

  /** A whole frame keeps the world's invariant. */
  lemma FrameKeepsInv(s: State, a: Assets, input: Input, motion: Motion)
    requires Inv(s)
    requires forall i :: 0 <= i < |input.spawns| ==> ValidDraw(input.spawns[i])
    ensures Inv(Frame(s, a, input, motion))
  {
    var spawned := SpawnAll(s, input.spawns);
    SpawnAllKeepsInv(s, input.spawns);
    var shipped := ShipUpdate(spawned, a, input.now, input.pressed, input.mouse);
    ShipUpdateKeepsInv(spawned, a, input.now, input.pressed, input.mouse);
    LaserUpdateKeepsInv(shipped, motion.laserTop);
    MeteorUpdateKeepsInv(LaserUpdate(shipped, motion.laserTop), motion.meteorPlacement);
  }

  /** `score.display()`: whole seconds since start-up, floored. */
  function Score(ticks: nat): (score: nat)
    ensures score * 1000 <= ticks < score * 1000 + 1000
  {
    ticks / 1000
  }

  /** The score never decreases as time passes. */
  lemma ScoreMonotone(t1: nat, t2: nat)
    requires t1 <= t2
    ensures Score(t1) <= Score(t2)
  {
  }
}
