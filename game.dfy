/** The game's objects as the program holds them: a `Ship` whose update
    changes its own fields, and a `World` holding the module-level state of
    the game loop (the sprite groups, the list of all groups, the ship).
    Every method is proved to change the state exactly as the matching
    function of module Rules says; `World.Frame` also keeps the rules'
    invariant. */
module Game {
  import opened Geometry
  import opened FireControl
  import opened Rules

  datatype Option<T> = None | Some(value: T)

  /** The three sprite groups the game creates, named by what they hold. */
  datatype GroupKind = SpaceshipGroup | LaserGroup | MeteorGroup

  class Ship {
    var rect: Rect
    const image: Image
    var canShoot: bool
    var shootTime: Option<int>

    /** A ship that cannot shoot has shot at some tick; the rect has the
        image's size. */
    ghost predicate Valid()
      reads this
    {
      && (!canShoot ==> shootTime.Some?)
      && rect.width == image.width && rect.height == image.height
    }

    /** The state of the fire cooldown that the two fields encode. */
    ghost function Trigger(): Trigger
      reads this
      requires Valid()
    {
      if canShoot then Ready else Cooling(shootTime.value)
    }

    /** The ship starts centred in the window, ready to shoot, never having
        shot. */
    constructor (image: Image)
      ensures Valid() && this.image == image
      ensures rect.Center() == Point(WINDOW_WIDTH / 2, WINDOW_HEIGHT / 2)
      ensures canShoot && shootTime == None && Trigger() == Ready
    {
      this.image := image;
      rect := CenteredAt(image.width, image.height, Point(WINDOW_WIDTH / 2, WINDOW_HEIGHT / 2));
      canShoot := true;
      shootTime := None;
    }

    /** `_laser_timer`: re-arms once more than the cooldown has passed since
        the last shot; the shot time itself is kept. */
    method LaserTimer(now: int)
      requires Valid()
      modifies this
      ensures Valid() && Trigger() == FireControl.LaserTimer(old(Trigger()), now)
      ensures rect == old(rect) && shootTime == old(shootTime)
    {
      if !canShoot {
        if now - shootTime.value > COOLDOWN_MS {
          canShoot := true;
        }
      }
    }

    /** `_laser_shoot`'s effect on the ship: with the button held and the
        trigger armed, disarm it and record the tick. The caller spawns the
        laser when `fired`. */
    method LaserShoot(now: int, pressed: bool) returns (fired: bool)
      requires Valid()
      modifies this
      ensures Valid() && rect == old(rect)
      ensures fired == FireControl.LaserShoot(old(Trigger()), now, pressed).fired
      ensures Trigger() == FireControl.LaserShoot(old(Trigger()), now, pressed).trigger
      ensures !fired ==> shootTime == old(shootTime)
    {
      fired := pressed && canShoot;
      if fired {
        canShoot := false;
        shootTime := Some(now);
      }
    }

    /** `_input_position`: the ship's centre snaps to the pointer. */
    method InputPosition(mouse: Point)
      requires Valid()
      modifies this
      ensures Valid() && rect == MoveCenter(old(rect), mouse)
      ensures canShoot == old(canShoot) && shootTime == old(shootTime)
    {
      rect := MoveCenter(rect, mouse);
    }
  }

  class World {
    const assets: Assets
    const ship: Ship
    var lasers: seq<Laser>
    var meteors: seq<Meteor>
    var nextId: nat
    var allGroups: seq<GroupKind>

    /** The value the fields stand for. */
    ghost function Snapshot(): State
      reads this, ship
      requires ship.Valid()
    {
      State(ship.Trigger(), ship.rect, lasers, meteors, nextId)
    }

    /** The ship is consistent and the groups are registered ship first,
        then lasers, then meteors. */
    ghost predicate Valid()
      reads this, ship
    {
      && ship.Valid() && ship.image == assets.ship
      && allGroups == [SpaceshipGroup, LaserGroup, MeteorGroup]
    }

    /** Start-up: the three groups are created and registered in order, and
        the ship is placed. */
    constructor (assets: Assets)
      ensures Valid() && Inv(Snapshot()) && fresh(ship) && this.assets == assets
      ensures lasers == [] && meteors == [] && ship.Trigger() == Ready
      ensures ship.rect.Center() == Point(WINDOW_WIDTH / 2, WINDOW_HEIGHT / 2)
    {
      this.assets := assets;
      ship := new Ship(assets.ship);
      lasers, meteors, nextId, allGroups := [], [], 0, [];
      new;
      CreateGroup(SpaceshipGroup, true);
      CreateGroup(LaserGroup, true);
      CreateGroup(MeteorGroup, true);
    }

    /** `create_group`: a new, empty group, registered in `all_groups` iff
        `addToAllGroups`. */
    method CreateGroup(kind: GroupKind, addToAllGroups: bool)
      modifies this
      ensures allGroups == if addToAllGroups then old(allGroups) + [kind] else old(allGroups)
      ensures lasers == (if kind == LaserGroup then [] else old(lasers))
      ensures meteors == (if kind == MeteorGroup then [] else old(meteors))
      ensures nextId == old(nextId)
    {
      if kind == LaserGroup {
        lasers := [];
      } else if kind == MeteorGroup {
        meteors := [];
      }
      if addToAllGroups {
        allGroups := allGroups + [kind];
      }
    }

    /** One timer event of the event loop: a new meteor joins its group. */
    method SpawnMeteor(d: SpawnDraw)
      requires Valid() && ValidDraw(d)
      modifies this
      ensures Valid() && Snapshot() == Spawn(old(Snapshot()), d)
    {
      meteors := meteors + [NewMeteor(nextId, d)];
      nextId := nextId + 1;
    }

    /** `Ship.update`: timer, shot, pointer snap, collision. The laser is
        created from the rect the ship had before the snap. Returns whether
        the ship was hit. */
    method UpdateShip(now: int, pressed: bool, mouse: Point) returns (hit: bool)
      requires Valid()
      modifies this, ship
      ensures Valid() && Snapshot() == ShipUpdate(old(Snapshot()), assets, now, pressed, mouse)
      ensures hit == ShipHit(old(Snapshot()), assets, mouse)
    {
      ship.LaserTimer(now);
      var fired := ship.LaserShoot(now, pressed);
      if fired {
        lasers := lasers + [NewLaser(nextId, assets.laser, ship.rect)];
        nextId := nextId + 1;
      }
      ship.InputPosition(mouse);
      var body := Body(ship.rect, ship.image.mask);
      hit := HitsAny(body, meteors);
      meteors := Unhit(body, meteors);
    }

    /** `laser_group.update()`: walks a copy of the group's membership; each
        laser moves in place, removes the meteors it overlaps, and leaves
        the group if it overlapped one or has left the top of the screen. */
    method UpdateLasers(laserTop: Laser -> int)
      requires Valid()
      modifies this
      ensures Valid() && Snapshot() == LaserUpdate(old(Snapshot()), laserTop)
    {
      var members := lasers;
      var kept: seq<Laser> := [];
      var i := 0;
      assert members[i..] == members;
      while i < |members|
        invariant 0 <= i <= |members|
        invariant lasers == kept + members[i..]
        invariant LaserPass(members, old(meteors), laserTop).0 == kept + LaserPass(members[i..], meteors, laserTop).0
        invariant LaserPass(members, old(meteors), laserTop).1 == LaserPass(members[i..], meteors, laserTop).1
        invariant nextId == old(nextId) && allGroups == old(allGroups)
      {
        LaserPassStep(members, old(meteors), i, kept, meteors, laserTop);
        var l := AdvanceLaser(members[i], laserTop(members[i]));
        var hit := HitsAny(l.Body(), meteors);
        meteors := Unhit(l.Body(), meteors);
        if !hit && l.rect.Bottom() >= 0 {
          kept := kept + [l];
        }
        lasers := kept + members[i + 1..];
        i := i + 1;
      }
      assert members[i..] == [];
    }

    /** `meteor_group.update()`: walks a copy of the group's membership; each
        meteor moves and rotates in place, and leaves the group once its top
        is below the bottom of the window. */
    method UpdateMeteors(place: Meteor -> Placement)
      requires Valid()
      modifies this
      ensures Valid() && Snapshot() == MeteorUpdate(old(Snapshot()), place)
    {
      var members := meteors;
      var kept: seq<Meteor> := [];
      var i := 0;
      assert members[i..] == members;
      while i < |members|
        invariant 0 <= i <= |members|
        invariant meteors == kept + members[i..]
        invariant MeteorPass(members, place) == kept + MeteorPass(members[i..], place)
        invariant lasers == old(lasers) && nextId == old(nextId) && allGroups == old(allGroups)
      {
        MeteorPassStep(members, i, kept, place);
        var m := AdvanceMeteor(members[i], place(members[i]));
        if m.rect.top <= WINDOW_HEIGHT {
          kept := kept + [m];
        }
        meteors := kept + members[i + 1..];
        i := i + 1;
      }
      assert members[i..] == [];
    }

    /** The event loop's timer events, in the order they were polled: each
        spawns one meteor. */
    method HandleTimerEvents(spawns: seq<SpawnDraw>)
      requires Valid()
      requires forall i :: 0 <= i < |spawns| ==> ValidDraw(spawns[i])
      modifies this
      ensures Valid() && Snapshot() == SpawnAll(old(Snapshot()), spawns)
    {
      var k := 0;
      while k < |spawns|
        invariant 0 <= k <= |spawns| && Valid()
        invariant Snapshot() == SpawnAll(old(Snapshot()), spawns[..k])
      {
        SpawnAllStep(old(Snapshot()), spawns, k);
        SpawnMeteor(spawns[k]);
        k := k + 1;
      }
      assert spawns[..k] == spawns;
    }

    /** `for g in all_groups: g.update()`: the groups update in the order
        they were registered, so the ship first, then the lasers (including
        one fired this frame), then the meteors. */
    method UpdateAllGroups(now: int, pressed: bool, mouse: Point, motion: Motion) returns (hit: bool)
      requires Valid()
      modifies this, ship
      ensures Valid()
      ensures Snapshot() == MeteorUpdate(LaserUpdate(ShipUpdate(old(Snapshot()), assets, now, pressed, mouse),
                                                     motion.laserTop), motion.meteorPlacement)
      ensures hit == ShipHit(old(Snapshot()), assets, mouse)
    {
      ghost var s0 := Snapshot();
      ghost var s1 := ShipUpdate(s0, assets, now, pressed, mouse);
      ghost var s2 := LaserUpdate(s1, motion.laserTop);
      ghost var s3 := MeteorUpdate(s2, motion.meteorPlacement);
      hit := false;
      var i := 0;
      while i < |allGroups|
        invariant 0 <= i <= 3 && Valid()
        invariant i == 0 ==> Snapshot() == s0
        invariant i == 1 ==> Snapshot() == s1
        invariant i == 2 ==> Snapshot() == s2
        invariant i == 3 ==> Snapshot() == s3
        invariant i > 0 ==> hit == ShipHit(s0, assets, mouse)
      {
        match allGroups[i] {
          case SpaceshipGroup => hit := UpdateShip(now, pressed, mouse);
          case LaserGroup => UpdateLasers(motion.laserTop);
          case MeteorGroup => UpdateMeteors(motion.meteorPlacement);
        }
        i := i + 1;
      }
    }

    /** One iteration of the game loop: the polled timer events spawn
        meteors, then every registered group updates. Returns the score shown
        this frame and whether the ship was hit. The rules' invariant is
        kept. */
    method Frame(input: Input, motion: Motion) returns (score: nat, hit: bool)
      requires Valid()
      requires forall i :: 0 <= i < |input.spawns| ==> ValidDraw(input.spawns[i])
      modifies this, ship
      ensures Valid() && Snapshot() == Rules.Frame(old(Snapshot()), assets, input, motion)
      ensures Inv(old(Snapshot())) ==> Inv(Snapshot())
      ensures score == Score(input.now)
      ensures hit == ShipHit(SpawnAll(old(Snapshot()), input.spawns), assets, input.mouse)
    {
      HandleTimerEvents(input.spawns);
      hit := UpdateAllGroups(input.now, input.pressed, input.mouse, motion);
      score := Score(input.now);
      if Inv(old(Snapshot())) {
        FrameKeepsInv(old(Snapshot()), assets, input, motion);
      }
    }
  }
}
