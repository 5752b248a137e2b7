# Space Shooter game rules in Dafny

This project models the discrete rules of a small arcade game. The player's
ship follows the pointer and fires lasers under a 500 ms cooldown. Meteors
are spawned by a timer and fall down the screen. Lasers and the ship destroy
the meteors they overlap pixel for pixel, and the score is the number of
whole seconds since start-up.

Modules, leaf first:

- `Seqs` (seqs.dfy): order-preserving sub-sequences and duplicate-freedom.
  These express "a sprite group only loses members and never reorders or
  changes the ones it keeps".
- `Geometry` (geometry.dfy): pygame's integer `Rect`, its anchor points
  (`center`, `midtop`, `midbottom`) and positioning by anchor. It also holds
  collision masks as sets of opaque pixels and `collide_mask` as `Collides`.
- `FireControl` (fire_control.dfy): the ship's two-state cooldown machine
  (`Ready`, `Cooling(since)`). It covers `_laser_timer` and `_laser_shoot`,
  their order inside `Ship.update`, and the shot times over a run of frames.
- `Rules` (rules.dfy): a value snapshot of the game (`State`) with one
  function per rule. The rules are meteor spawning, the ship's update, the
  laser group's update, the meteor group's update, a whole frame, and the
  score. An invariant (`Inv`) says sprites are distinct and meteor rates
  stay in range. Every rule is proved to keep it.
- `Game` (game.dfy): the program's own objects. `Ship` is a class whose
  methods update `canShoot`, `shootTime` and `rect` in place. `World` holds
  the game's module-level state: the ship, the laser and meteor groups, and
  `all_groups`. Each method is proved to change the fields exactly as the
  matching `Rules` function says. The group updates are `while` loops that
  walk a copy of the group's membership, as pygame's `Group.update` does.

The timer event, the pointer, the button and the tick count are inputs to
`World.Frame`. Randomness becomes draws constrained by `ValidDraw`. Float
motion becomes a `Motion` input giving each sprite's rounded new position.

How the code behaves, and so the model:

- A laser kills every meteor it overlaps, because `spritecollide` is called
  with `dokill` set (code/main.py:27-29).
- Kills depend on order within a frame. Two lasers may move onto one meteor
  in the same frame. The first laser removes the meteor and itself. The
  second then overlaps nothing and stays (`Rules.SecondLaserOnSameMeteorSurvives`).
- A meteor hitting the ship has no effect on the game beyond removing the
  meteor. The model reports it as the `hit` result.

## Model

| member | source | states |
|---|---|---|
| `Geometry.CenteredAt` | code/main.py:93 | a rect placed by `get_rect(center=c)` has the given size and its centre is exactly `c` |
| `Geometry.MidBottomAt` | code/main.py:16 | a rect placed by `get_rect(midbottom=p)` has the given size and its mid-bottom is exactly `p` |
| `Geometry.MoveCenter` | code/main.py:64-66 | assigning `rect.center` keeps the size and puts the centre on the pointer |
| `Geometry.CollidesNeedsPixels` | code/main.py:27-29 | `collide_mask` needs opaque pixels on both sides (an empty mask overlaps nothing) and depends only on the sprites' relative placement |
| `Geometry.CollidesSymmetric` | code/main.py:27-29 | mask collision gives the same answer whichever sprite comes first |
| `Geometry.CollidesWithItself` | code/main.py:76-78 | a sprite with any opaque pixel overlaps itself |
| `Geometry.CollisionExamples` | code/main.py:27-29 | identical one-pixel masks at one place collide; the same masks one pixel apart do not |
| `FireControl.LaserTimer` | code/main.py:58-62 | the trigger re-arms iff it was cooling and more than 500 ms have passed (strictly); otherwise, including when already ready, nothing changes |
| `FireControl.LaserShoot` | code/main.py:68-71 | a shot happens iff the button is held and the trigger is armed; the shot disarms the trigger and records `now` |
| `FireControl.FireStep` | code/main.py:81-83 | timer then shot: fires iff held and (ready or more than 500 ms since the last shot); after a shot the state is `Cooling(now)`; without one it is the timer's result |
| `FireControl.CooldownIsStrict` | code/main.py:61 | exactly 500 ms after a shot the ship cannot fire; 501 ms after, it can |
| `FireControl.HeldButtonTrace` | code/main.py:81-83 | holding the button at ticks 0, 100, 499, 501 fires exactly at 0 and 501 |
| `FireControl.FireTimesArePressedTicks` | code/main.py:69-71 | every shot time is the tick of a frame in which the button was held |
| `FireControl.FireTimesNotEarly` | code/main.py:71 | with a clock that never goes back, no shot time comes before the first frame's tick |
| `FireControl.FirstShotAfterCooldown` | code/main.py:58-62 | while cooling from `since`, the next shot comes more than 500 ms after `since` |
| `FireControl.FireTimesSpaced` | code/main.py:58-73 | with a clock that never goes back, any two consecutive shots are more than 500 ms apart |
| `Rules.Unhit` | code/main.py:27-29 | `spritecollide` with kill leaves only meteors of the group that do not overlap the sprite, and never grows the group |
| `Rules.UnhitSpec` | code/main.py:27-29 | `spritecollide` with kill removes exactly the overlapping meteors; the rest stay unchanged and in order; the group changes iff some meteor overlaps |
| `Rules.NewMeteor` | code/main.py:89-101 | a new meteor is centred on the drawn point, within x in [-100, 1380] and y in [-150, -50], with speed and rotation speed in [400, 600] |
| `Rules.Spawn` | code/main.py:183-186 | one timer event appends exactly one new meteor with a fresh identity; the existing meteors, the lasers and the ship are unchanged |
| `Rules.SpawnAll` | code/main.py:179-186 | the timer events polled in a frame append one meteor each, in order, with consecutive fresh identities |
| `Rules.NewLaser` | code/main.py:72 | the laser's mid-bottom is the ship's mid-top |
| `Rules.ShipUpdate` | code/main.py:81-85 | after the ship update the trigger is the timer-then-shot result, the ship is centred on the pointer, and no meteor left overlaps the ship; the meteor group never grows |
| `Rules.ShipHit` | code/main.py:75-79 | the "Your dead" condition holds iff the ship's collision changes the meteor group |
| `Rules.ShipUpdateSpec` | code/main.py:81-85 | after the ship update the ship is centred on the pointer. On a shot it appends one laser placed at the ship's mid-top from before the snap, and the trigger becomes `Cooling(now)`. Without a shot, lasers are unchanged. Exactly the meteors overlapping the moved ship are removed |
| `Rules.ShipCollisionLeavesTrigger` | code/main.py:75-79 | the ship's collision does not touch `can_shoot` or `shoot_time`: the trigger is the same with or without meteors |
| `Rules.AdvanceLaser` | code/main.py:33-35 | a laser moves only vertically and keeps its identity, size and mask |
| `Rules.LaserPass` | code/main.py:33-38 | the laser walk never grows either group |
| `Rules.LaserUpdate` | code/main.py:33-38 | the laser group's update leaves the ship, the trigger and the identity counter alone; every laser left has `bottom >= 0`; every meteor left was in the group before |
| `Rules.LaserPassConcat` | code/main.py:33-38 | walking the group in order: the pass over `a + b` is the pass over `a`, then the pass over `b` on the meteors `a` left |
| `Rules.LaserPassDecidesAtTurn` | code/main.py:26-38 | with distinct identities, laser `i` stays, moved, iff it overlaps none of the meteors the lasers before it left and its bottom is `>= 0`; otherwise no laser with its identity is left |
| `Rules.LaserPassKeptIds` | code/main.py:33-38 | the kept lasers' identities are a sub-sequence of the group's, in order |
| `Rules.LaserPassMeteors` | code/main.py:26-38 | after the laser group's update a meteor remains iff no moved laser overlaps it; the ones left are unchanged and in order |
| `Rules.LaserPassKept` | code/main.py:33-38 | every laser kept is a moved laser of the group with `bottom >= 0` that overlaps no remaining meteor; kept lasers keep their order |
| `Rules.LaserPassKeepsClear` | code/main.py:33-38 | a laser that moves to `bottom >= 0` and overlaps none of the frame's meteors is kept |
| `Rules.SecondLaserOnSameMeteorSurvives` | code/main.py:26-31 | of two lasers meeting one meteor in a frame, the first removes the meteor and itself; the second is kept |
| `Rules.AdvanceMeteor` | code/main.py:103-117 | a meteor's rect has the rotated image's size and mask and is centred on the rounded position; identity and both rates never change |
| `Rules.MeteorPass` | code/main.py:114-119 | the meteor walk never grows the group |
| `Rules.MeteorUpdate` | code/main.py:114-119 | the meteor group's update leaves the ship, trigger, lasers and identity counter alone, and every meteor left has `top <= WINDOW_HEIGHT` |
| `Rules.MeteorPassSpec` | code/main.py:114-119 | after the meteor group's update a moved meteor remains iff its `top <= WINDOW_HEIGHT`; identities keep their order |
| `Rules.Frame` | code/main.py:177-199 | after a frame the ship is on the pointer, the trigger is the timer-then-shot result, every laser has `bottom >= 0` and every meteor `top <= WINDOW_HEIGHT` |
| `Rules.SpawnKeepsInv` | code/main.py:183-186 | spawning keeps meteors distinct with in-range rates |
| `Rules.SpawnAllKeepsInv` | code/main.py:179-186 | all of a frame's spawns keep the invariant |
| `Rules.ShipUpdateKeepsInv` | code/main.py:81-85 | the ship update keeps lasers and meteors distinct |
| `Rules.LaserUpdateKeepsInv` | code/main.py:33-38 | the laser group's update keeps the invariant |
| `Rules.MeteorUpdateKeepsInv` | code/main.py:114-119 | the meteor group's update keeps the invariant, including the rate ranges |
| `Rules.FrameKeepsInv` | code/main.py:177-199 | a whole frame keeps the invariant |
| `Rules.Score` | code/main.py:127 | the score is the whole number of seconds: `score * 1000 <= ticks < score * 1000 + 1000` |
| `Rules.ScoreMonotone` | code/main.py:127 | the score never decreases as ticks increase |
| `Game.Ship.constructor` | code/main.py:42-56 | the ship starts centred in the window, able to shoot, with no shot time |
| `Game.Ship.LaserTimer` | code/main.py:58-62 | updates `canShoot` as `FireControl.LaserTimer` says and leaves `shootTime` and `rect` alone |
| `Game.Ship.LaserShoot` | code/main.py:68-71 | updates `canShoot`/`shootTime` and reports the shot as `FireControl.LaserShoot` says |
| `Game.Ship.InputPosition` | code/main.py:64-66 | snaps the rect's centre to the pointer, leaving the trigger fields alone |
| `Game.World.constructor` | code/main.py:155-162 | registers the spaceship, laser and meteor groups in that order, all empty, and places a ready ship |
| `Game.World.CreateGroup` | code/main.py:149-153 | the new group is empty and is appended to `all_groups` iff `addToAllGroups` |
| `Game.World.SpawnMeteor` | code/main.py:183-186 | the groups change exactly as `Rules.Spawn` says |
| `Game.World.UpdateShip` | code/main.py:81-85 | timer, shot, laser creation from the pre-snap rect, snap and collision change the state exactly as `Rules.ShipUpdate`; `hit` says whether the ship overlapped a meteor |
| `Game.World.UpdateLasers` | code/main.py:33-38 | the loop over the laser group changes both groups exactly as `Rules.LaserPass` |
| `Game.World.UpdateMeteors` | code/main.py:114-119 | the loop over the meteor group changes it exactly as `Rules.MeteorPass` |
| `Game.World.HandleTimerEvents` | code/main.py:179-186 | the polled timer events change the state exactly as `Rules.SpawnAll` |
| `Game.World.UpdateAllGroups` | code/main.py:198-199 | the groups update in registration order: ship, then lasers (including one fired this frame), then meteors |
| `Game.World.Frame` | code/main.py:177-202 | one loop iteration changes the state exactly as `Rules.Frame`, keeps the invariant, and shows `Score(now)` |

## Left out

- Float motion is not modelled (`pos += direction * speed * dt`, `dt = clock.tick() / 1000`, `round`). Each frame's rounded laser top and meteor placement come from the `Motion` input. The laser's x is constant because its direction is (0, -1) and its position starts at the integer top-left.
- The meteor's position starts at the rect's top-left but is later used as its centre (code/main.py:99, 117). This only affects the float motion, so it is part of the `Motion` input.
- Meteor rotation and image scaling (`rotozoom`, `transform.scale`, `uniform(0.5, 1.5)`) are float image transforms. The scaled image is part of the spawn draw, and the rotated image is part of the `Motion` input.
- Mask construction (`pygame.mask.from_surface`) is a library call. Masks are given as pixel sets; only the overlap test is modelled.
- Rendering, fonts, the score box, the background and `display.update` are not modelled. `Score` gives the value the overlay shows.
- Asset loading, sounds, music and the `print` on a ship hit are I/O. The hit is returned as a boolean.
- Event polling, the 400 ms `set_timer` and the QUIT / `sys.exit` path are host event plumbing. Timer events are the `spawns` input, so the timer's cadence (two events in 1000 ms) is not modelled.
- `randint` and `uniform` are replaced by draws that `ValidDraw` confines to the source's ranges. Meteor direction is part of the `Motion` input.
- `Game.World.Frame`: the source reads `get_ticks()` separately in `_laser_timer`, `_laser_shoot` and `Score.display`. The model uses one `now` per frame.
- `Game.World.CreateGroup`: groups are named by what they hold (`GroupKind`), not by object identity, and sprite objects are values with a fresh `id`. Aliasing of a killed sprite that the program still references is not modelled.
- `Game.World.UpdateLasers`: a laser that is killed this frame is dropped from the group. Its moved rect, which the program writes before the kill, is not kept anywhere.
