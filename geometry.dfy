/** Integer screen geometry as pygame provides it to the game: rectangles with
    their derived anchor points, positioning by anchor, and per-pixel
    (mask) collision between two positioned sprites. */
module Geometry {

  const WINDOW_WIDTH := 1280
  const WINDOW_HEIGHT := 720

  datatype Point = Point(x: int, y: int)

  /** A pygame Rect; anchors use integer halving of the (non-negative) size. */
  datatype Rect = Rect(left: int, top: int, width: nat, height: nat) {
    function Bottom(): int { top + height }
    function CenterX(): int { left + width / 2 }
    function CenterY(): int { top + height / 2 }
    function Center(): Point { Point(CenterX(), CenterY()) }
    function MidTop(): Point { Point(CenterX(), top) }
    function MidBottom(): Point { Point(CenterX(), Bottom()) }
  }

  /** `image.get_rect(center=c)`: a rect of the given size centred on `c`. */
  function CenteredAt(width: nat, height: nat, c: Point): (r: Rect)
    ensures r.width == width && r.height == height
    ensures r.Center() == c
  {
    Rect(c.x - width / 2, c.y - height / 2, width, height)
  }

  /** `image.get_rect(midbottom=p)`: a rect of the given size whose bottom
      edge is centred on `p`. */
  function MidBottomAt(width: nat, height: nat, p: Point): (r: Rect)
    ensures r.width == width && r.height == height
    ensures r.MidBottom() == p
  {
    Rect(p.x - width / 2, p.y - height, width, height)
  }

  /** Assigning `rect.center = c`: moves the rect, keeping its size. */
  function MoveCenter(r: Rect, c: Point): (r': Rect)
    ensures r'.width == r.width && r'.height == r.height
    ensures r'.Center() == c
  {
    CenteredAt(r.width, r.height, c)
  }

  /** A collision mask: the opaque pixels of an image, as offsets from the
      image's top-left corner. */
  type Mask = set<Point>

  /** A loaded or transformed surface: its size and its mask. */
  datatype Image = Image(width: nat, height: nat, mask: Mask)

  /** What collision looks at: where a sprite is and which pixels it covers. */
  datatype Body = Body(rect: Rect, mask: Mask)

  /** The pixel of `b`'s mask that lies on the same screen pixel as pixel `p`
      of `a`'s mask. */
  function Across(a: Body, b: Body, p: Point): Point {
    Point(p.x - (b.rect.left - a.rect.left), p.y - (b.rect.top - a.rect.top))
  }

  /** `collide_mask(a, b)`: the masks, placed at their rects' top-left
      corners, share at least one opaque screen pixel. */
  predicate Collides(a: Body, b: Body) {
    exists p :: p in a.mask && Across(a, b, p) in b.mask
  }

  /** Only opaque pixels collide: a sprite with an empty mask overlaps
      nothing, and moving both sprites by the same offset changes nothing. */
  lemma CollidesNeedsPixels(a: Body, b: Body, dx: int, dy: int)
    ensures Collides(a, b) ==> a.mask != {} && b.mask != {}
    ensures var shift := (r: Rect) => r.(left := r.left + dx, top := r.top + dy);
      Collides(a, b) <==> Collides(a.(rect := shift(a.rect)), b.(rect := shift(b.rect)))
  {
    var a' := a.(rect := a.rect.(left := a.rect.left + dx, top := a.rect.top + dy));
    var b' := b.(rect := b.rect.(left := b.rect.left + dx, top := b.rect.top + dy));
    if Collides(a, b) {
      var p :| p in a.mask && Across(a, b, p) in b.mask;
      assert Across(a', b', p) == Across(a, b, p);
    }
    if Collides(a', b') {
      var p :| p in a'.mask && Across(a', b', p) in b'.mask;
      assert Across(a, b, p) == Across(a', b', p);
    }
  }

  /** Collision does not depend on the order of the two sprites. */
  lemma CollidesSymmetric(a: Body, b: Body)
    ensures Collides(a, b) <==> Collides(b, a)
  {
    if Collides(a, b) {
      var p :| p in a.mask && Across(a, b, p) in b.mask;
      assert Across(b, a, Across(a, b, p)) == p;
    }
    if Collides(b, a) {
      var q :| q in b.mask && Across(b, a, q) in a.mask;
      assert Across(a, b, Across(b, a, q)) == q;
    }
  }

  /** A sprite with any opaque pixel collides with itself wherever it is. */
  lemma CollidesWithItself(a: Body)
    requires a.mask != {}
    ensures Collides(a, a)
  {
    var p :| p in a.mask;
    assert Across(a, a, p) == p;
  }

  /** Two copies of one mask at the same place collide; the same mask moved
      past its own width does not. */
  lemma CollisionExamples()
    ensures Collides(Body(Rect(0, 0, 1, 1), {Point(0, 0)}), Body(Rect(0, 0, 1, 1), {Point(0, 0)}))
    ensures !Collides(Body(Rect(0, 0, 1, 1), {Point(0, 0)}), Body(Rect(1, 0, 1, 1), {Point(0, 0)}))
  {
    var a := Body(Rect(0, 0, 1, 1), {Point(0, 0)});
    assert Across(a, a, Point(0, 0)) == Point(0, 0);
  }
}
