/** The vertical physics shared by the hero and the enemies: gravity
    integration followed by a pass over the ground tiles that lands a falling
    body on the tile it overlaps. */
module Physics {
  import opened Geometry

  /** Added to the vertical velocity every tick (pixels per tick squared). */
  const Gravity: real := 0.5

  /** The size of a sprite image, in pixels. */
  datatype Size = Size(width: real, height: real)

  /** A moving body: its Actor's centre `(x, y)`, its vertical velocity
      (positive is downward) and whether it stands on a tile. */
  datatype Body = Body(x: real, y: real, vy: real, onGround: bool)

  function Bounds(b: Body, s: Size): Rect {
    ActorBounds(b.x, b.y, s.width, s.height)
  }

  /** Velocity first, then position; the grounded flag is cleared before the
      tile pass decides it afresh. */
  function Gravitate(b: Body): Body {
    Body(b.x, b.y + (b.vy + Gravity), b.vy + Gravity, false)
  }

  /** Put the body's bottom edge on `top`, stop it and mark it grounded. */
  function SnapOnto(b: Body, s: Size, top: real): (r: Body)
    ensures Bounds(r, s).Bottom() == top
    ensures r.x == b.x && r.vy == 0.0 && r.onGround
  {
    b.(y := top - s.height / 2.0, vy := 0.0, onGround := true)
  }

  /** One iteration of the tile loop: only a body moving down (or at rest)
      is snapped onto a tile it overlaps. */
  function LandOn(b: Body, s: Size, t: Rect): Body {
    if Overlaps(Bounds(b, s), t) && b.vy >= 0.0 then SnapOnto(b, s, t.top) else b
  }

  /** The tile loop: every tile in order, a later snap overriding an earlier
      one. The body is either untouched or grounded on the top of some tile. */
  function Land(b: Body, s: Size, tiles: seq<Rect>): (r: Body)
    ensures r.x == b.x
    ensures r == b || (r.onGround && r.vy == 0.0 &&
                       exists i | 0 <= i < |tiles| :: Bounds(r, s).Bottom() == tiles[i].top)
    decreases |tiles|
  {
    if |tiles| == 0 then b
    else
      var r := Land(LandOn(b, s, tiles[0]), s, tiles[1..]);
      assert r != LandOn(b, s, tiles[0]) ==> exists i | 0 <= i < |tiles[1..]| :: Bounds(r, s).Bottom() == tiles[1..][i].top;
      r
  }

  /** The gravity-and-landing step that both `Hero.update` and
      `Enemy.update` run after their horizontal move. */
  function Fall(b: Body, s: Size, tiles: seq<Rect>): (r: Body)
    ensures r.x == b.x
    ensures r.onGround ==> r.vy == 0.0
    ensures !r.onGround ==> r == Gravitate(b)
  {
    Land(Gravitate(b), s, tiles)
  }

  /** All tiles have the same top edge, as the ground row does. */
  predicate SharedTop(tiles: seq<Rect>, top: real) {
    forall i | 0 <= i < |tiles| :: tiles[i].top == top
  }

  /** The body overlaps at least one tile. */
  predicate Touches(b: Body, s: Size, tiles: seq<Rect>) {
    exists i | 0 <= i < |tiles| :: Overlaps(Bounds(b, s), tiles[i])
  }

  /** A body the tile pass cannot snap (rising, or overlapping no tile) comes
      out of it unchanged, whatever the tiles' tops. */
  lemma {:induction false} LandMisses(b: Body, s: Size, tiles: seq<Rect>)
    requires b.vy < 0.0 || !Touches(b, s, tiles)
    ensures Land(b, s, tiles) == b
    decreases |tiles|
  {
    if |tiles| > 0 {
      assert LandOn(b, s, tiles[0]) == b by {
        if b.vy >= 0.0 {
          assert !Overlaps(Bounds(b, s), tiles[0]);
        }
      }
      if b.vy >= 0.0 {
        forall i | 0 <= i < |tiles[1..]|
          ensures !Overlaps(Bounds(b, s), tiles[1..][i])
        {
          assert tiles[1..][i] == tiles[i + 1];
        }
      }
      LandMisses(b, s, tiles[1..]);
    }
  }

  /** A body resting on the shared top overlaps none of the tiles, so the
      tile pass leaves it where it is. */
  lemma SnappedStays(b: Body, s: Size, tiles: seq<Rect>, top: real)
    requires SharedTop(tiles, top)
    ensures Land(SnapOnto(b, s, top), s, tiles) == SnapOnto(b, s, top)
  {
    LandMisses(SnapOnto(b, s, top), s, tiles);
  }

  /** With one shared top, the outcome of the tile pass depends only on
      whether the body overlaps some tile, not on which one or in what order. */
  lemma {:induction false} LandOnSharedTop(b: Body, s: Size, tiles: seq<Rect>, top: real)
    requires SharedTop(tiles, top)
    ensures Land(b, s, tiles) ==
            if b.vy >= 0.0 && Touches(b, s, tiles) then SnapOnto(b, s, top) else b
    decreases |tiles|
  {
    if |tiles| == 0 {
    } else if b.vy >= 0.0 && Overlaps(Bounds(b, s), tiles[0]) {
      SnappedStays(b, s, tiles[1..], top);
    } else {
      LandOnSharedTop(b, s, tiles[1..], top);
      if b.vy >= 0.0 {
        if Touches(b, s, tiles) {
          var i :| 0 <= i < |tiles| && Overlaps(Bounds(b, s), tiles[i]);
          assert tiles[1..][i - 1] == tiles[i];
        }
        if Touches(b, s, tiles[1..]) {
          var i :| 0 <= i < |tiles[1..]| && Overlaps(Bounds(b, s), tiles[1..][i]);
          assert tiles[i + 1] == tiles[1..][i];
        }
      }
    }
  }

  /** Reordering tiles that share one top does not change the landing. */
  lemma LandingOrderIndependent(b: Body, s: Size, tiles: seq<Rect>, reordered: seq<Rect>, top: real)
    requires SharedTop(tiles, top) && multiset(tiles) == multiset(reordered)
    ensures Land(b, s, tiles) == Land(b, s, reordered)
  {
    forall i | 0 <= i < |reordered|
      ensures reordered[i].top == top
    {
      assert reordered[i] in multiset(reordered);
      assert reordered[i] in tiles;
    }
    if Touches(b, s, tiles) {
      var i :| 0 <= i < |tiles| && Overlaps(Bounds(b, s), tiles[i]);
      assert tiles[i] in multiset(tiles);
      assert tiles[i] in reordered;
    }
    if Touches(b, s, reordered) {
      var i :| 0 <= i < |reordered| && Overlaps(Bounds(b, s), reordered[i]);
      assert reordered[i] in multiset(reordered);
      assert reordered[i] in tiles;
    }
    LandOnSharedTop(b, s, tiles, top);
    LandOnSharedTop(b, s, reordered, top);
  }

  /** Landing: when the body moves down after gravity and then overlaps a tile,
      it ends with its bottom on the tiles' top, stopped and grounded. */
  lemma FallLands(b: Body, s: Size, tiles: seq<Rect>, top: real)
    requires SharedTop(tiles, top)
    requires b.vy + Gravity >= 0.0 && Touches(Gravitate(b), s, tiles)
    ensures Bounds(Fall(b, s, tiles), s).Bottom() == top
    ensures Fall(b, s, tiles) == Body(b.x, top - s.height / 2.0, 0.0, true)
  {
    LandOnSharedTop(Gravitate(b), s, tiles, top);
  }

  /** Free fall: a rising body, or one that overlaps no tile after gravity,
      is not snapped: it keeps the gravity step's velocity and position. */
  lemma FreeFall(b: Body, s: Size, tiles: seq<Rect>)
    requires b.vy + Gravity < 0.0 || !Touches(Gravitate(b), s, tiles)
    ensures Fall(b, s, tiles) == Body(b.x, b.y + b.vy + Gravity, b.vy + Gravity, false)
  {
    LandMisses(Gravitate(b), s, tiles);
  }
}
