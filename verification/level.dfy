/** Level layout: the row of ground tiles, the hero and the two enemies that
    `reset_game` builds from scratch. */
module Level {
  import opened Geometry
  import opened Physics
  import opened Heroes
  import opened Enemies

  /** Sizes read from the image assets: the hero and enemy sprites and the
      ground tile (whose pixel sizes are whole numbers). */
  datatype Assets = Assets(hero: Size, enemy: Size, tileWidth: int, tileHeight: int)

  predicate AssetsOk(a: Assets) {
    && a.hero.width > 0.0 && a.hero.height > 0.0
    && a.enemy.width > 0.0 && a.enemy.height > 0.0
    && a.tileWidth > 0 && a.tileHeight > 0
  }

  /** The initial headings of the two enemies (a random choice in the game). */
  datatype Spawn = Spawn(first: Direction, second: Direction)

  /** Everything `reset_game` replaces: the hero, the enemies and the tiles. */
  datatype Stage = Stage(hero: Hero, enemies: seq<Enemy>, tiles: seq<Rect>)

  /** Tiles are centred vertically on `GroundY + th // 2`, so their top edge
      lies half a tile above that. */
  function TileTop(th: int): real {
    (GroundY + th / 2) as real - th as real / 2.0
  }

  function TileAt(x: int, tw: int, th: int): Rect {
    Rect(x as real, TileTop(th), tw as real, th as real)
  }

  /** The tiles laid from `x` onward, one tile width apart, until the row
      reaches the window's width. */
  function RowFrom(x: int, tw: int, th: int): seq<Rect>
    requires tw > 0
    decreases Width - x
  {
    if x >= Width then [] else [TileAt(x, tw, th)] + RowFrom(x + tw, tw, th)
  }

  /** Every tile of the row from `x` has the shared top edge and the tile's
      size, starts at or after `x` and inside the window; the row is empty
      exactly when `x` is already past the window, and otherwise starts at
      `x` and its last tile reaches the window's right edge. */
  lemma {:induction false} RowFromShape(x: int, tw: int, th: int)
    requires tw > 0
    ensures var r := RowFrom(x, tw, th);
            && (|r| > 0 <==> x < Width)
            && (forall i | 0 <= i < |r| ::
                  r[i].top == TileTop(th) && r[i].width == tw as real && r[i].height == th as real
                  && x as real <= r[i].left < Width as real)
            && (|r| > 0 ==> r[0].left == x as real && r[|r| - 1].Right() >= Width as real)
    decreases Width - x
  {
    if x < Width {
      var rest := RowFrom(x + tw, tw, th);
      RowFromShape(x + tw, tw, th);
      assert forall i | 1 <= i < |rest| + 1 :: RowFrom(x, tw, th)[i] == rest[i - 1];
    }
  }

  /** The ground row, starting at the left edge of the window. */
  function GroundRow(tw: int, th: int): seq<Rect>
    requires tw > 0
  {
    RowFrom(0, tw, th)
  }

  /** The tile loop of `reset_game`, as written: lay a tile at `x`, move `x`
      on by the tile width, stop once `x` reaches the window's width. */
  method LayTiles(tw: int, th: int) returns (tiles: seq<Rect>)
    requires tw > 0
    ensures tiles == GroundRow(tw, th)
  {
    tiles := [];
    var x := 0;
    while x < Width
      invariant tiles + RowFrom(x, tw, th) == GroundRow(tw, th)
      decreases Width - x
    {
      var rest := RowFrom(x + tw, tw, th);
      assert RowFrom(x, tw, th) == [TileAt(x, tw, th)] + rest;
      assert tiles + ([TileAt(x, tw, th)] + rest) == (tiles + [TileAt(x, tw, th)]) + rest;
      tiles := tiles + [TileAt(x, tw, th)];
      x := x + tw;
    }
  }

  /** Tile `i` of a row starting at `x` has its left edge `i` tile widths
      to the right of `x`. */
  lemma {:induction false} RowFromLeft(x: int, tw: int, th: int, i: nat)
    requires tw > 0 && i < |RowFrom(x, tw, th)|
    ensures RowFrom(x, tw, th)[i].left == (x + i * tw) as real
    decreases Width - x
  {
    if i > 0 {
      assert RowFrom(x, tw, th)[i] == RowFrom(x + tw, tw, th)[i - 1];
      RowFromLeft(x + tw, tw, th, i - 1);
      assert x + i * tw == x + tw + (i - 1) * tw;
    }
  }

  /** The row from `x` has the least number of tiles that covers the rest of
      the window: `n - 1` tiles fall short of it, `n` reach it. */
  lemma {:induction false} RowFromCount(x: int, tw: int, th: int)
    requires tw > 0 && x < Width
    ensures var n := |RowFrom(x, tw, th)|; (n - 1) * tw < Width - x <= n * tw
    decreases Width - x
  {
    var n := |RowFrom(x, tw, th)|;
    if x + tw < Width {
      RowFromCount(x + tw, tw, th);
      assert n * tw == (n - 1) * tw + tw;
      assert (n - 1) * tw == (n - 2) * tw + tw;
    }
  }

  lemma MulMonotone(a: int, b: int, d: int)
    requires a <= b && d > 0
    ensures a * d <= b * d
  {
    var k := b - a;
    assert b * d == a * d + k * d;
    assert k * d >= 0;
  }

  /** The least `n` with `n * d >= w` is the ceiling `(w + d - 1) / d`. */
  lemma CeilingDivision(n: int, w: int, d: int)
    requires d > 0 && (n - 1) * d < w <= n * d
    ensures n == (w + d - 1) / d
  {
    var q := (w + d - 1) / d;
    var m := (w + d - 1) % d;
    assert w + d - 1 == q * d + m && 0 <= m < d;
    assert (n - 1) * d + d == n * d;
    if q > n {
      MulMonotone(n + 1, q, d);
    }
    if q < n {
      MulMonotone(q, n - 1, d);
    }
  }

  /** `reset_game`: a fresh hero at the spawn point, exactly two enemies with
      their fixed positions and patrol bounds, and the ground row. */
  function Reset(a: Assets, s: Spawn): (r: Stage)
    requires a.tileWidth > 0
    ensures r.hero == NewHero() && r.hero.body == Body(120.0, GroundY as real, 0.0, false)
    ensures r.hero.anim.frames == IdleFrames && r.hero.anim.cursor == 0.0
    ensures |r.enemies| == 2
    ensures r.enemies[0].body.x == 420.0 && r.enemies[0].leftLimit == 380.0 && r.enemies[0].rightLimit == 520.0
    ensures r.enemies[1].body.x == 650.0 && r.enemies[1].leftLimit == 600.0 && r.enemies[1].rightLimit == 750.0
    ensures r.enemies[0] == NewEnemy(420.0, 380.0, 520.0, s.first)
    ensures r.enemies[1] == NewEnemy(650.0, 600.0, 750.0, s.second)
    ensures forall i | 0 <= i < 2 :: OnPatrol(r.enemies[i]) && r.enemies[i].body.vy == 0.0
    ensures r.tiles == GroundRow(a.tileWidth, a.tileHeight)
  {
    assert 420.0 - 380.0 == Twice(20) && 520.0 - 380.0 == Twice(70);
    assert 650.0 - 600.0 == Twice(25) && 750.0 - 600.0 == Twice(75);
    Stage(NewHero(),
          [NewEnemy(420.0, 380.0, 520.0, s.first), NewEnemy(650.0, 600.0, 750.0, s.second)],
          GroundRow(a.tileWidth, a.tileHeight))
  }

  /** The ground row built by a reset: ceil(Width / w) tiles, tile `i` with
      its left edge at `i * w`, all on one top edge, every tile starting
      inside the window and the last one reaching its right edge. */
  lemma GroundRowLayout(tw: int, th: int)
    requires tw > 0
    ensures var row := GroundRow(tw, th);
            && |row| == (Width + tw - 1) / tw
            && (forall i | 0 <= i < |row| :: row[i].left == (i * tw) as real && row[i].left < Width as real)
            && SharedTop(row, TileTop(th))
            && row[|row| - 1].Right() >= Width as real
  {
    var row := GroundRow(tw, th);
    RowFromShape(0, tw, th);
    RowFromCount(0, tw, th);
    CeilingDivision(|row|, Width, tw);
    forall i | 0 <= i < |row|
      ensures row[i].left == (i * tw) as real
    {
      RowFromLeft(0, tw, th, i);
    }
  }

  /** With 40-pixel tiles the ground row is exactly 20 tiles covering [0, 800). */
  lemma TwentyTilesOfForty(th: int)
    ensures |GroundRow(40, th)| == 20
    ensures GroundRow(40, th)[19].Right() == Width as real
  {
    GroundRowLayout(40, th);
    RowFromShape(0, 40, th);
    assert GroundRow(40, th)[19].left == 760.0;
  }
}
