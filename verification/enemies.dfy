/** The patrolling enemy: constant-speed horizontal movement that turns
    around at (and beyond) two x-bounds, the shared gravity-and-landing step,
    and a constant-rate animation. */
module Enemies {
  import opened Geometry
  import opened Animation
  import opened Physics

  /** A horizontal heading: -1 is left, 1 is right. */
  type Direction = d: int | d == -1 || d == 1 witness 1

  const Frames: seq<Frame> := ["enemy/walk_0", "enemy/walk_1"]

  /** Horizontal pixels per tick. */
  const Speed: int := 2

  datatype Enemy = Enemy(body: Body, anim: Anim, leftLimit: real, rightLimit: real, direction: Direction)

  /** A fresh enemy standing at `x` on the ground line. The initial heading is
      a random choice in the game; here it is the caller's. */
  function NewEnemy(x: real, leftLimit: real, rightLimit: real, direction: Direction): (r: Enemy)
    ensures r.body.x == x && r.body.y == GroundY as real && r.body.vy == 0.0 && !r.body.onGround
    ensures r.leftLimit == leftLimit && r.rightLimit == rightLimit && r.direction == direction
    ensures InRange(r.anim) && r.anim.frames == Frames && r.anim.cursor == 0.0
  {
    Enemy(Body(x, GroundY as real, 0.0, false), Start(Frames), leftLimit, rightLimit, direction)
  }

  /** `Enemy.update`. */
  function EnemyStep(e: Enemy, s: Size, tiles: seq<Rect>): (r: Enemy)
    requires |e.anim.frames| > 0 && 0.0 <= e.anim.cursor
    ensures r.body.x == e.body.x + (Speed * e.direction) as real
    ensures r.direction != e.direction <==> r.body.x <= e.leftLimit || r.body.x >= e.rightLimit
    ensures r.body == Fall(e.body.(x := r.body.x), s, tiles)
    ensures r.leftLimit == e.leftLimit && r.rightLimit == e.rightLimit
    ensures InRange(r.anim) && r.anim.frames == e.anim.frames
    ensures r.anim == Animate(e.anim)
  {
    var x := e.body.x + (Speed * e.direction) as real;
    var reversed: int := e.direction * -1;
    var d: Direction := if x <= e.leftLimit || x >= e.rightLimit then reversed else e.direction;
    Enemy(Fall(e.body.(x := x), s, tiles), Animate(e.anim), e.leftLimit, e.rightLimit, d)
  }

  function Twice(n: int): real {
    (2 * n) as real
  }

  /** A real that is an even whole number. */
  ghost predicate EvenWhole(r: real) {
    exists n: int :: r == Twice(n)
  }

  /** The patrol invariant: the enemy is within its bounds, at an even whole
      distance from both (so steps of 2 land exactly on a bound rather than
      past it), and at a bound it is heading back inside. */
  ghost predicate OnPatrol(e: Enemy) {
    var offset := e.body.x - e.leftLimit;
    var span := e.rightLimit - e.leftLimit;
    && EvenWhole(offset) && EvenWhole(span)
    && 0.0 <= offset <= span
    && (offset == 0.0 ==> e.direction == 1)
    && (offset == span ==> e.direction == -1)
  }

  /** A step keeps the patrol invariant, so an enemy that starts on patrol
      never leaves `[leftLimit, rightLimit]`. */
  lemma PatrolStaysInBounds(e: Enemy, s: Size, tiles: seq<Rect>)
    requires |e.anim.frames| > 0 && 0.0 <= e.anim.cursor
    requires OnPatrol(e)
    ensures OnPatrol(EnemyStep(e, s, tiles))
    ensures e.leftLimit <= EnemyStep(e, s, tiles).body.x <= e.rightLimit
  {
    var r := EnemyStep(e, s, tiles);
    var n :| e.body.x - e.leftLimit == Twice(n);
    var m :| e.rightLimit - e.leftLimit == Twice(m);
    var n' := n + e.direction;
    assert r.body.x - r.leftLimit == Twice(n');
    assert 0 <= n' <= m;
  }

  /** A fresh enemy placed strictly between its bounds, at even whole
      distances from the left one, starts on patrol whichever way it heads. */
  lemma NewEnemyOnPatrol(x: real, leftLimit: real, rightLimit: real, direction: Direction, n: int, m: int)
    requires x - leftLimit == Twice(n) && rightLimit - leftLimit == Twice(m)
    requires leftLimit < x < rightLimit
    ensures OnPatrol(NewEnemy(x, leftLimit, rightLimit, direction))
  {
  }
}
