/** The player character: horizontal input, the shared gravity-and-landing
    step, a held-key jump, and idle/walk animation selection. */
module Heroes {
  import opened Geometry
  import opened Animation
  import opened Physics

  /** The keys held during a tick. */
  datatype Keys = Keys(left: bool, right: bool, jump: bool)

  datatype Hero = Hero(body: Body, anim: Anim)

  const IdleFrames: seq<Frame> := ["hero/idle_0", "hero/idle_1"]
  const WalkFrames: seq<Frame> := ["hero/walk_0", "hero/walk_1"]

  /** Horizontal pixels per tick while a direction key is held. */
  const Speed: real := 3.0
  /** Vertical velocity a jump starts with (upward). */
  const JumpVelocity: real := -10.0
  /** Animation increments per tick while walking and while idle. */
  const WalkRate: real := 0.2
  const IdleRate: real := 0.06
  /** Where a fresh hero stands. */
  const SpawnX: real := 120.0

  /** A fresh hero at the spawn point, at rest, showing the idle frames. */
  function NewHero(): (h: Hero)
    ensures h.body.x == SpawnX && h.body.y == GroundY as real && h.body.vy == 0.0 && !h.body.onGround
    ensures InRange(h.anim) && h.anim.frames == IdleFrames && h.anim.cursor == 0.0
  {
    Hero(Body(SpawnX, GroundY as real, 0.0, false), Start(IdleFrames))
  }

  /** Horizontal input: left and right are applied independently, so both
      held cancel out. */
  function Steer(x: real, keys: Keys): real {
    (if keys.right then Speed else 0.0) + x - (if keys.left then Speed else 0.0)
  }

  /** `Hero.update`. */
  function HeroStep(h: Hero, keys: Keys, s: Size, tiles: seq<Rect>): (r: Hero)
    requires 0.0 <= h.anim.cursor
    ensures var landed := Fall(h.body.(x := Steer(h.body.x, keys)), s, tiles);
            && r.body.x == landed.x
            && (keys.jump && landed.onGround ==> r.body == landed.(vy := JumpVelocity, onGround := false))
            && (!(keys.jump && landed.onGround) ==> r.body == landed)
    ensures r.body.onGround ==> r.body.vy == 0.0
    ensures InRange(r.anim)
    ensures r.anim.frames == if keys.left || keys.right then WalkFrames else IdleFrames
    ensures var c := h.anim.cursor + if keys.left || keys.right then WalkRate else IdleRate;
            r.anim.cursor == if c < 2.0 then c else 0.0
  {
    var moving := keys.left || keys.right;
    var landed := Fall(h.body.(x := Steer(h.body.x, keys)), s, tiles);
    var body := if keys.jump && landed.onGround
                then landed.(vy := JumpVelocity, onGround := false)
                else landed;
    var anim := if moving then Advance(h.anim, WalkFrames, WalkRate)
                else Advance(h.anim, IdleFrames, IdleRate);
    Hero(body, anim)
  }

  /** Horizontal input moves the hero by `Speed` in each held direction. */
  lemma SteerMoves(h: Hero, keys: Keys, s: Size, tiles: seq<Rect>)
    requires 0.0 <= h.anim.cursor
    ensures keys.left && !keys.right ==> HeroStep(h, keys, s, tiles).body.x == h.body.x - Speed
    ensures keys.right && !keys.left ==> HeroStep(h, keys, s, tiles).body.x == h.body.x + Speed
    ensures keys.left == keys.right ==> HeroStep(h, keys, s, tiles).body.x == h.body.x
  {
  }

  /** A jump can only start on a tick on which the hero landed: if the hero
      ends a tick rising at jump speed, the shared landing step had grounded
      it and the jump key was held. */
  lemma JumpOnlyFromGround(h: Hero, keys: Keys, s: Size, tiles: seq<Rect>)
    requires 0.0 <= h.anim.cursor
    requires h.body.vy + Gravity >= 0.0
    requires HeroStep(h, keys, s, tiles).body.vy == JumpVelocity
    ensures keys.jump && Fall(h.body.(x := Steer(h.body.x, keys)), s, tiles).onGround
  {
  }

  /** The hero's animation after any step selects a valid frame of its
      current list, whichever of the two lists was current before. */
  lemma HeroFrameInBounds(h: Hero, keys: Keys, s: Size, tiles: seq<Rect>)
    requires 0.0 <= h.anim.cursor
    ensures var a := HeroStep(h, keys, s, tiles).anim;
            0 <= a.cursor.Floor < |a.frames| && a.image == a.frames[a.cursor.Floor]
  {
  }

  /** A hero standing still cycles through the two idle frames: its cursor
      first wraps back to 0 after 34 ticks, the least k with k * 0.06 >= 2. */
  lemma IdleCycleLength(k: nat)
    requires k == 34
    ensures Run(Start(IdleFrames), IdleFrames, IdleRate, k).cursor == 0.0
    ensures forall j | 0 < j < k :: Run(Start(IdleFrames), IdleFrames, IdleRate, j).cursor > 0.0
  {
    ElapsedIsProduct(k - 1, IdleRate);
    ElapsedIsProduct(k, IdleRate);
    WrapsAtCeiling(Start(IdleFrames), IdleFrames, IdleRate, k);
  }

  /** The hero after one step per entry of `keys`, over fixed tiles. */
  function Steps(h: Hero, keys: seq<Keys>, s: Size, tiles: seq<Rect>): (r: Hero)
    requires 0.0 <= h.anim.cursor
    ensures 0.0 <= r.anim.cursor
    decreases |keys|
  {
    if |keys| == 0 then h
    else HeroStep(Steps(h, keys[..|keys| - 1], s, tiles), keys[|keys| - 1], s, tiles)
  }

  /** With neither direction key held, a fresh hero's animation after `k`
      steps is `k` idle-rate steps over the idle frames, whatever the jump
      key and the tiles do. */
  lemma {:induction false} StandingStill(keys: seq<Keys>, s: Size, tiles: seq<Rect>)
    requires forall i | 0 <= i < |keys| :: !keys[i].left && !keys[i].right
    ensures Steps(NewHero(), keys, s, tiles).anim == Run(Start(IdleFrames), IdleFrames, IdleRate, |keys|)
    decreases |keys|
  {
    if |keys| > 0 {
      StandingStill(keys[..|keys| - 1], s, tiles);
    }
  }

  /** The hero's idle cursor after the first `j` of `keys` is the cursor
      of `j` idle-rate steps. */
  lemma IdlePrefix(keys: seq<Keys>, j: nat, s: Size, tiles: seq<Rect>)
    requires j <= |keys|
    requires forall i | 0 <= i < |keys| :: !keys[i].left && !keys[i].right
    ensures Steps(NewHero(), keys[..j], s, tiles).anim.cursor == Run(Start(IdleFrames), IdleFrames, IdleRate, j).cursor
  {
    var pre := keys[..j];
    assert |pre| == j && forall i | 0 <= i < j :: pre[i] == keys[i];
    StandingStill(pre, s, tiles);
  }

  /** Before the 34th idle tick the hero's cursor is past 0. */
  lemma IdleBeforeWrap(keys: seq<Keys>, j: nat, s: Size, tiles: seq<Rect>)
    requires 0 < j < |keys| == 34
    requires forall i | 0 <= i < |keys| :: !keys[i].left && !keys[i].right
    ensures Steps(NewHero(), keys[..j], s, tiles).anim.cursor > 0.0
  {
    IdlePrefix(keys, j, s, tiles);
    IdleCycleLength(|keys|);
  }

  /** A hero that holds neither direction key for 34 ticks shows its idle
      cursor back at 0 after exactly those 34 ticks and past 0 at every tick
      before. */
  lemma IdleHeroCycle(keys: seq<Keys>, s: Size, tiles: seq<Rect>)
    requires |keys| == 34
    requires forall i | 0 <= i < |keys| :: !keys[i].left && !keys[i].right
    ensures Steps(NewHero(), keys, s, tiles).anim.cursor == 0.0
    ensures forall j | 0 < j < |keys| :: Steps(NewHero(), keys[..j], s, tiles).anim.cursor > 0.0
  {
    var idle := Run(Start(IdleFrames), IdleFrames, IdleRate, |keys|);
    StandingStill(keys, s, tiles);
    assert Steps(NewHero(), keys, s, tiles).anim == idle;
    IdleCycleLength(|keys|);
    assert idle.cursor == 0.0;
    forall j | 0 < j < |keys|
      ensures Steps(NewHero(), keys[..j], s, tiles).anim.cursor > 0.0
    {
      IdleBeforeWrap(keys, j, s, tiles);
    }
  }
}
