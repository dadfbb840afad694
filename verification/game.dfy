/** The game as a whole: the menu/playing state machine, the menu buttons,
    the per-tick `update` and the mouse handler, over one immutable world
    value that each event replaces. */
module Game {
  import opened Geometry
  import opened Animation
  import opened Physics
  import opened Heroes
  import opened Enemies
  import opened Level

  datatype Option<T> = None | Some(value: T)

  datatype State = Menu | Playing

  /** What a menu button does when clicked. */
  datatype Action = Start | ToggleMusic | Exit

  datatype Button = Button(text: string, rect: Rect, action: Action)

  /** The whole game state. `stage` is None until the first reset: before it
      there is no hero, no enemy list and no tile. `quit` records that Exit was
      chosen; the host process ends there. */
  datatype World = World(state: State, musicOn: bool, quit: bool, stage: Option<Stage>)

  /** The three menu buttons, stacked vertically with gaps between them. */
  const Buttons: seq<Button> := [
    Button("Start Game", Rect(300.0, 160.0, 200.0, 50.0), Start),
    Button("Music ON / OFF", Rect(300.0, 230.0, 200.0, 50.0), ToggleMusic),
    Button("Exit", Rect(300.0, 300.0, 200.0, 50.0), Exit)
  ]

  /** The game at start-up: on the menu, with the music playing. */
  function Initial(): World {
    World(Menu, true, false, None)
  }

  /** What every reachable world satisfies: a stage exists while playing, the
      tiles are the ground row, every animation cursor is in range, and every
      enemy is on patrol. */
  ghost predicate StageOk(st: Stage, a: Assets) {
    && a.tileWidth > 0
    && st.tiles == GroundRow(a.tileWidth, a.tileHeight)
    && InRange(st.hero.anim)
    && forall i | 0 <= i < |st.enemies| :: InRange(st.enemies[i].anim) && OnPatrol(st.enemies[i])
  }

  ghost predicate Valid(w: World, a: Assets) {
    && AssetsOk(a)
    && (w.state == Playing ==> w.stage.Some?)
    && (w.stage.Some? ==> StageOk(w.stage.value, a))
  }

  /** The hero's and an enemy's actors collide. */
  predicate Caught(h: Hero, e: Enemy, a: Assets) {
    Overlaps(Bounds(h.body, a.hero), Bounds(e.body, a.enemy))
  }

  /** The button actions `start_game`, `toggle_music` and `exit_game`. */
  function Perform(action: Action, w: World, a: Assets, spawn: Spawn): (r: World)
    requires a.tileWidth > 0
    ensures r.state == (if action == Start then Playing else w.state)
    ensures r.stage == (if action == Start then Some(Reset(a, spawn)) else w.stage)
    ensures r.musicOn == (w.musicOn != (action == ToggleMusic))
    ensures r.quit == (w.quit || action == Exit)
    ensures Valid(w, a) ==> Valid(r, a)
  {
    match action
    case Start => w.(state := Playing, stage := Some(Reset(a, spawn)))
    case ToggleMusic => w.(musicOn := !w.musicOn)
    case Exit => w.(quit := true)
  }

  /** The button loop of `on_mouse_down`: every button in order runs its
      action if it contains the point. */
  function PressAll(w: World, bs: seq<Button>, px: real, py: real, a: Assets, spawn: Spawn): (r: World)
    requires a.tileWidth > 0
    ensures r.quit <==> w.quit || exists j | 0 <= j < |bs| :: bs[j].action == Exit && Contains(bs[j].rect, px, py)
    ensures r.state == Playing <==>
              w.state == Playing || exists j | 0 <= j < |bs| :: bs[j].action == Start && Contains(bs[j].rect, px, py)
    ensures Valid(w, a) ==> Valid(r, a)
    decreases |bs|
  {
    if |bs| == 0 then w
    else
      var w' := if Contains(bs[0].rect, px, py) then Perform(bs[0].action, w, a, spawn) else w;
      PressAll(w', bs[1..], px, py, a, spawn)
  }

  /** `on_mouse_down`: clicks are honoured only on the menu. The only way
      to leave the menu is the Start button, which rebuilds the level. */
  function Click(w: World, px: real, py: real, a: Assets, spawn: Spawn): (r: World)
    requires a.tileWidth > 0
    ensures w.state == Playing ==> r == w
    ensures w.state == Menu && r.state == Playing ==>
              Contains(Buttons[0].rect, px, py) && r.stage == Some(Reset(a, spawn))
    ensures Valid(w, a) ==> Valid(r, a)
  {
    if w.state == Menu then
      ButtonsDisjoint(px, py);
      if Contains(Buttons[0].rect, px, py) then
        PressHit(w, Buttons, 0, px, py, a, spawn);
        PressAll(w, Buttons, px, py, a, spawn)
      else if Contains(Buttons[1].rect, px, py) then
        PressHit(w, Buttons, 1, px, py, a, spawn);
        PressAll(w, Buttons, px, py, a, spawn)
      else if Contains(Buttons[2].rect, px, py) then
        PressHit(w, Buttons, 2, px, py, a, spawn);
        PressAll(w, Buttons, px, py, a, spawn)
      else
        PressMiss(w, Buttons, px, py, a, spawn);
        PressAll(w, Buttons, px, py, a, spawn)
    else w
  }

  /** No point lies in two menu buttons, so one click fires at most one action. */
  lemma ButtonsDisjoint(px: real, py: real)
    ensures forall j, k | 0 <= j < k < |Buttons| ::
              !(Contains(Buttons[j].rect, px, py) && Contains(Buttons[k].rect, px, py))
  {
  }

  /** A click that misses every button changes nothing. */
  lemma {:induction false} PressMiss(w: World, bs: seq<Button>, px: real, py: real, a: Assets, spawn: Spawn)
    requires a.tileWidth > 0
    requires forall j | 0 <= j < |bs| :: !Contains(bs[j].rect, px, py)
    ensures PressAll(w, bs, px, py, a, spawn) == w
    decreases |bs|
  {
    if |bs| > 0 {
      assert !Contains(bs[0].rect, px, py);
      PressMiss(w, bs[1..], px, py, a, spawn);
    }
  }

  /** A click inside exactly one button runs exactly that button's action. */
  lemma {:induction false} PressHit(w: World, bs: seq<Button>, j: nat, px: real, py: real, a: Assets, spawn: Spawn)
    requires a.tileWidth > 0
    requires j < |bs| && Contains(bs[j].rect, px, py)
    requires forall k | 0 <= k < |bs| && k != j :: !Contains(bs[k].rect, px, py)
    ensures PressAll(w, bs, px, py, a, spawn) == Perform(bs[j].action, w, a, spawn)
    decreases |bs|
  {
    if j == 0 {
      PressMiss(Perform(bs[0].action, w, a, spawn), bs[1..], px, py, a, spawn);
    } else {
      assert !Contains(bs[0].rect, px, py);
      PressHit(w, bs[1..], j - 1, px, py, a, spawn);
    }
  }

  /** Click dispatch on the menu: a click inside a button runs that button's
      action and nothing else; a click outside every button changes nothing. */
  lemma ClickDispatch(w: World, px: real, py: real, a: Assets, spawn: Spawn)
    requires a.tileWidth > 0 && w.state == Menu
    ensures forall j | 0 <= j < |Buttons| && Contains(Buttons[j].rect, px, py) ::
              Click(w, px, py, a, spawn) == Perform(Buttons[j].action, w, a, spawn)
    ensures (forall j | 0 <= j < |Buttons| :: !Contains(Buttons[j].rect, px, py)) ==>
              Click(w, px, py, a, spawn) == w
  {
    ButtonsDisjoint(px, py);
    forall j | 0 <= j < |Buttons| && Contains(Buttons[j].rect, px, py)
      ensures Click(w, px, py, a, spawn) == Perform(Buttons[j].action, w, a, spawn)
    {
      PressHit(w, Buttons, j, px, py, a, spawn);
    }
    if forall j | 0 <= j < |Buttons| :: !Contains(Buttons[j].rect, px, py) {
      PressMiss(w, Buttons, px, py, a, spawn);
    }
  }

  /** Clicking at (400, 185) on the menu starts the game: the state becomes
      playing, the level is rebuilt, and the music flag is unchanged. */
  lemma ClickStartsGame(w: World, a: Assets, spawn: Spawn)
    requires a.tileWidth > 0 && w.state == Menu
    ensures Click(w, 400.0, 185.0, a, spawn) == w.(state := Playing, stage := Some(Reset(a, spawn)))
  {
    ClickDispatch(w, 400.0, 185.0, a, spawn);
    assert Contains(Buttons[0].rect, 400.0, 185.0);
  }

  /** `toggle_music` flips the music flag and touches nothing else; doing it
      twice restores the world. */
  lemma ToggleMusicInvolution(w: World, a: Assets, spawn: Spawn)
    requires a.tileWidth > 0
    ensures Perform(ToggleMusic, w, a, spawn) == w.(musicOn := !w.musicOn)
    ensures Perform(ToggleMusic, Perform(ToggleMusic, w, a, spawn), a, spawn) == w
  {
  }

  /** The enemy loop of `update`. It iterates over `olds`, the enemy list as
      it was when the loop began. Until the first reset of the tick
      (`resets == 0`) each updated enemy is stored back into the stage; after
      a reset the stage holds the new enemies, and the remaining old enemies
      are still updated and checked for a collision with the new hero, but are no longer
      part of the world. The `n`-th reset of the tick spawns with `roll(n)`. */
  function EnemyPass(st: Stage, olds: seq<Enemy>, i: nat, resets: nat, a: Assets, roll: nat -> Spawn): (r: Stage)
    requires a.tileWidth > 0 && i <= |olds|
    requires resets == 0 ==> |st.enemies| == |olds|
    requires forall j | i <= j < |olds| :: |olds[j].anim.frames| > 0 && 0.0 <= olds[j].anim.cursor
    ensures r.hero == st.hero || r.hero == NewHero()
    ensures r.tiles == st.tiles || r.tiles == GroundRow(a.tileWidth, a.tileHeight)
    ensures |r.enemies| == |st.enemies| || |r.enemies| == 2
    ensures r.hero != st.hero ==> r.hero == NewHero() && r.tiles == GroundRow(a.tileWidth, a.tileHeight) && |r.enemies| == 2
    decreases |olds| - i
  {
    if i == |olds| then st
    else
      var e := EnemyStep(olds[i], a.enemy, st.tiles);
      var st1 := if resets == 0 then st.(enemies := st.enemies[i := e]) else st;
      if Caught(st1.hero, e, a) then EnemyPass(Reset(a, roll(resets)), olds, i + 1, resets + 1, a, roll)
      else EnemyPass(st1, olds, i + 1, resets, a, roll)
  }

  /** `update`: nothing happens on the menu; while playing, the hero moves,
      then every enemy moves and a collision with the hero resets the level. */
  function Tick(w: World, keys: Keys, a: Assets, roll: nat -> Spawn): (r: World)
    requires Valid(w, a)
    ensures w.state == Menu ==> r == w
    ensures r.state == w.state && r.musicOn == w.musicOn && r.quit == w.quit
    ensures r.stage.Some? == w.stage.Some?
  {
    if w.state == Menu then w
    else
      var st := w.stage.value;
      var hero := HeroStep(st.hero, keys, a.hero, st.tiles);
      w.(stage := Some(EnemyPass(st.(hero := hero), st.enemies, 0, 0, a, roll)))
  }

  /** The stage is the one some reset of this tick built. */
  ghost predicate FreshlyReset(st: Stage, a: Assets, roll: nat -> Spawn)
    requires a.tileWidth > 0
  {
    exists k: nat :: st == Reset(a, roll(k))
  }

  /** After a reset, the rest of the loop can only reset again. */
  lemma {:induction false} PassAfterReset(st: Stage, olds: seq<Enemy>, i: nat, resets: nat, a: Assets, roll: nat -> Spawn)
    requires a.tileWidth > 0 && i <= |olds| && resets > 0
    requires forall j | i <= j < |olds| :: |olds[j].anim.frames| > 0 && 0.0 <= olds[j].anim.cursor
    requires FreshlyReset(st, a, roll)
    ensures FreshlyReset(EnemyPass(st, olds, i, resets, a, roll), a, roll)
    decreases |olds| - i
  {
    if i < |olds| {
      var e := EnemyStep(olds[i], a.enemy, st.tiles);
      if Caught(st.hero, e, a) {
        PassAfterReset(Reset(a, roll(resets)), olds, i + 1, resets + 1, a, roll);
      } else {
        PassAfterReset(st, olds, i + 1, resets, a, roll);
      }
    }
  }

  /** A loop in which no updated enemy touches the hero stores every updated
      enemy and leaves the hero and the tiles alone. */
  lemma {:induction false} PassWithoutCatch(st: Stage, olds: seq<Enemy>, i: nat, a: Assets, roll: nat -> Spawn)
    requires a.tileWidth > 0 && i <= |olds| && |st.enemies| == |olds|
    requires forall j | i <= j < |olds| :: |olds[j].anim.frames| > 0 && 0.0 <= olds[j].anim.cursor
    requires forall j | i <= j < |olds| :: !Caught(st.hero, EnemyStep(olds[j], a.enemy, st.tiles), a)
    ensures var r := EnemyPass(st, olds, i, 0, a, roll);
            && r.hero == st.hero && r.tiles == st.tiles && |r.enemies| == |olds|
            && (forall j | 0 <= j < i :: r.enemies[j] == st.enemies[j])
            && (forall j | i <= j < |olds| :: r.enemies[j] == EnemyStep(olds[j], a.enemy, st.tiles))
    decreases |olds| - i
  {
    if i < |olds| {
      var e := EnemyStep(olds[i], a.enemy, st.tiles);
      PassWithoutCatch(st.(enemies := st.enemies[i := e]), olds, i + 1, a, roll);
    }
  }

  /** A loop in which some updated enemy touches the hero ends with a freshly
      reset stage. */
  lemma {:induction false} PassWithCatch(st: Stage, olds: seq<Enemy>, i: nat, a: Assets, roll: nat -> Spawn)
    requires a.tileWidth > 0 && i <= |olds| && |st.enemies| == |olds|
    requires forall j | i <= j < |olds| :: |olds[j].anim.frames| > 0 && 0.0 <= olds[j].anim.cursor
    requires exists j | i <= j < |olds| :: Caught(st.hero, EnemyStep(olds[j], a.enemy, st.tiles), a)
    ensures FreshlyReset(EnemyPass(st, olds, i, 0, a, roll), a, roll)
    decreases |olds| - i
  {
    var e := EnemyStep(olds[i], a.enemy, st.tiles);
    if Caught(st.hero, e, a) {
      PassAfterReset(Reset(a, roll(0)), olds, i + 1, 1, a, roll);
    } else {
      PassWithCatch(st.(enemies := st.enemies[i := e]), olds, i + 1, a, roll);
    }
  }

  /** The enemy loop keeps the stage invariant: every stored enemy is still on
      patrol with its cursor in range, and a reset stage satisfies it anew. */
  lemma {:induction false} PassKeepsStageOk(st: Stage, olds: seq<Enemy>, i: nat, resets: nat, a: Assets, roll: nat -> Spawn)
    requires a.tileWidth > 0 && i <= |olds|
    requires resets == 0 ==> |st.enemies| == |olds|
    requires forall j | i <= j < |olds| :: |olds[j].anim.frames| > 0 && 0.0 <= olds[j].anim.cursor && OnPatrol(olds[j])
    requires StageOk(st, a)
    ensures StageOk(EnemyPass(st, olds, i, resets, a, roll), a)
    decreases |olds| - i
  {
    if i < |olds| {
      var e := EnemyStep(olds[i], a.enemy, st.tiles);
      PatrolStaysInBounds(olds[i], a.enemy, st.tiles);
      var st1 := if resets == 0 then st.(enemies := st.enemies[i := e]) else st;
      assert StageOk(st1, a);
      if Caught(st1.hero, e, a) {
        PassKeepsStageOk(Reset(a, roll(resets)), olds, i + 1, resets + 1, a, roll);
      } else {
        PassKeepsStageOk(st1, olds, i + 1, resets, a, roll);
      }
    }
  }

  /** Every tick keeps the world invariant. */
  lemma TickKeepsValid(w: World, keys: Keys, a: Assets, roll: nat -> Spawn)
    requires Valid(w, a)
    ensures Valid(Tick(w, keys, a, roll), a)
  {
    if w.state == Playing {
      var st := w.stage.value;
      var hero := HeroStep(st.hero, keys, a.hero, st.tiles);
      PassKeepsStageOk(st.(hero := hero), st.enemies, 0, 0, a, roll);
    }
  }

  /** A playing tick without a collision: the hero takes its step and every
      enemy takes its step, in place, over the same tiles. */
  lemma TickWithoutCatch(w: World, keys: Keys, a: Assets, roll: nat -> Spawn)
    requires Valid(w, a) && w.state == Playing
    requires var st := w.stage.value;
             forall j | 0 <= j < |st.enemies| ::
               !Caught(HeroStep(st.hero, keys, a.hero, st.tiles), EnemyStep(st.enemies[j], a.enemy, st.tiles), a)
    ensures var st := w.stage.value;
            var r := Tick(w, keys, a, roll).stage.value;
            && r.hero == HeroStep(st.hero, keys, a.hero, st.tiles)
            && r.tiles == st.tiles
            && |r.enemies| == |st.enemies|
            && forall j | 0 <= j < |st.enemies| :: r.enemies[j] == EnemyStep(st.enemies[j], a.enemy, st.tiles)
  {
    var st := w.stage.value;
    var hero := HeroStep(st.hero, keys, a.hero, st.tiles);
    PassWithoutCatch(st.(hero := hero), st.enemies, 0, a, roll);
  }

  /** A playing tick in which an updated enemy touches the hero ends with the
      level rebuilt: still playing, the hero back at the spawn point at rest,
      and exactly two enemies. */
  lemma TickWithCatch(w: World, keys: Keys, a: Assets, roll: nat -> Spawn)
    requires Valid(w, a) && w.state == Playing
    requires var st := w.stage.value;
             exists j | 0 <= j < |st.enemies| ::
               Caught(HeroStep(st.hero, keys, a.hero, st.tiles), EnemyStep(st.enemies[j], a.enemy, st.tiles), a)
    ensures var r := Tick(w, keys, a, roll);
            && r.state == Playing
            && FreshlyReset(r.stage.value, a, roll)
            && r.stage.value.hero.body == Body(120.0, GroundY as real, 0.0, false)
            && |r.stage.value.enemies| == 2
  {
    var st := w.stage.value;
    var hero := HeroStep(st.hero, keys, a.hero, st.tiles);
    PassWithCatch(st.(hero := hero), st.enemies, 0, a, roll);
  }

  /** One event delivered by the host: a frame tick with the held keys and
      the spawn headings its resets would draw, or a mouse press. */
  datatype Event = Frame(keys: Keys, roll: nat -> Spawn) | Press(px: real, py: real, spawn: Spawn)

  /** The world after one event. */
  function Deliver(w: World, ev: Event, a: Assets): (r: World)
    requires Valid(w, a)
    ensures Valid(r, a)
  {
    match ev
    case Frame(keys, roll) =>
      TickKeepsValid(w, keys, a, roll);
      Tick(w, keys, a, roll)
    case Press(px, py, spawn) =>
      Click(w, px, py, a, spawn)
  }

  /** The world after a sequence of events. */
  function Replay(w: World, events: seq<Event>, a: Assets): World
    requires Valid(w, a)
    decreases |events|
  {
    if |events| == 0 then w else Replay(Deliver(w, events[0], a), events[1..], a)
  }

  /** The initial world satisfies the invariant. */
  lemma InitialValid(a: Assets)
    requires AssetsOk(a)
    ensures Valid(Initial(), a) && Initial().state == Menu && Initial().musicOn
  {
  }

  /** There is no way back to the menu: once playing, the game stays playing
      whatever events follow, and the music flag no longer changes. */
  lemma {:induction false} PlayingIsFinal(w: World, events: seq<Event>, a: Assets)
    requires Valid(w, a) && w.state == Playing
    ensures Replay(w, events, a).state == Playing
    ensures Replay(w, events, a).musicOn == w.musicOn
    decreases |events|
  {
    if |events| > 0 {
      var w' := Deliver(w, events[0], a);
      PlayingIsFinal(w', events[1..], a);
    }
  }
}
