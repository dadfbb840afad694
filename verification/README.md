# A Dafny model of a Pygame Zero platformer's game core

The game is a small platformer. A menu offers three buttons: start, music on/off and exit. Once playing, a hero walks, falls under gravity and jumps on a row of ground tiles. Two enemies patrol between fixed x-bounds, and touching an enemy rebuilds the level. This project models the deterministic core under the rendering, audio and frame-driver plumbing. It is one immutable `World` value, and pure functions replace it on every tick and every mouse press.

Modules, leaves first:

- `Geometry` (geometry.dfy): window constants (`WIDTH`, `HEIGHT`, `GROUND_Y`), rectangles, and the two hit tests with pygame semantics. `Overlaps` is `colliderect` with open interiors, so rects sharing only an edge do not collide. `Contains` is `collidepoint`, which is half-open. `ActorBounds` gives the bounds of a centre-anchored Actor.
- `Animation` (animation.dfy): the `AnimatedSprite` cursor. `Advance` adds an increment and wraps to 0 when the cursor reaches the frame-list length. `InRange` is its range invariant.
- `Physics` (physics.dfy): the gravity-and-landing step that `Hero.update` and `Enemy.update` both contain. It is written once, as `Fall`. `Land` is the tile loop exactly as written: tiles in order, and a later snap overrides an earlier one.
- `Heroes` (heroes.dfy): `Hero.update` as `HeroStep`, in the source's order. That order is horizontal input, then `Fall`, then the held-key jump, then idle/walk animation.
- `Enemies` (enemies.dfy): `Enemy.update` as `EnemyStep`. The enemy moves, turns on an inclusive bound test, then runs `Fall` and `animate`. `OnPatrol` is the patrol invariant.
- `Level` (level.dfy): `reset_game` as `Reset`. The tile loop appears both as the method `LayTiles` and as the reference function `GroundRow`.
- `Game` (game.dfy): the menu/playing state machine. The button actions are the enum `Action` = {Start, ToggleMusic, Exit}. `Click` models `on_mouse_down`. `Tick` models `update`, whose enemy loop (`EnemyPass`) iterates over a snapshot of the enemy list, as Python does when `reset_game` rebinds `enemies` mid-loop. `Valid` is the invariant of every reachable world.

Positions and velocities are exact reals. The constants 0.5, 0.15, 0.2 and 0.06 are exact there, and Python's `int(frame_index)` on a non-negative cursor is `.Floor`. Sprite and tile sizes come from image files in the game, so here they are parameters (`Assets`). The random initial enemy heading is a parameter too (`Spawn`). Within one tick, the n-th reset uses `roll(n)`.

The button loop in `on_mouse_down` has no `break`: it tests every button and runs every action whose rect contains the point. It does not stop at the first match, and the model keeps that. `ButtonsDisjoint` shows that at most one button can match a point, so one click runs at most one action.

## Model

| member | source | states |
|---|---|---|
| Animation.Start | PGZero/main.py:41-44 | A new sprite's cursor is 0 and it shows the first frame; the range invariant holds. |
| Animation.Advance | PGZero/main.py:104-114 | After a step onto a frame list, 0 <= cursor < len(frames) and the image is `frames[int(cursor)]`. The cursor moved on by the increment, or it became 0 because it reached the list's length. |
| Animation.Animate | PGZero/main.py:46-50 | `animate` keeps the sprite's own frame list. The cursor moves on by 0.15, or becomes 0 once that reaches the list's length. It stays in range, with the image the frame it selects. |
| Animation.Run | PGZero/main.py:46-50 | Any number of steps over one list keeps the cursor non-negative and, after at least one step, in range. |
| Animation.RunWithoutWrap | PGZero/main.py:46-50 | From cursor 0, after k steps the cursor is k·delta while that stays below the list length (exact arithmetic). |
| Animation.ElapsedIsProduct | PGZero/main.py:47 | The running total of k increments of delta is k·delta. |
| Animation.WrapsAtCeiling | PGZero/main.py:46-50 | From cursor 0, the cursor first returns to 0 after the least k whose running total of increments reaches len, i.e. ceil(len/delta) ticks. Before that, after j steps it equals the positive total so far. |
| Physics.SnapOnto | PGZero/main.py:93-95 | A snapped body has its bottom edge on the tile's top, zero velocity and the grounded flag, at the same x. |
| Physics.Land | PGZero/main.py:90-95 | The tile loop leaves the body untouched, or grounds it at rest with its bottom on the top of one of the tiles; x never changes. |
| Physics.Fall | PGZero/main.py:85-95 | After gravity and landing, a grounded body has zero velocity. A body that is not grounded is exactly the gravity step: velocity + 0.5, then y + new velocity. |
| Physics.LandMisses | PGZero/main.py:90-95 | A rising body, or one overlapping no tile, passes the tile loop unchanged, whatever the tiles. |
| Physics.LandOnSharedTop | PGZero/main.py:90-95 | With all tiles on one top edge, the loop snaps the body exactly when it moves down and overlaps some tile, and leaves it unchanged otherwise. |
| Physics.LandingOrderIndependent | PGZero/main.py:150-155 | For tiles sharing a top edge, any reordering (same multiset) gives the same landing. |
| Physics.FallLands | PGZero/main.py:86-95 | If after gravity the body moves down and overlaps a tile, it ends with bottom = the tiles' top, velocity 0 and grounded. |
| Physics.FreeFall | PGZero/main.py:86-92 | If after gravity the body is rising or overlaps no tile, it is not grounded, velocity is old + 0.5 and y is old y + old velocity + 0.5. |
| Heroes.NewHero | PGZero/main.py:60-70 | A new hero stands at (120, GROUND_Y) with velocity 0, not grounded, on the idle frames with cursor 0 and the range invariant. |
| Heroes.HeroStep | PGZero/main.py:72-114 | The hero's body is the shared `Fall` after the horizontal move. If it landed with jump held, that same body instead gets velocity -10 and is not grounded; nothing else changes. Grounded implies velocity 0. With a direction key held the animation uses the walk list and the cursor moves on by 0.2; otherwise it uses the idle list and moves on by 0.06. Either way the cursor becomes 0 once it reaches 2, and it stays in range. |
| Heroes.SteerMoves | PGZero/main.py:76-83 | Left alone moves x by -3, right alone by +3, both or neither leave x unchanged. |
| Heroes.JumpOnlyFromGround | PGZero/main.py:97-101 | A hero that was not rising faster than 0.5 per tick, and ends a tick at jump velocity, had landed this tick with the jump key held. |
| Heroes.IdleCycleLength | PGZero/main.py:107-112 | 34 idle-rate steps from a fresh idle animation bring the cursor back to 0 (34 is the least k with k·0.06 >= 2); after every earlier step it is positive. |
| Heroes.StandingStill | PGZero/main.py:72-114 | After k ticks with neither direction key held, a new hero's animation is exactly k idle-rate steps over the idle frames. This holds whatever the jump key and the tiles do. |
| Heroes.IdleHeroCycle | PGZero/main.py:104-114 | A new hero that holds neither direction key for 34 ticks has its cursor back at 0 after the 34th tick, and past 0 after every earlier one. |
| Heroes.HeroFrameInBounds | PGZero/main.py:111-114 | After any hero step `int(frame_index)` indexes the current frame list and the image is that frame. |
| Enemies.NewEnemy | PGZero/main.py:124-135 | A new enemy stands at (x, GROUND_Y) with velocity 0, not grounded. It has the given bounds and heading, and it is on the enemy frames with cursor 0 and the range invariant. |
| Enemies.NewEnemyOnPatrol | PGZero/main.py:124-135 | A new enemy strictly between its bounds, at even whole distances from the left one, is on patrol whichever way it heads. |
| Enemies.EnemyStep | PGZero/main.py:137-157 | x moves by 2·direction. The heading flips exactly when the new x is <= the left bound or >= the right bound. The body is then the shared `Fall` and the bounds are kept. The animation is `animate`'s step (+0.15, wrapping to 0) and stays in range. |
| Enemies.PatrolStaysInBounds | PGZero/main.py:139-142 | A step keeps the patrol invariant: an enemy at an even whole distance from both bounds, heading inward when at one, stays within its bounds. |
| Level.RowFromShape | PGZero/main.py:257-263 | Every laid tile has the tile size and the shared top, starts at or after the loop's x and inside the window; the row is empty only if x starts past the window, starts at x, and its last tile reaches the right edge. |
| Level.LayTiles | PGZero/main.py:257-263 | The while loop produces exactly the reference ground row. |
| Level.RowFromLeft | PGZero/main.py:257-263 | Tile i of the row has its left edge at x + i·w. |
| Level.RowFromCount | PGZero/main.py:257-263 | The row has the least number n of tiles that covers the window: (n-1)·w < remaining width <= n·w. |
| Level.GroundRowLayout | PGZero/main.py:249-263 | The ground row has ceil(WIDTH/w) tiles, tile i at left i·w, all on one top edge, every left < WIDTH and the last right edge >= WIDTH. |
| Level.TwentyTilesOfForty | PGZero/main.py:249-263 | With 40-pixel tiles there are exactly 20 tiles and the last one ends at 800. |
| Level.Reset | PGZero/main.py:240-263 | The hero is a new hero, at (120, GROUND_Y) at rest on idle frames. There are exactly two new enemies: one at 420 with bounds (380, 520) and the first drawn heading, and one at 650 with bounds (600, 750) and the second. Both are on patrol. The tiles are the ground row. |
| Game.Perform | PGZero/main.py:164-180 | `start_game` alone sets playing and rebuilds the level. `toggle_music` alone flips the music flag, and `exit_game` alone sets the quit flag. Every action keeps the world invariant. |
| Game.PressAll | PGZero/main.py:32-34 | Running every button whose rect contains the point sets the quit flag exactly when it was set or some containing button is Exit. It ends playing exactly when it was playing or some containing button is Start. It keeps the world invariant. |
| Game.Click | PGZero/main.py:234-237 | A click while playing changes nothing. A click that leaves the menu hit the Start button and rebuilt the level. Clicks keep the world invariant. |
| Game.ButtonsDisjoint | PGZero/main.py:186-190 | No point lies in two of the three button rects. |
| Game.PressMiss | PGZero/main.py:32-34 | A point outside every button runs no action. |
| Game.PressHit | PGZero/main.py:32-34 | A point inside exactly one button runs exactly that button's action. |
| Game.ClickDispatch | PGZero/main.py:234-237 | On the menu a click inside button j runs button j's action and nothing else; a click outside every button changes nothing. |
| Game.ClickStartsGame | PGZero/main.py:164-167 | On the menu, a click at (400, 185) sets playing and rebuilds the level, leaving the music flag alone. |
| Game.ToggleMusicInvolution | PGZero/main.py:170-176 | `toggle_music` flips only the music flag; applying it twice restores the world. |
| Game.Tick | PGZero/main.py:203-210 | `update` is inert on the menu; it never changes the state, the music flag or the quit flag. |
| Game.EnemyPass | PGZero/main.py:206-210 | The snapshot enemy loop changes the hero, the tiles and the enemy count only through a reset. If the hero changed, it is a new hero on the ground row with exactly two enemies. |
| Game.PassAfterReset | PGZero/main.py:206-210 | Once the loop has reset the level, the stage stays a freshly reset one; the remaining old enemies only trigger further resets. |
| Game.PassWithoutCatch | PGZero/main.py:206-210 | With no collision, each enemy is replaced by its updated self in place, and the hero and tiles are untouched. |
| Game.PassWithCatch | PGZero/main.py:206-210 | If some updated enemy touches the hero, the loop ends with a freshly reset stage. |
| Game.PassKeepsStageOk | PGZero/main.py:206-210 | The enemy loop keeps every stored enemy on patrol with its cursor in range, and the tiles the ground row. |
| Game.TickKeepsValid | PGZero/main.py:203-210 | Every tick keeps the world invariant: stage present while playing, cursors in range, enemies on patrol. |
| Game.TickWithoutCatch | PGZero/main.py:203-210 | A playing tick without collision yields the stepped hero and every stepped enemy over the same tiles. |
| Game.TickWithCatch | PGZero/main.py:203-210 | A playing tick with a hero–enemy overlap ends still playing, with a freshly reset stage, the hero at (120, GROUND_Y) at rest and exactly two enemies. |
| Game.InitialValid | PGZero/main.py:9-11 | The game starts on the menu with music on, and that world satisfies the invariant. |
| Game.PlayingIsFinal | PGZero/main.py:164-166 | Once playing, every sequence of ticks and clicks keeps the game playing and the music flag fixed. |

## Left out

- Rendering: `draw`, `Button.draw`, `AnimatedSprite.draw` and every `screen.*` call are output with no game logic.
- Audio: `music.play`, `music.set_volume`, `music.pause`/`unpause` and the `jump`/`hit` sound effects have no effect on game state and are not modelled. `toggle_music` is modelled as the flag flip alone.
- Exit: `exit_game` ends the process. The model sets the `quit` flag and assumes the host stops delivering events. Exit is the last button, so ending the button loop early changes nothing.
- Randomness: `random.choice([-1, 1])` for an enemy's heading is the caller-supplied `Spawn`. Inside a tick, the n-th reset uses `roll(n)`.
- Image geometry: sprite and tile sizes come from image files, so they are the parameters `Assets`. Every frame of the hero is assumed to have the same size, and likewise every frame of an enemy.
- Floating point: the model uses exact reals. Python's floats make 0.2 added ten times slightly less than 2.0, so walking wraps one tick later than `WrapsAtCeiling` says. The range invariant does not depend on this.
- Frame driver: the loop that calls `update`, `draw` and `on_mouse_down` is external. `Replay` only feeds a given sequence of events.
- Animation.Advance: requires a non-negative cursor. `frame_index` starts at 0 and only grows or resets to 0, so that always holds.
- Game.Tick: requires the world invariant `Valid`. Before the first reset `hero` and `enemies` do not exist, and `update` would fail while playing. Only `start_game` makes the game playing, and it resets first.
- Physics.LandOnSharedTop: order independence is proved only when all tiles share one top edge, which is the only layout `reset_game` builds. For tiles at different heights, `Land` still models the loop as written, where the last tile wins.
- Heroes.JumpOnlyFromGround: also requires velocity >= -0.5 before the tick. A hero rising at 10.5 per tick would reach -10 by gravity alone.
