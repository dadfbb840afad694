/** The animation cursor shared by the hero and the enemies: a list of frame
    names, a real-valued cursor into it, and the frame currently shown. */
module Animation {

  type Frame = string

  datatype Anim = Anim(frames: seq<Frame>, cursor: real, image: Frame)

  /** Per-tick increment used by `AnimatedSprite.animate`. */
  const SpriteRate: real := 0.15

  /** The range invariant: the cursor lies in [0, |frames|) and the image
      shown is the frame the cursor selects, so `frames[int(cursor)]` is a
      valid index. */
  predicate InRange(a: Anim) {
    0.0 <= a.cursor < |a.frames| as real && a.image == a.frames[a.cursor.Floor]
  }

  /** A freshly constructed sprite: cursor 0, showing the first frame. */
  function Start(frames: seq<Frame>): (a: Anim)
    requires |frames| > 0
    ensures InRange(a) && a.frames == frames && a.cursor == 0.0 && a.image == frames[0]
  {
    Anim(frames, 0.0, frames[0])
  }

  /** One animation step onto the frame list `frames` (the hero swaps lists
      every tick): the cursor moves on by `delta`, and once it reaches the
      length of the list it wraps to 0. */
  function Advance(a: Anim, frames: seq<Frame>, delta: real): (r: Anim)
    requires |frames| > 0 && 0.0 <= a.cursor && 0.0 <= delta
    ensures InRange(r) && r.frames == frames
    ensures a.cursor + delta < |frames| as real ==> r.cursor == a.cursor + delta
    ensures a.cursor + delta >= |frames| as real ==> r.cursor == 0.0
  {
    var c := a.cursor + delta;
    var c' := if c >= |frames| as real then 0.0 else c;
    Anim(frames, c', frames[c'.Floor])
  }

  /** `AnimatedSprite.animate`: advance over the sprite's own frame list. */
  function Animate(a: Anim): (r: Anim)
    requires |a.frames| > 0 && 0.0 <= a.cursor
    ensures InRange(r) && r.frames == a.frames
    ensures a.cursor + SpriteRate < |a.frames| as real ==> r.cursor == a.cursor + SpriteRate
    ensures a.cursor + SpriteRate >= |a.frames| as real ==> r.cursor == 0.0
  {
    Advance(a, a.frames, SpriteRate)
  }

  /** `k` consecutive steps over the same frame list at the same rate. */
  function Run(a: Anim, frames: seq<Frame>, delta: real, k: nat): (r: Anim)
    requires |frames| > 0 && 0.0 <= a.cursor && 0.0 <= delta
    ensures 0.0 <= r.cursor
    ensures k > 0 ==> InRange(r) && r.frames == frames
    decreases k
  {
    if k == 0 then a else Advance(Run(a, frames, delta, k - 1), frames, delta)
  }

  /** `k` increments of `delta` added up. */
  function Elapsed(k: nat, delta: real): real {
    if k == 0 then 0.0 else Elapsed(k - 1, delta) + delta
  }

  /** The running total of `k` increments is `k * delta`. */
  lemma {:induction false} ElapsedIsProduct(k: nat, delta: real)
    ensures Elapsed(k, delta) == k as real * delta
  {
    if k > 0 {
      ElapsedIsProduct(k - 1, delta);
      assert k as real * delta == (k - 1) as real * delta + delta;
    }
  }

  lemma {:induction false} ElapsedMonotone(j: nat, k: nat, delta: real)
    requires j <= k && 0.0 < delta
    ensures Elapsed(j, delta) <= Elapsed(k, delta)
    ensures j < k ==> Elapsed(j, delta) < Elapsed(k, delta)
    decreases k
  {
    if j < k {
      ElapsedMonotone(j, k - 1, delta);
    }
  }

  /** Starting from cursor 0, the cursor after `k` steps is exactly the total
      of the increments for as long as that stays below the list length
      (exact arithmetic). */
  lemma {:induction false} RunWithoutWrap(a: Anim, frames: seq<Frame>, delta: real, k: nat)
    requires |frames| > 0 && a.cursor == 0.0 && 0.0 < delta
    requires Elapsed(k, delta) < |frames| as real
    ensures Run(a, frames, delta, k).cursor == Elapsed(k, delta)
  {
    if k > 0 {
      ElapsedMonotone(k - 1, k, delta);
      RunWithoutWrap(a, frames, delta, k - 1);
    }
  }

  /** Starting from cursor 0, the cursor first returns to 0 after the least
      `k` steps whose total reaches the list length, that is after
      ceil(|frames| / delta) steps (exact arithmetic, see `ElapsedIsProduct`);
      every earlier step leaves it at the positive total so far. */
  lemma WrapsAtCeiling(a: Anim, frames: seq<Frame>, delta: real, k: nat)
    requires |frames| > 0 && a.cursor == 0.0 && 0.0 < delta
    requires 0 < k && Elapsed(k - 1, delta) < |frames| as real <= Elapsed(k, delta)
    ensures Run(a, frames, delta, k).cursor == 0.0
    ensures forall j | 0 < j < k :: Run(a, frames, delta, j).cursor == Elapsed(j, delta) > 0.0
  {
    RunWithoutWrap(a, frames, delta, k - 1);
    forall j | 0 < j < k
      ensures Run(a, frames, delta, j).cursor == Elapsed(j, delta) > 0.0
    {
      ElapsedMonotone(j, k - 1, delta);
      ElapsedMonotone(0, j, delta);
      RunWithoutWrap(a, frames, delta, j);
    }
  }
}
