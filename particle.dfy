// One block of an image and its moving representation (script.js:177-231).

module Particles {
  import opened Config

  /** True when the marking branch of an update applies: the particle is in
      the pointer's range and the cool-down after the last switch is over. */
  predicate Marks(inRange: bool, lastSwitchTime: int, now: int) {
    inRange && lastSwitchTime + SWITCH_COOLDOWN < now
  }

  class Particle {
    /** Grid position of the block in the decomposed image. */
    const originX: int
    const originY: int
    /** Position of the block within the part-set it was decomposed into. */
    const i: nat
    /** RGBA samples the particle is drawn with. */
    var colors: seq<byte>
    /** Set once the particle has taken the next image's colours. */
    var usingNextImg: bool
    /** Position and velocity of the float physics (only their initial values are modelled). */
    var x: real
    var y: real
    var vx: real
    var vy: real

    /** At the grid position it came from, not moving, not yet switched. */
    predicate AtRest()
      reads this
    {
      x == originX as real && y == originY as real && vx == 0.0 && vy == 0.0 && !usingNextImg
    }

    constructor (x: int, y: int, colors: seq<byte>, i: nat)
      ensures originX == x && originY == y && this.i == i && this.colors == colors
      ensures AtRest()
    {
      originX := x;
      originY := y;
      this.x := x as real;
      this.y := y as real;
      this.colors := colors;
      this.i := i;
      vx := 0.0;
      vy := 0.0;
      usingNextImg := false;
    }

    /** Takes the colours of the block in the same slot of the next image. */
    method UseNextImgColor(partSets: seq<seq<Particle>>, nextImgI: int)
      requires 0 <= nextImgI < |partSets| && i < |partSets[nextImgI]|
      modifies this`colors
      ensures colors == old(partSets[nextImgI][i].colors)
    {
      colors := partSets[nextImgI][i].colors;
    }

    /** The marking branch of one physics step: `inRange` stands for the
        pointer-distance test, `now` for the clock. */
    method Update(inRange: bool, now: int, lastSwitchTime: int, partSets: seq<seq<Particle>>, nextImgI: int)
      requires Marks(inRange, lastSwitchTime, now) ==> 0 <= nextImgI < |partSets| && i < |partSets[nextImgI]|
      modifies this`colors, this`usingNextImg
      ensures if Marks(inRange, lastSwitchTime, now)
              then usingNextImg && colors == old(partSets[nextImgI][i].colors)
              else usingNextImg == old(usingNextImg) && colors == old(colors)
    {
      if inRange {
        if lastSwitchTime + SWITCH_COOLDOWN < now {
          UseNextImgColor(partSets, nextImgI);
          usingNextImg := true;
        }
      }
    }

    /** A new particle for the same block: same origin, slot and colours, at rest. */
    method Clone() returns (c: Particle)
      ensures fresh(c)
      ensures c.originX == originX && c.originY == originY && c.i == i && c.colors == colors
      ensures c.AtRest()
    {
      c := new Particle(originX, originY, colors, i);
    }
  }
}
