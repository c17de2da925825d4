// The Effect object (script.js:51-82): the part-set of every image, the
// active particles, and the frame step of Effect.update (script.js:132-142)
// with Effect.checkImgSwitch (script.js:165-175).

module Effects {
  import opened Config
  import opened Particles
  import opened Decompose
  import opened Composite
  import opened Switching

  /** The frame buffer createImageData returns: every byte 0 (transparent black). */
  function Blank(): (frame: seq<byte>)
    ensures |frame| == FRAME_BYTES
  {
    seq(FRAME_BYTES, _ => 0)
  }

  /** The usingNextImg flag of each particle; checkImgSwitch counts the set
      ones with CountTrue. */
  function Flags(ps: seq<Particle>): (flags: seq<bool>)
    reads ps
    ensures |flags| == |ps|
  {
    seq(|ps|, k requires 0 <= k < |ps| reads ps => ps[k].usingNextImg)
  }

  /** The colours of each particle. */
  function Colors(ps: seq<Particle>): (colors: seq<seq<byte>>)
    reads ps
    ensures |colors| == |ps|
  {
    seq(|ps|, k requires 0 <= k < |ps| reads ps => ps[k].colors)
  }

  /** Every particle of a list of part-sets. */
  ghost function Members(pss: seq<seq<Particle>>): set<Particle> {
    set n, k | 0 <= n < |pss| && 0 <= k < |pss[n]| :: pss[n][k]
  }

  /** The colours of every part-set, slot by slot. */
  function AllColors(pss: seq<seq<Particle>>): (sets: seq<seq<seq<byte>>>)
    reads Members(pss)
    ensures |sets| == |pss| && forall n :: 0 <= n < |pss| ==> |sets[n]| == |pss[n]|
  {
    seq(|pss|, n requires 0 <= n < |pss| reads Members(pss) => Colors(pss[n]))
  }

  /** The forEach of checkImgSwitch: every particle takes the colours of its
      slot in part-set nextImgI and is unflagged. */
  method SwitchAll(ps: seq<Particle>, partSets: seq<seq<Particle>>, nextImgI: int)
    requires 0 <= nextImgI < |partSets| && |ps| <= |partSets[nextImgI]|
    requires Distinct(ps) && forall j :: 0 <= j < |ps| ==> ps[j].i == j
    requires forall j, m :: 0 <= j < |ps| && 0 <= m < |partSets[nextImgI]| ==> ps[j] != partSets[nextImgI][m]
    modifies ps`colors, ps`usingNextImg
    ensures forall j :: 0 <= j < |ps| ==> ps[j].colors == old(partSets[nextImgI][j].colors) && !ps[j].usingNextImg
  {
    var k := 0;
    while k < |ps|
      invariant 0 <= k <= |ps|
      invariant forall j :: 0 <= j < k ==> ps[j].colors == old(partSets[nextImgI][j].colors) && !ps[j].usingNextImg
    {
      ps[k].UseNextImgColor(partSets, nextImgI);
      ps[k].usingNextImg := false;
      k := k + 1;
    }
  }

  /** The first k particles have run their step, the others not yet: a
      particle that marks is flagged and takes its slot's colours from the
      next image (targets), every other keeps its flag and colours. */
  predicate SteppedUpTo(ps: seq<Particle>, k: int, inRange: seq<bool>, now: seq<int>, lastSwitchTime: int,
                        flags: seq<bool>, colors: seq<seq<byte>>, targets: seq<seq<byte>>)
    requires |inRange| == |ps| && |now| == |ps| && |flags| == |ps| && |colors| == |ps| && |targets| == |ps|
    reads ps
  {
    forall j :: 0 <= j < |ps| ==>
      var marks := j < k && Marks(inRange[j], lastSwitchTime, now[j]);
      ps[j].usingNextImg == (flags[j] || marks) &&
      ps[j].colors == if marks then targets[j] else colors[j]
  }

  /** Runs the step of particle k, which recolours it from the next image
      when it marks and touches no other particle. */
  method StepOne(ps: seq<Particle>, k: int, inRange: seq<bool>, now: seq<int>, lastSwitchTime: int,
                 partSets: seq<seq<Particle>>, nextImgI: int,
                 ghost flags: seq<bool>, ghost colors: seq<seq<byte>>, ghost targets: seq<seq<byte>>)
    requires |inRange| == |ps| && |now| == |ps| && |flags| == |ps| && |colors| == |ps| && |targets| == |ps|
    requires 0 <= k < |ps| && 0 <= nextImgI < |partSets| && |ps| <= |partSets[nextImgI]|
    requires Distinct(ps) && forall j :: 0 <= j < |ps| ==> ps[j].i == j
    requires forall j, m :: 0 <= j < |ps| && 0 <= m < |partSets[nextImgI]| ==> ps[j] != partSets[nextImgI][m]
    requires forall j :: 0 <= j < |ps| ==> partSets[nextImgI][j].colors == targets[j]
    requires SteppedUpTo(ps, k, inRange, now, lastSwitchTime, flags, colors, targets)
    modifies ps[k]
    ensures forall j :: 0 <= j < |ps| ==> partSets[nextImgI][j].colors == targets[j]
    ensures SteppedUpTo(ps, k + 1, inRange, now, lastSwitchTime, flags, colors, targets)
  {
    ps[k].Update(inRange[k], now[k], lastSwitchTime, partSets, nextImgI);
  }

  /** The cleared frame buffer update draws into. */
  method NewFrame() returns (frame: array<byte>)
    ensures fresh(frame) && frame[..] == Blank()
  {
    frame := new byte[FRAME_BYTES](_ => 0);
    assert frame[..] == Blank();
  }

  /** Draws particle k over the first k drawn so far. */
  method DrawNext(part: Particle, positions: seq<Point>, k: int, frame: array<byte>,
                  ghost blank: seq<byte>, ghost colors: seq<seq<byte>>)
    requires |blank| == FRAME_BYTES && |colors| == |positions| && 0 <= k < |positions|
    requires frame.Length == FRAME_BYTES && part.colors == colors[k]
    requires frame[..] == DrawAll(blank, colors[..k], positions[..k])
    modifies frame
    ensures frame[..] == DrawAll(blank, colors[..k + 1], positions[..k + 1])
  {
    DrawParticle(part, positions[k].x, positions[k].y, frame);
    DrawAllSnoc(blank, colors, positions, k);
  }

  /** One pass of the forEach: draws particle k, then runs its step. */
  method DrawAndStepOne(ps: seq<Particle>, positions: seq<Point>, k: int, frame: array<byte>, ghost blank: seq<byte>,
                        inRange: seq<bool>, now: seq<int>, lastSwitchTime: int,
                        partSets: seq<seq<Particle>>, nextImgI: int,
                        ghost flags: seq<bool>, ghost colors: seq<seq<byte>>, ghost targets: seq<seq<byte>>)
    requires |positions| == |ps| && |inRange| == |ps| && |now| == |ps| && |flags| == |ps| && |colors| == |ps| && |targets| == |ps|
    requires 0 <= k < |ps| && 0 <= nextImgI < |partSets| && |ps| <= |partSets[nextImgI]|
    requires Distinct(ps) && forall j :: 0 <= j < |ps| ==> ps[j].i == j
    requires forall j, m :: 0 <= j < |ps| && 0 <= m < |partSets[nextImgI]| ==> ps[j] != partSets[nextImgI][m]
    requires forall j :: 0 <= j < |ps| ==> partSets[nextImgI][j].colors == targets[j]
    requires SteppedUpTo(ps, k, inRange, now, lastSwitchTime, flags, colors, targets)
    requires |blank| == FRAME_BYTES && frame.Length == FRAME_BYTES
    requires frame[..] == DrawAll(blank, colors[..k], positions[..k])
    modifies frame, ps[k]
    ensures frame[..] == DrawAll(blank, colors[..k + 1], positions[..k + 1])
    ensures forall j :: 0 <= j < |ps| ==> partSets[nextImgI][j].colors == targets[j]
    ensures SteppedUpTo(ps, k + 1, inRange, now, lastSwitchTime, flags, colors, targets)
  {
    assert ps[k].colors == colors[k];
    DrawNext(ps[k], positions, k, frame, blank, colors);
    StepOne(ps, k, inRange, now, lastSwitchTime, partSets, nextImgI, flags, colors, targets);
  }

  /** The forEach of Effect.update: draws each particle at its rounded
      position into the frame, then runs its step, which marks it when it is
      in range past the cool-down. flags and colors are the particles' state
      on entry, targets the next image's colours for their slots. */
  method DrawAndStep(ps: seq<Particle>, positions: seq<Point>, inRange: seq<bool>, now: seq<int>,
                     lastSwitchTime: int, partSets: seq<seq<Particle>>, nextImgI: int,
                     ghost flags: seq<bool>, ghost colors: seq<seq<byte>>, ghost targets: seq<seq<byte>>)
    returns (frame: array<byte>)
    requires |positions| == |ps| && |inRange| == |ps| && |now| == |ps|
    requires 0 <= nextImgI < |partSets| && |ps| <= |partSets[nextImgI]|
    requires Distinct(ps) && forall j :: 0 <= j < |ps| ==> ps[j].i == j
    requires forall j, m :: 0 <= j < |ps| && 0 <= m < |partSets[nextImgI]| ==> ps[j] != partSets[nextImgI][m]
    requires flags == Flags(ps) && colors == Colors(ps) && |targets| == |ps|
    requires forall j :: 0 <= j < |ps| ==> partSets[nextImgI][j].colors == targets[j]
    modifies ps
    ensures fresh(frame) && frame.Length == FRAME_BYTES
    ensures frame[..] == DrawAll(Blank(), colors, positions)
    ensures SteppedUpTo(ps, |ps|, inRange, now, lastSwitchTime, flags, colors, targets)
  {
    frame := NewFrame();
    ghost var blank := frame[..];
    var k := 0;
    while k < |ps|
      invariant 0 <= k <= |ps|
      invariant frame[..] == DrawAll(blank, colors[..k], positions[..k])
      invariant forall j :: 0 <= j < |ps| ==> partSets[nextImgI][j].colors == targets[j]
      invariant SteppedUpTo(ps, k, inRange, now, lastSwitchTime, flags, colors, targets)
    {
      DrawAndStepOne(ps, positions, k, frame, blank, inRange, now, lastSwitchTime, partSets, nextImgI,
                     flags, colors, targets);
      k := k + 1;
    }
    assert colors[..k] == colors && positions[..k] == positions;
  }

  /** Once every particle has run its step, the flags and colours are those
      of Mark applied to the state on entry. */
  lemma SteppedMark(s: SwitchState, sets: seq<seq<seq<byte>>>, inRange: seq<bool>, now: seq<int>, ps: seq<Particle>)
    requires WellFormed(s, sets) && Sized(s, inRange, now) && |ps| == |s.flags|
    requires SteppedUpTo(ps, |ps|, inRange, now, s.lastSwitchTime, s.flags, s.colors, sets[s.nextImgI][..|ps|])
    ensures Mark(s, sets, inRange, now) == SwitchState(Flags(ps), Colors(ps), s.nextImgI, s.lastSwitchTime)
  {
    MarkedState(s, sets, inRange, now, Flags(ps), Colors(ps));
  }

  /** Colour lookup in the part-sets. */
  lemma AllColorsAt(pss: seq<seq<Particle>>, n: int, k: int)
    requires 0 <= n < |pss| && 0 <= k < |pss[n]|
    ensures AllColors(pss)[n][k] == pss[n][k].colors
  {
  }

  /** parts is the part-set processImg makes of the canvas pixels pxs. */
  predicate Decomposes(parts: seq<Particle>, pxs: seq<byte>)
    requires |pxs| == FRAME_BYTES
    reads parts
  {
    EmittedUpTo(parts, Grid(pxs, CELLS), CELLS)
  }

  /** The positions of particles at rest: their origins. */
  function Origins(ps: seq<Particle>): (positions: seq<Point>)
    reads ps
    ensures |positions| == |ps|
  {
    seq(|ps|, k requires 0 <= k < |ps| reads ps => Point(ps[k].originX, ps[k].originY))
  }

  /** Among a part-set at rest, the last particle covering a pixel of grid
      cell k is the cell's own particle, and there is one exactly when the
      cell is not fully transparent. */
  lemma LastCoverOfCell(parts: seq<Particle>, pxs: seq<byte>, k: int, x: int, y: int)
    requires |pxs| == FRAME_BYTES && Decomposes(parts, pxs) && 0 <= k < CELLS
    requires CellX(k) <= x < CellX(k) + PART_SIZE && CellY(k) <= y < CellY(k) + PART_SIZE
    ensures var r := LastCover(Origins(parts), x, y);
      (r >= 0 <==> CellColors(pxs, k) != []) &&
      (r >= 0 ==> parts[r].originX == CellX(k) && parts[r].originY == CellY(k) &&
                  parts[r].colors == CellColors(pxs, k))
  {
    var positions := Origins(parts);
    var r := LastCover(positions, x, y);
    CellOnGrid(k);
    if r >= 0 {
      EmittedOnGrid(parts, pxs);
      EmittedColors(parts, pxs);
      assert InBlock(positions[r], x, y);
      SameCell(parts[r].originX, parts[r].originY, CellX(k), CellY(k), x, y);
    }
    if CellColors(pxs, k) != [] {
      EmittedComplete(parts, pxs, k);
      var j :| 0 <= j < |parts| && parts[j].originX == CellX(k) && parts[j].originY == CellY(k);
      assert InBlock(positions[j], x, y);
    }
  }

  /** Among a part-set at rest, each pixel of grid cell k is drawn from the
      cell's own colours, or left transparent black when the cell has none. */
  lemma RestingFrameByte(parts: seq<Particle>, pxs: seq<byte>, k: int, x: int, y: int, c: int)
    requires |pxs| == FRAME_BYTES && Decomposes(parts, pxs) && 0 <= k < CELLS
    requires CellX(k) <= x < CellX(k) + PART_SIZE && CellY(k) <= y < CellY(k) + PART_SIZE && 0 <= c < 4
    ensures 0 <= ByteIndex(x, y, c) < FRAME_BYTES
    ensures DrawAll(Blank(), Colors(parts), Origins(parts))[ByteIndex(x, y, c)] ==
      if CellColors(pxs, k) == [] then 0 else ColorByte(CellColors(pxs, k), ColorIndex(CellX(k), CellY(k), x, y, c))
  {
    CellOnGrid(k);
    OnGridFits(CellX(k), CellY(k));
    DrawAllAt(Blank(), Colors(parts), Origins(parts), x, y, c);
    LastCoverOfCell(parts, pxs, k, x, y);
  }

  /** The frame update draws a part-set of an image at rest: every grid cell
      of which getPartData collects every pixel shows the image's bytes. */
  lemma RestingOpaqueCell(parts: seq<Particle>, pxs: seq<byte>, k: int, px: int, py: int, c: int)
    requires |pxs| == FRAME_BYTES && Decomposes(parts, pxs) && 0 <= k < CELLS
    requires |CellColors(pxs, k)| == 4 * PART_SIZE * PART_SIZE
    requires 0 <= px < PART_SIZE && 0 <= py < PART_SIZE && 0 <= c < 4
    ensures 0 <= ByteIndex(CellX(k) + px, CellY(k) + py, c) < FRAME_BYTES
    ensures DrawAll(Blank(), Colors(parts), Origins(parts))[ByteIndex(CellX(k) + px, CellY(k) + py, c)] ==
      pxs[ByteIndex(CellX(k) + px, CellY(k) + py, c)]
  {
    RestingFrameByte(parts, pxs, k, CellX(k) + px, CellY(k) + py, c);
    FullCellSample(pxs, k, px, py, c);
  }

  /** The frame update draws a part-set of an image at rest: every grid cell
      of which getPartData collects nothing, and so has no particle, stays
      transparent black. */
  lemma RestingEmptyCell(parts: seq<Particle>, pxs: seq<byte>, k: int, x: int, y: int, c: int)
    requires |pxs| == FRAME_BYTES && Decomposes(parts, pxs) && 0 <= k < CELLS && CellColors(pxs, k) == []
    requires CellX(k) <= x < CellX(k) + PART_SIZE && CellY(k) <= y < CellY(k) + PART_SIZE && 0 <= c < 4
    ensures 0 <= ByteIndex(x, y, c) < FRAME_BYTES
    ensures DrawAll(Blank(), Colors(parts), Origins(parts))[ByteIndex(x, y, c)] == 0
  {
    RestingFrameByte(parts, pxs, k, x, y, c);
  }

  /** The loop of initParts: part-set n is processImg of image n. */
  method ProcessAll(images: seq<seq<byte>>) returns (ps: seq<seq<Particle>>)
    requires forall n :: 0 <= n < |images| ==> |images[n]| == FRAME_BYTES
    ensures |ps| == |images|
    ensures forall n {:trigger Decomposes(ps[n], images[n])} :: 0 <= n < |images| ==> Decomposes(ps[n], images[n])
  {
    ps := [];
    var n := 0;
    while n < |images|
      invariant 0 <= n <= |images| && |ps| == n
      invariant forall m {:trigger Decomposes(ps[m], images[m])} :: 0 <= m < n ==> Decomposes(ps[m], images[m])
    {
      var partSet := ProcessImg(images[n]);
      ps := ps + [partSet];
      n := n + 1;
    }
  }

  /** initParts: the part-set of every image, then clones of the first
      part-set's particles, distinct from every particle of the part-sets. */
  method InitParts(images: seq<seq<byte>>)
    returns (ps: seq<seq<Particle>>, clones: seq<Particle>, ghost sets: seq<seq<seq<byte>>>)
    requires |images| >= 1 && forall n :: 0 <= n < |images| ==> |images[n]| == FRAME_BYTES
    ensures |ps| == |images|
    ensures forall n {:trigger Decomposes(ps[n], images[n])} :: 0 <= n < |images| ==> Decomposes(ps[n], images[n])
    ensures |clones| == |ps[0]| && Distinct(clones)
    ensures forall j :: 0 <= j < |clones| ==>
      clones[j].originX == ps[0][j].originX && clones[j].originY == ps[0][j].originY &&
      clones[j].i == j && clones[j].colors == ps[0][j].colors && clones[j].AtRest()
    ensures forall j, n, k :: 0 <= j < |clones| && 0 <= n < |ps| && 0 <= k < |ps[n]| ==> clones[j] != ps[n][k]
    ensures sets == AllColors(ps) && |sets| == |ps|
    ensures forall n :: 0 <= n < |ps| ==> |sets[n]| == |ps[n]|
    ensures forall n, k :: 0 <= n < |ps| && 0 <= k < |ps[n]| ==> ps[n][k].colors == sets[n][k]
    ensures Flags(clones) == seq(|clones|, j => false) && Colors(clones) == sets[0]
  {
    ps := ProcessAll(images);
    assert Decomposes(ps[0], images[0]);
    clones := CloneAll(ps[0]);
    sets := AllColors(ps);
    forall n, k | 0 <= n < |ps| && 0 <= k < |ps[n]|
      ensures ps[n][k].colors == sets[n][k]
    {
      AllColorsAt(ps, n, k);
    }
    assert Flags(clones) == seq(|clones|, j => false);
    assert Colors(clones) == sets[0] by {
      forall j | 0 <= j < |clones|
        ensures Colors(clones)[j] == sets[0][j]
      {
        AllColorsAt(ps, 0, j);
      }
    }
  }

  /** The map of initParts: a clone of every particle, in order. */
  method CloneAll(ps: seq<Particle>) returns (clones: seq<Particle>)
    ensures |clones| == |ps| && Distinct(clones)
    ensures forall j :: 0 <= j < |ps| ==>
      fresh(clones[j]) && clones[j].originX == ps[j].originX && clones[j].originY == ps[j].originY &&
      clones[j].i == ps[j].i && clones[j].colors == ps[j].colors && clones[j].AtRest()
  {
    clones := [];
    var j := 0;
    while j < |ps|
      invariant 0 <= j <= |ps| && |clones| == j && Distinct(clones)
      invariant forall a :: 0 <= a < j ==>
        fresh(clones[a]) && clones[a].originX == ps[a].originX && clones[a].originY == ps[a].originY &&
        clones[a].i == ps[a].i && clones[a].colors == ps[a].colors && clones[a].AtRest()
    {
      var c := ps[j].Clone();
      clones := clones + [c];
      j := j + 1;
    }
  }

  class Effect {
    /** The number of images. */
    const totalImgs: nat
    /** The image the particles are switching to. */
    var nextImgI: int
    /** Clock reading at the last switch. */
    var lastSwitchTime: int
    /** partSets[n]: the particles processImg made of image n. */
    const partSets: seq<seq<Particle>>
    /** The particles being animated: clones of the first image's. */
    const parts: seq<Particle>
    /** The colours of the part-sets, slot by slot; their particles are never
        recoloured. */
    ghost const sets: seq<seq<seq<byte>>>

    /** The constructor with initParts. `images[n]` stands for the pixels the
        canvas holds once the n-th image has been drawn on it: image n becomes
        part-set n, and the animated particles are clones of the first
        image's. nextImgI starts at the image after the first, cyclically. */
    constructor (images: seq<seq<byte>>)
      requires |images| >= 1 && forall n :: 0 <= n < |images| ==> |images[n]| == FRAME_BYTES
      ensures Valid() && SetsIntact()
      ensures totalImgs == |images|
      ensures forall n {:trigger Decomposes(partSets[n], images[n])} :: 0 <= n < |images| ==> Decomposes(partSets[n], images[n])
      ensures forall j :: 0 <= j < |parts| ==>
        parts[j].originX == partSets[0][j].originX && parts[j].originY == partSets[0][j].originY &&
        parts[j].colors == partSets[0][j].colors && parts[j].AtRest()
      ensures View() == SwitchState(seq(|parts|, j => false), sets[0], InitialNextImg(|images|), 0)
    {
      var ps, clones, cs := InitParts(images);
      totalImgs := |images|;
      nextImgI := InitialNextImg(|images|);
      lastSwitchTime := 0;
      partSets := ps;
      parts := clones;
      sets := cs;
    }

    /** The state of the image switch. */
    function View(): SwitchState
      reads this, parts
    {
      SwitchState(Flags(parts), Colors(parts), nextImgI, lastSwitchTime)
    }

    /** There is an image, the next image names one, every active particle's
        slot is its position, and the active particles are distinct objects
        apart from those of the part-sets, so recolouring one touches nothing
        else. */
    ghost predicate Valid()
      reads this
    {
      |partSets| == totalImgs >= 1 &&
      0 <= nextImgI < totalImgs &&
      |parts| == |partSets[0]| &&
      |sets| == |partSets| && (forall n :: 0 <= n < |partSets| ==> |sets[n]| == |partSets[n]|) &&
      (forall j :: 0 <= j < |parts| ==> parts[j].i == j) &&
      Distinct(parts) &&
      (forall j, n, k :: 0 <= j < |parts| && 0 <= n < |partSets| && 0 <= k < |partSets[n]| ==>
        parts[j] != partSets[n][k])
    }

    /** The particles of the part-sets still have the colours they were made with. */
    ghost predicate SetsIntact()
      reads Members(partSets)
      requires |sets| == |partSets| && forall n :: 0 <= n < |partSets| ==> |sets[n]| == |partSets[n]|
    {
      forall n, k :: 0 <= n < |partSets| && 0 <= k < |partSets[n]| ==> partSets[n][k].colors == sets[n][k]
    }

    /** Every image has at least as many particles as the first, so the slot
        of every active particle exists in every part-set. */
    predicate Aligned() {
      forall n :: 0 <= n < |partSets| ==> |parts| <= |partSets[n]|
    }

    /** A valid, aligned effect is a well-formed state of the image switch. */
    lemma ViewWellFormed()
      requires Valid() && Aligned()
      ensures WellFormed(View(), sets)
    {
    }

    /** checkImgSwitch, with `switchTime` standing for its clock reading. */
    method CheckImgSwitch(switchTime: int)
      requires Valid() && Aligned() && SetsIntact()
      modifies this`nextImgI, this`lastSwitchTime, parts`colors, parts`usingNextImg
      ensures Valid() && SetsIntact()
      ensures old(WellFormed(View(), sets)) && View() == CheckSwitch(old(View()), sets, switchTime)
    {
      ViewWellFormed();
      ghost var before := View();
      var usingNextCount := CountTrue(Flags(parts));
      if Exceeds(usingNextCount, |parts|) {
        lastSwitchTime := switchTime;
        SwitchAll(parts, partSets, nextImgI);
        nextImgI := (nextImgI + 1) % totalImgs;
        SwitchedState(before, sets, switchTime, Flags(parts), Colors(parts));
        assert View() == CheckSwitch(before, sets, switchTime);
      }
    }

    /** One animation frame (Effect.update): a blank frame buffer, every
        particle drawn at its rounded position and stepped in turn, then the
        switch check. `inRange[k]` and `now[k]` stand for particle k's pointer
        test and clock reading, `switchTime` for the check's. */
    method Update(inRange: seq<bool>, now: seq<int>, switchTime: int, positions: seq<Point>) returns (frame: array<byte>)
      requires Valid() && Aligned() && SetsIntact()
      requires |inRange| == |parts| && |now| == |parts| && |positions| == |parts|
      modifies this, parts
      ensures Valid() && SetsIntact()
      ensures fresh(frame) && frame.Length == FRAME_BYTES
      ensures frame[..] == DrawAll(Blank(), old(Colors(parts)), positions)
      ensures old(WellFormed(View(), sets)) && View() == Tick(old(View()), sets, inRange, now, switchTime)
    {
      ViewWellFormed();
      ghost var before := View();
      ghost var targets := sets[nextImgI][..|parts|];
      frame := DrawAndStep(parts, positions, inRange, now, lastSwitchTime, partSets, nextImgI,
                           before.flags, before.colors, targets);
      SteppedMark(before, sets, inRange, now, parts);
      assert View() == Mark(before, sets, inRange, now);
      CheckImgSwitch(switchTime);
    }
  }
}
