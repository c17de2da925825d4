# Pixel-particle dissolve: a verified model of the effect's core

The effect draws each source image onto a 440×680 canvas, with a 10-pixel margin around the 420×660 picture. It cuts the canvas into 5×5 blocks and turns every block that is not wholly transparent into a particle. Each frame, every particle is composited into a fresh frame buffer at its rounded position.

A particle within the pointer's radius is marked once the cool-down after the last switch (1500 ms) is over. Marking gives the particle the colours of the block in the same slot of the next image. When more than 85% of the particles are marked, all of them switch to the next image and the cycle repeats.

The model keeps the program's structure:

- `config.dfy` (module `Config`) holds the constants and the geometry of an RGBA buffer.
- `particle.dfy` (module `Particles`) has the `Particle` class:
  - its constructor;
  - `UseNextImgColor`;
  - the marking branch of `Update`;
  - `Clone`.
- `decompose.dfy` (module `Decompose`) covers `getPartData` and `processImg`.
  - Both are imperative methods with loops.
  - They are proved against the functions `Collect`, `Opaque`, `Grid` and `Kept`.
  - Lemmas state what those functions mean: the opaque pixels in row-major order, scan order, completeness, one particle per kept cell, and the slot numbering.
- `composite.dfy` (module `Composite`) covers `drawParticle` as a clipped blit into an `array<byte>`.
  - It is proved equal to the function `Composited`.
  - `DrawAll` is the drawing order of a whole frame.
  - The round-trip and misdraw lemmas relate drawing back to decomposition.
- `switching.dfy` (module `Switching`) is the image-switch state machine on values:
  - marking (`Mark`), `checkImgSwitch` (`CheckSwitch`), one frame (`Tick`) and a run of frames (`Run`);
  - the threshold, the cool-down and the index-in-range properties.
- `effect.dfy` (module `Effects`) has the `Effect` class: construction with `initParts`, `checkImgSwitch` and `update`.
  - `Effect.View()` abstracts the class's state as a `SwitchState`.
  - `CheckImgSwitch` is proved to follow `CheckSwitch`.
  - `Update` is proved to produce the frame `DrawAll` describes and to follow `Tick`.

## Transparent pixels inside a block

getPartData skips every pixel of a block whose alpha is 0 and pushes the samples of the kept pixels one after another (script.js:103-105). drawParticle reads the samples of pixel (px, py) of a block at index (py·5 + px)·4 (script.js:153), as though every pixel had been kept. The two line up exactly when the kept pixels are the first ones of the block in row-major order.

The model follows the code:

- `Decompose.Collect` keeps only the opaque pixels.
- `Composite.LeadingCellSample`: for a cell whose opaque pixels are exactly its first m in row-major order, the first m pixels are drawn as in the image and every later pixel as 0, 0, 0, 0. Those later pixels are transparent in the image too, so only their colour samples can differ.
- `Effects.RestingFrameByte`: in the frame drawn from an image's part-set at rest, every pixel of a grid cell is drawn from that cell's own samples, or stays 0 when the cell has none.
- `Effects.RestingOpaqueCell` and `Composite.OpaqueBlockRoundTrip`: a cell whose 25 pixels are all kept is drawn byte for byte as in the image.
- `Effects.RestingEmptyCell`: a cell with no kept pixel has no particle and stays transparent black.
- `Composite.PartialBlockMisdrawn`: when the kept pixels are not the first ones (the first pixel is transparent and a later one is opaque), the first pixel is drawn with a non-zero alpha.

## Model

| member | source | states |
|---|---|---|
| Config.Dimensions | script.js:7-10 | Canvas is 440×680. Frame buffer is WIDTH·HEIGHT·4 bytes. Canvas divides into 88×136 whole 5×5 cells. |
| Config.ByteIndexInFrame | script.js:152 | Byte index of channel c of a canvas pixel lies in the frame buffer. Pixel and channel decode back from it. |
| Config.DecodeByteIndex | script.js:152 | Every frame byte is channel c of exactly one canvas pixel (inverse of the index formula). |
| Decompose.OnGridFits | script.js:85-86 | A cell at a scanned grid corner lies wholly inside the canvas. |
| Decompose.BlockInCanvas | script.js:99-102 | Offsets getPartData reads for a grid cell: its 25 pixels in row-major order, inside the buffer, strictly increasing. |
| Decompose.Opaque | script.js:103 | Kept offsets are in the buffer, no more than given, each with non-zero alpha. |
| Decompose.OpaqueSound | script.js:103 | The filter keeps only offsets of the block. |
| Decompose.OpaqueComplete | script.js:103 | Every pixel with non-zero alpha is kept. |
| Decompose.OpaqueAll | script.js:103 | A block whose pixels are all opaque loses nothing. |
| Decompose.OpaqueKeepsAll | script.js:103 | A block from which the alpha filter drops nothing has a non-zero alpha at every pixel (the converse of OpaqueAll). |
| Decompose.OpaqueLeading | script.js:103 | When the opaque pixels are exactly the first m, the filter keeps exactly those m, in order. |
| Decompose.OpaqueIncreasing | script.js:100-103 | Filtering keeps the scan order of the pixels. |
| Decompose.Collect | script.js:103-105 | Pushed samples number four per opaque pixel. |
| Decompose.CollectQuads | script.js:105 | The j-th group of four samples is exactly the RGBA of the j-th opaque pixel. |
| Decompose.CollectAllOpaque | script.js:100-106 | For a fully opaque block, sample 4k+c is channel c of the block's k-th pixel. |
| Decompose.CollectEmpty | script.js:98-105 | No samples are pushed if and only if every alpha in the block is 0. |
| Decompose.GetPartDataStep | script.js:99-105 | getPartData's index baseI + (py·WIDTH+px)·4 is the block's pixel (px, py). One step appends that pixel's quadruple exactly when its alpha is non-zero. |
| Decompose.GetPartData | script.js:96-109 | Returns the samples of the block's opaque pixels in row-major order. Flags the block fully transparent iff no sample was pushed, iff every alpha is 0. |
| Decompose.CellColors | script.js:85-87 | Definition: the samples getPartData collects for grid cell k, whose corner is (5·(k mod 88), 5·(k div 88)). |
| Decompose.Grid | script.js:85-87 | The scan of the first n cells yields one sample list per cell, n in all. |
| Decompose.GridAt | script.js:85-87 | Entry k of the scanned grid is getPartData of cell k (rows top to bottom, columns left to right). |
| Decompose.Kept | script.js:88 | Kept cells are indices of scanned cells, no more than scanned. |
| Decompose.KeptIncreasing | script.js:85-88 | Kept cells are in scan order. |
| Decompose.KeptSound | script.js:88 | No kept cell is fully transparent. |
| Decompose.KeptComplete | script.js:88 | Every cell that is not fully transparent is kept. |
| Decompose.EmitKept | script.js:88-91 | A kept cell appends its particle with slot parts.length. |
| Decompose.EmitSkipped | script.js:88 | A transparent cell adds no particle. |
| Decompose.EmittedDistinct | script.js:89-91 | Particles made for distinct slots are distinct objects. |
| Decompose.SameCell | script.js:85-86 | Grid cells do not overlap: two scanned corners whose blocks share a pixel are the same corner. |
| Decompose.CellOrder | script.js:85-86 | A cell earlier in the scan is in an earlier row, or in the same row further left. |
| Decompose.EmitCell | script.js:86-91 | One inner-loop pass extends the emitted list to the next cell. Existing particles are kept; new ones are fresh. |
| Decompose.ProcessRow | script.js:86-92 | One grid row extends the emitted list by that row's kept cells. |
| Decompose.ProcessImg | script.js:83-95 | Result: one new particle per non-transparent cell, in scan order, with i its list position and colours getPartData's samples. All particles fresh and distinct. |
| Decompose.EmittedOnGrid | script.js:83-95 | At most one particle per cell: no two particles share a grid corner. Each sits on the grid with i equal to its position, at rest and not switched. |
| Decompose.EmittedInScanOrder | script.js:85-91 | Particles come in scan order: rows top to bottom, left to right within a row. |
| Decompose.EmittedColors | script.js:87-91 | Every particle carries getPartData's samples for its cell, and they are never empty. |
| Decompose.EmittedComplete | script.js:87-91 | Every cell that is not fully transparent has a particle at its corner. |
| Particles.Marks | script.js:203-204 | Definition of the marking condition: the pointer is in range and lastSwitchTime + 1500 < now. |
| Particles.Particle.constructor | script.js:178-196 | Sets the origin, slot i and colours as given. Particle is at rest: at its origin, zero velocity, not using the next image. |
| Particles.Particle.UseNextImgColor | script.js:219-221 | Colours become those of slot i of part-set nextImgI. Requires that slot to exist. |
| Particles.Particle.Update | script.js:197-207 | Marks (flag set, colours from the next image's slot i) iff the pointer is in range and lastSwitchTime + 1500 < now. Otherwise flag and colours unchanged. |
| Particles.Particle.Clone | script.js:222-230 | Fresh particle with the same origin, slot and colours, at rest. |
| Composite.ColorByte | script.js:154-157 | Definition: sample colorI of the colours, or 0 when the index is past their end (an undefined read stored as 0). |
| Composite.PartlyComposited | script.js:146-157 | The frame after the first n pixels of the block are drawn keeps the frame's length. |
| Composite.Composited | script.js:143-159 | Drawing a whole block keeps the frame's length; CompositedAt states what each byte becomes. |
| Composite.CompositedAt | script.js:146-159 | A canvas pixel inside the block takes the particle's samples for its place in the block (0 past the colours' end). Every other pixel keeps its bytes. |
| Composite.CompositedOffCanvas | script.js:150-151 | A block drawn wholly off the canvas leaves the frame unchanged. |
| Composite.DrawStep | script.js:148-157 | Drawing pixel (px, py) writes its four bytes when it is on the canvas, and nothing otherwise. |
| Composite.DrawStepAt | script.js:148-157 | Byte-level form of DrawStep: only the four bytes of the drawn pixel change. |
| Composite.WritePixel | script.js:154-157 | The four sample writes set exactly bytes imgI..imgI+3. |
| Composite.DrawPixel | script.js:147-157 | One inner-loop pass extends the drawn prefix of the block by one pixel. |
| Composite.DrawParticle | script.js:143-160 | Frame buffer afterwards is Composited of its old contents: the clipped block, nothing else changed. |
| Composite.DrawAll | script.js:135-136 | Drawing every particle in order keeps the frame's length. |
| Composite.DrawAllSnoc | script.js:135-136 | Drawing one more particle composites its block over the frame drawn so far. |
| Composite.LastCover | script.js:135-136 | Finds the last particle whose block covers a pixel, or none. |
| Composite.DrawAllAt | script.js:135-136 | Every canvas byte of a drawn frame comes from the last particle covering that pixel, or stays as it was if none does. |
| Composite.BlockSample | script.js:105 | In a fully opaque block, colour sample (py·5+px)·4+c is channel c of source pixel (px, py). |
| Composite.OpaqueBlockRoundTrip | script.js:96-157 | A fully opaque block drawn at its grid origin reproduces the source pixels byte for byte. |
| Composite.LeadingOpaqueSample | script.js:103-105 | When the opaque pixels are exactly the first m, sample 4j+c of the colours is channel c of pixel j for j < m, and reads as 0 for every later pixel. |
| Composite.LeadingCellSample | script.js:153-157 | For a cell whose opaque pixels are exactly its first m in row-major order, pixel (px, py) is drawn with the image's bytes when py·5+px < m and with 0 otherwise; a cell with no samples draws 0. |
| Composite.FullCellSample | script.js:153-157 | For a cell whose 25 pixels are all kept, sample (py·5+px)·4+c of its colours is channel c of image pixel (px, py). |
| Composite.PartialBlockMisdrawn | script.js:103-105 | A partly opaque block with a transparent first pixel is drawn with non-zero alpha at that pixel. |
| Switching.Exceeds | script.js:167 | Definition of the switch test as the integer comparison 20·count > 17·total; ThresholdIsFraction relates it to the quotient. |
| Switching.CountTrue | script.js:166 | Count of particles using the next image is at most the number of particles. |
| Switching.CountTrueZero | script.js:166 | The count is zero iff no particle is flagged. |
| Switching.CountTrueMonotone | script.js:166 | Setting more flags never lowers the count. |
| Switching.ThresholdIsFraction | script.js:167 | 20·count > 17·total iff there are particles and count/total > 0.85. With no particles (0/0) there is never a switch. |
| Switching.RatioAbove | script.js:167 | For a positive total, count/total > r iff count > r·total. |
| Switching.Mark | script.js:203-207 | Every particle's step leaves the next image and the switch time alone and keeps the state well-formed. |
| Switching.MarkedState | script.js:203-207 | Per-particle outcome (flag or-ed with the mark; colours from the next image's slot exactly when marked) is the whole marking step. |
| Switching.MarkCounts | script.js:166-207 | Marking never lowers the count of flagged particles. |
| Switching.CheckSwitch | script.js:165-175 | Below the threshold, or with no particles, nothing changes. Otherwise the state stays well-formed with the same particles. |
| Switching.SwitchOutcome | script.js:167-173 | After a switch: no particle flagged; colours are the next image's slots; next index is (nextImgI+1) % totalImgs; switch time stamped. |
| Switching.SwitchedState | script.js:167-173 | Any state with that outcome is the result of a switching check. |
| Switching.Tick | script.js:135-141 | A frame (every step, then the check) keeps the state well-formed, with the next index among the images. |
| Switching.CooldownMarksNothing | script.js:204 | With every clock reading at most lastSwitchTime + 1500, no particle is marked. |
| Switching.QuietTick | script.js:204 | A frame within the cool-down, below the threshold, changes nothing. |
| Switching.SingleSwitchPerCooldown | script.js:165-207 | Right after a switch at t, a frame whose readings are all at most t + 1500 changes nothing, so there is no second switch. |
| Switching.Run | script.js:18-24 | Over any number of frames, nextImgI stays an index of an image. |
| Switching.CooldownRun | script.js:204 | After a switch, any number of frames within the cool-down leave the state unchanged. |
| Switching.InitialNextImgAsWritten | script.js:55 | Definition: the constructor's start index, 1 whatever the number of images. |
| Switching.InitialNextImgAsWrittenOutOfRange | script.js:55 | With a single image, the constructor's nextImgI = 1 names no part-set. |
| Switching.InitialNextImg | script.js:55 | Corrected start index is in range, and equals 1 whenever there are two images or more. |
| Effects.SwitchAll | script.js:169-172 | Every active particle takes the colours of its slot in the next part-set and is unflagged. Only colours and flags may change; positions and velocities cannot. |
| Effects.StepOne | script.js:137 | Particle k's step extends the stepped prefix by one, leaving the part-sets' colours intact. |
| Effects.Blank | script.js:134 | createImageData's buffer has WIDTH·HEIGHT·4 bytes; NewFrame states they are all zero. |
| Effects.NewFrame | script.js:134 | A new frame buffer is all zero bytes. |
| Effects.DrawNext | script.js:136 | Drawing particle k extends the drawn prefix by one particle. |
| Effects.DrawAndStepOne | script.js:135-138 | One forEach pass draws particle k, then steps it. |
| Effects.DrawAndStep | script.js:134-138 | Frame is DrawAll of the particles' colours at their positions, drawn before each step. Every particle then carries the marking outcome. |
| Effects.SteppedMark | script.js:135-138 | Once every particle has stepped, the flags and colours are those of Switching.Mark. |
| Effects.LastCoverOfCell | script.js:135-136 | In a part-set at rest, the last particle drawn over a pixel of cell k is the cell's own particle, holding the cell's samples; there is one exactly when those samples are not empty. |
| Effects.RestingFrameByte | script.js:132-157 | In the frame drawn from a part-set at rest, each byte of cell k comes from the cell's samples at that pixel's place, or is 0 when the cell has none. |
| Effects.RestingOpaqueCell | script.js:132-157 | In the frame drawn from a part-set at rest, a cell whose 25 pixels are all kept shows the image's bytes. |
| Effects.RestingEmptyCell | script.js:132-157 | In the frame drawn from a part-set at rest, a cell with no kept pixel stays 0. |
| Effects.ProcessAll | script.js:74-79 | Part-set n is processImg of image n. |
| Effects.CloneAll | script.js:80 | Clones are fresh, distinct, in order, with the same origin, slot and colours, at rest. |
| Effects.InitParts | script.js:73-82 | One part-set per image, and active particles that clone the first part-set. Clones: slot = position, unflagged, colours = first image's, sharing no object with any part-set. |
| Effects.Effect.constructor | script.js:52-80 | Part-set n decomposes image n. Active particles clone the first part-set. Switch state: nothing flagged, first image's colours, next image InitialNextImg, last switch at 0. |
| Effects.Effect.ViewWellFormed | script.js:219-221 | An effect whose part-sets all cover the active slots is a well-formed switch state. |
| Effects.Effect.CheckImgSwitch | script.js:165-175 | New switch state is CheckSwitch of the old one. The part-sets are untouched. Only nextImgI, lastSwitchTime and the particles' colours and flags may change; positions and velocities cannot. |
| Effects.Effect.Update | script.js:132-142 | Returned frame is DrawAll of the particles' pre-frame colours at their rounded positions. New switch state is Tick of the old one. |

## Left out

- The page, DOM and events are not modelled:
  - the load handler and requestAnimationFrame loop (script.js:15-25);
  - setupEventListeners and the firstmove hint;
  - clearRect and putImageData.
- `images[n]` stands for the pixels getImageData reads after image n is drawn. Image loading and drawImage are not modelled.
- The canvas is not cleared between images in initParts, so image n is drawn over the earlier ones. That overlap shows up only in the pixel values supplied.
- handleMove, pointer coordinate scaling, radius growth (updateMouseRadius) and decay are not modelled. The pointer test of Particle.update is the boolean `inRange` per particle.
- Particles.Particle.Update models only the marking branch.
  - The float physics is not modelled: force, atan2, friction, ease, and the x, y, vx, vy updates.
  - It has no exact model in integers or reals.
  - The positions drawParticle rounds with Math.round are the `positions` input of Effects.Effect.Update.
- performance.now is a parameter: `now` per particle step and `switchTime` for the switch check.
- The source's floating-point division count / length > 0.85 is modelled as the exact comparison 20·count > 17·length. Switching.ThresholdIsFraction proves this is the real-number quotient test; IEEE rounding at the boundary is not modelled.
- PerformanceMonitor (script.js:26-50) is not modelled; it is commented out in the animation loop.
- Particles.Particle.constructor takes integer coordinates, so Math.floor is not modelled.
- The particle's `effect` back-reference is dropped: the mouse, the last switch time, the part-sets and the next index are passed as parameters.
- Particles.Particle.Clone: colours are held as an immutable sequence.
  - This drops the fresh array copy `[...this.colors]` and the aliasing of a part-set's colours array that useNextImgColor creates.
  - Nothing ever writes into a colours array, so neither is observable.
- Effects.Effect.Update and Effects.Effect.CheckImgSwitch require every part-set to have at least as many particles as the active set (`Aligned`).
  - The source does not check this.
  - When a missing slot is recoloured, the source reads `.colors` of undefined and throws. That error path is not modelled.
- Effects.Effect.constructor requires at least one image. With none, `partSets[0].map` throws.
- Composite.ColorByte: reading past the end of a short colours array yields undefined, which a Uint8ClampedArray stores as 0. The model writes 0.

## Findings

| source | as written | input that shows it | evidently intended | confidence | as-written member | corrected member |
|---|---|---|---|---|---|---|
| script.js:55 | `nextImgI = 1` whatever the number of images | one image (totalImgs = 1): the first marked particle reads `partSets[1]`, which does not exist | `nextImgI = 1 % totalImgs`, so a single image switches to itself | not executed | Switching.InitialNextImgAsWrittenOutOfRange | Switching.InitialNextImg |
