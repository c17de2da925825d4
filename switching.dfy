// The image-switch state machine on values: the marking branch of
// Particle.update (script.js:203-207) with Particle.useNextImgColor
// (script.js:219-221), and Effect.checkImgSwitch (script.js:165-175).
// The Effect class in effect.dfy is proved to follow these functions.

module Switching {
  import opened Config
  import opened Particles

  /** What the switch logic reads and writes: the usingNextImg flag and the
      colours of each active particle (by slot), the image being switched to,
      and the time of the last switch. */
  datatype SwitchState = SwitchState(flags: seq<bool>, colors: seq<seq<byte>>, nextImgI: int, lastSwitchTime: int)

  /** `sets[n][i]` are the colours of slot i of image n (the part-sets). A
      recolouring reads `sets[nextImgI][i]` for every active slot i, so
      nextImgI must name an image and every image must have at least as many
      slots as there are active particles. */
  predicate WellFormed(s: SwitchState, sets: seq<seq<seq<byte>>>) {
    |s.colors| == |s.flags| && 0 <= s.nextImgI < |sets| &&
    forall n :: 0 <= n < |sets| ==> |s.flags| <= |sets[n]|
  }

  /** Inputs of one particle step per active particle: whether the pointer is
      within its radius, and the clock reading it takes. */
  predicate Sized(s: SwitchState, inRange: seq<bool>, now: seq<int>) {
    |inRange| == |s.flags| && |now| == |s.flags|
  }

  /** The number of particles using the next image's colours (the length of
      the filter in checkImgSwitch). */
  function CountTrue(flags: seq<bool>): (count: nat)
    ensures count <= |flags|
  {
    if flags == [] then 0
    else CountTrue(flags[..|flags| - 1]) + (if flags[|flags| - 1] then 1 else 0)
  }

  /** No flag is set exactly when the count is zero. */
  lemma {:induction false} CountTrueZero(flags: seq<bool>)
    ensures CountTrue(flags) == 0 <==> forall k :: 0 <= k < |flags| ==> !flags[k]
  {
    if flags != [] {
      var init := flags[..|flags| - 1];
      CountTrueZero(init);
      assert forall k :: 0 <= k < |init| ==> init[k] == flags[k];
    }
  }

  /** Setting more flags never lowers the count. */
  lemma {:induction false} CountTrueMonotone(a: seq<bool>, b: seq<bool>)
    requires |a| == |b| && forall k :: 0 <= k < |a| && a[k] ==> b[k]
    ensures CountTrue(a) <= CountTrue(b)
  {
    if a != [] {
      var n := |a| - 1;
      CountTrueMonotone(a[..n], b[..n]);
    }
  }

  /** The switch condition `count / total > SWITCH_THRESHOLD`, with 0.85 as
      the ratio 17/20. */
  predicate Exceeds(count: int, total: int) {
    THRESHOLD_DEN * count > THRESHOLD_NUM * total
  }

  /** The integer comparison is the fraction test of checkImgSwitch, and it
      never holds without particles (where the division is 0 / 0). */
  lemma ThresholdIsFraction(count: int, total: int)
    requires 0 <= count <= total
    ensures Exceeds(count, total) <==> total > 0 && (count as real) / (total as real) > 0.85
  {
    if total > 0 {
      var t, c := total as real, count as real;
      RatioAbove(c, t, 0.85);
      assert Exceeds(count, total) <==> c > 0.85 * t;
    }
  }

  /** For a positive denominator, a ratio exceeds r exactly when the
      numerator exceeds r times the denominator. */
  lemma RatioAbove(c: real, t: real, r: real)
    requires t > 0.0
    ensures c / t > r <==> c > r * t
  {
    var q := c / t;
    assert q * t == c;
    ScaleByPositive(q - r, t);
    assert (q - r) * t == q * t - r * t;
  }

  /** Multiplying by a positive factor keeps the sign. */
  lemma ScaleByPositive(a: real, t: real)
    requires t > 0.0
    ensures a > 0.0 <==> a * t > 0.0
  {
  }

  /** One particle step for every active particle: a particle in range past
      the cool-down takes its slot's colours from the next image and is
      flagged; the others keep their colours and flags. */
  function Mark(s: SwitchState, sets: seq<seq<seq<byte>>>, inRange: seq<bool>, now: seq<int>): (r: SwitchState)
    requires WellFormed(s, sets) && Sized(s, inRange, now)
    ensures WellFormed(r, sets) && Sized(r, inRange, now)
    ensures r.nextImgI == s.nextImgI && r.lastSwitchTime == s.lastSwitchTime
  {
    s.(flags := seq(|s.flags|, k requires 0 <= k < |s.flags| =>
                     s.flags[k] || Marks(inRange[k], s.lastSwitchTime, now[k])),
       colors := seq(|s.colors|, k requires 0 <= k < |s.colors| =>
                     if Marks(inRange[k], s.lastSwitchTime, now[k]) then sets[s.nextImgI][k] else s.colors[k]))
  }

  /** A step of every particle is recognised by its outcome, particle by
      particle. */
  lemma MarkedState(s: SwitchState, sets: seq<seq<seq<byte>>>, inRange: seq<bool>, now: seq<int>,
                    flags: seq<bool>, colors: seq<seq<byte>>)
    requires WellFormed(s, sets) && Sized(s, inRange, now)
    requires |flags| == |s.flags| && |colors| == |s.flags|
    requires forall k :: 0 <= k < |flags| ==>
      var marks := Marks(inRange[k], s.lastSwitchTime, now[k]);
      flags[k] == (s.flags[k] || marks) &&
      colors[k] == if marks then sets[s.nextImgI][k] else s.colors[k]
    ensures Mark(s, sets, inRange, now) == SwitchState(flags, colors, s.nextImgI, s.lastSwitchTime)
  {
    var r := Mark(s, sets, inRange, now);
    assert r.flags == flags;
    assert r.colors == colors;
  }

  /** Marking only adds flags, so it never lowers the count. */
  lemma MarkCounts(s: SwitchState, sets: seq<seq<seq<byte>>>, inRange: seq<bool>, now: seq<int>)
    requires WellFormed(s, sets) && Sized(s, inRange, now)
    ensures CountTrue(s.flags) <= CountTrue(Mark(s, sets, inRange, now).flags)
  {
    CountTrueMonotone(s.flags, Mark(s, sets, inRange, now).flags);
  }

  /** checkImgSwitch: when the flagged fraction exceeds the threshold, every
      particle takes the next image's colours and is unflagged, the next
      image advances cyclically and the switch time is stamped; otherwise
      nothing changes. */
  function CheckSwitch(s: SwitchState, sets: seq<seq<seq<byte>>>, switchTime: int): (r: SwitchState)
    requires WellFormed(s, sets)
    ensures WellFormed(r, sets) && |r.flags| == |s.flags|
    ensures !Exceeds(CountTrue(s.flags), |s.flags|) ==> r == s
    ensures |s.flags| == 0 ==> r == s
  {
    if Exceeds(CountTrue(s.flags), |s.flags|) then
      SwitchState(seq(|s.flags|, k => false),
                  seq(|s.colors|, k requires 0 <= k < |s.colors| => sets[s.nextImgI][k]),
                  (s.nextImgI + 1) % |sets|, switchTime)
    else s
  }

  /** After a switch no particle is flagged, every particle shows the image
      that was next, and the next image is the one after it. */
  lemma SwitchOutcome(s: SwitchState, sets: seq<seq<seq<byte>>>, switchTime: int)
    requires WellFormed(s, sets) && Exceeds(CountTrue(s.flags), |s.flags|)
    ensures var r := CheckSwitch(s, sets, switchTime);
      CountTrue(r.flags) == 0 && r.lastSwitchTime == switchTime &&
      r.colors == sets[s.nextImgI][..|s.flags|] &&
      r.nextImgI == (s.nextImgI + 1) % |sets|
  {
    var r := CheckSwitch(s, sets, switchTime);
    CountTrueZero(r.flags);
  }

  /** A switch is recognised by its outcome: any state with the flags all
      clear, the colours of the next image's slots, the following image next
      and the switch time stamped is the result of a check that switches. */
  lemma SwitchedState(s: SwitchState, sets: seq<seq<seq<byte>>>, switchTime: int, flags: seq<bool>, colors: seq<seq<byte>>)
    requires WellFormed(s, sets) && Exceeds(CountTrue(s.flags), |s.flags|)
    requires |flags| == |s.flags| && forall k :: 0 <= k < |flags| ==> !flags[k]
    requires |colors| == |s.flags| && forall k :: 0 <= k < |colors| ==> colors[k] == sets[s.nextImgI][k]
    ensures CheckSwitch(s, sets, switchTime) == SwitchState(flags, colors, (s.nextImgI + 1) % |sets|, switchTime)
  {
    var r := CheckSwitch(s, sets, switchTime);
    assert r.flags == flags;
    assert r.colors == colors;
  }

  /** The state after one frame: every particle steps, then the switch check. */
  function Tick(s: SwitchState, sets: seq<seq<seq<byte>>>, inRange: seq<bool>, now: seq<int>, switchTime: int): (r: SwitchState)
    requires WellFormed(s, sets) && Sized(s, inRange, now)
    ensures WellFormed(r, sets) && Sized(r, inRange, now)
  {
    CheckSwitch(Mark(s, sets, inRange, now), sets, switchTime)
  }

  /** Within the cool-down after the last switch no particle is marked, so
      its colours and flags stay as they are. */
  lemma CooldownMarksNothing(s: SwitchState, sets: seq<seq<seq<byte>>>, inRange: seq<bool>, now: seq<int>)
    requires WellFormed(s, sets) && Sized(s, inRange, now)
    requires forall k :: 0 <= k < |now| ==> now[k] <= s.lastSwitchTime + SWITCH_COOLDOWN
    ensures Mark(s, sets, inRange, now) == s
  {
    var r := Mark(s, sets, inRange, now);
    assert r.flags == s.flags;
    assert r.colors == s.colors;
  }

  /** A frame within the cool-down changes nothing when the flags do not
      already exceed the threshold. */
  lemma QuietTick(s: SwitchState, sets: seq<seq<seq<byte>>>, inRange: seq<bool>, now: seq<int>, switchTime: int)
    requires WellFormed(s, sets) && Sized(s, inRange, now)
    requires forall k :: 0 <= k < |now| ==> now[k] <= s.lastSwitchTime + SWITCH_COOLDOWN
    requires !Exceeds(CountTrue(s.flags), |s.flags|)
    ensures Tick(s, sets, inRange, now, switchTime) == s
  {
    CooldownMarksNothing(s, sets, inRange, now);
  }

  /** Right after a switch at time t, a frame whose clock readings are all at
      most t + 1500 changes nothing: in particular there is no second switch. */
  lemma SingleSwitchPerCooldown(s: SwitchState, sets: seq<seq<seq<byte>>>,
                                inRange: seq<bool>, now: seq<int>, t: int,
                                inRange': seq<bool>, now': seq<int>, t': int)
    requires WellFormed(s, sets) && Sized(s, inRange, now) && Sized(s, inRange', now')
    requires Exceeds(CountTrue(Mark(s, sets, inRange, now).flags), |s.flags|)
    requires forall k :: 0 <= k < |now'| ==> now'[k] <= t + SWITCH_COOLDOWN
    ensures var s1 := Tick(s, sets, inRange, now, t);
      Tick(s1, sets, inRange', now', t') == s1
  {
    var m := Mark(s, sets, inRange, now);
    var s1 := Tick(s, sets, inRange, now, t);
    SwitchOutcome(m, sets, t);
    QuietTick(s1, sets, inRange', now', t');
  }

  /** The inputs of one frame. */
  datatype Frame = Frame(inRange: seq<bool>, now: seq<int>, switchTime: int)

  /** The state after a sequence of frames. The next image stays an index of
      an image throughout. */
  function Run(s: SwitchState, sets: seq<seq<seq<byte>>>, frames: seq<Frame>): (r: SwitchState)
    requires WellFormed(s, sets)
    requires forall f :: 0 <= f < |frames| ==> Sized(s, frames[f].inRange, frames[f].now)
    ensures WellFormed(r, sets) && |r.flags| == |s.flags|
    decreases |frames|
  {
    if frames == [] then s
    else
      assert Sized(s, frames[0].inRange, frames[0].now);
      var s1 := Tick(s, sets, frames[0].inRange, frames[0].now, frames[0].switchTime);
      assert |s1.flags| == |s.flags|;
      assert forall g :: 0 <= g < |frames| - 1 ==> Sized(s1, frames[1..][g].inRange, frames[1..][g].now) by {
        forall g | 0 <= g < |frames| - 1
          ensures Sized(s1, frames[1..][g].inRange, frames[1..][g].now)
        {
          assert frames[1..][g] == frames[g + 1];
          assert Sized(s, frames[g + 1].inRange, frames[g + 1].now);
        }
      }
      Run(s1, sets, frames[1..])
  }

  /** Right after a switch (no flags set), frames whose clock readings all
      fall within the cool-down change nothing, however many there are. */
  lemma {:induction false} CooldownRun(s: SwitchState, sets: seq<seq<seq<byte>>>, frames: seq<Frame>)
    requires WellFormed(s, sets) && CountTrue(s.flags) == 0
    requires forall f :: 0 <= f < |frames| ==> Sized(s, frames[f].inRange, frames[f].now)
    requires forall f, k :: 0 <= f < |frames| && 0 <= k < |frames[f].now| ==>
      frames[f].now[k] <= s.lastSwitchTime + SWITCH_COOLDOWN
    ensures Run(s, sets, frames) == s
    decreases |frames|
  {
    if frames != [] {
      var f := frames[0];
      QuietTick(s, sets, f.inRange, f.now, f.switchTime);
      assert forall g :: 0 <= g < |frames[1..]| ==> frames[1..][g] == frames[g + 1];
      CooldownRun(s, sets, frames[1..]);
    }
  }

  /** Effect's constructor as written starts nextImgI at 1 whatever the
      number of images. */
  function InitialNextImgAsWritten(totalImgs: nat): int {
    1
  }

  /** With a single image that index names no image, so the first
      recolouring reads a part-set that does not exist. */
  lemma InitialNextImgAsWrittenOutOfRange(sets: seq<seq<seq<byte>>>, flags: seq<bool>, colors: seq<seq<byte>>)
    requires |sets| == 1
    ensures !WellFormed(SwitchState(flags, colors, InitialNextImgAsWritten(|sets|), 0), sets)
  {
  }

  /** The start index the effect evidently intends: the image after the first,
      cyclically, which is 1 whenever there are two images or more. */
  function InitialNextImg(totalImgs: nat): (n: int)
    requires totalImgs >= 1
    ensures 0 <= n < totalImgs
    ensures totalImgs >= 2 ==> n == InitialNextImgAsWritten(totalImgs)
  {
    1 % totalImgs
  }
}
