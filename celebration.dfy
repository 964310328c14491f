/** The heart-confetti celebration started when the proposal is accepted
    (`triggerHeartConfetti` in ProposalCard.jsx).

    The confetti library is abstracted to the bursts it is asked to emit.
    The wall clock is a sequence of readings: `clock[k]` is what `Date.now()`
    returns inside the (k+1)-th animation frame. */
module Celebration {

  /** How long frames keep being rescheduled, in milliseconds. */
  const DurationMs: int := 5000

  const InitialParticles: nat := 100
  const FrameParticles: nat := 3

  /** Where a burst is fired from: the lower centre of the page for the
      opening burst, the left and right edges (at 60 and 120 degrees) for the
      per-frame bursts. */
  datatype Origin = LowerCenter | LeftEdge | RightEdge

  datatype Burst = Burst(particles: nat, origin: Origin)

  const OpeningBurst: Burst := Burst(InitialParticles, LowerCenter)

  /** What one animation frame emits: two small symmetric bursts. */
  const FrameBursts: seq<Burst> := [Burst(FrameParticles, LeftEdge), Burst(FrameParticles, RightEdge)]

  /** The emissions of `frames` consecutive animation frames. */
  function FramesEmission(frames: nat): (bursts: seq<Burst>)
    ensures |bursts| == 2 * frames
    ensures forall i :: 0 <= i < |bursts| ==>
              bursts[i].particles == FrameParticles &&
              bursts[i].origin == (if i % 2 == 0 then LeftEdge else RightEdge)
  {
    if frames == 0 then [] else FramesEmission(frames - 1) + FrameBursts
  }

  /** Some reading of the clock reaches `deadline`. */
  predicate Reaches(clock: seq<int>, deadline: int) {
    exists k :: 0 <= k < |clock| && clock[k] >= deadline
  }

  /** The index of the first reading at or after `deadline`, looking from
      index `from` on. */
  function FirstReachingFrom(clock: seq<int>, deadline: int, from: nat): (k: nat)
    requires from <= |clock|
    requires exists j :: from <= j < |clock| && clock[j] >= deadline
    ensures from <= k < |clock| && clock[k] >= deadline
    ensures forall j :: from <= j < k ==> clock[j] < deadline
    decreases |clock| - from
  {
    if clock[from] >= deadline then from else FirstReachingFrom(clock, deadline, from + 1)
  }

  /** The index of the first reading at or after `deadline`. */
  function FirstReaching(clock: seq<int>, deadline: int): (k: nat)
    requires Reaches(clock, deadline)
    ensures k < |clock| && clock[k] >= deadline
    ensures forall j :: 0 <= j < k ==> clock[j] < deadline
  {
    FirstReachingFrom(clock, deadline, 0)
  }

  /** Runs the celebration that starts at time `acceptedAt`: the opening
      burst, then one frame after another; each frame emits its two bursts,
      reads the clock and reschedules itself only while the reading is before
      `acceptedAt + DurationMs`. */
  method Celebrate(acceptedAt: int, clock: seq<int>) returns (bursts: seq<Burst>, frames: nat)
    requires Reaches(clock, acceptedAt + DurationMs)
    ensures 1 <= frames <= |clock|
    ensures forall j :: 0 <= j < frames - 1 ==> clock[j] < acceptedAt + DurationMs
    ensures clock[frames - 1] >= acceptedAt + DurationMs
    ensures frames == FirstReaching(clock, acceptedAt + DurationMs) + 1
    ensures bursts == [OpeningBurst] + FramesEmission(frames)
  {
    var animationEnd := acceptedAt + DurationMs;
    bursts := [OpeningBurst];
    frames := 0;
    var rescheduled := true;
    while rescheduled
      invariant frames <= |clock|
      invariant forall j :: 0 <= j < frames - 1 ==> clock[j] < animationEnd
      invariant rescheduled ==> forall j :: 0 <= j < frames ==> clock[j] < animationEnd
      invariant !rescheduled ==> 1 <= frames && clock[frames - 1] >= animationEnd
      invariant bursts == [OpeningBurst] + FramesEmission(frames)
      decreases |clock| - frames, rescheduled
    {
      bursts := bursts + FrameBursts;
      var now := clock[frames];
      frames := frames + 1;
      rescheduled := now < animationEnd;
    }
  }

  /** Readings that strictly increase, none before the acceptance time: the
      millisecond clock moves forward between frames. */
  predicate Advancing(clock: seq<int>, acceptedAt: int) {
    && (|clock| > 0 ==> clock[0] >= acceptedAt)
    && forall j :: 0 < j < |clock| ==> clock[j - 1] < clock[j]
  }

  lemma {:induction false} AdvancingGrowth(clock: seq<int>, acceptedAt: int, k: nat)
    requires Advancing(clock, acceptedAt)
    requires k < |clock|
    ensures clock[k] >= acceptedAt + k
  {
    if k > 0 {
      AdvancingGrowth(clock, acceptedAt, k - 1);
    }
  }

  /** Under an advancing millisecond clock the frame loop terminates after
      at most 5001 frames. */
  lemma FramesBounded(clock: seq<int>, acceptedAt: int)
    requires Advancing(clock, acceptedAt)
    requires Reaches(clock, acceptedAt + DurationMs)
    ensures FirstReaching(clock, acceptedAt + DurationMs) + 1 <= DurationMs + 1
  {
    var k := FirstReaching(clock, acceptedAt + DurationMs);
    if k > DurationMs {
      AdvancingGrowth(clock, acceptedAt, DurationMs);
    }
  }

  /** Under an advancing millisecond clock with more than 5000 readings, some
      reading reaches the deadline, within the first 5001 frames: the loop
      ends without the deadline being assumed. */
  lemma AdvancingReaches(clock: seq<int>, acceptedAt: int)
    requires Advancing(clock, acceptedAt) && |clock| > DurationMs
    ensures Reaches(clock, acceptedAt + DurationMs)
    ensures FirstReaching(clock, acceptedAt + DurationMs) <= DurationMs
  {
    AdvancingGrowth(clock, acceptedAt, DurationMs);
    FramesBounded(clock, acceptedAt);
  }

  /** The number of particles a sequence of bursts emits in all. */
  function Particles(bursts: seq<Burst>): nat
  {
    if bursts == [] then 0 else bursts[0].particles + Particles(bursts[1..])
  }

  lemma {:induction false} ParticlesAppend(a: seq<Burst>, b: seq<Burst>)
    ensures Particles(a + b) == Particles(a) + Particles(b)
  {
    if a != [] {
      assert (a + b)[1..] == a[1..] + b;
      ParticlesAppend(a[1..], b);
    } else {
      assert a + b == b;
    }
  }

  /** A celebration of `frames` frames emits 100 + 6 * frames particles:
      whatever the clock does, at least 106. */
  lemma {:induction false} CelebrationParticles(frames: nat)
    ensures Particles([OpeningBurst] + FramesEmission(frames)) == InitialParticles + 2 * FrameParticles * frames
  {
    if frames > 0 {
      CelebrationParticles(frames - 1);
      ParticlesAppend([OpeningBurst] + FramesEmission(frames - 1), FrameBursts);
      assert [OpeningBurst] + FramesEmission(frames) == ([OpeningBurst] + FramesEmission(frames - 1)) + FrameBursts;
      assert FrameBursts[1..][1..] == [];
      assert Particles(FrameBursts[1..]) == FrameParticles;
      assert Particles(FrameBursts) == 2 * FrameParticles;
    } else {
      assert ([OpeningBurst] + [])[1..] == [];
    }
  }
}
