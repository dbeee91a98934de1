/**
  The lagometer bookkeeping of src/cgame/cg_draw.c: two ring buffers of
  LAG_SAMPLES entries indexed by ever-growing counters masked with
  LAG_SAMPLES - 1, and the running mean over the last PING_FRAMES snapshot
  pings that CG_AddLagometerSnapshotInfo keeps in static storage and
  publishes as cg.ping.
 */
module Lagometer {
  import opened Common

  const LAG_SAMPLES: nat := 128
  const PING_FRAMES: nat := 40

  /** The ring slot of a counter: `count & (LAG_SAMPLES - 1)`, which for
      the non-negative counters and the power-of-two LAG_SAMPLES is the
      remainder modulo LAG_SAMPLES. */
  function Slot(count: nat): (k: nat)
    ensures k < LAG_SAMPLES
  {
    count % LAG_SAMPLES
  }

  /** What a received snapshot carries into the lagometer. */
  datatype Snapshot = Snapshot(ping: int, snapFlags: int)

  function Sum(s: seq<int>): int
  {
    if s == [] then 0 else Sum(s[..|s| - 1]) + s[|s| - 1]
  }

  /** Pings between 0 and hi add up to between 0 and |s| * hi. */
  lemma {:induction false} SumBounds(s: seq<int>, hi: int)
    requires forall k :: 0 <= k < |s| ==> 0 <= s[k] <= hi
    ensures 0 <= Sum(s) <= |s| * hi
    decreases |s|
  {
    if s != [] {
      SumBounds(s[..|s| - 1], hi);
    }
  }

  /** The published ping is a mean: when every remembered ping lies in
      [0, hi], so does their truncated average. */
  lemma MeanBounds(s: seq<int>, hi: int)
    requires |s| == PING_FRAMES
    requires forall k :: 0 <= k < |s| ==> 0 <= s[k] <= hi
    ensures 0 <= CDiv(Sum(s), PING_FRAMES as int) <= hi
  {
    SumBounds(s, hi);
    assert CDiv(Sum(s), 40) == Sum(s) / 40;
  }

  class Lagometer {
    var frameSamples: array<int>
    var frameCount: nat
    var snapshotFlags: array<int>
    var snapshotSamples: array<int>
    var snapshotCount: nat
    /** The static `previousPings` and `index` of CG_AddLagometerSnapshotInfo. */
    var previousPings: array<int>
    var index: nat
    /** cg.ping */
    var ping: int

    ghost predicate Valid()
      reads this
    {
      frameSamples.Length == LAG_SAMPLES
      && snapshotFlags.Length == LAG_SAMPLES
      && snapshotSamples.Length == LAG_SAMPLES
      && previousPings.Length == PING_FRAMES
      && frameSamples != snapshotFlags && frameSamples != snapshotSamples
      && snapshotFlags != snapshotSamples
      && previousPings != frameSamples && previousPings != snapshotFlags
      && previousPings != snapshotSamples
      && index < PING_FRAMES
    }

    /** Zero-initialised global and static storage. */
    constructor ()
      ensures Valid()
      ensures frameCount == 0 && snapshotCount == 0 && index == 0 && ping == 0
      ensures frameSamples[..] == seq(LAG_SAMPLES, _ => 0)
      ensures snapshotFlags[..] == seq(LAG_SAMPLES, _ => 0)
      ensures snapshotSamples[..] == seq(LAG_SAMPLES, _ => 0)
      ensures previousPings[..] == seq(PING_FRAMES, _ => 0)
      ensures fresh(frameSamples) && fresh(snapshotFlags) && fresh(snapshotSamples) && fresh(previousPings)
    {
      frameSamples := new int[LAG_SAMPLES](_ => 0);
      snapshotFlags := new int[LAG_SAMPLES](_ => 0);
      snapshotSamples := new int[LAG_SAMPLES](_ => 0);
      previousPings := new int[PING_FRAMES](_ => 0);
      frameCount, snapshotCount, index, ping := 0, 0, 0, 0;
    }

    /** CG_AddLagometerFrameInfo: records cg.time - cg.latestSnapshotTime in
        the frame slot and advances the frame counter; nothing else
        changes. */
    method AddFrameInfo(time: int, latestSnapshotTime: int)
      requires Valid()
      modifies this, frameSamples
      ensures Valid()
      ensures frameSamples[..] == old(frameSamples[..])[Slot(old(frameCount)) := time - latestSnapshotTime]
      ensures frameCount == old(frameCount) + 1
      ensures frameSamples == old(frameSamples) && snapshotCount == old(snapshotCount)
      ensures snapshotFlags == old(snapshotFlags) && snapshotSamples == old(snapshotSamples)
      ensures previousPings == old(previousPings) && index == old(index) && ping == old(ping)
    {
      var offset := time - latestSnapshotTime;
      frameSamples[Slot(frameCount)] := offset;
      frameCount := frameCount + 1;
    }

    /** CG_AddLagometerSnapshotInfo. A dropped packet (None) stores -1 in
        the snapshot slot and touches nothing else but the counter. A
        received one stores its ping and flags; then, when there is a
        current snapshot (`current` is cg.snap->ping), its ping enters the
        40-entry history and cg.ping becomes the truncated mean of the
        history, and otherwise cg.ping is 0. */
    method AddSnapshotInfo(snap: Option<Snapshot>, current: Option<int>)
      requires Valid()
      modifies this, snapshotSamples, snapshotFlags, previousPings
      ensures Valid()
      ensures frameSamples == old(frameSamples) && frameCount == old(frameCount)
      ensures snapshotFlags == old(snapshotFlags) && snapshotSamples == old(snapshotSamples)
      ensures previousPings == old(previousPings)
      ensures snapshotCount == old(snapshotCount) + 1
      ensures snap.None? ==>
        snapshotSamples[..] == old(snapshotSamples[..])[Slot(old(snapshotCount)) := -1]
        && snapshotFlags[..] == old(snapshotFlags[..])
        && previousPings[..] == old(previousPings[..])
        && index == old(index) && ping == old(ping)
      ensures snap.Some? ==>
        snapshotSamples[..] == old(snapshotSamples[..])[Slot(old(snapshotCount)) := snap.value.ping]
        && snapshotFlags[..] == old(snapshotFlags[..])[Slot(old(snapshotCount)) := snap.value.snapFlags]
      ensures snap.Some? && current.None? ==>
        ping == 0 && previousPings[..] == old(previousPings[..]) && index == old(index)
      ensures snap.Some? && current.Some? ==>
        previousPings[..] == old(previousPings[..])[old(index) := current.value]
        && index == (old(index) + 1) % PING_FRAMES
        && ping == CDiv(Sum(previousPings[..]), PING_FRAMES as int)
    {
      if snap.None? {
        snapshotSamples[Slot(snapshotCount)] := -1;
        snapshotCount := snapshotCount + 1;
        return;
      }
      snapshotSamples[Slot(snapshotCount)] := snap.value.ping;
      snapshotFlags[Slot(snapshotCount)] := snap.value.snapFlags;
      snapshotCount := snapshotCount + 1;

      ping := 0;
      if current.Some? {
        previousPings[index] := current.value;
        index := (index + 1) % PING_FRAMES;
        var sum := 0;
        var i := 0;
        while i < PING_FRAMES
          invariant i <= PING_FRAMES
          invariant sum == Sum(previousPings[..i])
        {
          assert previousPings[..i + 1][..i] == previousPings[..i];
          sum := sum + previousPings[i];
          i := i + 1;
        }
        assert previousPings[..PING_FRAMES] == previousPings[..];
        ping := CDiv(sum, PING_FRAMES as int);
      }
    }
  }
}
