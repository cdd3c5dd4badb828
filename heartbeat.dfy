/**
  UniqueHeartBeatState: a participant's heartbeat, whose version is drawn
  from a private counter so that every update publishes a new value.
  The counter is a Java `int` (an AtomicInteger), so its wrap-around is
  written out.
 */
module HeartBeat {

  const MinInt: int := -0x8000_0000
  const MaxInt: int := 0x7fff_ffff

  type Int32 = x: int | MinInt <= x <= MaxInt

  /** `AtomicInteger.incrementAndGet` on the stored value: add one, in
      two's complement. */
  function Inc32(x: Int32): (r: Int32)
    ensures r == (x - MinInt + 1) % 0x1_0000_0000 + MinInt
    ensures x < MaxInt ==> r == x + 1
  {
    if x == MaxInt then MinInt else x + 1
  }

  class UniqueHeartBeatState {
    /** The generation handed to the HeartBeatState super-constructor. */
    var generation: Int32
    /** The AtomicInteger that hands out versions. */
    var versionGen: Int32
    /** The last version handed out, reported by getHeartBeatVersion. */
    var localVersion: Int32

    ghost predicate Valid()
      reads this
    {
      localVersion == versionGen
    }

    /** The one-argument constructor: the same state as `WithVersion(gen, 0)`. */
    constructor (gen: Int32)
      ensures Valid()
      ensures generation == gen && versionGen == 0 && localVersion == 0
    {
      generation, versionGen, localVersion := gen, 0, 0;
    }

    constructor WithVersion(gen: Int32, ver: Int32)
      ensures Valid()
      ensures generation == gen && versionGen == ver && localVersion == ver
    {
      generation, versionGen, localVersion := gen, ver, ver;
    }

    /** Advance the counter and publish its new value; the generation stays. */
    method UpdateHeartBeat()
      requires Valid()
      modifies this`versionGen, this`localVersion
      ensures Valid()
      ensures versionGen == Inc32(old(versionGen)) && localVersion == versionGen
      ensures old(localVersion) < MaxInt ==> localVersion == old(localVersion) + 1
      ensures generation == old(generation)
    {
      versionGen := Inc32(versionGen);
      localVersion := versionGen;
    }

    /** Reads the published version and changes nothing. */
    method GetHeartBeatVersion() returns (v: Int32)
      ensures v == localVersion
    {
      v := localVersion;
    }
  }

  /** What `GetHeartBeatVersion` reports after each of `n` successive
      `UpdateHeartBeat` calls on a state whose version is `v`. */
  function VersionsAfter(v: Int32, n: nat): (vs: seq<Int32>)
    ensures |vs| == n
    decreases n
  {
    if n == 0 then [] else [Inc32(v)] + VersionsAfter(Inc32(v), n - 1)
  }

  /** `n` rounds of `updateHeartBeat` followed by `getHeartBeatVersion`, as a
      participant runs them: the versions read are `VersionsAfter` of the
      version published before the first round. */
  method PublishRounds(h: UniqueHeartBeatState, n: nat) returns (vs: seq<Int32>)
    requires h.Valid()
    modifies h`versionGen, h`localVersion
    ensures h.Valid() && h.generation == old(h.generation)
    ensures vs == VersionsAfter(old(h.localVersion), n)
    ensures n > 0 ==> h.localVersion == vs[n - 1]
  {
    vs := [];
    var i := 0;
    while i < n
      invariant 0 <= i <= n && h.Valid() && h.generation == old(h.generation)
      invariant vs + VersionsAfter(h.localVersion, n - i) == VersionsAfter(old(h.localVersion), n)
      invariant i > 0 ==> |vs| == i && h.localVersion == vs[i - 1]
    {
      ghost var before := h.localVersion;
      h.UpdateHeartBeat();
      var v := h.GetHeartBeatVersion();
      assert VersionsAfter(before, n - i) == [v] + VersionsAfter(v, n - (i + 1));
      vs := vs + [v];
      i := i + 1;
    }
  }

  /** Below the overflow point, the i-th reported version is `v + i + 1`. */
  lemma {:induction false} VersionsAfterAt(v: Int32, n: nat, i: nat)
    requires v + n <= MaxInt
    requires i < n
    ensures VersionsAfter(v, n)[i] == v + i + 1
    decreases n
  {
    if i > 0 {
      VersionsAfterAt(Inc32(v), n - 1, i - 1);
    }
  }

  /** Successive updates are observed as strictly increasing versions, never
      repeated, as long as the counter does not reach `MaxInt`. */
  lemma VersionsStrictlyIncrease(v: Int32, n: nat)
    requires v + n <= MaxInt
    ensures forall i, j :: 0 <= i < j < n ==> VersionsAfter(v, n)[i] < VersionsAfter(v, n)[j]
  {
    forall i, j | 0 <= i < j < n
      ensures VersionsAfter(v, n)[i] < VersionsAfter(v, n)[j]
    {
      VersionsAfterAt(v, n, i);
      VersionsAfterAt(v, n, j);
    }
  }

  /** The counter is not guarded: one update past `MaxInt` reports a smaller
      version than the one before it. */
  lemma VersionWrapsAtMaxInt()
    ensures VersionsAfter(MaxInt, 1) == [MinInt]
    ensures VersionsAfter(MaxInt, 1)[0] < MaxInt
  {
  }
}
