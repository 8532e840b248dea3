/**
 * Requests for several frames in a row. The allocator counts through the
 * usable regions of the memory map, so a request that runs over the end of a
 * region gets frames that do not follow one another, unless the next region
 * begins where this one ends (kernel/src/subsystem/memory.rs).
 */
module FrameRuns {
  import opened PageWalk
  import opened PageAddress

  /** Frames `k` to `k + n` are at `a`, `a + 4096`, … */
  ghost predicate InRow(frames: seq<Frame>, k: nat, n: nat, a: nat) {
    k + n <= |frames| && forall i :: k <= i < k + n ==> frames[i] == a + (i - k) * TWO_12
  }

  /** How many of the first frames of the memory map are in a row from `a` on. */
  function RowFrom(regions: seq<Region>, a: nat): nat {
    if regions == [] then 0
    else
      var f := RegionFrames(regions[0]);
      if f == [] then RowFrom(regions[1..], a)
      else if f[0] == a then |f| + RowFrom(regions[1..], a + |f| * TWO_12)
      else 0
  }

  /** How many frames in a row there are from frame `k` on: to the end of its region and of those that abut it. */
  function RowAt(regions: seq<Region>, k: nat): nat
    decreases |regions|
  {
    if regions == [] then 0
    else
      var f := RegionFrames(regions[0]);
      if k < |f| then |f| - k + RowFrom(regions[1..], f[0] + |f| * TWO_12) else RowAt(regions[1..], k - |f|)
  }

  lemma {:induction false} RegionFrame(r: Region, i: nat)
    requires i < |RegionFrames(r)|
    ensures RegionFrames(r)[i] == RegionFrames(r)[0] + i * TWO_12
  {
    FramesOfRange(r.base, r.length, i);
    FramesOfRange(r.base, r.length, 0);
  }

  lemma {:induction false} RowInRegion(r: Region, rest: seq<Frame>, k: nat, n: nat, a: nat)
    requires k + n <= |RegionFrames(r)| && k < |RegionFrames(r)| && a == RegionFrames(r)[0] + k * TWO_12
    ensures InRow(RegionFrames(r) + rest, k, n, a)
  {
    forall i | k <= i < k + n ensures (RegionFrames(r) + rest)[i] == a + (i - k) * TWO_12 {
      RegionFrame(r, i);
    }
  }

  lemma {:induction false} RowAcross(f: seq<Frame>, rest: seq<Frame>, k: nat, n: nat, a: nat)
    requires k <= |f| < k + n <= |f| + |rest| && InRow(f + rest, k, |f| - k, a)
    ensures InRow(f + rest, k, n, a) <==> InRow(rest, 0, k + n - |f|, a + (|f| - k) * TWO_12)
  {
    var b, m := a + (|f| - k) * TWO_12, k + n - |f|;
    if InRow(f + rest, k, n, a) {
      forall i | 0 <= i < m ensures rest[i] == b + i * TWO_12 {
        assert (f + rest)[|f| + i] == rest[i];
      }
    }
    if InRow(rest, 0, m, b) {
      forall i | k <= i < k + n ensures (f + rest)[i] == a + (i - k) * TWO_12 {
        if i >= |f| {
          assert (f + rest)[i] == rest[i - |f|] == b + (i - |f|) * TWO_12;
        }
      }
    }
  }

  lemma {:induction false} RowBeyond(f: seq<Frame>, rest: seq<Frame>, k: nat, n: nat, a: nat)
    requires |f| <= k
    ensures InRow(f + rest, k, n, a) <==> InRow(rest, k - |f|, n, a)
  {
    if InRow(f + rest, k, n, a) {
      forall i | k - |f| <= i < k - |f| + n ensures rest[i] == a + (i - (k - |f|)) * TWO_12 {
        assert (f + rest)[|f| + i] == rest[i];
      }
    }
    if InRow(rest, k - |f|, n, a) {
      forall i | k <= i < k + n ensures (f + rest)[i] == a + (i - k) * TWO_12 {
        assert (f + rest)[i] == rest[i - |f|];
      }
    }
  }

  lemma {:induction false} RowFromExact(regions: seq<Region>, a: nat, n: nat)
    requires n <= |UsableFrames(regions)|
    ensures InRow(UsableFrames(regions), 0, n, a) <==> n <= RowFrom(regions, a)
    decreases |regions|
  {
    if regions != [] && n > 0 {
      var f, rest := RegionFrames(regions[0]), UsableFrames(regions[1..]);
      assert UsableFrames(regions) == f + rest;
      if f == [] {
        assert f + rest == rest;
        RowFromExact(regions[1..], a, n);
      } else if f[0] == a {
        if n <= |f| {
          RowInRegion(regions[0], rest, 0, n, a);
        } else {
          RowInRegion(regions[0], rest, 0, |f|, a);
          RowAcross(f, rest, 0, n, a);
          RowFromExact(regions[1..], a + |f| * TWO_12, n - |f|);
        }
      } else {
        assert (f + rest)[0] == f[0];
      }
    }
  }

  /** The `n` frames from frame `k` on are in a row exactly if `n` is no more than the row is long. */
  lemma {:induction false} RowExact(regions: seq<Region>, k: nat, n: nat)
    requires 0 < n && k + n <= |UsableFrames(regions)|
    ensures InRow(UsableFrames(regions), k, n, UsableFrames(regions)[k]) <==> n <= RowAt(regions, k)
    decreases |regions|
  {
    var f, rest := RegionFrames(regions[0]), UsableFrames(regions[1..]);
    var a := UsableFrames(regions)[k];
    assert UsableFrames(regions) == f + rest;
    if k < |f| {
      RegionFrame(regions[0], k);
      if k + n <= |f| {
        RowInRegion(regions[0], rest, k, n, a);
      } else {
        RowInRegion(regions[0], rest, k, |f| - k, a);
        RowAcross(f, rest, k, n, a);
        RowFromExact(regions[1..], f[0] + |f| * TWO_12, k + n - |f|);
      }
    } else {
      RowBeyond(f, rest, k, n, a);
      assert a == rest[k - |f|];
      RowExact(regions[1..], k - |f|, n);
    }
  }

  /** Two frames asked for at the end of a region need not follow one another. */
  lemma {:induction false} SplitRequest()
    ensures var regions := [Region(0x1000, 0x1000, true), Region(0x5000, 0x1000, true)];
            UsableFrames(regions) == [0x1000, 0x5000] && RowAt(regions, 0) == 1
  {
    var regions := [Region(0x1000, 0x1000, true), Region(0x5000, 0x1000, true)];
    assert FramesOf(0x1000, 0x1000) == [0x1000] + FramesOf(0x2000, 0) == [0x1000];
    assert FramesOf(0x5000, 0x1000) == [0x5000] + FramesOf(0x6000, 0) == [0x5000];
    assert regions[1..] == [regions[1]] && regions[1..][1..] == [];
    assert UsableFrames(regions[1..]) == [0x5000];
  }
}
