/**
 The frame table: its index by kernel page, and the clock that picks a frame to evict.
 */
module VmFrame {
  import opened NumberTheory
  import FsBytes

  datatype Frame = Frame(kpage: nat, upage: nat, tid: int, pinned: bool)

  // ---- the index is the inverse of the table ------------------------------------------------------

  ghost predicate IndexOk(frames: seq<Frame>, index: map<nat, nat>)
  {
    && (forall i :: 0 <= i < |frames| ==> frames[i].kpage in index && index[frames[i].kpage] == i)
    && (forall k :: k in index ==> index[k] < |frames| && frames[index[k]].kpage == k)
  }

  lemma DistinctKpages(frames: seq<Frame>, index: map<nat, nat>, i: nat, j: nat)
    requires IndexOk(frames, index) && i < |frames| && j < |frames| && frames[i].kpage == frames[j].kpage
    ensures i == j
  {}

  /** Table and index after pushing a frame. */
  lemma PushedIndex(frames: seq<Frame>, index: map<nat, nat>, f: Frame)
    requires IndexOk(frames, index) && f.kpage !in index
    ensures IndexOk(frames + [f], index[f.kpage := |frames|])
  {}

  /** swap_remove: the last frame takes the place of frame i. */
  function SwapRemoved(frames: seq<Frame>, i: nat): seq<Frame>
    requires i < |frames|
  {
    var n := |frames| - 1;
    if i == n then frames[..n] else frames[..n][i := frames[n]]
  }

  function SwapRemovedIndex(frames: seq<Frame>, index: map<nat, nat>, i: nat): map<nat, nat>
    requires i < |frames|
  {
    var left := index - {frames[i].kpage};
    var rest := SwapRemoved(frames, i);
    if i < |rest| then left[rest[i].kpage := i] else left
  }

  lemma SwapRemovedOk(frames: seq<Frame>, index: map<nat, nat>, i: nat)
    requires IndexOk(frames, index) && i < |frames|
    ensures IndexOk(SwapRemoved(frames, i), SwapRemovedIndex(frames, index, i))
    ensures forall f :: f in SwapRemoved(frames, i) <==> f in frames && f.kpage != frames[i].kpage
  {
    var rest, n := SwapRemoved(frames, i), |frames| - 1;
    forall f ensures f in rest <==> f in frames && f.kpage != frames[i].kpage {
      if f in rest {
        var j :| 0 <= j < |rest| && rest[j] == f;
        assert f == frames[if j == i then n else j];
      }
      if f in frames && f.kpage != frames[i].kpage {
        var j :| 0 <= j < |frames| && frames[j] == f;
        assert rest[if j == n then i else j] == f;
      }
    }
  }

  /** remove: later frames move down by one. */
  function Removed(frames: seq<Frame>, i: nat): seq<Frame>
    requires i < |frames|
  {
    frames[..i] + frames[i + 1..]
  }

  /** The index once the frames from i up to j have been entered again. */
  ghost predicate Reindexed(rest: seq<Frame>, index: map<nat, nat>, i: nat, j: nat)
    requires i <= j <= |rest|
  {
    && (forall k :: 0 <= k < j ==> rest[k].kpage in index && index[rest[k].kpage] == k)
    && (forall k :: j <= k < |rest| ==> rest[k].kpage in index && index[rest[k].kpage] == k + 1)
    && (forall p :: p in index ==> exists k :: 0 <= k < |rest| && rest[k].kpage == p)
  }

  lemma RemovedReindexed(frames: seq<Frame>, index: map<nat, nat>, i: nat)
    requires IndexOk(frames, index) && i < |frames|
    ensures i <= |Removed(frames, i)| && Reindexed(Removed(frames, i), index - {frames[i].kpage}, i, i)
  {
    var rest := Removed(frames, i);
    forall p | p in index - {frames[i].kpage} ensures exists k :: 0 <= k < |rest| && rest[k].kpage == p {
      var j := index[p];
      var k := if j < i then j else j - 1;
      assert rest[k].kpage == p;
    }
  }

  lemma ReindexedNext(frames: seq<Frame>, index0: map<nat, nat>, index: map<nat, nat>, i: nat, j: nat)
    requires IndexOk(frames, index0) && i < |frames|
    requires var rest := Removed(frames, i); i <= j < |rest| && Reindexed(rest, index, i, j)
    ensures var rest := Removed(frames, i); Reindexed(rest, index[rest[j].kpage := j], i, j + 1)
  {
    var rest := Removed(frames, i);
    forall k | 0 <= k < |rest| && rest[k].kpage == rest[j].kpage ensures k == j {
      DistinctKpages(frames, index0, if k < i then k else k + 1, j + 1);
    }
  }

  lemma ReindexedDone(rest: seq<Frame>, index: map<nat, nat>, i: nat)
    requires i <= |rest| && Reindexed(rest, index, i, |rest|)
    ensures IndexOk(rest, index)
  {}

  // ---- the clock -------------------------------------------------------------------------------------

  const USIZE := FsBytes.U32

  /** Over len consecutive ticks the hand points at every frame. */
  lemma EveryFrameIsVisited(clock: nat, len: nat, i: nat) returns (d: nat)
    requires i < len
    ensures d < len && (clock + d) % len == i
  {
    var r := clock % len;
    d := if r <= i then i - r else i + len - r;
    var q := clock / len;
    assert clock == len * q + r;
    if r <= i {
      assert clock + d == len * q + i;
      Remainder(len, q, i);
    } else {
      assert clock + d == len * (q + 1) + i;
      Remainder(len, q + 1, i);
    }
  }

  lemma Remainder(len: nat, q: nat, i: nat)
    requires i < len
    ensures (len * q + i) % len == i
  {
    RemainderUnique(len * q + i, len, q, i);
  }

  lemma OneRotationLater(clock: nat, len: nat)
    requires 0 < len
    ensures (clock + len) % len == clock % len
  {
    var q, r := clock / len, clock % len;
    assert clock + len == len * (q + 1) + r;
    Remainder(len, q + 1, r);
  }
}
