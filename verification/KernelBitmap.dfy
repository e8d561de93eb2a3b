/**
 The page allocator's bitmap: finding and flipping the first run of equal bits.
 */
module KernelBitmap {
  import opened FsFreeMap
  import opened Options

  /** cnt bits of the given value from i on. */
  predicate RunAt(u: seq<bool>, i: nat, cnt: nat, value: bool)
  {
    i + cnt <= |u| && forall k :: i <= k < i + cnt ==> u[k] == value
  }

  /** u with cnt bits from i on set to v. */
  function Filled(u: seq<bool>, i: nat, cnt: nat, v: bool): (r: seq<bool>)
    requires i + cnt <= |u|
    ensures |r| == |u| && forall k :: 0 <= k < |u| ==> r[k] == if i <= k < i + cnt then v else u[k]
  {
    u[..i] + seq(cnt, _ => v) + u[i + cnt..]
  }

  class BitBuffer {
    var bits: Bitmap
    const bitCnt: nat

    ghost predicate Valid() reads this { bitCnt <= 8 * |bits| }

    ghost function U(): (u: seq<bool>)
      reads this
      ensures |u| == bitCnt
    {
      View(bits, bitCnt)
    }

    constructor (bitCnt: nat)
      ensures Valid() && this.bitCnt == bitCnt && forall k :: 0 <= k < bitCnt ==> !U()[k]
    {
      this.bitCnt := bitCnt;
      bits := seq((bitCnt + 7) / 8, _ => 0);
      new;
      forall k | 0 <= k < bitCnt ensures !U()[k] { ZeroBits(k % 8); }
    }

    method Set(idx: nat, value: bool)
      requires Valid() && idx < bitCnt
      modifies this`bits
      ensures Valid() && U() == old(U())[idx := value]
    {
      ViewBitSet(bits, bitCnt, idx, value);
      bits := BitSet(bits, idx, value);
    }

    method Test(idx: nat) returns (b: bool)
      requires Valid() && idx < bitCnt
      ensures b == U()[idx]
    {
      b := BitGet(bits, idx);
    }

    method SetMultiple(start: nat, cnt: nat, value: bool)
      requires Valid() && start + cnt <= bitCnt
      modifies this`bits
      ensures Valid() && U() == Filled(old(U()), start, cnt, value)
    {
      for i := start to start + cnt
        invariant Valid() && U() == Filled(old(U()), start, i - start, value)
      {
        Set(i, value);
      }
    }

    method RunLength(i: nat, cnt: nat, value: bool) returns (run: nat)
      requires Valid() && 0 < cnt && i + cnt <= bitCnt && U()[i] == value
      ensures 1 <= run <= cnt && RunAt(U(), i, run, value) && (run < cnt ==> U()[i + run] != value)
    {
      run := 1;
      while run < cnt
        invariant 1 <= run <= cnt && RunAt(U(), i, run, value)
      {
        var b := Test(i + run);
        if b != value { return; }
        run := run + 1;
      }
    }

    /** scan_and_flip: the least start at or after the given one where cnt bits have the value, those
        bits and no others flipped; nothing only when there is no such start. */
    method ScanAndFlip(start: nat, cnt: nat, value: bool) returns (r: Option<nat>)
      requires Valid()
      modifies this`bits
      ensures Valid()
      ensures cnt == 0 ==> r == Some(start) && U() == old(U())
      ensures r.None? ==> U() == old(U()) && forall i :: start <= i ==> !RunAt(old(U()), i, cnt, value)
      ensures cnt > 0 && r.Some? ==> start <= r.value && RunAt(old(U()), r.value, cnt, value)
      ensures cnt > 0 && r.Some? ==> forall i :: start <= i < r.value ==> !RunAt(old(U()), i, cnt, value)
      ensures cnt > 0 && r.Some? ==> U() == Filled(old(U()), r.value, cnt, !value)
    {
      if cnt == 0 { return Some(start); }
      if start + cnt > bitCnt { return None; }
      var i := start;
      while i + cnt <= bitCnt
        invariant Valid() && U() == old(U()) && start <= i
        invariant forall k :: start <= k < i ==> !RunAt(U(), k, cnt, value)
        decreases bitCnt - i
      {
        var b := Test(i);
        if b != value {
          i := i + 1;
          continue;
        }
        var run := RunLength(i, cnt, value);
        if run >= cnt {
          SetMultiple(i, cnt, !value);
          return Some(i);
        }
        forall k | i <= k < i + run + 1 ensures !RunAt(U(), k, cnt, value) {
          assert U()[i + run] != value;
        }
        i := i + run + 1;
      }
      return None;
    }
  }
}
