/**
 The free-sector bitmap: one bit per sector, least significant bit first.
 */
module FsFreeMap {
  import opened FsBytes

  /** Bit i of b, counting from the least significant. */
  predicate Bit(b: nat, i: nat)
  {
    if i == 0 then b % 2 == 1 else Bit(b / 2, i - 1)
  }

  /** b with bit i set to v. */
  function WithBit(b: nat, i: nat, v: bool): nat
  {
    if i == 0 then b / 2 * 2 + (if v then 1 else 0) else WithBit(b / 2, i - 1, v) * 2 + b % 2
  }

  lemma {:induction false} WithBitBits(b: nat, i: nat, v: bool, j: nat)
    ensures Bit(WithBit(b, i, v), j) == if i == j then v else Bit(b, j)
    decreases i
  {
    var w := WithBit(b, i, v);
    if i == 0 {
      assert w / 2 == b / 2;
    } else {
      assert w / 2 == WithBit(b / 2, i - 1, v) && w % 2 == b % 2;
      if j > 0 { WithBitBits(b / 2, i - 1, v, j - 1); }
    }
  }

  function TwoTo(n: nat): nat { if n == 0 then 1 else 2 * TwoTo(n - 1) }

  lemma {:induction false} WithBitBound(b: nat, i: nat, v: bool, n: nat)
    requires i < n && b < TwoTo(n)
    ensures WithBit(b, i, v) < TwoTo(n)
    decreases i
  {
    if i > 0 { WithBitBound(b / 2, i - 1, v, n - 1); }
  }

  lemma {:induction false} ZeroBits(i: nat)
    ensures !Bit(0, i)
  {
    if i > 0 { ZeroBits(i - 1); }
  }

  type Bitmap = seq<Byte>

  predicate BitGet(bm: Bitmap, s: nat) { s / 8 < |bm| && Bit(bm[s / 8], s % 8) }

  function BitSet(bm: Bitmap, s: nat, v: bool): (bm': Bitmap)
    ensures |bm'| == |bm|
  {
    if s / 8 >= |bm| then bm else
      WithBitBound(bm[s / 8], s % 8, v, 8);
      assert TwoTo(8) == 256;
      bm[s / 8 := WithBit(bm[s / 8], s % 8, v)]
  }

  lemma BitSetGet(bm: Bitmap, s: nat, v: bool, t: nat)
    ensures BitGet(BitSet(bm, s, v), t) == if s == t && s / 8 < |bm| then v else BitGet(bm, t)
  {
    if s / 8 == t / 8 && s / 8 < |bm| {
      WithBitBits(bm[s / 8], s % 8, v, t % 8);
      assert s == t <==> s % 8 == t % 8;
    }
  }

  /** The bitmap as one flag per sector. */
  function View(bm: Bitmap, n: nat): (u: seq<bool>)
    ensures |u| == n && forall x :: 0 <= x < n ==> u[x] == BitGet(bm, x)
  {
    seq(n, x requires 0 <= x => BitGet(bm, x))
  }

  lemma ViewBitSet(bm: Bitmap, n: nat, s: nat, v: bool)
    requires s < n <= 8 * |bm|
    ensures View(BitSet(bm, s, v), n) == View(bm, n)[s := v]
  {
    forall x | 0 <= x < n ensures View(BitSet(bm, s, v), n)[x] == View(bm, n)[s := v][x] {
      BitSetGet(bm, s, v, x);
    }
  }

  /** cnt free sectors from s on. */
  predicate FreeRun(u: seq<bool>, s: nat, cnt: nat)
  {
    s + cnt <= |u| && forall i :: s <= i < s + cnt ==> !u[i]
  }

  /** u with cnt sectors from s on marked used. */
  function Marked(u: seq<bool>, s: nat, cnt: nat): (r: seq<bool>)
    requires s + cnt <= |u|
    ensures |r| == |u|
    ensures forall x :: 0 <= x < |u| ==> r[x] == (u[x] || s <= x < s + cnt)
  {
    seq(|u|, x requires 0 <= x < |u| => u[x] || s <= x < s + cnt)
  }

  /** No sector is left that allocate(1) could return. */
  predicate NoneFree(u: seq<bool>) { forall x :: 2 <= x < |u| ==> u[x] }

  ghost function FreeSectors(u: seq<bool>): set<nat> { set x: nat | 2 <= x < |u| && !u[x] }

  /** How many sectors allocate(1) can still return. */
  ghost function FreeCount(u: seq<bool>): nat { |FreeSectors(u)| }

  lemma FreeCountZero(u: seq<bool>)
    ensures FreeCount(u) == 0 <==> NoneFree(u)
  {
    if FreeCount(u) == 0 {
      forall x | 2 <= x < |u| ensures u[x] { assert x !in FreeSectors(u); }
    } else {
      var x :| x in FreeSectors(u);
    }
  }

  lemma FreeCountLess(u: seq<bool>, v: nat)
    requires 2 <= v < |u| && !u[v]
    ensures FreeCount(u[v := true]) + 1 == FreeCount(u)
  {
    assert v in FreeSectors(u);
    assert FreeSectors(u[v := true]) == FreeSectors(u) - {v};
  }
}
