/**
 Sectors as 512 bytes, and the little-endian 32-bit words in them.
 */
module FsBytes {

  type Byte = b: nat | b < 256 witness 0

  const SECTOR_SIZE := 512
  const PTRS_PER_BLOCK := 128
  const U32 := 0x1_0000_0000

  type Sector = s: seq<Byte> | |s| == SECTOR_SIZE witness seq(SECTOR_SIZE, _ => 0)

  function ZeroSector(): Sector { seq(SECTOR_SIZE, _ => 0) }

  /** The i-th 32-bit word of a sector. */
  function Word(s: Sector, i: nat): (w: nat)
    requires i < PTRS_PER_BLOCK
    ensures w < U32
  {
    var b0: nat, b1: nat, b2: nat, b3: nat := s[4 * i], s[4 * i + 1], s[4 * i + 2], s[4 * i + 3];
    b0 + 0x100 * b1 + 0x1_0000 * b2 + 0x100_0000 * b3
  }

  function SetWord(s: Sector, i: nat, w: nat): Sector
    requires i < PTRS_PER_BLOCK && w < U32
  {
    var low := s[4 * i := w % 0x100][4 * i + 1 := w / 0x100 % 0x100];
    low[4 * i + 2 := w / 0x1_0000 % 0x100][4 * i + 3 := w / 0x100_0000]
  }

  lemma Digits(w: nat)
    requires w < U32
    ensures w == w % 0x100 + 0x100 * (w / 0x100 % 0x100) +
                 0x1_0000 * (w / 0x1_0000 % 0x100) + 0x100_0000 * (w / 0x100_0000)
    ensures w / 0x100_0000 < 0x100
  {
    var a := w / 0x100;
    var b := a / 0x100;
    assert w == 0x100 * a + w % 0x100;
    assert a == 0x100 * b + a % 0x100;
    assert b == w / 0x1_0000;
    assert b == 0x100 * (b / 0x100) + b % 0x100;
    assert b / 0x100 == w / 0x100_0000;
  }

  /** Writing a word and reading any word back. */
  lemma WordOfSetWord(s: Sector, i: nat, w: nat, j: nat)
    requires i < PTRS_PER_BLOCK && j < PTRS_PER_BLOCK && w < U32
    ensures Word(SetWord(s, i, w), j) == if i == j then w else Word(s, j)
  {
    Digits(w);
  }

  lemma SetWordBytes(s: Sector, i: nat, w: nat, k: nat)
    requires i < PTRS_PER_BLOCK && w < U32 && k < SECTOR_SIZE && (k < 4 * i || k >= 4 * i + 4)
    ensures SetWord(s, i, w)[k] == s[k]
  {}

  lemma WordOfZero(i: nat)
    requires i < PTRS_PER_BLOCK
    ensures Word(ZeroSector(), i) == 0
  {}

  /** data copied into s at ofs. */
  function Splice<T>(s: seq<T>, ofs: nat, data: seq<T>): (r: seq<T>)
    requires ofs + |data| <= |s|
    ensures |r| == |s|
    ensures forall k :: 0 <= k < |s| ==> r[k] == if ofs <= k < ofs + |data| then data[k - ofs] else s[k]
  {
    s[..ofs] + data + s[ofs + |data|..]
  }

  function Min(a: int, b: int): int { if a < b then a else b }
}
