/** Blocks of bytes, the 32-bit words in them, and the bits of the free map. */
module FsBlocks {
  const BSIZE := 1024
  const NDIRECT := 12
  const NINDIRECT := 256   // BSIZE / sizeof(uint)
  const MAXFILE := NDIRECT + NINDIRECT
  const BPB := BSIZE * 8   // bitmap bits per block
  const UINT := 0x1_0000_0000

  type Byte = x: int | 0 <= x < 256
  type Block = b: seq<Byte> | |b| == BSIZE witness seq(BSIZE, _ => 0)

  function Zeroes(): (b: Block)
    ensures forall k | 0 <= k < BSIZE :: b[k] == 0
  {
    seq(BSIZE, _ => 0)
  }

  // ----- little-endian words ------------------------------------------------------

  function GetWord(b: Block, j: int): (w: int)
    requires 0 <= j < NINDIRECT
    ensures 0 <= w < UINT
  {
    var w0: int, w1: int, w2: int, w3: int := b[4 * j], b[4 * j + 1], b[4 * j + 2], b[4 * j + 3];
    w0 + 0x100 * w1 + 0x1_0000 * w2 + 0x100_0000 * w3
  }

  function SetWord(b: Block, j: int, w: int): Block
    requires 0 <= j < NINDIRECT && 0 <= w < UINT
  {
    b[4 * j := w % 0x100][4 * j + 1 := w / 0x100 % 0x100]
     [4 * j + 2 := w / 0x1_0000 % 0x100][4 * j + 3 := w / 0x100_0000]
  }

  lemma FourBytes(w: int)
    requires 0 <= w < UINT
    ensures w % 0x100 + 0x100 * (w / 0x100 % 0x100) + 0x1_0000 * (w / 0x1_0000 % 0x100)
      + 0x100_0000 * (w / 0x100_0000) == w
  {
    assert w / 0x1_0000 == w / 0x100 / 0x100 && w / 0x100_0000 == w / 0x1_0000 / 0x100;
  }

  lemma WordRoundTrip(b: Block, j: int, w: int)
    requires 0 <= j < NINDIRECT && 0 <= w < UINT
    ensures GetWord(SetWord(b, j, w), j) == w
  {
    var c := SetWord(b, j, w);
    assert c[4 * j] == w % 0x100 && c[4 * j + 1] == w / 0x100 % 0x100;
    assert c[4 * j + 2] == w / 0x1_0000 % 0x100 && c[4 * j + 3] == w / 0x100_0000;
    FourBytes(w);
  }

  lemma WordFrame(b: Block, j: int, w: int, k: int)
    requires 0 <= j < NINDIRECT && 0 <= w < UINT && 0 <= k < NINDIRECT && k != j
    ensures GetWord(SetWord(b, j, w), k) == GetWord(b, k)
  {
  }

  // ----- bits ----------------------------------------------------------------------

  function Mask(k: int): bv8
    requires 0 <= k < 8
  {
    if k == 0 then 1 else if k == 1 then 2 else if k == 2 then 4 else if k == 3 then 8
    else if k == 4 then 16 else if k == 5 then 32 else if k == 6 then 64 else 128
  }

  lemma MaskIsShift(k: int)
    requires 0 <= k < 8
    ensures Mask(k) == (1 as bv8) << (k as bv4)
  {}

  predicate Bit(x: bv8, k: int)
    requires 0 <= k < 8
  {
    x & Mask(k) != 0
  }

  /** The byte with bit k set, and with it cleared. */
  function WithBit(x: bv8, k: int): (y: bv8)
    requires 0 <= k < 8
    ensures forall j | 0 <= j < 8 :: Bit(y, j) <==> j == k || Bit(x, j)
  {
    x | Mask(k)
  }

  function WithoutBit(x: bv8, k: int): (y: bv8)
    requires 0 <= k < 8
    ensures forall j | 0 <= j < 8 :: Bit(y, j) <==> j != k && Bit(x, j)
  {
    x & !Mask(k)
  }

  // What the code computes with m = 1 << k: x & m, x | m and x & ~m.

  method TestBit(x: bv8, k: int) returns (b: bool)
    requires 0 <= k < 8
    ensures b == Bit(x, k)
  {
    MaskIsShift(k);
    b := x & ((1 as bv8) << (k as bv4)) != 0;
  }

  method SetBit(x: bv8, k: int) returns (y: bv8)
    requires 0 <= k < 8
    ensures y == WithBit(x, k)
  {
    MaskIsShift(k);
    y := x | ((1 as bv8) << (k as bv4));
  }

  method ClearBit(x: bv8, k: int) returns (y: bv8)
    requires 0 <= k < 8
    ensures y == WithoutBit(x, k)
  {
    MaskIsShift(k);
    y := x & !((1 as bv8) << (k as bv4));
  }

  /** The free map as one bit per block. */
  ghost predicate IsBitmap(bytes: seq<bv8>, bits: seq<bool>) {
    |bits| <= 8 * |bytes| && forall b | 0 <= b < |bits| :: bits[b] == Bit(bytes[b / 8], b % 8)
  }

  lemma MarkByte(bytes: seq<bv8>, bits: seq<bool>, b: int, y: bv8, v: bool)
    requires IsBitmap(bytes, bits) && 0 <= b < |bits|
    requires forall k | 0 <= k < 8 :: Bit(y, k) == if k == b % 8 then v else Bit(bytes[b / 8], k)
    ensures IsBitmap(bytes[b / 8 := y], bits[b := v])
  {
    forall c | 0 <= c < |bits| ensures bits[b := v][c] == Bit(bytes[b / 8 := y][c / 8], c % 8) {
      if c / 8 == b / 8 && c != b {
        assert c % 8 != b % 8;
      }
    }
  }
}
