/** save and load: the whole SaveState copied byte for byte to and from the save
    buffer (breakout.c saveSize, save, load). On the wasm32 target a size_t is four
    little-endian bytes and the struct is padded to a multiple of four bytes. */
module Codec {
  import opened Grid

  const WordSize: nat := 4
  const HeaderLen: nat := 3 * WordSize

  function AlignUp(n: nat, a: nat): nat
    requires a > 0
  {
    (n + a - 1) / a * a
  }

  /** saveSize(): sizeof(SaveState) with the byte array the model stores. */
  const SaveSize: nat := AlignUp(HeaderLen + PackedLen, WordSize)

  /** 256 to the power k. */
  function Pow256(k: nat): (p: nat)
    ensures p > 0
  {
    if k == 0 then 1 else 256 * Pow256(k - 1)
  }

  /** The low `k` bytes of `n`, least significant first. */
  function LittleEndian(n: nat, k: nat): (r: seq<bv8>)
    ensures |r| == k
  {
    if k == 0 then [] else [(n % 256) as bv8] + LittleEndian(n / 256, k - 1)
  }

  /** The number whose little-endian bytes are `b`. */
  function FromLittleEndian(b: seq<bv8>): nat
  {
    if |b| == 0 then 0 else b[0] as int + 256 * FromLittleEndian(b[1..])
  }

  /** A value below 256 survives the trip through a byte. */
  lemma ByteRoundTrip(v: nat)
    requires v < 256
    ensures (v as bv8) as int == v
  {
    ByteBackAndForth(CountUp(v));
  }

  /** The byte reached by counting up from zero `v` times. */
  ghost function CountUp(v: nat): (x: bv8)
    requires v < 256
    ensures x as int == v
  {
    if v == 0 then 0 else ByteSucc(CountUp(v - 1)); CountUp(v - 1) + 1
  }

  lemma ByteSucc(x: bv8)
    requires x as int < 255
    ensures (x + 1) as int == x as int + 1
  {
  }

  lemma {:induction false} LittleEndianRoundTrip(n: nat, k: nat)
    requires n < Pow256(k)
    ensures FromLittleEndian(LittleEndian(n, k)) == n
  {
    if k > 0 {
      var rest := LittleEndian(n / 256, k - 1);
      assert n / 256 < Pow256(k - 1);
      LittleEndianRoundTrip(n / 256, k - 1);
      ByteRoundTrip(n % 256);
      FromLittleEndianCons((n % 256) as bv8, rest);
      assert FromLittleEndian(LittleEndian(n, k)) == n % 256 + 256 * (n / 256);
    }
  }

  lemma FromLittleEndianCons(b: bv8, rest: seq<bv8>)
    ensures FromLittleEndian([b] + rest) == b as int + 256 * FromLittleEndian(rest)
  {
    assert ([b] + rest)[1..] == rest;
  }

  lemma {:induction false} FromLittleEndianRoundTrip(b: seq<bv8>)
    ensures LittleEndian(FromLittleEndian(b), |b|) == b
  {
    if |b| > 0 {
      var low := b[0] as int;
      var m := FromLittleEndian(b[1..]);
      assert FromLittleEndian(b) == low + 256 * m;
      FromLittleEndianRoundTrip(b[1..]);
      LittleEndianCons(low, m, |b| - 1);
      ByteBackAndForth(b[0]);
      calc {
        LittleEndian(FromLittleEndian(b), |b|);
        LittleEndian(low + 256 * m, |b|);
        [b[0]] + LittleEndian(m, |b| - 1);
        [b[0]] + b[1..];
        b;
      }
    }
  }

  /** A byte survives the trip through a number. */
  lemma ByteBackAndForth(x: bv8)
    ensures (x as int) as bv8 == x
  {
  }

  /** The bytes of `low + 256 * high` are `low` followed by the bytes of `high`. */
  lemma LittleEndianCons(low: nat, high: nat, k: nat)
    requires low < 256
    ensures LittleEndian(low + 256 * high, k + 1) == [low as bv8] + LittleEndian(high, k)
  {
    var n := low + 256 * high;
    assert n % 256 == low && n / 256 == high;
  }

  lemma {:induction false} FromLittleEndianBound(b: seq<bv8>)
    ensures FromLittleEndian(b) < Pow256(|b|)
  {
    if |b| > 0 {
      FromLittleEndianBound(b[1..]);
    }
  }

  /** save(): the struct's bytes as memcpy sees them: the counters in declaration order,
      then the packed bytes, then the padding. */
  function Save(s: SaveState): (blob: seq<bv8>)
    requires WellFormed(s)
    ensures |blob| == SaveSize
    ensures blob[HeaderLen..HeaderLen + PackedLen] == s.packed
    ensures blob[HeaderLen + PackedLen..] == s.padding
  {
    LittleEndian(s.bricksCount, WordSize) + LittleEndian(s.gameCount, WordSize)
      + LittleEndian(s.colorFunc, WordSize) + s.packed + s.padding
  }

  /** load(): the struct read back from saveSize bytes, padding included. */
  function Load(blob: seq<bv8>): (s: SaveState)
    requires |blob| == SaveSize
    ensures WellFormed(s)
    ensures s.packed == blob[HeaderLen..HeaderLen + PackedLen]
    ensures s.padding == blob[HeaderLen + PackedLen..]
  {
    FromLittleEndianBound(blob[0..4]);
    FromLittleEndianBound(blob[4..8]);
    FromLittleEndianBound(blob[8..12]);
    SaveState(FromLittleEndian(blob[0..4]), FromLittleEndian(blob[4..8]),
              FromLittleEndian(blob[8..12]), blob[HeaderLen..HeaderLen + PackedLen],
              blob[HeaderLen + PackedLen..])
  }

  /** load after save restores the state exactly. */
  lemma LoadSave(s: SaveState)
    requires WellFormed(s)
    ensures Load(Save(s)) == s
  {
    var blob := Save(s);
    assert blob[0..4] == LittleEndian(s.bricksCount, WordSize);
    assert blob[4..8] == LittleEndian(s.gameCount, WordSize);
    assert blob[8..12] == LittleEndian(s.colorFunc, WordSize);
    LittleEndianRoundTrip(s.bricksCount, WordSize);
    LittleEndianRoundTrip(s.gameCount, WordSize);
    LittleEndianRoundTrip(s.colorFunc, WordSize);
  }

  /** save after load reproduces the buffer byte for byte, padding included. */
  lemma SaveLoad(blob: seq<bv8>)
    requires |blob| == SaveSize
    ensures Save(Load(blob)) == blob
  {
    var s := Load(blob);
    FromLittleEndianRoundTrip(blob[0..4]);
    FromLittleEndianRoundTrip(blob[4..8]);
    FromLittleEndianRoundTrip(blob[8..12]);
    assert LittleEndian(s.bricksCount, WordSize) == blob[0..4];
    assert LittleEndian(s.gameCount, WordSize) == blob[4..8];
    assert LittleEndian(s.colorFunc, WordSize) == blob[8..12];
    BlobIsItsFields(blob);
  }

  /** A saved block is the concatenation of its five fields. */
  lemma BlobIsItsFields(blob: seq<bv8>)
    requires |blob| == SaveSize
    ensures blob == blob[0..4] + blob[4..8] + blob[8..12] + blob[HeaderLen..HeaderLen + PackedLen]
                    + blob[HeaderLen + PackedLen..]
  {
  }

  /** save and load keep the state invariant: what the renderer loads is as consistent
      as what the simulation saved. */
  lemma SaveLoadKeepsConsistent(s: SaveState)
    requires Consistent(s)
    ensures Consistent(Load(Save(s)))
  {
    LoadSave(s);
  }

  /** The struct as declared (26-byte array) has the same size: the 27th byte the
      addressing reaches sits in padding that save and load copy along. */
  lemma PaddingHoldsLastByte()
    ensures AlignUp(HeaderLen + DeclaredLen, WordSize) == SaveSize
    ensures HeaderLen + DeclaredLen < SaveSize
  {
  }
}
