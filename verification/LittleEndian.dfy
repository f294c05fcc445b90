/** Fixed-width little-endian words, as the frame header and the metadata block store them. */
module LittleEndian {
  import opened Base

  function Le(width: nat, v: nat): (bs: seq<byte>)
    ensures |bs| == width
  {
    if width == 0 then [] else [v % 256] + Le(width - 1, v / 256)
  }

  function LeValue(bs: seq<byte>): nat {
    if bs == [] then 0 else bs[0] + 256 * LeValue(bs[1..])
  }

  function Pow256(width: nat): nat {
    if width == 0 then 1 else 256 * Pow256(width - 1)
  }

  lemma Widths()
    ensures Pow256(4) == U32_LIMIT
    ensures Pow256(8) == U64_LIMIT
  {
    assert Pow256(4) == 256 * (256 * (256 * (256 * Pow256(0))));
    assert Pow256(8) == 256 * (256 * (256 * (256 * Pow256(4))));
  }

  /** Reading back a word that fits its width gives the word. */
  lemma {:induction false} ValueOfLe(width: nat, v: nat)
    requires v < Pow256(width)
    ensures LeValue(Le(width, v)) == v
  {
    if width > 0 {
      ValueOfLe(width - 1, v / 256);
      assert Le(width, v)[1..] == Le(width - 1, v / 256);
    }
  }

  /** Every byte string is the encoding of exactly one word of its width. */
  lemma {:induction false} LeOfValue(bs: seq<byte>)
    ensures LeValue(bs) < Pow256(|bs|)
    ensures Le(|bs|, LeValue(bs)) == bs
  {
    if bs != [] {
      LeOfValue(bs[1..]);
      Digits(bs[0], LeValue(bs[1..]));
      hide Pow256;
      assert LeValue(bs) < 256 * Pow256(|bs| - 1) == Pow256(|bs|) by { Pow256Step(|bs|); }
      assert Le(|bs|, LeValue(bs)) == [bs[0]] + Le(|bs| - 1, LeValue(bs[1..]));
    }
  }

  lemma Digits(low: byte, high: nat)
    ensures (low + 256 * high) % 256 == low && (low + 256 * high) / 256 == high
  {
  }

  lemma Pow256Step(width: nat)
    ensures width > 0 ==> Pow256(width) == 256 * Pow256(width - 1)
  {
  }

  /** A 32-bit word and its four bytes, the lowest first: this is what is written and what is read. */
  lemma WordOfBytes(bs: seq<byte>, v: u32)
    requires |bs| == 4
    ensures ReadU32(bs) as int == bs[0] as int + 0x100 * bs[1] as int + 0x1_0000 * bs[2] as int + 0x100_0000 * bs[3] as int
    ensures Le(4, v) == bs <==> v == ReadU32(bs)
  {
    assert bs[1..][1..] == bs[2..] && bs[2..][1..] == bs[3..] && bs[3..][1..] == [];
    assert LeValue([]) == 0 && LeValue(bs[3..]) == bs[3];
    assert LeValue(bs[2..]) == bs[2] as int + 256 * LeValue(bs[3..]);
    assert LeValue(bs[1..]) == bs[1] as int + 256 * LeValue(bs[2..]);
    U32RoundTrip(v);
    LeOfValue(bs);
  }

  /** The same for eight bytes, as two words. */
  lemma LongOfBytes(bs: seq<byte>, v: u64)
    requires |bs| == 8
    ensures ReadU64(bs) as int == ReadU32(bs[..4]) as int + 0x1_0000_0000 * ReadU32(bs[4..]) as int
    ensures Le(8, v) == bs <==> v == ReadU64(bs)
  {
    SplitValue(bs);
    U64RoundTrip(v);
    LeOfValue(bs);
  }

  lemma SplitValue(bs: seq<byte>)
    requires |bs| == 8
    ensures LeValue(bs) == LeValue(bs[..4]) + 0x1_0000_0000 * LeValue(bs[4..])
  {
    var low := bs[..4];
    assert bs[1..][1..] == bs[2..] && bs[2..][1..] == bs[3..] && bs[3..][1..] == bs[4..];
    assert low[1..][1..] == low[2..] && low[2..][1..] == low[3..] && low[3..][1..] == [];
    assert low[1..] == bs[1..4] && low[2..] == bs[2..4] && low[3..] == bs[3..4];
    assert LeValue(low[3..]) == bs[3];
  }

  lemma U32RoundTrip(v: u32)
    ensures LeValue(Le(4, v)) == v
  {
    Widths();
    ValueOfLe(4, v);
  }

  lemma U64RoundTrip(v: u64)
    ensures LeValue(Le(8, v)) == v
  {
    Widths();
    ValueOfLe(8, v);
  }

  function ReadU32(bs: seq<byte>): u32
    requires |bs| == 4
  {
    Widths();
    LeOfValue(bs);
    LeValue(bs)
  }

  function ReadU64(bs: seq<byte>): u64
    requires |bs| == 8
  {
    Widths();
    LeOfValue(bs);
    LeValue(bs)
  }
}
