/** Fixed-width unsigned values and their big-endian byte form. */
module Words {

  type U8 = x: int | 0 <= x < 0x100
  type U16 = x: int | 0 <= x < 0x1_0000
  type U32 = x: int | 0 <= x < 0x1_0000_0000

  /** 256 to the power n: one more than the largest value of n bytes. */
  function Pow256(n: nat): (p: nat)
    ensures p >= 1
  {
    if n == 0 then 1 else 256 * Pow256(n - 1)
  }

  /** The most significant byte comes first. */
  function ToBytes(width: nat, value: nat): (bytes: seq<U8>)
    ensures |bytes| == width
  {
    if width == 0 then [] else ToBytes(width - 1, value / 256) + [value % 256]
  }

  function FromBytes(bytes: seq<U8>): nat {
    if bytes == [] then 0 else 256 * FromBytes(bytes[..|bytes| - 1]) + bytes[|bytes| - 1]
  }

  /** Reading the bytes of a value gives the value back, when it fits the width. */
  lemma {:induction false} FromToBytes(width: nat, value: nat)
    requires value < Pow256(width)
    ensures FromBytes(ToBytes(width, value)) == value
  {
    if width == 0 {
    } else {
      FromToBytes(width - 1, value / 256);
      assert ToBytes(width, value)[..width - 1] == ToBytes(width - 1, value / 256);
    }
  }

  /** Any bytes are the bytes of the value they spell. */
  lemma {:induction false} ToFromBytes(bytes: seq<U8>)
    ensures FromBytes(bytes) < Pow256(|bytes|) && ToBytes(|bytes|, FromBytes(bytes)) == bytes
  {
    if bytes == [] {
    } else {
      var n := |bytes| - 1;
      ToFromBytes(bytes[..n]);
      assert FromBytes(bytes) / 256 == FromBytes(bytes[..n]) && FromBytes(bytes) % 256 == bytes[n];
      assert bytes == bytes[..n] + [bytes[n]];
    }
  }

  lemma Widths()
    ensures Pow256(0) == 1 && Pow256(1) == 0x100 && Pow256(2) == 0x1_0000 && Pow256(4) == 0x1_0000_0000
    ensures Pow256(8) == 0x1_0000_0000_0000_0000
  {
    assert Pow256(3) == 0x100_0000;
    assert Pow256(5) == 0x100_0000_0000;
    assert Pow256(6) == 0x1_0000_0000_0000;
    assert Pow256(7) == 0x100_0000_0000_0000;
  }

  // ----- the same, written out

  function Two(high: int, low: int): int {
    0x100 * high + low
  }

  function Four(first: int, second: int, third: int, fourth: int): int {
    0x100_0000 * first + 0x1_0000 * second + 0x100 * third + fourth
  }

  predicate Spells1(bytes: seq<U8>, at: nat, value: nat) {
    at + 1 <= |bytes| && bytes[at] == value
  }

  /** The two bytes at a place, the high one first. */
  predicate Spells2(bytes: seq<U8>, at: nat, value: nat) {
    at + 2 <= |bytes| && Two(bytes[at], bytes[at + 1]) == value
  }

  /** The four bytes at a place, the highest one first. */
  predicate Spells4(bytes: seq<U8>, at: nat, value: nat) {
    at + 4 <= |bytes| && Four(bytes[at], bytes[at + 1], bytes[at + 2], bytes[at + 3]) == value
  }

  /** The eight bytes at a place, the highest one first. */
  predicate Spells8(bytes: seq<U8>, at: nat, value: nat) {
    && at + 8 <= |bytes|
    && 0x1_0000_0000 * Four(bytes[at], bytes[at + 1], bytes[at + 2], bytes[at + 3])
       + Four(bytes[at + 4], bytes[at + 5], bytes[at + 6], bytes[at + 7]) == value
  }

  /** The bytes written for a value of each width. */
  lemma WrittenBytes(value: nat)
    ensures value < 0x100 ==> Spells1(ToBytes(1, value), 0, value)
    ensures value < 0x1_0000 ==> Spells2(ToBytes(2, value), 0, value)
    ensures value < 0x1_0000_0000 ==> Spells4(ToBytes(4, value), 0, value)
    ensures value < 0x1_0000_0000_0000_0000 ==> Spells8(ToBytes(8, value), 0, value)
  {
    hide ToBytes, FromBytes, Pow256;
    Widths();
    if value < 0x100 { SpelledSlice(ToBytes(1, value), value); }
    if value < 0x1_0000 { SpelledSlice(ToBytes(2, value), value); }
    if value < 0x1_0000_0000 { SpelledSlice(ToBytes(4, value), value); }
    if value < 0x1_0000_0000_0000_0000 {
      FromToBytes(8, value);
      EightBytes(ToBytes(8, value));
    }
  }

  lemma EightBytes(bytes: seq<U8>)
    requires |bytes| == 8
    ensures FromBytes(bytes)
            == 0x1_0000_0000 * Four(bytes[0], bytes[1], bytes[2], bytes[3])
               + Four(bytes[4], bytes[5], bytes[6], bytes[7])
  {
    SpelledBytes(bytes[..4]);
    hide Four;
    assert bytes[..5][..4] == bytes[..4] && bytes[..6][..5] == bytes[..5] && bytes[..7][..6] == bytes[..6];
    assert FromBytes(bytes[..5]) == 256 * FromBytes(bytes[..4]) + bytes[4];
    assert FromBytes(bytes[..6]) == 256 * FromBytes(bytes[..5]) + bytes[5];
    assert FromBytes(bytes[..7]) == 256 * FromBytes(bytes[..6]) + bytes[6];
    LastFour(FromBytes(bytes[..4]), bytes[4], bytes[5], bytes[6], bytes[7]);
  }

  lemma LastFour(high: int, a: int, b: int, c: int, d: int)
    ensures 256 * (256 * (256 * (256 * high + a) + b) + c) + d == 0x1_0000_0000 * high + Four(a, b, c, d)
  {}

  lemma SpelledBytes(bytes: seq<U8>)
    ensures |bytes| == 1 ==> FromBytes(bytes) == bytes[0]
    ensures |bytes| == 2 ==> FromBytes(bytes) == Two(bytes[0], bytes[1])
    ensures |bytes| == 4 ==> FromBytes(bytes) == Four(bytes[0], bytes[1], bytes[2], bytes[3])
  {
    if |bytes| == 1 {
      assert bytes[..0] == [];
    } else if |bytes| == 2 {
      assert bytes[..1][..0] == [];
    } else if |bytes| == 4 {
      assert bytes[..3][..2] == bytes[..2] && bytes[..2][..1] == bytes[..1] && bytes[..1][..0] == [];
      assert FromBytes(bytes[..1]) == bytes[0];
      assert FromBytes(bytes[..2]) == Two(bytes[0], bytes[1]);
      assert FromBytes(bytes[..3]) == 256 * FromBytes(bytes[..2]) + bytes[2];
    }
  }

  /** The bytes written for a value are those that spell it. */
  lemma SpelledIff(bytes: seq<U8>, at: nat, value: nat)
    ensures value < 0x100 && at + 1 <= |bytes| ==>
              (bytes[at..at + 1] == ToBytes(1, value) <==> Spells1(bytes, at, value))
    ensures value < 0x1_0000 && at + 2 <= |bytes| ==>
              (bytes[at..at + 2] == ToBytes(2, value) <==> Spells2(bytes, at, value))
    ensures value < 0x1_0000_0000 && at + 4 <= |bytes| ==>
              (bytes[at..at + 4] == ToBytes(4, value) <==> Spells4(bytes, at, value))
  {
    hide ToBytes, FromBytes, Pow256;
    Widths();
    if value < 0x100 && at + 1 <= |bytes| { SpelledSlice(bytes[at..at + 1], value); }
    if value < 0x1_0000 && at + 2 <= |bytes| { SpelledSlice(bytes[at..at + 2], value); }
    if value < 0x1_0000_0000 && at + 4 <= |bytes| { SpelledSlice(bytes[at..at + 4], value); }
  }

  lemma SpelledSlice(slice: seq<U8>, value: nat)
    requires value < Pow256(|slice|)
    ensures slice == ToBytes(|slice|, value) <==> FromBytes(slice) == value
    ensures |slice| == 1 ==> FromBytes(slice) == slice[0]
    ensures |slice| == 2 ==> FromBytes(slice) == Two(slice[0], slice[1])
    ensures |slice| == 4 ==> FromBytes(slice) == Four(slice[0], slice[1], slice[2], slice[3])
  {
    hide ToBytes, FromBytes, Pow256;
    SpelledBytes(slice);
    ToFromBytes(slice);
    FromToBytes(|slice|, value);
  }
}
