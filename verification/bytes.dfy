/** Bytes, fixed-width integers and the big-endian layout of lib/bytes. */
module Bytes {
  type byte = b: int | 0 <= b < 0x100
  type bytes = seq<byte>
  type u16 = v: int | 0 <= v < 0x1_0000
  type i16 = v: int | -0x8000 <= v < 0x8000
  type u32 = v: int | 0 <= v < 0x1_0000_0000

  /** A pointer to a Go byte slice: callees may grow it or overwrite its bytes. */
  class Buffer {
    var data: bytes

    constructor (data: bytes)
      ensures this.data == data
    {
      this.data := data;
    }

    method AppendByte(b: byte)
      modifies this
      ensures data == old(data) + [b]
    {
      data := data + [b];
    }

    method AppendUint16(v: u16)
      modifies this
      ensures data == old(data) + Be16(v)
    {
      data := data + [v / 0x100];
      data := data + [v % 0x100];
    }

    method AppendUint32(v: u32)
      modifies this
      ensures data == old(data) + Be32(v)
    {
      data := data + [v / 0x1_0000 / 0x100];
      data := data + [v / 0x1_0000 % 0x100];
      data := data + [v % 0x1_0000 / 0x100];
      data := data + [v % 0x1_0000 % 0x100];
    }

    method WriteUint16(x: nat, v: u16)
      requires x + 2 <= |data|
      modifies this
      ensures data == Overwrite(old(data), x, Be16(v))
    {
      data := data[x := v / 0x100];
      data := data[x + 1 := v % 0x100];
    }

    method WriteUint32(x: nat, v: u32)
      requires x + 4 <= |data|
      modifies this
      ensures data == Overwrite(old(data), x, Be32(v))
    {
      data := data[x := v / 0x1_0000 / 0x100];
      data := data[x + 1 := v / 0x1_0000 % 0x100];
      data := data[x + 2 := v % 0x1_0000 / 0x100];
      data := data[x + 3 := v % 0x1_0000 % 0x100];
    }
  }

  /** `data` with the bytes from index x on replaced by `patch`. */
  function Overwrite(data: bytes, x: nat, patch: bytes): (r: bytes)
    requires x + |patch| <= |data|
    ensures |r| == |data|
    ensures forall i :: 0 <= i < |data| ==> r[i] == if x <= i < x + |patch| then patch[i - x] else data[i]
  {
    data[..x] + patch + data[x + |patch|..]
  }

  function Be16(v: u16): (r: bytes)
    ensures |r| == 2
  {
    [v / 0x100, v % 0x100]
  }

  function Be32(v: u32): (r: bytes)
    ensures |r| == 4
  {
    Be16(v / 0x1_0000) + Be16(v % 0x1_0000)
  }

  /** The 16 bits of a signed value, as the conversion uint16(v) keeps them. */
  function FromI16(v: i16): u16 {
    if v < 0 then v + 0x1_0000 else v
  }

  function ToI16(v: u16): i16 {
    if v < 0x8000 then v else v - 0x1_0000
  }

  function ReadUint16(data: bytes, x: nat): (v: u16)
    requires x + 2 <= |data|
    ensures Be16(v) == data[x..x + 2]
  {
    data[x] as int * 0x100 + data[x + 1] as int
  }

  function ReadInt16(data: bytes, x: nat): (v: i16)
    requires x + 2 <= |data|
    ensures Be16(FromI16(v)) == data[x..x + 2]
  {
    ToI16(ReadUint16(data, x))
  }

  lemma TwoWords(hi: u16, lo: u16)
    ensures hi as int * 0x1_0000 + lo as int < 0x1_0000_0000
    ensures Be32(hi as int * 0x1_0000 + lo as int) == Be16(hi) + Be16(lo)
  {
    hide Be16;
    assert (hi as int * 0x1_0000 + lo as int) / 0x1_0000 == hi as int;
    assert (hi as int * 0x1_0000 + lo as int) % 0x1_0000 == lo as int;
  }

  function ReadUint32(data: bytes, x: nat): (v: u32)
    requires x + 4 <= |data|
    ensures Be32(v) == data[x..x + 4]
  {
    var hi, lo := ReadUint16(data, x), ReadUint16(data, x + 2);
    TwoWords(hi, lo);
    assert data[x..x + 4] == data[x..x + 2] + data[x + 2..x + 4];
    hi as int * 0x1_0000 + lo as int
  }

  lemma Be16Injective(v: u16, w: u16)
    requires Be16(v) == Be16(w)
    ensures v == w
  {
    assert Be16(v)[0] == Be16(w)[0] && Be16(v)[1] == Be16(w)[1];
  }

  lemma Be32Injective(v: u32, w: u32)
    requires Be32(v) == Be32(w)
    ensures v == w
  {
    assert Be16(v / 0x1_0000) == Be32(v)[..2] && Be16(w / 0x1_0000) == Be32(w)[..2];
    assert Be16(v % 0x1_0000) == Be32(v)[2..] && Be16(w % 0x1_0000) == Be32(w)[2..];
    Be16Injective(v / 0x1_0000, w / 0x1_0000);
    Be16Injective(v % 0x1_0000, w % 0x1_0000);
  }

  /** What was written big-endian at x is what is read there. */
  lemma ReadBack16(data: bytes, x: nat, v: u16)
    requires x + 2 <= |data| && data[x..x + 2] == Be16(v)
    ensures ReadUint16(data, x) == v
  {
    Be16Injective(ReadUint16(data, x), v);
  }

  /** The same for signed values. */
  lemma ReadBackSigned(data: bytes, x: nat, v: i16)
    requires x + 2 <= |data| && data[x..x + 2] == Be16(FromI16(v))
    ensures ReadInt16(data, x) == v
  {
    ReadBack16(data, x, FromI16(v));
  }

  lemma ReadBack32(data: bytes, x: nat, v: u32)
    requires x + 4 <= |data| && data[x..x + 4] == Be32(v)
    ensures ReadUint32(data, x) == v
  {
    Be32Injective(ReadUint32(data, x), v);
  }

  /** ascii.ToLower of one byte. */
  function LowerByte(b: byte): byte {
    if 65 <= b <= 90 then b + 32 else b
  }

  function Lower(s: bytes): (r: bytes)
    ensures |r| == |s|
    ensures forall i :: 0 <= i < |s| ==> r[i] == LowerByte(s[i])
  {
    seq(|s|, i requires 0 <= i < |s| => LowerByte(s[i]))
  }

  lemma LowerIdempotent(s: bytes)
    ensures Lower(Lower(s)) == Lower(s)
  {
  }

  lemma LowerSplit(s: bytes, i: nat)
    requires i <= |s|
    ensures Lower(s)[..i] == Lower(s[..i]) && Lower(s)[i..] == Lower(s[i..])
  {
  }

  lemma OverwriteSame(data: bytes, x: nat, patch: bytes)
    requires x + |patch| <= |data| && data[x..x + |patch|] == patch
    ensures Overwrite(data, x, patch) == data
  {
    assert Overwrite(data, x, patch) == data[..x] + data[x..x + |patch|] + data[x + |patch|..];
  }

  /** A slice of a slice. */
  lemma SubSlice(data: bytes, x: nat, part: bytes, i: nat, j: nat)
    requires x + |part| <= |data| && data[x..x + |part|] == part
    requires i <= j <= |part|
    ensures data[x + i..x + j] == part[i..j]
    ensures i < |part| ==> data[x + i] == part[i]
  {
    forall k | 0 <= k < |part| ensures data[x + k] == part[k] {
      assert data[x..x + |part|][k] == data[x + k];
    }
  }
}
