// Byte sequences and the fixed-width little-endian integers of
// siege-modules/platform/src/endian.cpp.
module Bytes {
  type Byte = b: int | 0 <= b < 256

  function Zeros(count: nat): (r: seq<Byte>)
    ensures |r| == count
    ensures forall i :: 0 <= i < count ==> r[i] == 0
  {
    seq(count, _ => 0)
  }

  function Power256(width: nat): (r: int)
    ensures r > 0
  {
    if width == 0 then 1 else 256 * Power256(width - 1)
  }

  // The low `width` bytes of the two's complement representation of `value`,
  // least significant first. A 3-byte integer is the low end of a 4-byte one.
  function LittleEndian(value: int, width: nat): (r: seq<Byte>)
    ensures |r| == width
    decreases width
  {
    if width == 0 then [] else [value % 256] + LittleEndian(value / 256, width - 1)
  }

  // The unsigned value of a little-endian byte sequence.
  function FromLittleEndian(bytes: seq<Byte>): (r: nat)
    ensures r < Power256(|bytes|)
  {
    if |bytes| == 0 then 0 else bytes[0] + 256 * FromLittleEndian(bytes[1..])
  }

  lemma ModuloStep(value: int, p: int)
    requires p > 0
    ensures value % (256 * p) == value % 256 + 256 * ((value / 256) % p)
  {
    var q := value / 256;
    var a := q / p;
    var low := value % 256 + 256 * (q % p);
    assert value == 256 * (a * p + q % p) + value % 256;
    assert 256 * (a * p) == (256 * p) * a;
    assert value == (256 * p) * a + low;
    assert 0 <= low < 256 * p;
    ModuloUnique(value, 256 * p, a, low);
  }

  // A nonzero multiple of d is at least d away from zero.
  lemma MultipleAtLeast(d: int, e: int)
    requires d > 0
    ensures e >= 1 ==> d * e >= d
    ensures e <= -1 ==> d * e <= -d
  {
  }

  lemma ModuloUnique(value: int, d: int, q: int, r: int)
    requires d > 0 && 0 <= r < d && value == d * q + r
    ensures value % d == r
  {
    var e := value / d - q;
    assert value == d * (value / d) + value % d;
    assert d * e == r - value % d;
    assert -d < d * e < d;
    MultipleAtLeast(d, e);
  }

  lemma LowByteAndRest(low: Byte, rest: nat)
    ensures (low + 256 * rest) % 256 == low && (low + 256 * rest) / 256 == rest
  {
    ModuloUnique(low + 256 * rest, 256, rest, low);
  }

  lemma LoadStep(bytes: seq<Byte>)
    requires |bytes| > 0
    ensures FromLittleEndian(bytes) == bytes[0] + 256 * FromLittleEndian(bytes[1..])
  {
  }

  lemma StoreStep(value: int, width: nat)
    ensures LittleEndian(value, 0) == []
    ensures width > 0 ==> LittleEndian(value, width) == [value % 256] + LittleEndian(value / 256, width - 1)
  {
  }

  // Storing an integer in `width` bytes and reading it back keeps exactly its
  // residue modulo 256^width; in particular a value that fits is unchanged.
  lemma {:induction false} StoreThenLoad(value: int, width: nat)
    ensures FromLittleEndian(LittleEndian(value, width)) == value % Power256(width)
    ensures 0 <= value < Power256(width) ==> FromLittleEndian(LittleEndian(value, width)) == value
    decreases width
  {
    hide LittleEndian, FromLittleEndian, Power256;
    StoreStep(value, width);
    if width == 0 {
      NoBytes();
    } else {
      var rest := LittleEndian(value / 256, width - 1);
      StoreThenLoad(value / 256, width - 1);
      ModuloStep(value, Power256(width - 1));
      PowerStep(width);
      LoadStep([value % 256] + rest);
      assert ([value % 256] + rest)[1..] == rest;
    }
    WithinModulus(value, Power256(width));
  }

  lemma NoBytes()
    ensures FromLittleEndian([]) == 0 && Power256(0) == 1
  {
  }

  lemma PowerStep(width: nat)
    requires width > 0
    ensures Power256(width) == 256 * Power256(width - 1)
  {
  }

  lemma WithinModulus(value: int, modulus: int)
    requires modulus > 0
    ensures 0 <= value < modulus ==> value % modulus == value
  {
  }

  // Every byte sequence is the stored form of the value read from it.
  lemma {:induction false} LoadThenStore(bytes: seq<Byte>)
    ensures LittleEndian(FromLittleEndian(bytes), |bytes|) == bytes
  {
    hide LittleEndian, FromLittleEndian;
    StoreStep(FromLittleEndian(bytes), |bytes|);
    if |bytes| > 0 {
      var low, rest := bytes[0], bytes[1..];
      LoadThenStore(rest);
      LoadStep(bytes);
      LowByteAndRest(low, FromLittleEndian(rest));
      assert bytes == [low] + rest;
    }
  }

  lemma DivideTwice(value: int, p: int)
    requires p > 0
    ensures value / (256 * p) == (value / 256) / p
  {
    var q := value / 256;
    var a := q / p;
    var low := value % 256 + 256 * (q % p);
    assert value == 256 * (a * p + q % p) + value % 256;
    assert 256 * (a * p) == (256 * p) * a;
    QuotientUnique(value, 256 * p, a, low);
  }

  lemma QuotientUnique(value: int, d: int, q: int, r: int)
    requires d > 0 && 0 <= r < d && value == d * q + r
    ensures value / d == q
  {
    var e := value / d - q;
    assert value == d * (value / d) + value % d;
    assert d * e == r - value % d;
    MultipleAtLeast(d, e);
  }

  // Byte `i` of a stored integer is its digit of weight 256^i.
  lemma {:induction false} ByteAt(value: int, width: nat, i: nat)
    requires i < width
    ensures LittleEndian(value, width)[i] == (value / Power256(i)) % 256
    decreases width
  {
    hide LittleEndian, Power256;
    StoreStep(value, width);
    NoBytes();
    if i > 0 {
      ByteAt(value / 256, width - 1, i - 1);
      PowerStep(i);
      DivideTwice(value, Power256(i - 1));
      assert LittleEndian(value, width)[i] == LittleEndian(value / 256, width - 1)[i - 1];
    }
  }

  lemma FieldWidths()
    ensures Power256(2) == 0x1_0000
    ensures Power256(3) == 0x100_0000
    ensures Power256(4) == 0x1_0000_0000
  {
    assert Power256(1) == 256;
    assert Power256(2) == 256 * Power256(1);
    assert Power256(3) == 256 * Power256(2);
  }

  // The number of bytes that bring `count` up to a multiple of `alignment`.
  function PaddingSize(count: nat, alignment: nat): (r: nat)
    requires alignment > 0
    ensures r < alignment && (count + r) % alignment == 0
  {
    PaddingReachesMultiple(count, alignment);
    if count % alignment == 0 then 0 else alignment - count % alignment
  }

  lemma PaddingReachesMultiple(count: nat, alignment: nat)
    requires alignment > 0
    ensures count % alignment != 0 ==> (count + (alignment - count % alignment)) % alignment == 0
  {
    if count % alignment != 0 {
      var q := count / alignment;
      assert count + (alignment - count % alignment) == alignment * (q + 1);
      ModuloUnique(alignment * (q + 1), alignment, q + 1, 0);
    }
  }

  // No smaller amount of padding reaches a multiple.
  lemma PaddingIsMinimal(count: nat, alignment: nat, r: nat)
    requires alignment > 0 && (count + r) % alignment == 0
    ensures PaddingSize(count, alignment) <= r
  {
    if r < alignment {
      PaddingUnique(count, alignment, r, PaddingSize(count, alignment));
    }
  }

  lemma PaddingUnique(count: nat, alignment: nat, r: nat, s: nat)
    requires alignment > 0 && r < alignment && s < alignment
    requires (count + r) % alignment == 0 && (count + s) % alignment == 0
    ensures r == s
  {
    var a := (count + r) / alignment;
    var b := (count + s) / alignment;
    assert r - s == alignment * (a - b);
    MultipleAtLeast(alignment, a - b);
  }

  // The counting loop that computes padding: both counters advance until the
  // first is aligned.
  method GetPaddingSize(count: nat, alignment: nat) returns (r: nat)
    requires alignment > 0
    ensures r == PaddingSize(count, alignment)
  {
    var n := count;
    r := 0;
    while n % alignment != 0
      invariant n == count + r
      invariant r <= PaddingSize(count, alignment)
      decreases PaddingSize(count, alignment) - r
    {
      n := n + 1;
      r := r + 1;
    }
    PaddingUnique(count, alignment, r, PaddingSize(count, alignment));
  }

  lemma SliceOfSlice(s: seq<Byte>, a: nat, b: nat, p: nat, q: nat)
    requires a <= b <= |s| && p <= q <= b - a
    ensures s[a..b][p..q] == s[a + p..a + q]
  {
    var left, right := s[a..b][p..q], s[a + p..a + q];
    assert |left| == |right|;
    assert forall k :: 0 <= k < |left| ==> left[k] == right[k];
  }
}
