/** Bytes, little-endian fields and the machine-word conversions that the patch tools rely on. */
module Bytes {

  type byte = x: int | 0 <= x < 256

  datatype Option<+T> = None | Some(value: T)

  const TWO_31: int := 0x8000_0000
  const TWO_32: int := 0x1_0000_0000
  const TWO_63: int := 0x8000_0000_0000_0000
  const TWO_64: int := 0x1_0000_0000_0000_0000

  /** 256 to the power `width`: the number of values of a field of `width` bytes. */
  function Span(width: nat): (n: nat)
    ensures n > 0
  {
    if width == 0 then 1 else 256 * Span(width - 1)
  }

  lemma SpanOfFields()
    ensures Span(4) == TWO_32 && Span(8) == TWO_64
  {
    assert Span(2) == 65536;
    assert Span(4) == 256 * (256 * Span(2));
    assert Span(6) == 256 * (256 * Span(4));
    assert Span(8) == 256 * (256 * Span(6));
  }

  /** The `width` low-order bytes of `n`, least significant first. */
  function LittleEndian(n: nat, width: nat): (s: seq<byte>)
    ensures |s| == width
  {
    if width == 0 then [] else [n % 256] + LittleEndian(n / 256, width - 1)
  }

  function FromLittleEndian(s: seq<byte>): (n: nat)
    ensures n < Span(|s|)
  {
    if s == [] then 0 else s[0] + 256 * FromLittleEndian(s[1..])
  }

  lemma {:induction false} LittleEndianRoundTrip(n: nat, width: nat)
    requires n < Span(width)
    ensures FromLittleEndian(LittleEndian(n, width)) == n
  {
    if width != 0 {
      LittleEndianRoundTrip(n / 256, width - 1);
      assert LittleEndian(n, width)[1..] == LittleEndian(n / 256, width - 1);
    }
  }

  type int32 = v: int | -0x8000_0000 <= v < 0x8000_0000

  /** The bytes that Write4 stores. */
  function Int32Bytes(v: int32): (s: seq<byte>)
    ensures |s| == 4
  {
    LittleEndian(v % TWO_32, 4)
  }

  /** The bytes that Write8 stores for a size_t value. */
  function SizeBytes(v: nat): (s: seq<byte>)
    ensures |s| == 8
  {
    LittleEndian(v % TWO_64, 8)
  }

  /** Read4: a signed 32-bit field. */
  function ReadInt32(s: seq<byte>, at: nat): (v: int32)
    requires at + 4 <= |s|
  {
    SpanOfFields();
    var u := FromLittleEndian(s[at..at + 4]);
    if u < TWO_31 then u else u - TWO_32
  }

  /** static_cast<size_t> of Read8. */
  function ReadSize(s: seq<byte>, at: nat): (v: nat)
    requires at + 8 <= |s|
    ensures v < TWO_64
  {
    SpanOfFields();
    FromLittleEndian(s[at..at + 8])
  }

  /** static_cast<int32_t> of a size. */
  function SizeAsInt32(n: nat): (v: int32) {
    (n + TWO_31) % TWO_32 - TWO_31
  }

  /** static_cast<size_t> of an int32: negative values become huge. */
  function Int32AsSize(v: int32): (n: nat) {
    if v < 0 then v + TWO_64 else v
  }

  lemma SmallSizeSurvives(n: nat)
    requires n < TWO_31
    ensures Int32AsSize(SizeAsInt32(n)) == n
  {}

  /** size_t addition. */
  function AddSize(a: nat, b: nat): (c: nat) {
    (a + b) % TWO_64
  }

  lemma SmallSum(a: nat, b: nat)
    requires a + b < TWO_64
    ensures AddSize(a, b) == a + b
  {}

  lemma ReadInt32Back(v: int32, s: seq<byte>, at: nat)
    requires at + 4 <= |s| && s[at..at + 4] == Int32Bytes(v)
    ensures ReadInt32(s, at) == v
  {
    hide LittleEndian, FromLittleEndian, Span;
    SpanOfFields();
    LittleEndianRoundTrip(v % TWO_32, 4);
  }

  lemma ReadSizeBack(v: nat, s: seq<byte>, at: nat)
    requires v < TWO_64
    requires at + 8 <= |s| && s[at..at + 8] == SizeBytes(v)
    ensures ReadSize(s, at) == v
  {
    hide LittleEndian, FromLittleEndian, Span;
    SpanOfFields();
    LittleEndianRoundTrip(v, 8);
  }

  lemma ConcatAssoc<T>(a: seq<T>, b: seq<T>, c: seq<T>)
    ensures (a + b) + c == a + (b + c)
  {}

  /** Concatenation of a list of sequences. */
  function Flatten<T>(pieces: seq<seq<T>>): (s: seq<T>)
  {
    if pieces == [] then [] else pieces[0] + Flatten(pieces[1..])
  }

  lemma {:induction false} FlattenAppend<T>(a: seq<seq<T>>, b: seq<seq<T>>)
    ensures Flatten(a + b) == Flatten(a) + Flatten(b)
  {
    var s := a + b;
    if a == [] {
      assert s == b;
    } else {
      FlattenAppend(a[1..], b);
      assert s[1..] == a[1..] + b;
      ConcatAssoc(a[0], Flatten(a[1..]), Flatten(b));
    }
  }

  lemma FlattenSnoc<T>(a: seq<seq<T>>, x: seq<T>)
    ensures Flatten(a + [x]) == Flatten(a) + x
  {
    FlattenAppend(a, [x]);
    assert Flatten([x]) == x + Flatten([]);
  }

  lemma FlattenNothing<T>(a: seq<seq<T>>)
    ensures Flatten(a[..0]) == []
  {}
}
