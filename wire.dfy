/** Bytes, fixed-width unsigned integers, and the big-endian order in which
    the bootloader protocol puts them on the wire. */
module Wire {

  type byte = x: int | 0 <= x < 0x100
  type u16 = x: int | 0 <= x < 0x1_0000
  type u32 = x: int | 0 <= x < 0x1_0000_0000

  const U32_MODULUS: int := 0x1_0000_0000

  /** The conventional Some/None datatype, usable with `:-`. */
  datatype Option<+T> = None | Some(value: T) {
    predicate IsFailure() { None? }

    function PropagateFailure<U>(): Option<U>
      requires None?
    {
      None
    }

    function Extract(): T
      requires Some?
    {
      value
    }
  }

  /** `a + n` in uint32_t arithmetic, which wraps around modulo 2^32. */
  function WrapAdd(a: u32, n: nat): (r: u32)
    ensures a + n < U32_MODULUS ==> r == a + n
    ensures n < U32_MODULUS <= a + n ==> r == a + n - U32_MODULUS
  {
    (a + n) % U32_MODULUS
  }

  /** Two wrapping additions in a row are one wrapping addition of the sum. */
  lemma WrapAddTwice(a: u32, m: nat, n: nat)
    ensures WrapAdd(WrapAdd(a, m), n) == WrapAdd(a, m + n)
  {
    var q := (a + m) / U32_MODULUS;
    assert WrapAdd(a, m) == a + m - q * U32_MODULUS;
    ModShift(a + m + n, q);
  }

  lemma ModShift(x: nat, q: nat)
    requires q * U32_MODULUS <= x
    ensures (x - q * U32_MODULUS) % U32_MODULUS == x % U32_MODULUS
  {
    if q > 0 {
      ModShift(x, q - 1);
      assert x - q * U32_MODULUS == (x - (q - 1) * U32_MODULUS) - U32_MODULUS;
    }
  }

  /** A uint16_t in network byte order (htons). */
  function U16Bytes(x: u16): (r: seq<byte>)
    ensures |r| == 2
  {
    [x / 0x100, x % 0x100]
  }

  /** The uint16_t that two bytes in network byte order stand for (ntohs). */
  function U16Value(hi: byte, lo: byte): (v: u16)
    ensures v / 0x100 == hi && v % 0x100 == lo
  {
    hi as int * 0x100 + lo as int
  }

  lemma U16RoundTrip(x: u16)
    ensures U16Value(U16Bytes(x)[0], U16Bytes(x)[1]) == x
  {
  }

  lemma U16BytesOfValue(hi: byte, lo: byte)
    ensures U16Bytes(U16Value(hi, lo)) == [hi, lo]
  {
    var v := U16Value(hi, lo);
    assert v / 0x100 == hi && v % 0x100 == lo;
  }

  /** A uint32_t in network byte order, most significant byte first. */
  function U32Bytes(x: u32): (r: seq<byte>)
    ensures |r| == 4
  {
    [x / 0x100_0000, x / 0x1_0000 % 0x100, x / 0x100 % 0x100, x % 0x100]
  }

  /** The uint32_t that four bytes in network byte order stand for. */
  function U32Value(b: seq<byte>): u32
    requires |b| == 4
  {
    b[0] as int * 0x100_0000 + b[1] as int * 0x1_0000 + b[2] as int * 0x100 + b[3] as int
  }

  lemma U32RoundTrip(x: u32)
    ensures U32Value(U32Bytes(x)) == x
  {
    var h := x / 0x1_0000;
    var m := x / 0x100;
    assert h == (x / 0x100_0000) * 0x100 + h % 0x100;
    assert m == h * 0x100 + m % 0x100;
    assert x == m * 0x100 + x % 0x100;
  }

  lemma U32BytesOfValue(b: seq<byte>)
    requires |b| == 4
    ensures U32Bytes(U32Value(b)) == b
  {
    var v := U32Value(b);
    var low := b[1] as int * 0x1_0000 + b[2] as int * 0x100 + b[3] as int;
    assert low < 0x100_0000;
    assert v / 0x100_0000 == b[0];
    assert v / 0x1_0000 == b[0] as int * 0x100 + b[1] as int;
    assert v / 0x100 == b[0] as int * 0x1_0000 + b[1] as int * 0x100 + b[2] as int;
  }
}
