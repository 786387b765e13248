/** Bytes, the wrap-around arithmetic of the firmware's integer types, and chunks of bytes. */
module Bytes {

  const WORD32: nat := 0x1_0000_0000

  type byte = b: int | 0 <= b < 0x100
  type word = w: int | 0 <= w < 0x10000

  datatype Option<T> = None | Some(value: T)

  /** Unsigned wrap-around at 8, 16 and 32 bits. */
  function Wrap8(x: nat): byte { x % 0x100 }
  function Wrap16(x: nat): word { x % 0x10000 }
  function Wrap32(x: nat): nat { x % 0x1_0000_0000 }

  function Min(a: nat, b: nat): nat { if a < b then a else b }

  /** Two bytes as a 16-bit value. */
  function Word(high: byte, low: byte): word { 0x100 * (high as int) + low }

  /** A remainder is determined by any quotient that leaves less than the modulus. */
  lemma Remainder(x: nat, m: nat, q: nat, r: nat)
    requires x == m * q + r && r < m
    ensures x % m == r
  {
    var d: int := x / m - q;
    assert m * d == r - x % m;
    assert (d > 0 ==> m * d >= m) && (d < 0 ==> m * d + m <= 0);
  }

  lemma Wrap8Add(x: nat, y: nat)
    ensures Wrap8(Wrap8(x) + y) == Wrap8(x + y)
  {
    var sum := x % 0x100 + y;
    Remainder(x + y, 0x100, x / 0x100 + sum / 0x100, sum % 0x100);
  }

  lemma Wrap16Add(x: nat, y: nat)
    ensures Wrap16(Wrap16(x) + y) == Wrap16(x + y)
  {
    var sum := x % 0x10000 + y;
    Remainder(x + y, 0x10000, x / 0x10000 + sum / 0x10000, sum % 0x10000);
  }

  lemma Wrap32Add(x: nat, y: nat)
    ensures Wrap32(Wrap32(x) + y) == Wrap32(x + y)
  {
    var sum := x % 0x1_0000_0000 + y;
    Remainder(x + y, WORD32, x / 0x1_0000_0000 + sum / 0x1_0000_0000, sum % 0x1_0000_0000);
  }

  lemma NoWrap(x: nat)
    requires x < WORD32
    ensures Wrap32(x) == x
  {
  }

  /** Shifting a digit into a byte keeps the digit shifted in before it. */
  lemma ShiftDigit(data: byte, digit: nat)
    requires digit < 0x10
    ensures Wrap8(data * 0x10 + digit) == data % 0x10 * 0x10 + digit
    ensures Wrap8(data * 0x10 + digit) % 0x10 == digit
  {
    Remainder(data * 0x10 + digit, 0x100, data / 0x10, data % 0x10 * 0x10 + digit);
    Remainder(data % 0x10 * 0x10 + digit, 0x10, data % 0x10, digit);
  }

  function Flatten(packets: seq<seq<byte>>): seq<byte> {
    if packets == [] then [] else packets[0] + Flatten(packets[1..])
  }

  lemma {:induction false} FlattenAppend(a: seq<seq<byte>>, b: seq<seq<byte>>)
    ensures Flatten(a + b) == Flatten(a) + Flatten(b)
    decreases |a|
  {
    if a == [] {
      assert a + b == b;
    } else {
      assert (a + b)[0] == a[0] && (a + b)[1..] == a[1..] + b;
      FlattenAppend(a[1..], b);
    }
  }

  lemma FlattenCons(packet: seq<byte>, rest: seq<seq<byte>>)
    ensures Flatten([packet] + rest) == packet + Flatten(rest)
  {
    assert ([packet] + rest)[1..] == rest;
  }

  lemma FlattenNothing()
    ensures Flatten([]) == []
  {
  }

  lemma FlattenOne(packet: seq<byte>)
    ensures Flatten([packet]) == packet
  {
    assert [packet][1..] == [];
  }
}
