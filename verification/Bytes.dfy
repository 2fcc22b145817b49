/** Byte strings, 32-byte chunks and their hexadecimal printing. */
module Bytes {

  type Byte = b: int | 0 <= b < 256

  type Chunk = s: seq<Byte> | |s| == 32 witness seq(32, i => 0)

  const ZERO_CHUNK: Chunk := [0, 0, 0, 0, 0, 0, 0, 0, 0, 0, 0, 0, 0, 0, 0, 0,
                              0, 0, 0, 0, 0, 0, 0, 0, 0, 0, 0, 0, 0, 0, 0, 0]

  function Digit(n: nat): char
    requires n < 16
  {
    if n < 10 then ('0' as int + n) as char else ('a' as int + n - 10) as char
  }

  function Digits(value: seq<Byte>): string {
    if value == [] then "" else [Digit(value[0] / 16), Digit(value[0] % 16)] + Digits(value[1..])
  }

  function ToHex(value: seq<Byte>): string {
    "0x" + Digits(value)
  }

  lemma {:induction false} DigitsLength(a: seq<Byte>)
    ensures |Digits(a)| == 2 * |a|
  {
    if a != [] {
      DigitsLength(a[1..]);
    }
  }

  lemma {:induction false} DigitsInjective(a: seq<Byte>, b: seq<Byte>)
    requires Digits(a) == Digits(b)
    ensures a == b
  {
    DigitsLength(a);
    DigitsLength(b);
    if a != [] {
      var u, v := Digits(a), Digits(b);
      assert u[0] == Digit(a[0] / 16) && v[0] == Digit(b[0] / 16);
      assert u[1] == Digit(a[0] % 16) && v[1] == Digit(b[0] % 16);
      assert a[0] == b[0];
      assert u[2..] == Digits(a[1..]) && v[2..] == Digits(b[1..]);
      DigitsInjective(a[1..], b[1..]);
      assert a == [a[0]] + a[1..] && b == [b[0]] + b[1..];
    }
  }

  /** Comparing two byte strings by their hexadecimal printing is comparing the byte strings. */
  lemma ToHexInjective(a: seq<Byte>, b: seq<Byte>)
    ensures ToHex(a) == ToHex(b) <==> a == b
  {
    if ToHex(a) == ToHex(b) {
      assert ToHex(a)[2..] == Digits(a) && ToHex(b)[2..] == Digits(b);
      DigitsInjective(a, b);
    }
  }
}
