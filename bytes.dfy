/** Byte-level helpers shared by the protocol modules: octets, 16-bit words,
    little-endian splitting and the 8-bit additive checksum used by every
    frame of the GS2 protocol. */
module Bytes {

  type byte = x: int | 0 <= x < 256
  type u16 = x: int | 0 <= x < 0x1_0000

  /** Low and high octet of a 16-bit word (`0xff & v`, `0xff & (v >> 8)`). */
  function Lo(v: u16): byte { v % 256 }
  function Hi(v: u16): byte { v / 256 }

  /** `x + 1` in 16-bit unsigned arithmetic: 0xFFFF wraps to 0. */
  function Inc16(x: u16): u16
  {
    if x == 0xFFFF then 0 else x + 1
  }

  /** The word whose little-endian octets are `lo`, `hi`. */
  function LE16(lo: byte, hi: byte): u16 { lo + 256 * hi }

  lemma LE16Split(v: u16)
    ensures LE16(Lo(v), Hi(v)) == v
  {
  }

  lemma LE16Parts(lo: byte, hi: byte)
    ensures Lo(LE16(lo, hi)) == lo && Hi(LE16(lo, hi)) == hi
  {
  }

  /** The plain sum of a byte sequence, left to right. */
  function Sum(s: seq<byte>): nat
  {
    if s == [] then 0 else Sum(s[..|s| - 1]) + s[|s| - 1]
  }

  /** The 8-bit truncated sum of `s`, the value a `uint8_t` accumulator
      holds after adding every byte of `s`. */
  function Sum8(s: seq<byte>): byte
  {
    Sum(s) % 256
  }

  lemma {:induction false} SumAppend(a: seq<byte>, b: seq<byte>)
    ensures Sum(a + b) == Sum(a) + Sum(b)
    decreases |b|
  {
    if b == [] {
      assert a + b == a;
    } else {
      var b' := b[..|b| - 1];
      assert (a + b)[..|a + b| - 1] == a + b';
      assert (a + b)[|a + b| - 1] == b[|b| - 1];
      SumAppend(a, b');
    }
  }

  /** Adding one more byte to a truncated accumulator. */
  lemma Sum8Snoc(s: seq<byte>, x: byte)
    ensures Sum8(s + [x]) == (Sum8(s) + x) % 256
  {
    assert (s + [x])[..|s|] == s;
  }

  /** Truncating before or after adding another byte gives the same
      octet. */
  lemma AddMod8(a: byte, b: byte, x: byte)
    ensures ((a + b) % 256 + x) % 256 == (a + (b + x) % 256) % 256
  {
    if a + b < 256 {
      assert (a + b) % 256 == a + b;
    } else {
      assert (a + b) % 256 == a + b - 256;
    }
    if b + x < 256 {
      assert (b + x) % 256 == b + x;
    } else {
      assert (b + x) % 256 == b + x - 256;
    }
  }

  lemma Sum8Append(a: seq<byte>, b: seq<byte>)
    ensures Sum8(a + b) == (Sum8(a) + Sum8(b)) % 256
  {
    SumAppend(a, b);
  }

  /** The additive checksum detects every single-byte corruption: two
      equally long messages that differ in exactly one position have
      different sums. */
  lemma SingleByteChangeDetected(a: seq<byte>, b: seq<byte>, k: nat)
    requires |a| == |b| && k < |a|
    requires a[k] != b[k]
    requires forall i :: 0 <= i < |a| && i != k ==> a[i] == b[i]
    ensures Sum8(a) != Sum8(b)
  {
    var p, q := a[..k], a[k + 1..];
    assert a == p + [a[k]] + q;
    assert b == p + [b[k]] + q;
    SumAppend(p + [a[k]], q);
    SumAppend(p + [b[k]], q);
    SumAppend(p, [a[k]]);
    SumAppend(p, [b[k]]);
    assert Sum([a[k]]) == a[k] by { assert [a[k]][..0] == []; }
    assert Sum([b[k]]) == b[k] by { assert [b[k]][..0] == []; }
    var d := Sum(p) + Sum(q);
    assert Sum(a) == d + a[k] && Sum(b) == d + b[k];
    assert -256 < a[k] - b[k] < 256;
  }

  function Pow2(k: nat): nat { if k == 0 then 1 else 2 * Pow2(k - 1) }

  /** Bitwise or of the low `k` bits of `a` and `b`, bit by bit. */
  function OrBits(a: nat, b: nat, k: nat): (r: nat)
    ensures r < Pow2(k)
  {
    if k == 0 then 0
    else 2 * OrBits(a / 2, b / 2, k - 1) + (if a % 2 == 1 || b % 2 == 1 then 1 else 0)
  }

  /** `a | b` on octets. */
  function OrByte(a: byte, b: byte): byte { OrBits(a, b, 8) }

  /** Or-ing into a cleared field stores the operand. */
  lemma {:induction false} OrBitsZero(b: nat, k: nat)
    requires b < Pow2(k)
    ensures OrBits(0, b, k) == b
  {
    if k > 0 {
      OrBitsZero(b / 2, k - 1);
    }
  }
}
