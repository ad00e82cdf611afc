/** Bytes and 16-bit words as the Modbus programs use them. */
module Bytes {
  type byte = bv8
  type word = bv16

  function HiByte(w: word): byte { (w >> 8) as byte }

  function LoByte(w: word): byte { (w & 0x00FF) as byte }

  function Word(hi: byte, lo: byte): word { ((hi as word) << 8) | (lo as word) }

  /** The conversion of an int to a byte, which keeps the low eight bits. */
  function ToByte(n: int): byte { (n % 256) as byte }

  function ToInt(b: byte): (n: nat)
    ensures n < 256
  {
    b as int
  }

  lemma LowBitsOnly(n: int)
    ensures ToByte(n) == ToByte(n % 256)
  {
  }

  lemma ByteRoundTrip(n: int)
    requires 0 <= n < 256
    ensures ToInt(ToByte(n)) == n
  {
  }

  lemma ToIntDecides(a: byte, b: byte)
    requires ToInt(a) == ToInt(b)
    ensures a == b
  {
  }

  lemma IntRoundTrip(b: byte)
    ensures ToByte(ToInt(b)) == b
  {
    hide ToByte, ToInt;
    ByteRoundTrip(ToInt(b));
    ToIntDecides(ToByte(ToInt(b)), b);
  }

  function Xor(a: byte, b: byte): byte { a ^ b }

  function Mix(a: word, b: word): word { a ^ b }

  lemma MixAssociates(x: word, y: word, z: word)
    ensures Mix(Mix(x, y), z) == Mix(x, Mix(y, z))
  {
  }

  lemma MixCommutes(x: word, y: word)
    ensures Mix(x, y) == Mix(y, x)
  {
  }

  lemma MixUnits(x: word)
    ensures Mix(x, x) == 0 && Mix(x, 0) == x == Mix(0, x)
  {
  }

  /** Mixing the same word into both sides of a mix: it cancels, or moves, as it should. */
  lemma MixTaps(x: word, y: word, t: word)
    ensures Mix(Mix(x, t), Mix(y, t)) == Mix(x, y)
    ensures Mix(x, Mix(y, t)) == Mix(Mix(x, t), y) == Mix(Mix(x, y), t)
  {
    hide Mix;
    MixAssociates(x, t, Mix(y, t));
    MixCommutes(y, t);
    MixAssociates(t, t, y);
    MixUnits(t);
    MixUnits(y);
    MixAssociates(x, y, t);
    MixAssociates(x, t, y);
  }

  lemma MixToZero(x: word, y: word)
    ensures Mix(x, y) == 0 <==> x == y
  {
    hide Mix;
    MixUnits(x);
    MixUnits(y);
    MixAssociates(x, y, y);
  }
}
