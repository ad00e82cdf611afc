/** Splitting a word into bytes and merging it back, as program_settings does. */
module WordBytes {
  import opened Bytes

  const WORD_SIZE := 2

  /** The byte that the mask 0x00FF, moved up by 8*i bits, cuts out. */
  function ByteAt(value: word, i: nat): byte
    requires i < WORD_SIZE
  {
    if i == 0 then (value & 0x00FF) as byte else ((value & 0xFF00) >> 8) as byte
  }

  function SplitWord(value: word, bigEndian: bool): seq<byte> {
    if bigEndian then [HiByte(value), LoByte(value)] else [LoByte(value), HiByte(value)]
  }

  method BytesOfWord(value: word, bigEndian: bool) returns (bytes: seq<byte>)
    ensures bytes == SplitWord(value, bigEndian)
  {
    bytes := [0, 0];
    var i := 0;
    while i < WORD_SIZE
      invariant 0 <= i <= WORD_SIZE && |bytes| == WORD_SIZE
      invariant forall k :: 0 <= k < i ==>
        bytes[if bigEndian then WORD_SIZE - k - 1 else k] == ByteAt(value, k)
    {
      if bigEndian {
        bytes := bytes[WORD_SIZE - i - 1 := ByteAt(value, i)];
      } else {
        bytes := bytes[i := ByteAt(value, i)];
      }
      i := i + 1;
    }
    assert bytes[if bigEndian then 1 else 0] == ByteAt(value, 0);
    assert bytes[if bigEndian then 0 else 1] == ByteAt(value, 1);
  }

  function MergeWord(bytes: seq<byte>, bigEndian: bool): word {
    if bytes == [] then 0
    else if |bytes| == 1 then bytes[0] as word
    else if bigEndian then Word(bytes[0], bytes[1])
    else Word(bytes[1], bytes[0])
  }

  /** At most two bytes are used; a single byte is taken as it is. */
  method WordFromBytes(bytes: seq<byte>, bigEndian: bool) returns (value: word)
    ensures value == MergeWord(bytes, bigEndian)
  {
    value := 0;
    var count := if |bytes| < WORD_SIZE then |bytes| else WORD_SIZE;
    var i := 0;
    while i < count
      invariant 0 <= i <= count
      invariant i == 0 ==> value == 0
      invariant i == 1 ==> value == (if bigEndian then bytes[count - 1] else bytes[0]) as word
      invariant i == 2 ==> value == if bigEndian then Word(bytes[0], bytes[1]) else Word(bytes[1], bytes[0])
    {
      var b := if bigEndian then bytes[count - i - 1] else bytes[i];
      value := value | ((b as word) << (8 * i));
      i := i + 1;
    }
  }

  lemma SplitThenMerge(value: word, bigEndian: bool)
    ensures MergeWord(SplitWord(value, bigEndian), bigEndian) == value
  {
  }

  lemma ByHalves(hi: byte, lo: byte)
    ensures HiByte(Word(hi, lo)) == hi && LoByte(Word(hi, lo)) == lo
  {
  }

  /** Big-endian is the upper byte first, little-endian the lower one; one byte alone is the lower one. */
  lemma UpperByteFirst(hi: byte, lo: byte, rest: seq<byte>)
    ensures Word(0x12, 0x34) == 0x1234
    ensures SplitWord(Word(hi, lo), true) == [hi, lo] && SplitWord(Word(hi, lo), false) == [lo, hi]
    ensures MergeWord([hi, lo] + rest, true) == Word(hi, lo) == MergeWord([lo, hi] + rest, false)
    ensures MergeWord([lo], true) == MergeWord([lo], false) == Word(0, lo) && MergeWord([], true) == 0
  {
    ByHalves(hi, lo);
    assert Word(0x12, 0x34) == 0x1234 && Word(0, lo) == lo as word;
  }
}
