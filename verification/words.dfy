/** Bytes and 16-bit words, and the little-endian byte layout numpy uses when
    a `uint16` array is turned into a `bytearray`. */
module Words {

  type Byte = x: int | 0 <= x < 0x100

  /** An unsigned 16-bit code. */
  type Word16 = x: int | 0 <= x < 0x1_0000

  /** numpy's `astype(np.uint16)` of an integer: wrap-around modulo 2^16. */
  function ToUint16(x: int): (w: Word16)
    ensures (w - x) % 0x1_0000 == 0
  {
    x % 0x1_0000
  }

  /** The word made of a low byte and a high byte: `lo + (hi << 8)`. */
  function Join(lo: Byte, hi: Byte): (w: Word16)
    ensures w % 0x100 == lo && w / 0x100 == hi
  {
    lo + hi * 0x100
  }

  /** `bytearray(words)` for a `uint16` array: each word as its low byte
      followed by its high byte. */
  function ToBytes(words: seq<Word16>): (bytes: seq<Byte>)
    ensures |bytes| == 2 * |words|
    ensures forall k :: 0 <= k < |words| ==> Join(bytes[2 * k], bytes[2 * k + 1]) == words[k]
  {
    if words == [] then []
    else
      var rest := ToBytes(words[1..]);
      var bytes := [ByteOf(words[0], 0), ByteOf(words[0], 1)] + rest;
      assert forall k :: 0 <= k < |words| ==> Join(bytes[2 * k], bytes[2 * k + 1]) == words[k] by {
        forall k | 0 <= k < |words|
          ensures Join(bytes[2 * k], bytes[2 * k + 1]) == words[k]
        {
          if k == 0 {
            SplitJoin(words[0]);
          } else {
            assert bytes[2 * k] == rest[2 * (k - 1)] && bytes[2 * k + 1] == rest[2 * (k - 1) + 1];
            assert words[1..][k - 1] == words[k];
          }
        }
      }
      bytes
  }

  /** Byte `i` (0 low, 1 high) of a word. */
  function ByteOf(w: Word16, i: nat): Byte
  {
    if i == 0 then w % 0x100 else w / 0x100
  }

  /** A word is the join of its two bytes. */
  lemma SplitJoin(w: Word16)
    ensures Join(ByteOf(w, 0), ByteOf(w, 1)) == w
  {
  }

  /** Reads the bytes back as little-endian words (`np.frombuffer(..., uint16)`). */
  function FromBytes(bytes: seq<Byte>): (words: seq<Word16>)
    requires |bytes| % 2 == 0
    ensures |words| == |bytes| / 2
  {
    seq(|bytes| / 2, k requires 0 <= k < |bytes| / 2 => Join(bytes[2 * k], bytes[2 * k + 1]))
  }

  lemma WordsRoundTrip(words: seq<Word16>)
    ensures FromBytes(ToBytes(words)) == words
  {
    var bytes := ToBytes(words);
    assert |bytes| / 2 == |words|;
    var back := FromBytes(bytes);
    forall k | 0 <= k < |words|
      ensures back[k] == words[k]
    {
      FromBytesAt(bytes, k);
    }
  }

  /** Word `k` of `FromBytes` is made of bytes `2k` and `2k + 1`. */
  lemma FromBytesAt(bytes: seq<Byte>, k: nat)
    requires |bytes| % 2 == 0 && k < |bytes| / 2
    ensures 2 * k + 1 < |bytes|
    ensures FromBytes(bytes)[k] == Join(bytes[2 * k], bytes[2 * k + 1])
  {
  }

  lemma BytesRoundTrip(bytes: seq<Byte>)
    requires |bytes| % 2 == 0
    ensures ToBytes(FromBytes(bytes)) == bytes
  {
    var back := ToBytes(FromBytes(bytes));
    forall b | 0 <= b < |bytes|
      ensures back[b] == bytes[b]
    {
      var k, i := b / 2, b % 2;
      assert b == 2 * k + i;
      ByteRoundTrip(bytes, k, i);
    }
  }

  /** Byte `i` of word `k` survives reading the buffer as words and writing
      it back. */
  lemma ByteRoundTrip(bytes: seq<Byte>, k: nat, i: nat)
    requires |bytes| % 2 == 0 && k < |bytes| / 2 && i < 2
    ensures 2 * k + i < |bytes| && 2 * k + i < |ToBytes(FromBytes(bytes))|
    ensures ToBytes(FromBytes(bytes))[2 * k + i] == bytes[2 * k + i]
  {
    var words := FromBytes(bytes);
    FromBytesAt(bytes, k);
    ToBytesAt(words, k, i);
    ByteOfJoin(bytes[2 * k], bytes[2 * k + 1], i);
  }

  /** Byte `2k + i` of `ToBytes` is byte `i` of word `k`. */
  lemma ToBytesAt(words: seq<Word16>, k: nat, i: nat)
    requires k < |words| && i < 2
    ensures 2 * k + i < |ToBytes(words)|
    ensures ToBytes(words)[2 * k + i] == ByteOf(words[k], i)
  {
    var bytes := ToBytes(words);
    ByteOfJoin(bytes[2 * k], bytes[2 * k + 1], i);
  }

  /** Splitting a joined word gives back its bytes. */
  lemma ByteOfJoin(lo: Byte, hi: Byte, i: nat)
    ensures ByteOf(Join(lo, hi), i) == if i == 0 then lo else hi
  {
  }
}
