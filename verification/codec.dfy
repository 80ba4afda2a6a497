/**
 * Byte/word packing of the record store (storage.c, bytes2words and
 * words2bytes). The store keeps byte arrays; the flash log stores 32-bit
 * words. Bytes are packed little-endian: byte j of an array lives in byte
 * lane j % 4 of word j / 4, and the lanes of the last word that no byte
 * reaches are zero.
 */
module Codec {

  type Byte = bv8
  type Word = bv32

  /** CAL_WORD_ARRAY_SIZE(a, b): the number of b-byte words that hold a bytes. */
  function CalWordArraySize(a: nat, b: nat): (r: nat)
    requires b > 0
    ensures r * b >= a && r * b < a + b
  {
    (a + b - 1) / b
  }

  /** The number of 32-bit words that hold n bytes. */
  function WordCount(n: nat): (r: nat)
    ensures 4 * r >= n && 4 * r < n + 4
  {
    CalWordArraySize(n, 4)
  }

  /** One word from four bytes, the first byte in the least significant lane. */
  function Pack(b0: Byte, b1: Byte, b2: Byte, b3: Byte): Word
  {
    (b0 as Word) | ((b1 as Word) << 8) | ((b2 as Word) << 16) | ((b3 as Word) << 24)
  }

  /** Byte lane k of a word (lane 0 is the least significant byte). */
  function ByteOf(w: Word, k: nat): Byte
    requires k < 4
  {
    match k
    case 0 => (w & 0xFF) as Byte
    case 1 => ((w >> 8) & 0xFF) as Byte
    case 2 => ((w >> 16) & 0xFF) as Byte
    case _ => ((w >> 24) & 0xFF) as Byte
  }

  lemma ByteOfPack(b0: Byte, b1: Byte, b2: Byte, b3: Byte)
    ensures ByteOf(Pack(b0, b1, b2, b3), 0) == b0
    ensures ByteOf(Pack(b0, b1, b2, b3), 1) == b1
    ensures ByteOf(Pack(b0, b1, b2, b3), 2) == b2
    ensures ByteOf(Pack(b0, b1, b2, b3), 3) == b3
  {
  }

  lemma PackByteOf(w: Word)
    ensures Pack(ByteOf(w, 0), ByteOf(w, 1), ByteOf(w, 2), ByteOf(w, 3)) == w
  {
  }

  /** The words whose lanes k0 and above are zero. */
  predicate UpperLanesZero(w: Word, k0: nat)
  {
    forall k :: k0 <= k < 4 ==> ByteOf(w, k) == 0
  }

  /** The full-word part of both conversion loops: count words from 4 * count bytes. */
  function PackWords(bytes: seq<Byte>, count: nat): (w: seq<Word>)
    requires 4 * count <= |bytes|
  {
    seq(count, i requires 0 <= i < count =>
      Pack(bytes[4 * i], bytes[4 * i + 1], bytes[4 * i + 2], bytes[4 * i + 3]))
  }

  /** The last word of bytes2words when the byte count is not a multiple of 4. */
  function PackTail(bytes: seq<Byte>): Word
    requires 0 < |bytes| % 4
  {
    var n := |bytes|;
    match n % 4
    case 1 => Pack(bytes[n - 1], 0, 0, 0)
    case 2 => Pack(bytes[n - 2], bytes[n - 1], 0, 0)
    case _ => Pack(bytes[n - 3], bytes[n - 2], bytes[n - 1], 0)
  }

  lemma PackTailLanes(bytes: seq<Byte>)
    requires 0 < |bytes| % 4
    ensures forall k :: 0 <= k < |bytes| % 4 ==> ByteOf(PackTail(bytes), k) == bytes[|bytes| - |bytes| % 4 + k]
    ensures UpperLanesZero(PackTail(bytes), |bytes| % 4)
  {
    var n := |bytes|;
    if n % 4 == 1 {
      ByteOfPack(bytes[n - 1], 0, 0, 0);
    } else if n % 4 == 2 {
      ByteOfPack(bytes[n - 2], bytes[n - 1], 0, 0);
    } else {
      ByteOfPack(bytes[n - 3], bytes[n - 2], bytes[n - 1], 0);
    }
  }

  /**
   * bytes2words: packs a byte array of at most 255 bytes (its size is a
   * uint8_t) into WordCount(|bytes|) words.
   */
  function Bytes2Words(bytes: seq<Byte>): (w: seq<Word>)
    requires |bytes| <= 255
    ensures |w| == WordCount(|bytes|)
    ensures forall j :: 0 <= j < |bytes| ==> ByteOf(w[j / 4], j % 4) == bytes[j]
    ensures |bytes| % 4 != 0 ==> UpperLanesZero(w[|w| - 1], |bytes| % 4)
  {
    var wordsSize := WordCount(|bytes|);
    if |bytes| % 4 == 0 then
      PackWordsLanes(bytes, wordsSize);
      PackWords(bytes, wordsSize)
    else
      TailWordLanes(bytes);
      PackWords(bytes, wordsSize - 1) + [PackTail(bytes)]
  }

  lemma TailWordLanes(bytes: seq<Byte>)
    requires 0 < |bytes| % 4
    ensures var w := PackWords(bytes, WordCount(|bytes|) - 1) + [PackTail(bytes)];
      forall j :: 0 <= j < |bytes| ==> ByteOf(w[j / 4], j % 4) == bytes[j]
  {
    var n := |bytes|;
    var count := WordCount(n) - 1;
    WordCountValue(n);
    assert count == n / 4 && n - n % 4 == 4 * count;
    var full := PackWords(bytes, count);
    var tail := PackTail(bytes);
    var w := full + [tail];
    PackWordsLanes(bytes, count);
    PackTailLanes(bytes);
    forall j | 0 <= j < n
      ensures ByteOf(w[j / 4], j % 4) == bytes[j]
    {
      if j < 4 * count {
        assert w[j / 4] == full[j / 4];
      } else {
        var k := j - 4 * count;
        DivMod4(count, k);
        assert w[j / 4] == tail;
        assert ByteOf(tail, k) == bytes[n - n % 4 + k];
      }
    }
  }

  /** Two words with the same four lanes are equal. */
  lemma LanesDetermineWord(a: Word, b: Word)
    requires forall k :: 0 <= k < 4 ==> ByteOf(a, k) == ByteOf(b, k)
    ensures a == b
  {
    PackByteOf(a);
    PackByteOf(b);
  }

  lemma PackWordsLanes(bytes: seq<Byte>, count: nat)
    requires 4 * count <= |bytes|
    ensures forall j :: 0 <= j < 4 * count ==> ByteOf(PackWords(bytes, count)[j / 4], j % 4) == bytes[j]
  {
    forall j | 0 <= j < 4 * count
      ensures ByteOf(PackWords(bytes, count)[j / 4], j % 4) == bytes[j]
    {
      var i := j / 4;
      ByteOfPack(bytes[4 * i], bytes[4 * i + 1], bytes[4 * i + 2], bytes[4 * i + 3]);
    }
  }

  /** The full-word part of words2bytes: 4 * count bytes from count words. */
  function UnpackWords(words: seq<Word>, count: nat): (b: seq<Byte>)
    requires count <= |words|
  {
    seq(4 * count, j requires 0 <= j < 4 * count => ByteOf(words[j / 4], j % 4))
  }

  /** The residue bytes words2bytes takes from the low lanes of the last word. */
  function UnpackTail(w: Word, residue: nat): (b: seq<Byte>)
    requires 0 < residue < 4
  {
    match residue
    case 1 => [ByteOf(w, 0)]
    case 2 => [ByteOf(w, 0), ByteOf(w, 1)]
    case _ => [ByteOf(w, 0), ByteOf(w, 1), ByteOf(w, 2)]
  }

  /** Byte j of a byte array sits in lane j mod 4 of word j div 4. */
  lemma DivMod4(q: nat, r: nat)
    requires r < 4
    ensures (4 * q + r) / 4 == q && (4 * q + r) % 4 == r
  {
  }

  /** The full words followed by the residue lanes of the next word keep every byte in its lane. */
  lemma UnpackLanes(words: seq<Word>, count: nat, residue: nat)
    requires 0 < residue < 4 && count < |words|
    ensures var b := UnpackWords(words, count) + UnpackTail(words[count], residue);
      |b| == 4 * count + residue
      && forall j :: 0 <= j < |b| ==> b[j] == ByteOf(words[j / 4], j % 4)
  {
    var b := UnpackWords(words, count) + UnpackTail(words[count], residue);
    forall j | 0 <= j < |b|
      ensures b[j] == ByteOf(words[j / 4], j % 4)
    {
      if j >= 4 * count {
        DivMod4(count, j - 4 * count);
      }
    }
  }

  /**
   * words2bytes: unpacks size bytes from the first WordCount(size) words.
   * The buffer may be longer than that; the words past it are not read.
   */
  function Words2Bytes(size: nat, words: seq<Word>): (b: seq<Byte>)
    requires size <= 255 && WordCount(size) <= |words|
    ensures |b| == size
    ensures forall j :: 0 <= j < size ==> b[j] == ByteOf(words[j / 4], j % 4)
  {
    var wordsSize := WordCount(size);
    WordCountValue(size);
    if size % 4 == 0 then
      UnpackWords(words, wordsSize)
    else
      UnpackLanes(words, wordsSize - 1, size % 4);
      UnpackWords(words, wordsSize - 1) + UnpackTail(words[wordsSize - 1], size % 4)
  }

  /** Unpacking what was packed gives the bytes back. */
  lemma BytesRoundTrip(bytes: seq<Byte>)
    requires |bytes| <= 255
    ensures Words2Bytes(|bytes|, Bytes2Words(bytes)) == bytes
  {
  }

  /** Any word buffer at least WordCount(size) long may be read; words past it do not matter. */
  lemma Words2BytesPrefix(size: nat, words: seq<Word>, extra: seq<Word>)
    requires size <= 255 && WordCount(size) <= |words|
    ensures Words2Bytes(size, words + extra) == Words2Bytes(size, words)
  {
  }

  /**
   * Packing what was unpacked gives the words back, provided they are in the
   * form bytes2words produces: exactly WordCount(size) words, unused lanes zero.
   */
  lemma {:induction false} WordsRoundTrip(size: nat, words: seq<Word>)
    requires size <= 255 && |words| == WordCount(size)
    requires size % 4 != 0 ==> UpperLanesZero(words[|words| - 1], size % 4)
    ensures Bytes2Words(Words2Bytes(size, words)) == words
  {
    var b := Words2Bytes(size, words);
    var w := Bytes2Words(b);
    forall i | 0 <= i < |words|
      ensures w[i] == words[i]
    {
      forall k | 0 <= k < 4
        ensures ByteOf(w[i], k) == ByteOf(words[i], k)
      {
        LaneRoundTrip(size, words, i, k);
      }
      LanesDetermineWord(w[i], words[i]);
    }
  }

  lemma LaneRoundTrip(size: nat, words: seq<Word>, i: nat, k: nat)
    requires size <= 255 && |words| == WordCount(size)
    requires size % 4 != 0 ==> UpperLanesZero(words[|words| - 1], size % 4)
    requires i < |words| && k < 4
    ensures ByteOf(Bytes2Words(Words2Bytes(size, words))[i], k) == ByteOf(words[i], k)
  {
    var b := Words2Bytes(size, words);
    var w := Bytes2Words(b);
    var j := 4 * i + k;
    DivMod4(i, k);
    WordCountValue(size);
    if j < size {
      assert ByteOf(w[j / 4], j % 4) == b[j];
    } else {
      assert i == |words| - 1 && size % 4 != 0 && size % 4 <= k;
    }
  }

  lemma WordCountValue(n: nat)
    ensures WordCount(n) == if n % 4 == 0 then n / 4 else n / 4 + 1
  {
  }
}
