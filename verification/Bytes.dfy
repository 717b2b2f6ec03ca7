/**
 Bytes and little-endian 32-bit words, as the driver's host and the FlexSPI data
 registers see them: loading a word through a `uint32_t *`, storing one, and packing
 or unpacking a tail byte by byte with shifts.
 */
module Bytes {
  import opened Sequences

  type byte = bv8
  type word = bv32

  /* A word loaded from four bytes in memory, least significant byte first. */
  function Load(b: seq<byte>): word
    requires |b| == 4
  {
    Pack(b[0], b[1], b[2], b[3])
  }

  function Pack(b0: byte, b1: byte, b2: byte, b3: byte): word {
    (b0 as word) | (b1 as word << 8) | (b2 as word << 16) | (b3 as word << 24)
  }

  /* The four bytes a word store leaves in memory. */
  function Store(w: word): (b: seq<byte>)
    ensures |b| == 4
  {
    [Byte0(w), Byte1(w), Byte2(w), Byte3(w)]
  }

  function Byte0(w: word): byte { (w & 0xFF) as byte }
  function Byte1(w: word): byte { ((w >> 8) & 0xFF) as byte }
  function Byte2(w: word): byte { ((w >> 16) & 0xFF) as byte }
  function Byte3(w: word): byte { ((w >> 24) & 0xFF) as byte }

  /* `(uint32_t)b << (8U * j)`, written out for the four shift amounts a word has. */
  function ShiftUp(b: byte, j: nat): word
    requires j < 4
  {
    if j == 0 then b as word
    else if j == 1 then b as word << 8
    else if j == 2 then b as word << 16
    else b as word << 24
  }

  /* `(uint8_t)(w >> (8U * j))`, written out likewise. */
  function ShiftDown(w: word, j: nat): byte
    requires j < 4
  {
    if j == 0 then (w & 0xFF) as byte
    else if j == 1 then ((w >> 8) & 0xFF) as byte
    else if j == 2 then ((w >> 16) & 0xFF) as byte
    else ((w >> 24) & 0xFF) as byte
  }

  /* The first byte in memory is the least significant; a shift by 8 * j puts a byte where a
     load puts byte j. */
  lemma PackIsSum(b0: byte, b1: byte, b2: byte, b3: byte)
    ensures Pack(b0, b1, b2, b3)
         == (b0 as word) + 0x100 * (b1 as word) + 0x1_0000 * (b2 as word) + 0x100_0000 * (b3 as word)
    ensures ShiftUp(b0, 0) == Pack(b0, 0, 0, 0) && ShiftUp(b1, 1) == Pack(0, b1, 0, 0)
    ensures ShiftUp(b2, 2) == Pack(0, 0, b2, 0) && ShiftUp(b3, 3) == Pack(0, 0, 0, b3)
  {
  }

  lemma UnpackPack(b0: byte, b1: byte, b2: byte, b3: byte)
    ensures Byte0(Pack(b0, b1, b2, b3)) == b0
    ensures Byte1(Pack(b0, b1, b2, b3)) == b1
    ensures Byte2(Pack(b0, b1, b2, b3)) == b2
    ensures Byte3(Pack(b0, b1, b2, b3)) == b3
  {
  }

  lemma PackUnpack(w: word)
    ensures Pack(Byte0(w), Byte1(w), Byte2(w), Byte3(w)) == w
  {
  }

  lemma StoreLoad(b: seq<byte>)
    requires |b| == 4
    ensures Store(Load(b)) == b
  {
    UnpackPack(b[0], b[1], b[2], b[3]);
  }

  lemma LoadStore(w: word)
    ensures Load(Store(w)) == w
  {
    PackUnpack(w);
  }

  /* The shift-out of one byte agrees with the word store. */
  lemma ShiftDownIsStore(w: word, j: nat)
    requires j < 4
    ensures ShiftDown(w, j) == Store(w)[j]
  {
  }

  /* ORing the next shifted byte into a zero-padded word is loading one byte more:
     one lemma for each byte of the word, then the four together. */
  lemma ShiftUpExtends0(b: seq<byte>, x: byte)
    requires |b| == 0
    ensures Load(ZeroPad(b)) | ShiftUp(x, 0) == Load(ZeroPad(b + [x]))
  {
    assert ZeroPad(b + [x]) == ZeroPad(b)[0 := x];
  }

  lemma ShiftUpExtends1(b: seq<byte>, x: byte)
    requires |b| == 1
    ensures Load(ZeroPad(b)) | ShiftUp(x, 1) == Load(ZeroPad(b + [x]))
  {
    assert ZeroPad(b + [x]) == ZeroPad(b)[1 := x];
  }

  lemma ShiftUpExtends2(b: seq<byte>, x: byte)
    requires |b| == 2
    ensures Load(ZeroPad(b)) | ShiftUp(x, 2) == Load(ZeroPad(b + [x]))
  {
    assert ZeroPad(b + [x]) == ZeroPad(b)[2 := x];
  }

  lemma ShiftUpExtends3(b: seq<byte>, x: byte)
    requires |b| == 3
    ensures Load(ZeroPad(b)) | ShiftUp(x, 3) == Load(ZeroPad(b + [x]))
  {
    assert ZeroPad(b + [x]) == ZeroPad(b)[3 := x];
  }

  lemma ShiftUpExtends(b: seq<byte>, x: byte)
    requires |b| < 4
    ensures Load(ZeroPad(b)) | ShiftUp(x, |b|) == Load(ZeroPad(b + [x]))
  {
    hide *;
    if |b| == 0 {
      ShiftUpExtends0(b, x);
    } else if |b| == 1 {
      ShiftUpExtends1(b, x);
    } else if |b| == 2 {
      ShiftUpExtends2(b, x);
    } else {
      ShiftUpExtends3(b, x);
    }
  }

  function ZeroPad(b: seq<byte>): (p: seq<byte>)
    requires |b| <= 4
    ensures |p| == 4 && b <= p
  {
    b + Repeat<byte>(0, 4 - |b|)
  }

  /* The bytes of a sequence of words, in address order. */
  function WordBytes(ws: seq<word>): (b: seq<byte>)
    ensures |b| == 4 * |ws|
  {
    if ws == [] then [] else WordBytes(ws[..|ws| - 1]) + Store(ws[|ws| - 1])
  }

  /* The first n words that a run of bytes holds. */
  function BytesWords(b: seq<byte>, n: nat): (ws: seq<word>)
    requires 4 * n <= |b|
    ensures |ws| == n
    decreases n
  {
    if n == 0 then [] else BytesWords(b, n - 1) + [Load(b[4 * n - 4..4 * n])]
  }

  lemma WordBytesSnoc(ws: seq<word>, w: word)
    ensures WordBytes(ws + [w]) == WordBytes(ws) + Store(w)
  {
    hide Store;
    assert (ws + [w])[..|ws|] == ws;
  }

  /* The first n words depend on the first 4 * n bytes only. */
  lemma {:induction false} BytesWordsFront(b: seq<byte>, c: seq<byte>, n: nat)
    requires 4 * n <= |b| && 4 * n <= |c| && b[..4 * n] == c[..4 * n]
    ensures BytesWords(b, n) == BytesWords(c, n)
    decreases n
  {
    hide Load;
    if n != 0 {
      assert b[..4 * (n - 1)] == b[..4 * n][..4 * (n - 1)] && c[..4 * (n - 1)] == c[..4 * n][..4 * (n - 1)];
      assert b[4 * n - 4..4 * n] == b[..4 * n][4 * n - 4..] && c[4 * n - 4..4 * n] == c[..4 * n][4 * n - 4..];
      BytesWordsFront(b, c, n - 1);
    }
  }

  lemma BytesWordsSnoc(b: seq<byte>, last: seq<byte>, n: nat)
    requires |b| == 4 * n && |last| == 4
    ensures BytesWords(b + last, n + 1) == BytesWords(b, n) + [Load(last)]
  {
    hide Load;
    assert (b + last)[..4 * n] == b[..4 * n];
    assert (b + last)[4 * n..4 * n + 4] == last;
    BytesWordsFront(b + last, b, n);
  }

  lemma BytesWordsLast(b: seq<byte>, n: nat)
    requires 0 < n && 4 * n <= |b|
    ensures BytesWords(b, n) == BytesWords(b, n - 1) + [Load(b[4 * n - 4..4 * n])]
  {
    hide Load;
  }

  lemma {:induction false} WordBytesConcat(ws: seq<word>, vs: seq<word>)
    ensures WordBytes(ws + vs) == WordBytes(ws) + WordBytes(vs)
    decreases |vs|
  {
    hide Store, WordBytes;
    if vs == [] {
      NoWords([]);
      assert ws + vs == ws;
    } else {
      var m := |vs| - 1;
      WordBytesConcat(ws, vs[..m]);
      assert ws + vs == ws + vs[..m] + [vs[m]] && vs == vs[..m] + [vs[m]];
      WordBytesSnoc(ws + vs[..m], vs[m]);
      WordBytesSnoc(vs[..m], vs[m]);
    }
  }

  /* Reading whole words back as words inverts laying them out as bytes, and conversely. */
  lemma {:induction false} WordBytesRoundTrip(b: seq<byte>, n: nat)
    requires 4 * n <= |b|
    ensures WordBytes(BytesWords(b, n)) == b[..4 * n]
    decreases n
  {
    hide Load, Store, WordBytes, BytesWords;
    if n == 0 {
      NoWords(b);
    } else {
      var last := b[4 * n - 4..4 * n];
      WordBytesRoundTrip(b, n - 1);
      BytesWordsLast(b, n);
      WordBytesSnoc(BytesWords(b, n - 1), Load(last));
      StoreLoad(last);
      assert b[..4 * n] == b[..4 * (n - 1)] + last;
    }
  }

  lemma {:induction false} BytesWordsRoundTrip(ws: seq<word>, n: nat)
    requires n <= |ws|
    ensures BytesWords(WordBytes(ws), n) == ws[..n]
    decreases n
  {
    hide Load, Store, WordBytes, BytesWords;
    if n == 0 {
      NoWords(WordBytes(ws));
    } else {
      var last := ws[n - 1];
      BytesWordsRoundTrip(ws, n - 1);
      WordBytesFront(ws, n - 1);
      WordBytesFront(ws, n);
      WordBytesSnoc(ws[..n - 1], last);
      assert ws[..n] == ws[..n - 1] + [last];
      LoadStore(last);
      BytesWordsSnoc(WordBytes(ws[..n - 1]), Store(last), n - 1);
      BytesWordsFront(WordBytes(ws), WordBytes(ws[..n]), n);
      BytesWordsFront(WordBytes(ws), WordBytes(ws[..n - 1]), n - 1);
    }
  }

  lemma NoWords(b: seq<byte>)
    ensures BytesWords(b, 0) == [] && WordBytes([]) == []
  {
  }

  lemma WordBytesFront(ws: seq<word>, n: nat)
    requires n <= |ws|
    ensures WordBytes(ws)[..4 * n] == WordBytes(ws[..n])
  {
    hide WordBytes;
    assert ws == ws[..n] + ws[n..];
    WordBytesConcat(ws[..n], ws[n..]);
  }
}
