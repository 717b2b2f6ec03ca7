/**
 Windows of the FlexSPI data registers: the bytes that a run of windows carries, and what
 the passes of a write put into TFDR and leave in it.
 */
module FlexSpiWindows {
  import opened Bytes
  import opened Sequences

  const DATA_REGISTERS := 32  // length of RFDR and TFDR

  /* A snapshot of all TFDR or all RFDR registers. */
  type Window = ws: seq<word> | |ws| == DATA_REGISTERS witness seq(DATA_REGISTERS, _ => 0)

  //////////////////////////////////////////////////////////////////////////////
  // Windows and the bytes they carry
  //////////////////////////////////////////////////////////////////////////////

  /* Words of TFDR that make up one pushed window at watermark w. */
  function TxDepth(w: nat): (d: nat)
    ensures d <= DATA_REGISTERS
  {
    if 2 * w <= DATA_REGISTERS then 2 * w else DATA_REGISTERS
  }

  /* Words of RFDR that make up one popped window at watermark w. */
  function RxDepth(w: nat): (d: nat)
    ensures d <= DATA_REGISTERS
  {
    if w <= DATA_REGISTERS then w else DATA_REGISTERS
  }

  /* The bytes of the first `depth` words of every window, in order. */
  function Stream(ws: seq<Window>, depth: nat): (s: seq<byte>)
    requires depth <= DATA_REGISTERS
  {
    if ws == [] then [] else Stream(ws[..|ws| - 1], depth) + WordBytes(ws[|ws| - 1][..depth])
  }

  lemma StreamSnoc(ws: seq<Window>, w: Window, depth: nat)
    requires depth <= DATA_REGISTERS
    ensures Stream(ws + [w], depth) == Stream(ws, depth) + WordBytes(w[..depth])
  {
    assert (ws + [w])[..|ws|] == ws;
  }

  /* How many chunks of c bytes cover n bytes. */
  function Chunks(n: nat, c: nat): nat
    requires c > 0
  {
    if n == 0 then 0 else if n < c then 1 else 1 + Chunks(n - c, c)
  }

  /* The number of chunks is the ceiling of n / c: one fewer would not hold n bytes. */
  lemma {:induction false} ChunksIsCeiling(n: nat, c: nat)
    requires c > 0
    ensures n <= Chunks(n, c) * c < n + c
  {
    if n >= c {
      ChunksIsCeiling(n - c, c);
      var k := Chunks(n - c, c);
      assert (k + 1) * c == k * c + c;
    }
  }

  /* Bytes missing from n to the next word boundary. */
  function Missing(n: nat): (m: nat)
    ensures m < 4 && (n + m) % 4 == 0
  {
    (4 - n % 4) % 4
  }

  /* Data followed by zeros up to the next word boundary. */
  function WordPadded(data: seq<byte>): (p: seq<byte>)
    ensures data <= p
  {
    data + Repeat<byte>(0, Missing(|data|))
  }

  /* The windows ws are the fewest that hold the data at TX watermark w: in order and
     without gap, with a tail word that is padded with zeros. */
  ghost predicate Carries(ws: seq<Window>, w: nat, data: seq<byte>)
    requires w > 0
  {
    && |ws| == Chunks(|data|, 8 * w)
    && WordPadded(data) <= Stream(ws, TxDepth(w))
  }

  //////////////////////////////////////////////////////////////////////////////
  // What the passes of a write leave in TFDR
  //////////////////////////////////////////////////////////////////////////////

  /* Registers that one pass uses with n bytes to go, for a window capacity of c bytes. */
  function WindowWords(n: nat, c: nat): nat {
    if n >= c then c / 4 else (n + 3) / 4
  }

  /* When every pass over n bytes stays inside the 32 data registers. */
  predicate Fits(n: nat, c: nat) {
    c <= 4 * DATA_REGISTERS || n <= 4 * DATA_REGISTERS
  }

  /* Windows hold a whole number of words, 8 * w bytes in TFDR and 4 * w in RFDR. */
  lemma FitsIsExact(n: nat, w: nat)
    requires w > 0
    ensures Fits(n, 8 * w) <==> WindowWords(n, 8 * w) <= DATA_REGISTERS
    ensures Fits(n, 4 * w) <==> WindowWords(n, 4 * w) <= DATA_REGISTERS
  {
    assert (8 * w) / 4 == 2 * w;
    assert (4 * w) / 4 == w;
  }

  lemma FitsShorter(n: nat, m: nat, c: nat)
    requires Fits(n, c) && m <= n
    ensures Fits(m, c)
  {
  }

  /* The bytes that a pass stages: a whole window, or all that is left, padded to a word. */
  function Chunk(data: seq<byte>, w: nat): (b: seq<byte>)
    ensures |b| == 4 * WindowWords(|data|, 8 * w)
  {
    WholeWords(|data|, w);
    if |data| >= 8 * w then data[..8 * w] else WordPadded(data)
  }

  lemma WholeWords(n: nat, w: nat)
    ensures n + Missing(n) == 4 * ((n + 3) / 4)
    ensures (8 * w) / 4 == 2 * w
  {
    var q, r := n / 4, n % 4;
    assert n == 4 * q + r;
    assert (n + 3) / 4 == if r == 0 then q else q + 1;
  }

  /* The bytes left after it. */
  function Rest(data: seq<byte>, w: nat): (b: seq<byte>)
    ensures |b| <= |data|
    ensures w > 0 && data != [] ==> |b| < |data|
  {
    if |data| >= 8 * w then data[8 * w..] else []
  }

  /* TFDR after the pass: only the registers that the chunk needs are written. */
  function Staged(regs: Window, w: nat, data: seq<byte>): (r: Window)
    requires w > 0 && Fits(|data|, 8 * w)
  {
    FitsIsExact(|data|, w);
    var n := WindowWords(|data|, 8 * w);
    BytesWords(Chunk(data, w), n) + regs[n..]
  }

  /* The windows that a whole write pushes, from what TFDR holds before it. */
  function PushedWindows(regs: Window, w: nat, data: seq<byte>): (ws: seq<Window>)
    requires w > 0 && Fits(|data|, 8 * w)
    decreases |data|
  {
    if data == [] then []
    else
      var r := Staged(regs, w, data);
      [r] + PushedWindows(r, w, Rest(data, w))
  }

  /* The last of these windows, or r if there is none. */
  function LastOr(r: Window, ws: seq<Window>): Window {
    if ws == [] then r else ws[|ws| - 1]
  }

  /* What a whole write leaves in TFDR. */
  function WrittenOver(regs: Window, w: nat, data: seq<byte>): Window
    requires w > 0 && Fits(|data|, 8 * w)
  {
    LastOr(regs, PushedWindows(regs, w, data))
  }

  lemma {:induction false} StreamCons(w: Window, ws: seq<Window>, depth: nat)
    requires depth <= DATA_REGISTERS
    ensures Stream([w] + ws, depth) == WordBytes(w[..depth]) + Stream(ws, depth)
    decreases |ws|
  {
    hide WordBytes;
    if ws == [] {
      assert [w] + ws == [] + [w];
      StreamSnoc([], w, depth);
    } else {
      var m := |ws| - 1;
      StreamCons(w, ws[..m], depth);
      assert [w] + ws == [w] + ws[..m] + [ws[m]] && ws == ws[..m] + [ws[m]];
      StreamSnoc([w] + ws[..m], ws[m], depth);
      StreamSnoc(ws[..m], ws[m], depth);
    }
  }

  /* The front of a staged window is the chunk. */
  lemma StagedFront(regs: Window, w: nat, data: seq<byte>)
    requires w > 0 && Fits(|data|, 8 * w)
    ensures WindowWords(|data|, 8 * w) <= TxDepth(w)
    ensures Chunk(data, w) <= WordBytes(Staged(regs, w, data)[..TxDepth(w)])
    ensures |data| >= 8 * w ==> TxDepth(w) == 2 * w && Chunk(data, w) == WordBytes(Staged(regs, w, data)[..2 * w])
  {
    hide BytesWords, WordBytes, Chunk;
    FitsIsExact(|data|, w);
    var n, depth := WindowWords(|data|, 8 * w), TxDepth(w);
    var b, r := Chunk(data, w), Staged(regs, w, data);
    assert n <= depth;
    WordBytesRoundTrip(b, n);
    assert b[..4 * n] == b && r[..n] == BytesWords(b, n);
    assert r[..depth] == r[..n] + r[n..depth];
    WordBytesConcat(r[..n], r[n..depth]);
    assert WordBytes(r[..depth])[..|b|] == b;
  }

  /* The pushed windows carry the data, whatever TFDR held before. */
  lemma {:induction false} PushedCarry(regs: Window, w: nat, data: seq<byte>)
    requires w > 0 && Fits(|data|, 8 * w)
    ensures Carries(PushedWindows(regs, w, data), w, data)
    decreases |data|
  {
    hide Staged, Stream, WordBytes, WordPadded;
    if data == [] {
      NoPadding(data);
    } else {
      var r, rest := Staged(regs, w, data), Rest(data, w);
      PushedCarry(r, w, rest);
      StagedFront(regs, w, data);
      StreamCons(r, PushedWindows(r, w, rest), TxDepth(w));
      if |data| >= 8 * w {
        PaddedLater(data, w);
      }
    }
  }

  lemma NoPadding(data: seq<byte>)
    requires |data| % 4 == 0
    ensures WordPadded(data) == data
  {
  }

  lemma PaddedLater(data: seq<byte>, w: nat)
    requires |data| >= 8 * w
    ensures WordPadded(data) == data[..8 * w] + WordPadded(data[8 * w..])
  {
    MissingLater(|data|, 2 * w);
    hide Missing;
    assert data == data[..8 * w] + data[8 * w..];
  }

  lemma MissingLater(n: nat, k: nat)
    requires n >= 4 * k
    ensures Missing(n - 4 * k) == Missing(n)
  {
    assert n % 4 == (n - 4 * k) % 4;
  }

  //////////////////////////////////////////////////////////////////////////////
  // Words of an earlier transfer
  //////////////////////////////////////////////////////////////////////////////

  /* The bytes of the last window, if that is a partial one. */
  function Tail(data: seq<byte>, w: nat): (t: seq<byte>)
    requires w > 0
    ensures |t| < 8 * w && |t| <= |data|
  {
    if |data| < 8 * w then data else Tail(data[8 * w..], w)
  }

  /* A partial last window holds the padded tail and, in every register behind it, what was
     there before: for a transfer of one window that is a word from before the transfer, and
     for a longer one a word of the window before. */
  lemma {:induction false} BehindTheTail(regs: Window, w: nat, data: seq<byte>)
    requires w > 0 && Fits(|data|, 8 * w) && Tail(data, w) != []
    ensures var ps := PushedWindows(regs, w, data);
            var n := WindowWords(|Tail(data, w)|, 8 * w);
            && ps != [] && n <= DATA_REGISTERS
            && WordBytes(ps[|ps| - 1][..n]) == WordPadded(Tail(data, w))
            && (|data| < 8 * w ==> ps[|ps| - 1][n..] == regs[n..])
            && (|data| >= 8 * w ==> |ps| >= 2 && ps[|ps| - 1][n..] == ps[|ps| - 2][n..])
    decreases |data|
  {
    hide WordBytes, WordPadded, BytesWords, Staged, WindowWords;
    if |data| < 8 * w {
      LastPass(regs, w, data);
    } else {
      var r, rest := Staged(regs, w, data), Rest(data, w);
      FitsShorter(|data|, |rest|, 8 * w);
      BehindTheTail(r, w, rest);
      hide Tail, Rest, Fits;
      var later := PushedWindows(r, w, rest);
      assert PushedWindows(regs, w, data) == [r] + later;
      hide PushedWindows;
    }
  }

  lemma LastPass(regs: Window, w: nat, data: seq<byte>)
    requires w > 0 && Fits(|data|, 8 * w) && data != [] && |data| < 8 * w
    ensures var r := Staged(regs, w, data);
            var n := WindowWords(|data|, 8 * w);
            && PushedWindows(regs, w, data) == [r]
            && n <= DATA_REGISTERS && WordBytes(r[..n]) == WordPadded(data) && r[n..] == regs[n..]
  {
    hide WordBytes, WordPadded, BytesWords;
    FitsIsExact(|data|, w);
    var n, b := WindowWords(|data|, 8 * w), Chunk(data, w);
    WordBytesRoundTrip(b, n);
    assert b[..4 * n] == b;
    assert PushedWindows(Staged(regs, w, data), w, []) == [];
  }

  /* All bytes of the windows that a write pushes. */
  function Wire(regs: Window, w: nat, data: seq<byte>): seq<byte>
    requires w > 0 && Fits(|data|, 8 * w)
  {
    Stream(PushedWindows(regs, w, data), TxDepth(w))
  }

  /* The bytes do not depend on what TFDR held before the write. */
  ghost predicate NothingOld(w: nat, data: seq<byte>)
    requires w > 0 && Fits(|data|, 8 * w)
  {
    forall r: Window, s: Window :: Wire(r, w, data) == Wire(s, w, data)
  }

  /* That is so exactly when no window leaves a register behind its data unused: nothing is
     sent, or what is sent reaches the last word of the first window. In every other case a
     word that an earlier transfer left in TFDR is pushed, behind the bytes of this one. */
  lemma NothingOldIff(w: nat, data: seq<byte>)
    requires w > 0 && Fits(|data|, 8 * w)
    ensures NothingOld(w, data) <==> data == [] || |data| > 4 * TxDepth(w) - 4
  {
    hide PushedWindows, Wire;
    if data == [] {
      NothingSent(w);
    } else if |data| > 4 * TxDepth(w) - 4 {
      forall r: Window, s: Window
        ensures Wire(r, w, data) == Wire(s, w, data)
      {
        FirstWindowFull(r, s, w, data);
      }
    } else {
      var r: Window := seq(DATA_REGISTERS, _ => 0);
      var s: Window := seq(DATA_REGISTERS, _ => 1);
      OldWordPushed(r, s, w, data);
    }
  }

  lemma NothingSent(w: nat)
    requires w > 0
    ensures NothingOld(w, [])
  {
  }

  lemma WireFirst(r: Window, w: nat, data: seq<byte>)
    requires w > 0 && Fits(|data|, 8 * w) && data != []
    ensures Wire(r, w, data)
         == WordBytes(Staged(r, w, data)[..TxDepth(w)]) + Wire(Staged(r, w, data), w, Rest(data, w))
  {
    hide WordBytes, Staged, Rest;
    var t := Staged(r, w, data);
    StreamCons(t, PushedWindows(t, w, Rest(data, w)), TxDepth(w));
  }

  /* Registers outside the windows do not matter. */
  lemma {:induction false} SameFront(r: Window, s: Window, w: nat, data: seq<byte>)
    requires w > 0 && Fits(|data|, 8 * w)
    requires r[..TxDepth(w)] == s[..TxDepth(w)]
    ensures Wire(r, w, data) == Wire(s, w, data)
    decreases |data|
  {
    if data != [] {
      hide BytesWords, WordBytes, Chunk, Wire;
      WireFirst(r, w, data);
      WireFirst(s, w, data);
      StagedSameFront(r, s, w, data);
      SameFront(Staged(r, w, data), Staged(s, w, data), w, Rest(data, w));
    }
  }

  lemma StagedSameFront(r: Window, s: Window, w: nat, data: seq<byte>)
    requires w > 0 && Fits(|data|, 8 * w)
    requires r[..TxDepth(w)] == s[..TxDepth(w)] || WindowWords(|data|, 8 * w) >= TxDepth(w)
    ensures Staged(r, w, data)[..TxDepth(w)] == Staged(s, w, data)[..TxDepth(w)]
  {
    hide BytesWords, Chunk, WordBytes;
    StagedFront(r, w, data);
    var n, depth := WindowWords(|data|, 8 * w), TxDepth(w);
    hide WindowWords, TxDepth;
    var words := BytesWords(Chunk(data, w), n);
    FrontOf(words, r, depth);
    FrontOf(words, s, depth);
  }

  lemma FrontOf(words: seq<word>, r: Window, depth: nat)
    requires |words| <= depth <= DATA_REGISTERS
    ensures (words + r[|words|..])[..depth] == words + r[..depth][|words|..]
  {
  }

  lemma FirstWindowFull(r: Window, s: Window, w: nat, data: seq<byte>)
    requires w > 0 && Fits(|data|, 8 * w) && |data| > 4 * TxDepth(w) - 4 && data != []
    ensures Wire(r, w, data) == Wire(s, w, data)
  {
    hide Wire, Staged, WordBytes;
    WireFirst(r, w, data);
    WireFirst(s, w, data);
    StagedSameFront(r, s, w, data);
    SameFront(Staged(r, w, data), Staged(s, w, data), w, Rest(data, w));
  }

  lemma OldWordPushed(r: Window, s: Window, w: nat, data: seq<byte>)
    requires w > 0 && Fits(|data|, 8 * w) && 0 < |data| <= 4 * TxDepth(w) - 4
    requires r[TxDepth(w) - 1] != s[TxDepth(w) - 1]
    ensures Wire(r, w, data) != Wire(s, w, data)
  {
    hide WordBytes, BytesWords, Chunk, Wire;
    WireFirst(r, w, data);
    WireFirst(s, w, data);
    var depth := TxDepth(w);
    var x, y := Staged(r, w, data)[..depth], Staged(s, w, data)[..depth];
    assert x[depth - 1] == r[depth - 1] && y[depth - 1] == s[depth - 1];
    BytesWordsRoundTrip(x, depth);
    BytesWordsRoundTrip(y, depth);
    assert x[..depth] == x && y[..depth] == y;
    assert Wire(r, w, data)[..4 * depth] == WordBytes(x) && Wire(s, w, data)[..4 * depth] == WordBytes(y);
  }
}
