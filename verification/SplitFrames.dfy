/** Large commands cut into chunks and put together again: what one chunk is, and what it does to the frame it
    belongs to (extApi.c, `_communicationThread`). */
module SplitFrames {
  import opened Sequences
  import opened Bytes
  import opened Frames
  import opened FrameBuffers

  function FullSize(f: Frame): nat
    requires |f| >= SUBHEADER_SIZE
  {
    WordAt(f, FULL_MEM_SIZE)
  }

  /** How many bytes of the pure data were sent before. */
  function Sent(f: Frame): nat
    requires |f| >= SUBHEADER_SIZE
  {
    WordAt(f, PDATA_OFFSET1)
  }

  function MaxPiece(f: Frame): nat
    requires |f| >= SUBHEADER_SIZE
  {
    HalfAt(f, DELAY_OR_SPLIT)
  }

  /** Where the fields of a frame are (v_repConst.h:893-902): all of them are little-endian. */
  lemma FrameLayout(f: Frame)
    requires |f| >= 26
    ensures FrameOk(f) <==>
      |f| == f[0] as int + 0x100 * f[1] as int + 0x1_0000 * f[2] as int + 0x100_0000 * f[3] as int < 0x8000_0000
      && 26 + f[8] as int + 0x100 * f[9] as int <= |f|
    ensures FullSize(f) == f[4] as int + 0x100 * f[5] as int + 0x1_0000 * f[6] as int + 0x100_0000 * f[7] as int
    ensures KeySize(f) == f[8] as int + 0x100 * f[9] as int
    ensures Sent(f) == f[10] as int + 0x100 * f[11] as int + 0x1_0000 * f[12] as int + 0x100_0000 * f[13] as int
    ensures CmdRaw(f) == f[14] as int + 0x100 * f[15] as int && OpMode(f) == f[16] as int + 0x100 * f[17] as int
    ensures MaxPiece(f) == f[18] as int + 0x100 * f[19] as int
    ensures FrameOk(f) ==> Key(f) == f[26..26 + KeySize(f)] && PureData(f) == f[26 + KeySize(f)..]
  {
  }

  // ---------- sending ----------

  /** A command waiting in the split buffer. */
  predicate Waiting(f: Frame) {
    Proper(f) && FullSize(f) == |f| && MaxPiece(f) > 0 && (Sent(f) < |PureData(f)| || Sent(f) == |PureData(f)| == 0)
  }

  function PieceSize(f: Frame): nat
    requires Waiting(f)
  {
    if |PureData(f)| - Sent(f) > MaxPiece(f) then MaxPiece(f) else |PureData(f)| - Sent(f)
  }

  /** The next piece as a frame of its own: the subheader and the key again, then the piece, with its own size. */
  function ChunkOf(f: Frame): Frame
    requires Waiting(f)
  {
    var from := SUBHEADER_SIZE + KeySize(f) + Sent(f);
    Overwritten(f[..SUBHEADER_SIZE + KeySize(f)] + f[from..from + PieceSize(f)], MEM_SIZE, Word(SUBHEADER_SIZE + KeySize(f) + PieceSize(f)))
  }

  predicate IsLast(f: Frame)
    requires Waiting(f)
  {
    SUBHEADER_SIZE + KeySize(f) + Sent(f) + PieceSize(f) >= |f|
  }

  function Advanced(f: Frame): Frame
    requires Waiting(f)
  {
    Overwritten(f, PDATA_OFFSET1, Word(Sent(f) + PieceSize(f)))
  }

  lemma WordWritten(s: seq<Byte>, at: nat, v: nat)
    requires at + 4 <= |s| && v < WORD_LIMIT
    ensures WordAt(Overwritten(s, at, Word(v)), at) == v
  {
    WordReadsBack(v);
    var r := Overwritten(s, at, Word(v));
    assert r[at] == Word(v)[0] && r[at + 1] == Word(v)[1] && r[at + 2] == Word(v)[2] && r[at + 3] == Word(v)[3];
  }

  /** Frames agree on their subheaders but for the first field and the field of bytes sent. */
  ghost predicate SameHeader(f: Frame, g: Frame) {
    && |f| >= SUBHEADER_SIZE && |g| >= SUBHEADER_SIZE
    && (forall i :: FULL_MEM_SIZE <= i < PDATA_OFFSET1 ==> f[i] == g[i])
    && (forall i :: CMD <= i < SUBHEADER_SIZE ==> f[i] == g[i])
  }

  lemma SameHeaderFields(f: Frame, g: Frame)
    requires SameHeader(f, g)
    ensures FullSize(f) == FullSize(g) && KeySize(f) == KeySize(g) && CmdRaw(f) == CmdRaw(g) && OpMode(f) == OpMode(g) && MaxPiece(f) == MaxPiece(g)
  {
  }

  lemma ChunkBytes<T>(f: seq<T>, w: seq<T>, k: nat, from: nat, n: nat)
    requires SUBHEADER_SIZE <= k <= from && from + n <= |f| && |w| == 4
    ensures var c := Overwritten(f[..k] + f[from..from + n], MEM_SIZE, w);
      && |c| == k + n && (forall i :: 4 <= i < SUBHEADER_SIZE ==> c[i] == f[i])
      && c[SUBHEADER_SIZE..k] == f[SUBHEADER_SIZE..k] && c[k..] == f[from..from + n]
  {
  }

  lemma PieceOfPureData(f: Frame, k: nat, o: nat, n: nat)
    requires k + o + n <= |f|
    ensures f[k + o..k + o + n] == f[k..][o..o + n]
  {
  }

  lemma PieceFits(f: Frame)
    requires Waiting(f)
    ensures Sent(f) + PieceSize(f) <= |PureData(f)| && (IsLast(f) <==> Sent(f) + PieceSize(f) == |PureData(f)|)
    ensures |f| == SUBHEADER_SIZE + KeySize(f) + |PureData(f)|
  {
  }

  lemma PieceLeft(f: Frame)
    requires Waiting(f)
    ensures Sent(f) <= |PureData(f)| && (IsLast(f) <==> |PureData(f)| - Sent(f) <= MaxPiece(f))
    ensures !IsLast(f) ==> PieceSize(f) == MaxPiece(f)
  {
  }

  /** A frame with the header and the key of a proper one is proper, if its size field is right. */
  lemma ProperLike(f: Frame, c: Frame)
    requires Proper(f) && SUBHEADER_SIZE + KeySize(f) <= |c| < SIZE_LIMIT && SameHeader(f, c) && WordAt(c, MEM_SIZE) == |c|
    requires c[SUBHEADER_SIZE..SUBHEADER_SIZE + KeySize(f)] == Key(f)
    ensures Proper(c) && Key(c) == Key(f)
  {
    SameHeaderFields(f, c);
  }

  lemma FieldsAgree(f: Frame, c: Frame)
    requires |f| >= SUBHEADER_SIZE && |c| >= SUBHEADER_SIZE && forall i :: 4 <= i < SUBHEADER_SIZE ==> c[i] == f[i]
    ensures SameHeader(f, c) && Sent(c) == Sent(f)
  {
  }

  lemma ChunkLike(f: Frame, c: Frame, o: nat, n: nat)
    requires Proper(f) && o + n <= |PureData(f)| && |c| == SUBHEADER_SIZE + KeySize(f) + n && WordAt(c, MEM_SIZE) == |c|
    requires forall i :: 4 <= i < SUBHEADER_SIZE ==> c[i] == f[i]
    requires c[SUBHEADER_SIZE..SUBHEADER_SIZE + KeySize(f)] == Key(f)
    requires c[SUBHEADER_SIZE + KeySize(f)..] == PureData(f)[o..o + n]
    ensures Proper(c) && SameHeader(f, c) && Sent(c) == Sent(f) && Key(c) == Key(f) && PureData(c) == PureData(f)[o..o + n]
  {
    FieldsAgree(f, c);
    ProperLike(f, c);
    SameHeaderFields(f, c);
  }

  lemma ChunkPlain(f: Frame, k: nat, o: nat, n: nat, c: Frame)
    requires SUBHEADER_SIZE <= k && k + o + n <= |f| && k + n < WORD_LIMIT
    requires c == Overwritten(f[..k] + f[k + o..k + o + n], MEM_SIZE, Word(k + n))
    ensures |c| == k + n && WordAt(c, MEM_SIZE) == |c| && (forall i :: 4 <= i < SUBHEADER_SIZE ==> c[i] == f[i])
    ensures c[SUBHEADER_SIZE..k] == f[SUBHEADER_SIZE..k] && c[k..] == f[k..][o..o + n]
  {
    ChunkBytes(f, Word(k + n), k, k + o, n);
    WordWritten(f[..k] + f[k + o..k + o + n], MEM_SIZE, k + n);
    PieceOfPureData(f, k, o, n);
  }

  /** A chunk is a proper frame of the same command and key; it says where in the whole its piece belongs. */
  lemma ChunkSays(f: Frame)
    requires Waiting(f)
    ensures var c := ChunkOf(f);
      && Proper(c) && SameHeader(f, c) && Sent(c) == Sent(f) && Key(c) == Key(f) && Sent(f) + PieceSize(f) <= |PureData(f)|
      && PureData(c) == PureData(f)[Sent(f)..Sent(f) + PieceSize(f)]
  {
    PieceFits(f);
    var c, k := ChunkOf(f), SUBHEADER_SIZE + KeySize(f);
    ChunkPlain(f, k, Sent(f), PieceSize(f), c);
    assert c[k..] == PureData(f)[Sent(f)..Sent(f) + PieceSize(f)];
    ChunkLike(f, c, Sent(f), PieceSize(f));
  }

  lemma AdvancedSays(f: Frame)
    requires Waiting(f)
    ensures var g := Advanced(f);
      && Proper(g) && SameHeader(f, g) && Sent(g) == Sent(f) + PieceSize(f) && Key(g) == Key(f) && PureData(g) == PureData(f)
      && (!IsLast(f) ==> Waiting(g))
  {
    var g := Advanced(f);
    WordWritten(f, PDATA_OFFSET1, Sent(f) + PieceSize(f));
    SameHeaderFields(f, g);
    assert Key(g) == Key(f) && PureData(g) == PureData(f);
  }

  // ---------- receiving ----------

  /** A chunk that says a place within the whole. */
  predicate ChunkOk(c: Frame) {
    && Proper(c) && |c| != FullSize(c) && FullSize(c) < SIZE_LIMIT
    && SUBHEADER_SIZE + KeySize(c) + Sent(c) + |PureData(c)| <= FullSize(c)
  }

  /** The receiver takes the command to be complete after this chunk. */
  predicate Completes(c: Frame)
    requires ChunkOk(c)
  {
    SUBHEADER_SIZE + KeySize(c) + Sent(c) + |PureData(c)| >= FullSize(c)
  }

  /** The subheader, the key and the piece of a chunk written over the partial command `p`. */
  function Merged(p: Frame, c: Frame): Frame
    requires ChunkOk(c) && |p| == FullSize(c)
  {
    var headed := Overwritten(Overwritten(p, 0, c[..SUBHEADER_SIZE]), MEM_SIZE, Word(FullSize(c)));
    Overwritten(Overwritten(headed, SUBHEADER_SIZE, Key(c)), SUBHEADER_SIZE + KeySize(c) + Sent(c), PureData(c))
  }

  /** What is behind the key. */
  function Tail(p: Frame, keySize: nat): seq<Byte>
    requires SUBHEADER_SIZE + keySize <= |p|
  {
    p[SUBHEADER_SIZE + keySize..]
  }

  lemma MergedBytes<T>(p: seq<T>, h: seq<T>, w: seq<T>, key: seq<T>, at: nat, piece: seq<T>)
    requires |h| == SUBHEADER_SIZE && |w| == 4 && SUBHEADER_SIZE + |key| + at + |piece| <= |p|
    ensures var headed := Overwritten(Overwritten(p, 0, h), MEM_SIZE, w);
      var m := Overwritten(Overwritten(headed, SUBHEADER_SIZE, key), SUBHEADER_SIZE + |key| + at, piece);
      && |m| == |p| && (forall i :: 0 <= i < 4 ==> m[i] == headed[i]) && (forall i :: 4 <= i < SUBHEADER_SIZE ==> m[i] == h[i])
      && m[SUBHEADER_SIZE..SUBHEADER_SIZE + |key|] == key
      && m[SUBHEADER_SIZE + |key|..] == Overwritten(p[SUBHEADER_SIZE + |key|..], at, piece)
  {
  }

  lemma FieldIsRead(s: seq<Byte>, m: seq<Byte>)
    requires |s| >= 4 && |m| >= 4 && forall i :: 0 <= i < 4 ==> m[i] == s[i]
    ensures WordAt(m, MEM_SIZE) == WordAt(s, MEM_SIZE)
  {
  }

  lemma MergedLike(c: Frame, m: Frame, pure: seq<Byte>)
    requires ChunkOk(c) && |m| == FullSize(c) && WordAt(m, MEM_SIZE) == |m|
    requires forall i :: 4 <= i < SUBHEADER_SIZE ==> m[i] == c[i]
    requires m[SUBHEADER_SIZE..SUBHEADER_SIZE + KeySize(c)] == Key(c) && m[SUBHEADER_SIZE + KeySize(c)..] == pure
    ensures Proper(m) && SameHeader(c, m) && Key(m) == Key(c) && PureData(m) == pure
  {
    FieldsAgree(c, m);
    ProperLike(c, m);
    SameHeaderFields(c, m);
  }

  lemma MergedSize(p: Frame, c: Frame)
    requires ChunkOk(c) && |p| == FullSize(c)
    ensures |Merged(p, c)| == |p| == WordAt(Merged(p, c), MEM_SIZE)
  {
    var first := Overwritten(p, 0, c[..SUBHEADER_SIZE]);
    MergedBytes(p, c[..SUBHEADER_SIZE], Word(FullSize(c)), Key(c), Sent(c), PureData(c));
    WordWritten(first, MEM_SIZE, FullSize(c));
    FieldIsRead(Overwritten(first, MEM_SIZE, Word(FullSize(c))), Merged(p, c));
  }

  lemma MergedParts(p: Frame, c: Frame)
    requires ChunkOk(c) && |p| == FullSize(c)
    ensures var m := Merged(p, c);
      && |m| == |p| && (forall i :: 4 <= i < SUBHEADER_SIZE ==> m[i] == c[i])
      && m[SUBHEADER_SIZE..SUBHEADER_SIZE + KeySize(c)] == Key(c)
      && m[SUBHEADER_SIZE + KeySize(c)..] == Overwritten(Tail(p, KeySize(c)), Sent(c), PureData(c))
  {
    MergedBytes(p, c[..SUBHEADER_SIZE], Word(FullSize(c)), Key(c), Sent(c), PureData(c));
  }

  lemma MergedSays(p: Frame, c: Frame)
    requires ChunkOk(c) && |p| == FullSize(c)
    ensures var m := Merged(p, c);
      && Proper(m) && SameHeader(c, m) && Key(m) == Key(c) && |m| == |p|
      && PureData(m) == Overwritten(Tail(p, KeySize(c)), Sent(c), PureData(c))
  {
    MergedSize(p, c);
    MergedParts(p, c);
    MergedLike(c, Merged(p, c), Overwritten(Tail(p, KeySize(c)), Sent(c), PureData(c)));
  }
}
