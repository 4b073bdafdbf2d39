/** The outbox of the remote API client: the message to send, which the `_exec_*` functions fill (extApi.c). */
module Outboxes {
  import opened Sequences
  import opened Bytes
  import opened Buffers
  import opened Frames
  import opened FrameBuffers

  // ---------- making a frame ----------

  /** A new subheader. The simulation time and the reserved byte are never written: `junk` is what was there. */
  function Subheader(size: nat, keySize: nat, cmd: nat, op: nat, delay: nat, options: Byte, junk: seq<Byte>): (h: seq<Byte>)
    requires size < SIZE_LIMIT && keySize < HALF_LIMIT && cmd < HALF_LIMIT && op < HALF_LIMIT && delay < HALF_LIMIT && |junk| == 5
    ensures |h| == SUBHEADER_SIZE
  {
    Word(size) + Word(size) + Half(keySize) + Word(0) + Half(cmd) + Half(op) + Half(delay) + junk[..4] + [options] + junk[4..]
  }

  function MakeFrame(cmd: nat, op: nat, delay: nat, options: Byte, junk: seq<Byte>, key: seq<Byte>, pure: seq<Byte>): Frame
    requires cmd < HALF_LIMIT && op < HALF_LIMIT && delay < HALF_LIMIT && |junk| == 5
    requires |key| < HALF_LIMIT && SUBHEADER_SIZE + |key| + |pure| < SIZE_LIMIT
  {
    Subheader(SUBHEADER_SIZE + |key| + |pure|, |key|, cmd, op, delay, options, junk) + key + pure
  }

  lemma WordInside(a: seq<Byte>, v: nat, b: seq<Byte>)
    requires v < WORD_LIMIT
    ensures WordAt(a + Word(v) + b, |a|) == v
  {
    WordReadsBack(v);
    var s := a + Word(v) + b;
    assert s[|a|] == Word(v)[0] && s[|a| + 1] == Word(v)[1] && s[|a| + 2] == Word(v)[2] && s[|a| + 3] == Word(v)[3];
  }

  lemma HalfInside(a: seq<Byte>, v: nat, b: seq<Byte>)
    requires v < HALF_LIMIT
    ensures HalfAt(a + Half(v) + b, |a|) == v
  {
    HalfReadsBack(v);
    var s := a + Half(v) + b;
    assert s[|a|] == Half(v)[0] && s[|a| + 1] == Half(v)[1];
  }

  /** The fields of a new subheader. */
  lemma SubheaderFields(size: nat, keySize: nat, cmd: nat, op: nat, delay: nat, options: Byte, junk: seq<Byte>)
    requires size < SIZE_LIMIT && keySize < HALF_LIMIT && cmd < HALF_LIMIT && op < HALF_LIMIT && delay < HALF_LIMIT && |junk| == 5
    ensures var h := Subheader(size, keySize, cmd, op, delay, options, junk);
      && WordAt(h, MEM_SIZE) == size && WordAt(h, FULL_MEM_SIZE) == size && HalfAt(h, PDATA_OFFSET0) == keySize
      && WordAt(h, PDATA_OFFSET1) == 0 && HalfAt(h, CMD) == cmd && HalfAt(h, CMD + 2) == op && HalfAt(h, DELAY_OR_SPLIT) == delay
      && h[STATUS] == options
  {
    var h := Subheader(size, keySize, cmd, op, delay, options, junk);
    var t0 := junk[..4] + [options] + junk[4..];
    var t1 := Half(delay) + t0;
    var t2 := Half(op) + t1;
    var t3 := Half(cmd) + t2;
    var t4 := Word(0) + t3;
    var t5 := Half(keySize) + t4;
    var a4, a8, a10 := Word(size), Word(size) + Word(size), Word(size) + Word(size) + Half(keySize);
    var a14, a16, a18 := a10 + Word(0), a10 + Word(0) + Half(cmd), a10 + Word(0) + Half(cmd) + Half(op);
    assert h == [] + Word(size) + (Word(size) + t5);
    WordInside([], size, Word(size) + t5);
    assert h == a4 + Word(size) + t5;
    WordInside(a4, size, t5);
    assert h == a8 + Half(keySize) + t4;
    HalfInside(a8, keySize, t4);
    assert h == a10 + Word(0) + t3;
    WordInside(a10, 0, t3);
    assert h == a14 + Half(cmd) + t2;
    HalfInside(a14, cmd, t2);
    assert h == a16 + Half(op) + t1;
    HalfInside(a16, op, t1);
    assert h == a18 + Half(delay) + t0;
    HalfInside(a18, delay, t0);
  }

  lemma WordOfPrefix(a: seq<Byte>, b: seq<Byte>, at: nat)
    requires at + 4 <= |a|
    ensures WordAt(a + b, at) == WordAt(a, at)
  {
  }

  lemma HalfOfPrefix(a: seq<Byte>, b: seq<Byte>, at: nat)
    requires at + 2 <= |a|
    ensures HalfAt(a + b, at) == HalfAt(a, at)
  {
  }

  /** A new frame says what it was made of. */
  lemma MadeFrame(cmd: nat, op: nat, delay: nat, options: Byte, junk: seq<Byte>, key: seq<Byte>, pure: seq<Byte>)
    requires cmd < HALF_LIMIT && op < HALF_LIMIT && delay < HALF_LIMIT && |junk| == 5
    requires |key| < HALF_LIMIT && SUBHEADER_SIZE + |key| + |pure| < SIZE_LIMIT
    ensures var f := MakeFrame(cmd, op, delay, options, junk, key, pure);
      FrameOk(f) && CmdRaw(f) == cmd && OpMode(f) == op && Key(f) == key && PureData(f) == pure
  {
    var size := SUBHEADER_SIZE + |key| + |pure|;
    var h := Subheader(size, |key|, cmd, op, delay, options, junk);
    var f := MakeFrame(cmd, op, delay, options, junk, key, pure);
    SubheaderFields(size, |key|, cmd, op, delay, options, junk);
    assert f == h + (key + pure);
    WordOfPrefix(h, key + pure, MEM_SIZE);
    HalfOfPrefix(h, key + pure, PDATA_OFFSET0);
    HalfOfPrefix(h, key + pure, CMD);
    HalfOfPrefix(h, key + pure, CMD + 2);
  }

  /** The rest of its subheader: both sizes are the whole length, nothing of it is sent, and delay and options are those
      asked for. */
  lemma MadeSubheader(cmd: nat, op: nat, delay: nat, options: Byte, junk: seq<Byte>, key: seq<Byte>, pure: seq<Byte>)
    requires cmd < HALF_LIMIT && op < HALF_LIMIT && delay < HALF_LIMIT && |junk| == 5
    requires |key| < HALF_LIMIT && SUBHEADER_SIZE + |key| + |pure| < SIZE_LIMIT
    ensures var f := MakeFrame(cmd, op, delay, options, junk, key, pure);
      && |f| == 26 + |key| + |pure| && WordAt(f, 0) == WordAt(f, 4) == |f| && HalfAt(f, 8) == |key| && WordAt(f, 10) == 0
      && HalfAt(f, 14) == cmd && HalfAt(f, 16) == op && HalfAt(f, 18) == delay && f[24] == options
  {
    var size := SUBHEADER_SIZE + |key| + |pure|;
    var h := Subheader(size, |key|, cmd, op, delay, options, junk);
    SubheaderFields(size, |key|, cmd, op, delay, options, junk);
    assert MakeFrame(cmd, op, delay, options, junk, key, pure) == h + (key + pure);
    forall at | 0 <= at <= 10 ensures WordAt(h + (key + pure), at) == WordAt(h, at) {
      WordOfPrefix(h, key + pure, at);
    }
    forall at | 0 <= at <= 18 ensures HalfAt(h + (key + pure), at) == HalfAt(h, at) {
      HalfOfPrefix(h, key + pure, at);
    }
  }

  // ---------- writing over a frame ----------

  lemma WordIsHalves(low: nat, high: nat)
    requires low < HALF_LIMIT && high < HALF_LIMIT
    ensures Word(low + 0x1_0000 * high) == Half(low) + Half(high)
  {
    var v := low + 0x1_0000 * high;
    assert v / 0x100 == low / 0x100 + 0x100 * high;
    assert v / 0x100 / 0x100 == high;
  }

  /** The command field and the first bytes of the pure data written over. */
  function Updated(f: Frame, cmd: nat, op: nat, keySize: nat, payload: seq<Byte>): Frame
    requires cmd < HALF_LIMIT && op < HALF_LIMIT && SUBHEADER_SIZE + keySize + |payload| <= |f|
  {
    Overwritten(Overwritten(f, CMD, Word(cmd + 0x1_0000 * op)), SUBHEADER_SIZE + keySize, payload)
  }

  lemma CommandWritten(f: Frame, cmd: nat, op: nat)
    requires FrameOk(f) && cmd < HALF_LIMIT && op < HALF_LIMIT
    ensures var g := Overwritten(f, CMD, Word(cmd + 0x1_0000 * op));
      FrameOk(g) && KeySize(g) == KeySize(f) && Key(g) == Key(f) && CmdRaw(g) == cmd && OpMode(g) == op && PureData(g) == PureData(f)
  {
    WordIsHalves(cmd, op);
    HalfReadsBack(cmd);
    HalfReadsBack(op);
    var g := Overwritten(f, CMD, Word(cmd + 0x1_0000 * op));
    assert g[CMD] == Half(cmd)[0] && g[CMD + 1] == Half(cmd)[1] && g[CMD + 2] == Half(op)[0] && g[CMD + 3] == Half(op)[1];
  }

  lemma PureDataWritten(f: Frame, payload: seq<Byte>)
    requires FrameOk(f) && |payload| <= |PureData(f)|
    ensures var g := Overwritten(f, SUBHEADER_SIZE + KeySize(f), payload);
      && FrameOk(g) && KeySize(g) == KeySize(f) && Key(g) == Key(f) && CmdRaw(g) == CmdRaw(f) && OpMode(g) == OpMode(f)
      && PureData(g) == payload + PureData(f)[|payload|..]
  {
  }

  lemma UpdatedSays(f: Frame, cmd: nat, key: seq<Byte>, op: nat, payload: seq<Byte>)
    requires Proper(f) && IsOf(f, cmd, key) && op < HALF_LIMIT && |payload| == |PureData(f)|
    ensures var g := Updated(f, cmd, op, |key|, payload); Proper(g) && IsOf(g, cmd, key) && OpMode(g) == op && PureData(g) == payload
  {
    CommandWritten(f, cmd, op);
    PureDataWritten(Overwritten(f, CMD, Word(cmd + 0x1_0000 * op)), payload);
  }

  // ---------- the outbox ----------

  /** Every frame of the command and key carries `n` bytes of pure data. */
  ghost predicate SameForm(frames: seq<Frame>, cmd: nat, key: seq<Byte>, n: nat) {
    forall i :: 0 <= i < |frames| && IsOf(frames[i], cmd, key) ==> |PureData(frames[i])| == n
  }

  /** What the caller hands to an `_exec_*` function, cut into fields. */
  datatype Request = Request(cmd: nat, op: nat, delay: nat, options: Byte, key: seq<Byte>, pure: seq<Byte>, junk: seq<Byte>) {
    predicate Valid() {
      && cmd < HALF_LIMIT && op < HALF_LIMIT && delay < HALF_LIMIT && |junk| == 5
      && |key| < HALF_LIMIT && SUBHEADER_SIZE + |key| + |pure| < SIZE_LIMIT && KeyFits(cmd, key)
    }

    function NewFrame(): Frame
      requires Valid()
    {
      MakeFrame(cmd, op, delay, options, junk, key, pure)
    }
  }

  lemma NewFrameIsProper(r: Request)
    requires r.Valid()
    ensures Proper(r.NewFrame()) && IsOf(r.NewFrame(), r.cmd, r.key) && OpMode(r.NewFrame()) == r.op && PureData(r.NewFrame()) == r.pure
  {
    MadeFrame(r.cmd, r.op, r.delay, r.options, r.junk, r.key, r.pure);
  }

  // ---------- the puts ----------

  /** The message to send: a header and then proper frames. */
  ghost predicate IsOutbox(b: FrameBuffer)
    reads b, b.buffer, b.buffer.data
  {
    b.Valid() && b.start == 18 && AllProper(b.frames) && AllOk(b.frames)
  }

  method AppendRequest(b: FrameBuffer, r: Request)
    requires IsOutbox(b) && r.Valid()
    modifies b, b.buffer, b.buffer.data
    ensures IsOutbox(b) && (b.buffer.data == old(b.buffer.data) || fresh(b.buffer.data))
    ensures b.frames == old(b.frames) + [r.NewFrame()] && OthersStay(old(b.frames), b.frames, r.cmd, r.key)
    ensures Of(b.frames, r.cmd, r.key) == Of(old(b.frames), r.cmd, r.key) + [r.NewFrame()]
  {
    NewFrameIsProper(r);
    AppendedFrames(b.frames, r.NewFrame(), r.cmd, r.key);
    ProperAreOk(b.frames + [r.NewFrame()]);
    b.Append(r.NewFrame());
  }

  /** The command field and the pure data of frame `i` written over in place. */
  method UpdateAt(b: FrameBuffer, off: nat, ghost i: nat, r: Request)
    requires b.Valid() && i < |b.frames| && off == b.start + Off(b.frames, i) && r.Valid()
    requires SUBHEADER_SIZE + |r.key| + |r.pure| <= |b.frames[i]|
    modifies b`frames, b.buffer.data
    ensures b.Valid() && b.frames == old(b.frames)[i := Updated(old(b.frames)[i], r.cmd, r.op, |r.key|, r.pure)]
  {
    b.Write(off, CMD, Word(r.cmd + 0x1_0000 * r.op), i);
    b.Write(off, SUBHEADER_SIZE + |r.key|, r.pure, i);
  }

  /** The part of `_exec_null` that fills the message: a command already there is left alone. */
  method PutNull(b: FrameBuffer, r: Request)
    requires IsOutbox(b) && r.Valid() && r.key == [] && r.pure == []
    modifies b, b.buffer, b.buffer.data
    ensures IsOutbox(b) && (b.buffer.data == old(b.buffer.data) || fresh(b.buffer.data))
    ensures OthersStay(old(b.frames), b.frames, r.cmd, r.key)
    ensures Of(b.frames, r.cmd, r.key) == Of(old(b.frames), r.cmd, r.key) +
      if Of(old(b.frames), r.cmd, r.key) == [] || r.options % 2 == 1 then [r.NewFrame()] else []
  {
    var found, off;
    ghost var i;
    found, off, i := b.Find(r.cmd, r.key);
    FirstIsOf(b.frames, r.cmd, r.key, i);
    if !found || r.options % 2 == 1 {
      AppendRequest(b, r);
    }
  }

  /** The part of `_exec_int`, `_exec_intint`, `_exec_string` (no pure data) and of `_exec_int_int`,
      `_exec_intint_int`, `_exec_int_float` (four bytes) that fills the message: a command already there is
      written over. Only `_exec_int_int` does so too where `options` forbid it: `heeds` is false for it. */
  method PutFixed(b: FrameBuffer, r: Request, heeds: bool)
    requires IsOutbox(b) && r.Valid() && (!heeds || r.options % 2 == 0 ==> SameForm(b.frames, r.cmd, r.key, |r.pure|))
    modifies b, b.buffer, b.buffer.data
    ensures IsOutbox(b) && (b.buffer.data == old(b.buffer.data) || fresh(b.buffer.data))
    ensures OthersStay(old(b.frames), b.frames, r.cmd, r.key)
    ensures var was, now := Of(old(b.frames), r.cmd, r.key), Of(b.frames, r.cmd, r.key);
      if was == [] || (heeds && r.options % 2 == 1) then now == was + [r.NewFrame()]
      else SUBHEADER_SIZE + |r.key| + |r.pure| == |was[0]| && now == [Updated(was[0], r.cmd, r.op, |r.key|, r.pure)] + was[1..]
  {
    var found, off;
    ghost var i;
    found, off, i := b.Find(r.cmd, r.key);
    FirstIsOf(b.frames, r.cmd, r.key, i);
    if found && (!heeds || r.options % 2 == 0) {
      ghost var f := Updated(b.frames[i], r.cmd, r.op, |r.key|, r.pure);
      UpdatedSays(b.frames[i], r.cmd, r.key, r.op, r.pure);
      ReplacedFrames(b.frames, i, f, r.cmd, r.key);
      ProperAreOk(b.frames[i := f]);
      UpdateAt(b, off, i, r);
    } else {
      AppendRequest(b, r);
    }
  }

  /** The part of `_exec_null_buffer`, `_exec_int_buffer`, `_exec_intint_buffer` and `_exec_string_buffer` that
      fills the message: a command already there is taken out, and the new one goes to the end. */
  method PutBuffer(b: FrameBuffer, r: Request)
    requires IsOutbox(b) && r.Valid()
    modifies b, b.buffer, b.buffer.data
    ensures IsOutbox(b) && (b.buffer.data == old(b.buffer.data) || fresh(b.buffer.data))
    ensures OthersStay(old(b.frames), b.frames, r.cmd, r.key)
    ensures var was := Of(old(b.frames), r.cmd, r.key);
      Of(b.frames, r.cmd, r.key) == (if was != [] && r.options % 2 == 0 then was[1..] else was) + [r.NewFrame()]
  {
    ghost var was := b.frames;
    var found, off;
    ghost var i;
    found, off, i := b.Find(r.cmd, r.key);
    FirstIsOf(b.frames, r.cmd, r.key, i);
    if found && r.options % 2 == 0 {
      RemovedFrames(b.frames, i, r.cmd, r.key);
      var size := b.SizeOf(off, i);
      b.RemoveAt(off, size, i);
      ProperAreOk(b.frames);
    }
    ghost var left := b.frames;
    AppendRequest(b, r);
    OthersStayOn(was, left, b.frames, r.cmd, r.key);
  }

  // ---------- overwritable commands ----------

  /** The frame of a command that is only ever put so that it can be overwritten: one at most, and after a put
      with pure data, one that carries them. */
  lemma OverwritableIsSingle(was: seq<Frame>, now: seq<Frame>, r: Request)
    requires r.Valid() && r.options % 2 == 0 && |was| <= 1 && forall f :: f in was ==> Proper(f) && IsOf(f, r.cmd, r.key)
    requires
      || (was == [] && now == [r.NewFrame()])
      || (was != [] && SUBHEADER_SIZE + |r.key| + |r.pure| == |was[0]| && now == [Updated(was[0], r.cmd, r.op, |r.key|, r.pure)] + was[1..])
      || (was != [] && now == was[1..] + [r.NewFrame()])
    ensures |now| == 1 && Proper(now[0]) && IsOf(now[0], r.cmd, r.key) && OpMode(now[0]) == r.op && PureData(now[0]) == r.pure
  {
    NewFrameIsProper(r);
    if was != [] {
      assert was[0] in was;
      if |r.pure| == |PureData(was[0])| {
        UpdatedSays(was[0], r.cmd, r.key, r.op, r.pure);
      }
    }
  }

  /** The last of the first `n` requests for a command and key, or none (-1). */
  ghost function LastOf(rs: seq<Request>, cmd: nat, key: seq<Byte>, n: nat): (i: int)
    requires n <= |rs|
    ensures -1 <= i < n && (i >= 0 ==> rs[i].cmd == cmd && rs[i].key == key)
  {
    if n == 0 then -1 else if rs[n - 1].cmd == cmd && rs[n - 1].key == key then n - 1 else LastOf(rs, cmd, key, n - 1)
  }

  /** The outbox holds, for every command and key, exactly one frame with the last value, or none. */
  ghost predicate LastWins(rs: seq<Request>, frames: seq<Frame>, n: nat)
    requires n <= |rs|
  {
    forall c: nat, k: seq<Byte> :: HoldsLast(rs, frames, n, c, k)
  }

  ghost predicate HoldsLast(rs: seq<Request>, frames: seq<Frame>, n: nat, c: nat, k: seq<Byte>)
    requires n <= |rs|
  {
    var i, own := LastOf(rs, c, k, n), Of(frames, c, k);
    if i < 0 then own == []
    else |own| == 1 && Proper(own[0]) && IsOf(own[0], c, k) && OpMode(own[0]) == rs[i].op && PureData(own[0]) == rs[i].pure
  }

  /** Requests that can be overwritten; those put in place always carry the same amount of data for a key. */
  ghost predicate Plain(rs: seq<Request>, inPlace: seq<bool>) {
    && |inPlace| == |rs|
    && (forall i :: 0 <= i < |rs| ==> rs[i].Valid() && rs[i].options % 2 == 0)
    && forall i, j :: 0 <= i < j < |rs| && rs[i].cmd == rs[j].cmd && rs[i].key == rs[j].key && inPlace[j] ==> |rs[i].pure| == |rs[j].pure|
  }

  lemma {:induction false} OfHasAll(frames: seq<Frame>, cmd: nat, key: seq<Byte>, i: nat)
    requires i < |frames| && IsOf(frames[i], cmd, key)
    ensures frames[i] in Of(frames, cmd, key)
  {
    OfAt(frames, i, cmd, key);
  }

  lemma SameFormHolds(rs: seq<Request>, inPlace: seq<bool>, frames: seq<Frame>, n: nat)
    requires Plain(rs, inPlace) && n < |rs| && inPlace[n] && HoldsLast(rs, frames, n, rs[n].cmd, rs[n].key)
    ensures SameForm(frames, rs[n].cmd, rs[n].key, |rs[n].pure|)
  {
    forall i | 0 <= i < |frames| && IsOf(frames[i], rs[n].cmd, rs[n].key) ensures |PureData(frames[i])| == |rs[n].pure| {
      OfHasAll(frames, rs[n].cmd, rs[n].key, i);
    }
  }

  lemma LastWinsOn(rs: seq<Request>, was: seq<Frame>, now: seq<Frame>, n: nat)
    requires n < |rs| && LastWins(rs, was, n) && OthersStay(was, now, rs[n].cmd, rs[n].key)
    requires HoldsLast(rs, now, n + 1, rs[n].cmd, rs[n].key)
    ensures LastWins(rs, now, n + 1)
  {
    var m := n + 1;
    forall c: nat, k: seq<Byte> ensures HoldsLast(rs, now, m, c, k) {
      assert HoldsLast(rs, was, n, c, k);
    }
  }

  lemma LastWinsAtStart(rs: seq<Request>, frames: seq<Frame>, n: nat)
    requires frames == [] && n == 0
    ensures LastWins(rs, frames, n)
  {
    forall c: nat, k: seq<Byte> ensures HoldsLast(rs, frames, n, c, k) {
      OfNone(frames, c, k);
    }
  }

  /** One put of a run. */
  method PutOne(b: FrameBuffer, rs: seq<Request>, inPlace: seq<bool>, n: nat)
    requires IsOutbox(b) && Plain(rs, inPlace) && n < |rs| && LastWins(rs, b.frames, n)
    modifies b, b.buffer, b.buffer.data
    ensures IsOutbox(b) && (b.buffer.data == old(b.buffer.data) || fresh(b.buffer.data))
    ensures LastWins(rs, b.frames, n + 1)
  {
    var r := rs[n];
    ghost var was := b.frames;
    assert HoldsLast(rs, was, n, r.cmd, r.key);
    if inPlace[n] {
      SameFormHolds(rs, inPlace, was, n);
      PutFixed(b, r, true);
    } else {
      PutBuffer(b, r);
    }
    OverwritableIsSingle(Of(was, r.cmd, r.key), Of(b.frames, r.cmd, r.key), r);
    LastWinsOn(rs, was, b.frames, n);
  }

  /** Over any run of overwritable puts, in any order and for any keys, the outbox holds at most one frame per
      command and key, and it carries the last operation mode and value put. */
  method PutAll(b: FrameBuffer, rs: seq<Request>, inPlace: seq<bool>)
    requires IsOutbox(b) && b.frames == [] && Plain(rs, inPlace)
    modifies b, b.buffer, b.buffer.data
    ensures IsOutbox(b) && LastWins(rs, b.frames, |rs|)
  {
    LastWinsAtStart(rs, b.frames, 0);
    var n := 0;
    while n < |rs|
      modifies b, b.buffer, b.buffer.data
      invariant 0 <= n <= |rs| && IsOutbox(b) && (b.buffer.data == old(b.buffer.data) || fresh(b.buffer.data))
      invariant LastWins(rs, b.frames, n)
    {
      PutOne(b, rs, inPlace, n);
      n := n + 1;
    }
  }

  // ---------- commands that must not be overwritten ----------

  /** The frames asked for by the first `n` requests for a command and key, in order. */
  ghost function Asked(rs: seq<Request>, cmd: nat, key: seq<Byte>, n: nat): seq<Frame>
    requires n <= |rs| && forall i :: 0 <= i < |rs| ==> rs[i].Valid()
  {
    if n == 0 then []
    else Asked(rs, cmd, key, n - 1) + if rs[n - 1].cmd == cmd && rs[n - 1].key == key then [rs[n - 1].NewFrame()] else []
  }

  /** The outbox holds, for every command and key, all that was asked for. */
  ghost predicate HoldsAll(rs: seq<Request>, frames: seq<Frame>, n: nat)
    requires n <= |rs| && forall i :: 0 <= i < |rs| ==> rs[i].Valid()
  {
    forall c: nat, k: seq<Byte> :: Of(frames, c, k) == Asked(rs, c, k, n)
  }

  /** Requests that forbid overwriting. */
  ghost predicate Insistent(rs: seq<Request>) {
    forall i :: 0 <= i < |rs| ==> rs[i].Valid() && rs[i].options % 2 == 1
  }

  /** One put of a run: without pure data and key, in place, or from the caller's buffer. */
  method PutInsistent(b: FrameBuffer, rs: seq<Request>, inPlace: seq<bool>, n: nat)
    requires IsOutbox(b) && Insistent(rs) && |inPlace| == |rs| && n < |rs| && HoldsAll(rs, b.frames, n)
    modifies b, b.buffer, b.buffer.data
    ensures IsOutbox(b) && (b.buffer.data == old(b.buffer.data) || fresh(b.buffer.data))
    ensures HoldsAll(rs, b.frames, n + 1)
  {
    var r := rs[n];
    ghost var was := b.frames;
    assert Of(was, r.cmd, r.key) == Asked(rs, r.cmd, r.key, n);
    if inPlace[n] && r.key == [] && r.pure == [] {
      PutNull(b, r);
    } else if inPlace[n] {
      PutFixed(b, r, true);
    } else {
      PutBuffer(b, r);
    }
    forall c: nat, k: seq<Byte> ensures Of(b.frames, c, k) == Asked(rs, c, k, n + 1) {
      assert Of(was, c, k) == Asked(rs, c, k, n);
    }
  }

  /** Over any run of puts that forbid overwriting and are heeded, the outbox holds for every command and key all that was
      asked for, in order. */
  method PutAllInsistent(b: FrameBuffer, rs: seq<Request>, inPlace: seq<bool>)
    requires IsOutbox(b) && b.frames == [] && Insistent(rs) && |inPlace| == |rs|
    modifies b, b.buffer, b.buffer.data
    ensures IsOutbox(b) && HoldsAll(rs, b.frames, |rs|)
  {
    forall c: nat, k: seq<Byte> ensures Of(b.frames, c, k) == Asked(rs, c, k, 0) {
      OfNone(b.frames, c, k);
    }
    var n := 0;
    while n < |rs|
      modifies b, b.buffer, b.buffer.data
      invariant 0 <= n <= |rs| && IsOutbox(b) && (b.buffer.data == old(b.buffer.data) || fresh(b.buffer.data))
      invariant HoldsAll(rs, b.frames, n)
    {
      PutInsistent(b, rs, inPlace, n);
      n := n + 1;
    }
  }
}
