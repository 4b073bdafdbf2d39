/** Messages cut into socket packets and put together again (extApi.c, `_sendMessage_socketOrSharedMem` to
    `_receiveSimplePacket_socket`). */
module Packets {
  import opened Bytes
  import opened Options


  const SOCKET_MAX_PACKET_SIZE := 1300
  const SOCKET_HEADER_LENGTH := 6
  const MAX_DATA := SOCKET_MAX_PACKET_SIZE - SOCKET_HEADER_LENGTH

  // ---------- 16-bit signed numbers ----------

  /** One more, and one less, in a `simxShort`. */
  function Up(v: int): int {
    if v == 0x7FFF then -0x8000 else v + 1
  }

  function Down(v: int): int {
    if v == -0x8000 then 0x7FFF else v - 1
  }

  /** What a `simxShort` shows when it has counted to `n`. */
  function Count(n: nat): (r: int)
    ensures -0x8000 <= r < 0x8000
  {
    if n == 0 then 0 else Up(Count(n - 1))
  }

  /** It shows the number itself if and only if the number fits. */
  lemma {:induction false} CountIs(n: nat)
    ensures Count(n) == n <==> n < 0x8000
  {
    if 0 < n < 0x8000 {
      CountIs(n - 1);
    }
  }

  function Short(v: int): (s: seq<Byte>)
    requires -0x8000 <= v < 0x8000
    ensures |s| == 2
  {
    Half(if v < 0 then v + 0x1_0000 else v)
  }

  function ShortAt(s: seq<Byte>, at: nat): int
    requires at + 2 <= |s|
  {
    if HalfAt(s, at) < 0x8000 then HalfAt(s, at) else HalfAt(s, at) - 0x1_0000
  }

  // ---------- the packets of a message ----------

  function PieceLength(n: nat): nat {
    if n > MAX_DATA then MAX_DATA else n
  }

  /** How many packets a message of `n` bytes takes. */
  function Pieces(n: nat): nat {
    if n == 0 then 0 else 1 + Pieces(n - PieceLength(n))
  }

  /** The endianness mark, the packet length, and how many packets are left after it. */
  function Header(length: nat, left: int): (h: seq<Byte>)
    requires length <= MAX_DATA && -0x8000 <= left < 0x8000
    ensures |h| == SOCKET_HEADER_LENGTH
  {
    Short(1) + Short(length) + Short(left)
  }

  function Packet(data: seq<Byte>, left: int): seq<Byte>
    requires |data| <= MAX_DATA && -0x8000 <= left < 0x8000
  {
    Header(|data|, left) + data
  }

  /** The packets of what a message has from `at` on, one after the other. */
  ghost function PacketsFrom(m: seq<Byte>, at: nat): seq<Byte>
    requires at <= |m|
    decreases |m| - at
  {
    if at == |m| then [] else PacketAt(m, at) + PacketsFrom(m, at + PieceLength(|m| - at))
  }

  function PacketAt(m: seq<Byte>, at: nat): seq<Byte>
    requires at < |m|
  {
    Packet(m[at..at + PieceLength(|m| - at)], Count(Pieces(|m| - at) - 1))
  }

  ghost function PacketsOf(m: seq<Byte>): seq<Byte> {
    PacketsFrom(m, 0)
  }

  /** The first loop of `_sendMessage_socketOrSharedMem` counts the packets, in 16 bits. */
  method CountPackets(size: nat) returns (packetCount: int)
    ensures packetCount == Count(Pieces(size))
  {
    packetCount := 0;
    ghost var counted: nat := 0;
    var s: nat := size;
    while s != 0
      invariant packetCount == Count(counted) && counted + Pieces(s) == Pieces(size)
    {
      packetCount, counted := Up(packetCount), counted + 1;
      s := if s > MAX_DATA then s - MAX_DATA else 0;
    }
  }

  /** `_sendMessage_socketOrSharedMem` over a socket that takes everything: the bytes sent. An empty message is
      reported as a failure. */
  method SendMessage(message: seq<Byte>) returns (sent: Option<seq<Byte>>)
    ensures sent.None? <==> message == []
    ensures sent.Some? ==> sent.value == PacketsOf(message)
  {
    if |message| == 0 {
      return None;
    }
    var packetCount := CountPackets(|message|);
    var s: nat := |message|;
    var ptr: nat, bytes := 0, [];
    while s != 0
      invariant Sending(message, ptr, s, packetCount, bytes)
      decreases s
    {
      SendingOn(message, ptr, s, packetCount, bytes);
      packetCount := Down(packetCount);
      var sizeToSend := if s > MAX_DATA then MAX_DATA else s;
      s := s - sizeToSend;
      bytes := bytes + Packet(message[ptr..ptr + sizeToSend], packetCount);
      ptr := ptr + sizeToSend;
    }
    return Some(bytes);
  }

  /** What the send loop keeps: `s` bytes are left at `ptr`, and the bytes sent and the packets of what is left make
      the packets of the whole. */
  ghost predicate Sending(m: seq<Byte>, ptr: nat, s: nat, packetCount: int, bytes: seq<Byte>) {
    ptr + s == |m| && packetCount == Count(Pieces(s)) && bytes + PacketsFrom(m, ptr) == PacketsOf(m)
  }

  lemma SendingOn(m: seq<Byte>, ptr: nat, s: nat, packetCount: int, bytes: seq<Byte>)
    requires s > 0 && Sending(m, ptr, s, packetCount, bytes)
    ensures -0x8000 <= Down(packetCount) < 0x8000
    ensures var n := PieceLength(s);
      Sending(m, ptr + n, s - n, Down(packetCount), bytes + Packet(m[ptr..ptr + n], Down(packetCount)))
  {
    assert Down(packetCount) == Count(Pieces(s) - 1);
    InFront(bytes, PacketAt(m, ptr), PacketsFrom(m, ptr + PieceLength(s)));
  }

  /** A message takes a packet for every 1294 bytes or part of them. */
  lemma {:induction false} PiecesIsCeiling(n: nat)
    ensures Pieces(n) == (n + 1293) / 1294
    decreases n
  {
    if n > 0 {
      PiecesIsCeiling(n - PieceLength(n));
      if n > 1294 {
        assert (n + 1293) / 1294 == 1 + (n - 1294 + 1293) / 1294;
      }
    }
  }

  /** On the wire: a packet is the number one, its length and the number of packets left, each in two bytes with the lower
      one first, and then its data. */
  lemma PacketBytes(data: seq<Byte>, left: nat)
    requires |data| <= 1294 && left < 0x8000
    ensures |data| / 0x100 < 0x100
    ensures Packet(data, left) == [1, 0, |data| % 0x100, |data| / 0x100, left % 0x100, left / 0x100] + data
  {
  }

  /** A packet is full as long as more than 1294 bytes are left; the last one has the rest. */
  lemma PacketsOnTheWire(m: seq<Byte>, at: nat)
    requires at < |m| && (|m| - at + 1293) / 1294 <= 0x8000
    ensures var n, left := |m| - at, (|m| - at + 1293) / 1294 - 1;
      PacketsFrom(m, at) == if n <= 1294 then Packet(m[at..], 0) else Packet(m[at..at + 1294], left) + PacketsFrom(m, at + 1294)
  {
    PiecesIsCeiling(|m| - at);
    CountIs(Pieces(|m| - at) - 1);
    if |m| - at <= 1294 {
      assert m[at..|m|] == m[at..] && PacketsFrom(m, |m|) == [];
    }
  }

  // ---------- reading packets ----------

  /** What a header says of its length and of the packets left. */
  lemma HeaderSays(length: nat, left: int, more: seq<Byte>)
    requires length <= MAX_DATA && -0x8000 <= left < 0x8000
    ensures var s := Header(length, left) + more; ShortAt(s, 2) == length && ShortAt(s, 4) == left
  {
    var s, u := Header(length, left) + more, if left < 0 then left + 0x1_0000 else left;
    HalfReadsBack(length);
    HalfReadsBack(u);
    assert s[2] == Half(length)[0] && s[3] == Half(length)[1] && s[4] == Half(u)[0] && s[5] == Half(u)[1];
  }

  lemma InFront<T>(h: seq<T>, d: seq<T>, more: seq<T>)
    ensures (h + d) + more == h + (d + more)
    ensures ((h + d) + more)[|h|..|h| + |d|] == d && ((h + d) + more)[|h| + |d|..] == more
  {
  }

  /** A packet in front of other bytes. */
  lemma PacketSays(data: seq<Byte>, left: int, more: seq<Byte>)
    requires |data| <= MAX_DATA && -0x8000 <= left < 0x8000
    ensures var s := Packet(data, left) + more;
      && |s| >= SOCKET_HEADER_LENGTH + |data| && ShortAt(s, 2) == |data| && ShortAt(s, 4) == left
      && s[SOCKET_HEADER_LENGTH..SOCKET_HEADER_LENGTH + |data|] == data && s[SOCKET_HEADER_LENGTH + |data|..] == more
  {
    InFront(Header(|data|, left), data, more);
    HeaderSays(|data|, left, data + more);
  }

  lemma PacketsStart(m: seq<Byte>, at: nat, rest: seq<Byte>)
    requires at < |m|
    ensures PacketsFrom(m, at) + rest == PacketAt(m, at) + (PacketsFrom(m, at + PieceLength(|m| - at)) + rest)
    ensures |PacketsFrom(m, at)| == SOCKET_HEADER_LENGTH + PieceLength(|m| - at) + |PacketsFrom(m, at + PieceLength(|m| - at))|
  {
    InFront(PacketAt(m, at), PacketsFrom(m, at + PieceLength(|m| - at)), rest);
  }

  // ---------- what the packets of a message make ----------

  /** What the receive loop makes of the packets from `at` on: it takes packets until one says that none is left,
      and gives up at a negative number. */
  ghost function Assembled(m: seq<Byte>, at: nat): Option<seq<Byte>>
    requires at <= |m|
    decreases |m| - at
  {
    if at == |m| then None else
      var next, left := at + PieceLength(|m| - at), Count(Pieces(|m| - at) - 1);
      if left < 0 then None
      else if left == 0 then Some(m[at..next])
      else Before(m[at..next], Assembled(m, next))
  }

  function Before<T>(data: seq<T>, rest: Option<seq<T>>): Option<seq<T>> {
    match rest
    case None => None
    case Some(more) => Some(data + more)
  }

  lemma {:induction false} FittingAssembles(m: seq<Byte>, at: nat)
    requires at < |m| && Pieces(|m| - at) <= 0x8000
    ensures Assembled(m, at) == Some(m[at..])
    decreases |m| - at
  {
    var next := at + PieceLength(|m| - at);
    CountIs(Pieces(|m| - at) - 1);
    if next < |m| {
      FittingAssembles(m, next);
      assert m[at..] == m[at..next] + m[next..];
    } else {
      assert m[at..next] == m[at..];
    }
  }

  lemma {:induction false} TooManyDoNot(m: seq<Byte>, at: nat)
    requires at < |m| && Count(Pieces(|m| - at) - 1) < Pieces(|m| - at) - 1
    ensures var r := Assembled(m, at); r.Some? ==> |r.value| < |m| - at
    decreases |m| - at
  {
    if Count(Pieces(|m| - at) - 1) > 0 {
      TooManyDoNot(m, at + PieceLength(|m| - at));
    }
  }

  /** How many bytes a number of packets can carry. */
  lemma {:induction false} PiecesBound(n: nat, k: nat)
    ensures Pieces(n) <= k <==> n <= k * MAX_DATA
  {
    if n > 0 && k > 0 {
      PiecesBound(n - PieceLength(n), k - 1);
    }
  }

  /** The packets of a message make the message again if and only if there are at most 32768 of them, so
      exactly the messages that fit into these arrive. */
  lemma RoundTripIff(m: seq<Byte>)
    requires m != []
    ensures Assembled(m, 0) == Some(m) <==> Pieces(|m|) <= 0x8000
    ensures Assembled(m, 0) == Some(m) <==> |m| <= 0x8000 * 1294
  {
    var most: nat := 0x8000;
    PiecesBound(|m|, most);
    if Pieces(|m|) <= 0x8000 {
      FittingAssembles(m, 0);
      assert m[0..] == m;
    } else {
      CountIs(Pieces(|m|) - 1);
      TooManyDoNot(m, 0);
    }
  }

  predicate HasPacket(s: seq<Byte>) {
    |s| >= SOCKET_HEADER_LENGTH && ShortAt(s, 2) >= 0 && |s| >= SOCKET_HEADER_LENGTH + ShortAt(s, 2)
  }

  // ---------- the receive loop ----------

  /** The receiving end of a connection: the bytes that will arrive, and how many were taken. */
  class Connection {
    var stream: seq<Byte>
    var pos: nat

    ghost predicate Valid()
      reads this
    {
      pos <= |stream|
    }

    constructor (bytes: seq<Byte>)
      ensures Valid() && stream == bytes && pos == 0
    {
      stream, pos := bytes, 0;
    }

    /** `recv`: any number of bytes from one up to what is asked for, as `choice` has it, or none at the end. */
    method Recv(most: nat, choice: nat) returns (bytes: seq<Byte>)
      requires Valid() && most > 0
      modifies this`pos
      ensures Valid() && pos == old(pos) + |bytes| && |bytes| <= most && bytes == stream[old(pos)..pos]
      ensures bytes == [] <==> old(pos) == |stream|
    {
      var there := if |stream| - pos < most then |stream| - pos else most;
      var n := if there == 0 then 0 else 1 + choice % there;
      bytes := stream[pos..pos + n];
      pos := pos + n;
    }

    /** The loops of `_receiveSimplePacket_socket` that read exactly `n` bytes, within the timeout. `choices` says for
        every position in the stream how many bytes come next, so it stands for any delivery of the whole stream. */
    method Read(n: nat, choices: nat -> nat) returns (bytes: seq<Byte>)
      requires Valid()
      modifies this`pos
      ensures Valid()
      ensures if old(pos) + n <= |stream| then pos == old(pos) + n && bytes == stream[old(pos)..pos] else |bytes| < n
    {
      bytes := [];
      while |bytes| != n
        invariant Valid() && |bytes| <= n && pos == old(pos) + |bytes| && bytes == stream[old(pos)..pos]
        decreases n - |bytes|
      {
        var piece := Recv(n - |bytes|, choices(pos));
        if |piece| < 1 {
          break;
        }
        bytes := bytes + piece;
      }
    }

    /** `_receiveSimplePacket_socket`: the data of a packet and the packets left, or a negative number for an error. */
    method ReceivePacket(choices: nat -> nat) returns (left: int, data: seq<Byte>)
      requires Valid()
      modifies this`pos
      ensures Valid()
      ensures HasPacket(stream[old(pos)..]) ==>
        && left == ShortAt(stream[old(pos)..], 4) && pos == old(pos) + SOCKET_HEADER_LENGTH + |data|
        && data == stream[old(pos)..][SOCKET_HEADER_LENGTH..SOCKET_HEADER_LENGTH + ShortAt(stream[old(pos)..], 2)]
      ensures !HasPacket(stream[old(pos)..]) ==> left == -1
    {
      ghost var s := stream[pos..];
      var headerAndSize := Read(SOCKET_HEADER_LENGTH, choices);
      data := [];
      if |headerAndSize| != SOCKET_HEADER_LENGTH {
        return -1, [];
      }
      assert headerAndSize == s[..SOCKET_HEADER_LENGTH];
      var dataLength := ShortAt(headerAndSize, 2);
      left := ShortAt(headerAndSize, 4);
      if dataLength < 0 {
        return -1, [];
      }
      data := Read(dataLength, choices);
      if |data| != dataLength {
        return -1, [];
      }
    }

    /** The packets of the rest of the message are still to come. */
    ghost predicate Awaits(m: seq<Byte>, at: nat, rest: seq<Byte>)
      reads this
    {
      Valid() && at <= |m| && stream[pos..] == PacketsFrom(m, at) + rest
    }

    /** The next packet of a message. */
    method TakePacket(choices: nat -> nat, ghost m: seq<Byte>, ghost at: nat, ghost rest: seq<Byte>) returns (left: int, data: seq<Byte>)
      requires at < |m| && Awaits(m, at, rest)
      modifies this`pos
      ensures left == Count(Pieces(|m| - at) - 1) && data == m[at..at + PieceLength(|m| - at)]
      ensures Awaits(m, at + |data|, rest)
    {
      ghost var s := stream[pos..];
      FirstPacket(m, at, rest);
      left, data := ReceivePacket(choices);
      assert stream[pos..] == s[SOCKET_HEADER_LENGTH + |data|..];
    }

    /** `_receiveReplyMessage_socketOrSharedMem` on a stream that begins with the packets of `m`: what they make, in
        a buffer sized from the first packet. A message that comes out whole leaves the stream at what follows. */
    method ReceiveMessage(choices: nat -> nat, ghost m: seq<Byte>, ghost rest: seq<Byte>) returns (message: Option<seq<Byte>>)
      requires m != [] && Awaits(m, 0, rest)
      modifies this`pos
      ensures message == Assembled(m, 0)
      ensures message == Some(m) ==> Awaits(m, |m|, rest)
    {
      var retBuff := new Byte[0];
      var retBuffSize: nat, cnt, result := 0, 0, 1;
      AtStart(m);
      while result != 0
        invariant fresh(retBuff) && Awaits(m, retBuffSize, rest) && Holds(retBuff, retBuffSize, m)
        invariant Receiving(m, retBuffSize, cnt, result)
        invariant cnt > 0 ==> retBuffSize + result * MAX_DATA <= retBuff.Length
        decreases |m| - retBuffSize
      {
        TakeOn(m, retBuffSize, cnt, result);
        var inDat;
        result, inDat := TakePacket(choices, m, retBuffSize, rest);
        if result < 0 {
          return None;
        }
        retBuff := Keep(retBuff, retBuffSize, inDat, cnt, result, m);
        retBuffSize := retBuffSize + |inDat|;
        cnt := cnt + 1;
      }
      return Some(retBuff[..retBuffSize]);
    }
  }

  /** The data copied behind what is there; at the first packet the buffer is allocated. */
  method Keep(buf: array<Byte>, size: nat, data: seq<Byte>, cnt: int, result: nat, ghost m: seq<Byte>) returns (r: array<Byte>)
    requires Holds(buf, size, m) && size < |m| && data == m[size..size + PieceLength(|m| - size)]
    requires cnt == 0 ==> size == 0 && result == Count(Pieces(|m|) - 1)
    requires cnt != 0 ==> size + (result + 1) * MAX_DATA <= buf.Length
    modifies buf
    ensures (cnt == 0 ==> fresh(r)) && (cnt != 0 ==> r == buf)
    ensures Holds(r, size + |data|, m) && size + |data| + result * MAX_DATA <= r.Length
  {
    r := buf;
    if cnt == 0 {
      RoomAtFirst(result, |m|);
      r := new Byte[(1 + result) * (|data| + SOCKET_HEADER_LENGTH)];
    }
    CopyTo(r, size, data);
    PieceOn(m, size, |data|);
  }

  /** What the receive loop keeps: after `cnt` packets, the last of which said that `result` are left, `size` bytes
      are there, and what comes of the whole is these in front of what comes of the rest. */
  ghost predicate Receiving(m: seq<Byte>, size: nat, cnt: int, result: int) {
    && size <= |m| && cnt >= 0 && result >= 0 && (cnt == 0 ==> size == 0 && result > 0)
    && (result > 0 ==> size < |m| && (cnt > 0 ==> Count(Pieces(|m| - size) - 1) == result - 1))
    && Assembled(m, 0) == if result == 0 then Some(m[..size]) else Before(m[..size], Assembled(m, size))
  }

  lemma AtStart(m: seq<Byte>)
    requires m != []
    ensures Receiving(m, 0, 0, 1)
  {
    assert m[..0] == [];
    if Assembled(m, 0).Some? {
      assert [] + Assembled(m, 0).value == Assembled(m, 0).value;
    }
  }

  /** What taking the packet at `at` makes of the loop's state. */
  lemma TakeOn(m: seq<Byte>, at: nat, cnt: int, result: int)
    requires Receiving(m, at, cnt, result) && result > 0
    ensures var next, left := at + PieceLength(|m| - at), Count(Pieces(|m| - at) - 1);
      at < next <= at + MAX_DATA && (cnt > 0 ==> left == result - 1)
      && if left < 0 then Assembled(m, 0) == None else Receiving(m, next, cnt + 1, left)
  {
    var next, left := at + PieceLength(|m| - at), Count(Pieces(|m| - at) - 1);
    assert m[..at] + m[at..next] == m[..next];
    if left > 0 && Assembled(m, next).Some? {
      var more := Assembled(m, next).value;
      assert m[..at] + (m[at..next] + more) == m[..next] + more;
    }
  }

  /** The first `n` bytes of the message are in the buffer. */
  ghost predicate Holds(a: array<Byte>, n: nat, m: seq<Byte>)
    reads a
  {
    n <= |m| && n <= a.Length && a[..n] == m[..n]
  }

  /** The buffer sized from the first packet has room for it and for as many more as it says are left. */
  lemma RoomAtFirst(result: nat, total: nat)
    requires total > 0 && result == Count(Pieces(total) - 1)
    ensures PieceLength(total) + result * MAX_DATA <= (1 + result) * (PieceLength(total) + SOCKET_HEADER_LENGTH)
  {
    var n := PieceLength(total);
    if result > 0 {
      assert n == MAX_DATA;
    }
  }

  lemma PieceOn<T>(m: seq<T>, at: nat, n: nat)
    requires at + n <= |m|
    ensures m[..at] + m[at..at + n] == m[..at + n]
  {
  }

  method CopyTo(a: array<Byte>, at: nat, data: seq<Byte>)
    requires at + |data| <= a.Length
    modifies a
    ensures a[..at + |data|] == old(a[..at]) + data
  {
    var i := 0;
    while i < |data|
      invariant 0 <= i <= |data| && a[..at + i] == old(a[..at]) + data[..i]
    {
      a[at + i] := data[i];
      assert a[..at + i + 1] == a[..at + i] + [data[i]];
      i := i + 1;
    }
  }

  /** The first packet of what is left. */
  lemma FirstPacket(m: seq<Byte>, at: nat, rest: seq<Byte>)
    requires at < |m|
    ensures var s, n := PacketsFrom(m, at) + rest, PieceLength(|m| - at);
      && |s| >= SOCKET_HEADER_LENGTH + n && ShortAt(s, 2) == n && ShortAt(s, 4) == Count(Pieces(|m| - at) - 1)
      && s[SOCKET_HEADER_LENGTH..SOCKET_HEADER_LENGTH + n] == m[at..at + n]
      && s[SOCKET_HEADER_LENGTH + n..] == PacketsFrom(m, at + n) + rest
  {
    var n := PieceLength(|m| - at);
    PacketsStart(m, at, rest);
    PacketSays(m[at..at + n], Count(Pieces(|m| - at) - 1), PacketsFrom(m, at + n) + rest);
  }
}
