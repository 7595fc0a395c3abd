/** One local socket of the adb stream engine (adb/sockets.cpp), apart from its peer: the queue of bytes
    waiting for its fd, its flow-control credit and the fd events it has armed. */
module LocalSocket {
  import opened Bytes

  const INITIAL_DELAYED_ACK_BYTES: nat := 32 * 1024 * 1024

  /** What one adb_writev on the socket's fd returns: some bytes, EAGAIN, or zero or another error. */
  datatype WriteRc = Accepted(n: nat) | WouldBlock | Failed

  datatype Local = Local(
    closing: bool,
    writeError: bool,
    queue: seq<byte>,
    credit: Option<int>,  // available_send_bytes
    rd: bool,             // FDE_READ armed
    wr: bool)             // FDE_WRITE armed

  const FRESH := Local(false, false, [], None, false, false)

  /** adb_writev accepts at least one byte of a nonempty queue and no more than it was offered. */
  predicate ValidRc(queue: seq<byte>, rc: WriteRc) {
    queue != [] && rc.Accepted? ==> 0 < rc.n <= |queue|
  }

  function Queued(s: Local, data: seq<byte>): Local {
    s.(queue := s.queue + data)
  }

  predicate FdFull(s: Local) {
    s.queue != [] && !s.writeError
  }

  /** The outcome of local_socket_flush_incoming: `okay` is the byte count given to send_ready, if it is called;
      `destroyed` says that the socket was closing and is now to be closed for good. */
  datatype Flushed = Flushed(s: Local, wrote: seq<byte>, okay: Option<nat>, destroyed: bool)

  /** The socket after the write, and how many bytes that took. */
  function Written(s: Local, rc: WriteRc): (Local, nat)
    requires ValidRc(s.queue, rc)
  {
    var n := if s.queue != [] && rc.Accepted? then rc.n else 0;
    (s.(queue := s.queue[n..], writeError := s.writeError || (s.queue != [] && rc.Failed?)), n)
  }

  /** The call of send_ready for `n` bytes written with `left` still queued. */
  function Okay(s: Local, linked: bool, n: nat, left: nat): Option<nat> {
    if !linked then None
    else if s.credit.Some? then Some(AsUint32(n))
    else if n != 0 && left < MAX_PAYLOAD then Some(0)
    else None
  }

  function Flush(s: Local, linked: bool, rc: WriteRc): Flushed
    requires ValidRc(s.queue, rc)
  {
    var (s1, n) := Written(s, rc);
    var destroyed := s.closing && !FdFull(s1);
    Flushed(if destroyed then s1 else s1.(wr := FdFull(s1)), s.queue[..n], Okay(s, linked, n, |s1.queue|), destroyed)
  }

  /** What a flush means. It writes the bytes that the fd takes, from the front of the queue; it acknowledges them, with
      delayed acks by their number, and otherwise when it wrote some and less than a full payload is left; and a closing
      socket stays only while its fd has to take more. */
  lemma FlushTakes(s: Local, linked: bool, rc: WriteRc)
    requires ValidRc(s.queue, rc)
    ensures var f := Flush(s, linked, rc);
      && |f.wrote| == (if s.queue != [] && rc.Accepted? then rc.n else 0) && f.wrote + f.s.queue == s.queue
      && (f.s.writeError <==> s.writeError || (s.queue != [] && rc.Failed?))
      && (f.okay.Some? <==> linked && (s.credit.Some? || (f.wrote != [] && |f.s.queue| < 0x10_0000)))
      && (f.okay.Some? ==> f.okay.value == if s.credit.Some? then AsUint32(|f.wrote|) else 0)
      && (f.destroyed <==> s.closing && (f.s.queue == [] || f.s.writeError))
      && (!f.destroyed ==> (f.s.wr <==> f.s.queue != [] && !f.s.writeError))
      && f.s.rd == s.rd && f.s.credit == s.credit && f.s.closing == s.closing
  {
  }

  /** The credit and FDE_READ of a socket after local_socket_flush_outgoing passed on `n` bytes and the peer's enqueue
      returned `r`. */
  function Spent(s: Local, n: nat, r: int): Local {
    var credit := if s.credit.Some? then Some(s.credit.value - n) else None;
    s.(credit := credit, rd := if r > 0 then s.rd && credit.Some? && credit.value > 0 else s.rd)
  }

  /** A local peer once `data` was enqueued at it. */
  function Given(p: Local, data: seq<byte>, linked: bool, rc: WriteRc): Local
    requires data != [] ==> ValidRc(p.queue + data, rc)
  {
    if data == [] then p else Flush(Queued(p, data), linked, rc).s
  }

  /** What one adb_read returns: some bytes, EAGAIN, or zero or another error. */
  datatype ReadRc = Got(data: seq<byte>) | Again | Ended

  /** Results for the loop of local_socket_flush_outgoing, which reads as long as there is room. */
  predicate LegalReads(got: seq<ReadRc>, room: nat) {
    room > 0 ==>
      && got != []
      && (got[0].Got? ==> 0 < |got[0].data| <= room && LegalReads(got[1..], room - |got[0].data|))
  }

  /** What that loop has read, and whether it saw the end of the file. */
  function Drain(got: seq<ReadRc>, room: nat): (r: (seq<byte>, bool))
    requires LegalReads(got, room)
    ensures |r.0| <= room && (r.1 ==> |r.0| < room)
  {
    if room == 0 || got[0] == Again then ([], false)
    else if got[0] == Ended then ([], true)
    else
      var (more, eof) := Drain(got[1..], room - |got[0].data|);
      (got[0].data + more, eof)
  }

  /** The results of reads that give these bytes. */
  function Gots(pieces: seq<seq<byte>>): (got: seq<ReadRc>)
    ensures |got| == |pieces|
  {
    if pieces == [] then [] else [Got(pieces[0])] + Gots(pieces[1..])
  }

  lemma DrainCons(x: seq<byte>, got: seq<ReadRc>, room: nat)
    requires 0 < |x| <= room && LegalReads(got, room - |x|)
    ensures LegalReads([Got(x)] + got, room)
    ensures Drain([Got(x)] + got, room) == (x + Drain(got, room - |x|).0, Drain(got, room - |x|).1)
  {
    assert ([Got(x)] + got)[1..] == got;
  }

  /** Reads give their bytes in order, until there is no room left or nothing more to read; only an end that the loop
      comes to is seen. */
  lemma {:induction false} DrainReads(pieces: seq<seq<byte>>, rest: seq<ReadRc>, room: nat)
    requires (forall i | 0 <= i < |pieces| :: pieces[i] != []) && |Flatten(pieces)| <= room
    requires |Flatten(pieces)| < room ==> rest != [] && !rest[0].Got?
    ensures LegalReads(Gots(pieces) + rest, room)
    ensures Drain(Gots(pieces) + rest, room) == (Flatten(pieces), |Flatten(pieces)| < room && rest[0] == Ended)
  {
    if pieces == [] {
      assert Gots(pieces) + rest == rest;
    } else {
      var x, more := pieces[0], pieces[1..];
      assert Flatten(pieces) == x + Flatten(more);
      DrainReads(more, rest, room - |x|);
      DrainCons(x, Gots(more) + rest, room);
      ConcatAssociates([Got(x)], Gots(more), rest);
    }
  }

  /** Any bytes can be what the loop reads. */
  lemma ReadsThatGive(data: seq<byte>, eof: bool, room: nat) returns (got: seq<ReadRc>)
    requires |data| <= room && (eof ==> |data| < room)
    ensures LegalReads(got, room) && Drain(got, room) == (data, eof)
  {
    var pieces := if data == [] then [] else [data];
    var rest := if |data| == room then [] else [if eof then Ended else Again];
    FlattenOne(data);
    DrainReads(pieces, rest, room);
    got := Gots(pieces) + rest;
  }

  /** local_socket_ack. */
  function Acked(s: Local, ack: Option<nat>): Local {
    if s.credit.Some? != ack.Some? then s
    else if ack.Some? then
      var credit := s.credit.value + AsInt32(ack.value);
      s.(credit := Some(credit), rd := s.rd || credit > 0)
    else s.(rd := true)
  }

  /** An acknowledgement counts with its sign, wakes the socket once it has credit, and takes nothing else from it; one
      that the socket's mode does not expect is ignored. */
  lemma AckAdds(s: Local, ack: Option<nat>)
    requires ack.Some? ==> ack.value < 0x1_0000_0000
    ensures ack.Some? != s.credit.Some? ==> Acked(s, ack) == s
    ensures ack.None? && s.credit.None? ==> Acked(s, ack) == s.(rd := true)
    ensures ack.Some? && s.credit.Some? ==>
              var credit := s.credit.value + ack.value - if ack.value < 0x8000_0000 then 0 else 0x1_0000_0000;
              Acked(s, ack) == s.(credit := Some(credit), rd := s.rd || credit > 0)
  {
  }

  /** Whether local_socket_close frees the socket at once instead of leaving it on the closing list. */
  predicate ClosesNow(s: Local) {
    s.closing || s.writeError || s.queue == []
  }

  /** What every live socket satisfies between events. */
  predicate Settled(s: Local) {
    && !s.closing
    && s.wr == FdFull(s)
    && (s.rd && s.credit.Some? ==> s.credit.value > 0)
  }
}
