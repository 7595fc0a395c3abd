/** Sending and receiving in fastboot/socket.cpp, for every way the kernel splits a transfer. */
module TcpSocket {
  import opened Bytes

  /** The adjustment of the buffers after `sent` bytes went out. */
  function Adjust(buffers: seq<seq<byte>>, sent: nat): seq<seq<byte>>
    requires sent <= |Flatten(buffers)|
    decreases |buffers|
  {
    if sent == 0 || buffers == [] then buffers
    else if |buffers[0]| > sent then [buffers[0][sent..]] + buffers[1..]
    else Adjust(buffers[1..], sent - |buffers[0]|)
  }

  /** A call that may block sends something unless there is nothing to send. */
  predicate Progress(buffers: seq<seq<byte>>, sent: nat) {
    sent <= |Flatten(buffers)| && (|Flatten(buffers)| > 0 ==> sent > 0)
  }

  lemma {:induction false} AdjustKeeps(buffers: seq<seq<byte>>, sent: nat)
    requires sent <= |Flatten(buffers)|
    ensures Flatten(buffers)[..sent] + Flatten(Adjust(buffers, sent)) == Flatten(buffers)
    decreases |buffers|
  {
    if sent == 0 || buffers == [] {
    } else if |buffers[0]| > sent {
      var rest := Adjust(buffers, sent);
      assert rest[1..] == buffers[1..];
      assert buffers[0] == buffers[0][..sent] + buffers[0][sent..];
    } else {
      AdjustKeeps(buffers[1..], sent - |buffers[0]|);
      assert Flatten(buffers)[..sent] == buffers[0] + Flatten(buffers[1..])[..sent - |buffers[0]|];
    }
  }

  predicate EndsEmpty(buffers: seq<seq<byte>>) {
    buffers != [] && buffers[|buffers| - 1] == []
  }

  /** Whether the last buffer is empty never changes, and if it is, the list never becomes empty. */
  lemma {:induction false} AdjustEnds(buffers: seq<seq<byte>>, sent: nat)
    requires sent <= |Flatten(buffers)|
    ensures EndsEmpty(buffers) ==> EndsEmpty(Adjust(buffers, sent))
    ensures !EndsEmpty(buffers) ==> !EndsEmpty(Adjust(buffers, sent))
    ensures !EndsEmpty(buffers) && buffers != [] ==> Flatten(buffers) != []
    ensures !EndsEmpty(buffers) && sent == |Flatten(buffers)| ==> Adjust(buffers, sent) == []
    decreases |buffers|
  {
    if buffers != [] {
      if |buffers| == 1 {
        FlattenOne(buffers[0]);
        assert Flatten(buffers) == buffers[0];
      } else {
        AdjustEnds(buffers[1..], if sent <= |buffers[0]| then 0 else sent - |buffers[0]|);
      }
    }
  }

  /** A number of rounds of Send's loop; [] stands for the loop's end. */
  predicate IsSchedule(buffers: seq<seq<byte>>, sends: seq<nat>)
    decreases |sends|
  {
    sends == [] || buffers == []
    || (Progress(buffers, sends[0]) && IsSchedule(Adjust(buffers, sends[0]), sends[1..]))
  }

  function AfterRounds(buffers: seq<seq<byte>>, sends: seq<nat>): seq<seq<byte>>
    requires IsSchedule(buffers, sends)
    decreases |sends|
  {
    if sends == [] || buffers == [] then buffers else AfterRounds(Adjust(buffers, sends[0]), sends[1..])
  }

  /** With an empty last buffer the loop goes on forever, whatever the kernel does. */
  lemma {:induction false} NeverEnds(buffers: seq<seq<byte>>, sends: seq<nat>)
    requires EndsEmpty(buffers) && IsSchedule(buffers, sends)
    ensures AfterRounds(buffers, sends) != []
    decreases |sends|
  {
    if sends != [] {
      AdjustEnds(buffers, sends[0]);
      NeverEnds(Adjust(buffers, sends[0]), sends[1..]);
    }
  }

  /** Otherwise it ends after at most as many rounds as there are bytes. */
  lemma {:induction false} EndsInTime(buffers: seq<seq<byte>>, sends: seq<nat>)
    requires !EndsEmpty(buffers) && IsSchedule(buffers, sends) && |sends| >= |Flatten(buffers)|
    ensures AfterRounds(buffers, sends) == []
    decreases |sends|
  {
    AdjustEnds(buffers, 0);
    if buffers != [] {
      AdjustEnds(buffers, sends[0]);
      AdjustKeeps(buffers, sends[0]);
      EndsInTime(Adjust(buffers, sends[0]), sends[1..]);
    }
  }

  /** Send of a list of buffers ends, for every schedule that is long enough, exactly if its last buffer has bytes. */
  lemma SendEndsIff(buffers: seq<seq<byte>>, sends: seq<nat>)
    requires IsSchedule(buffers, sends) && |sends| >= |Flatten(buffers)|
    ensures AfterRounds(buffers, sends) == [] <==> !EndsEmpty(buffers)
  {
    if EndsEmpty(buffers) {
      NeverEnds(buffers, sends);
    } else {
      EndsInTime(buffers, sends);
    }
  }

  /** Send of a single buffer: every further round starts at the front of it again. */
  function Emitted(data: seq<byte>, sends: seq<nat>): seq<byte> {
    if sends == [] then [] else data[..Min(sends[0], |data|)] + Emitted(data, sends[1..])
  }

  function Sum(sends: seq<nat>): nat {
    if sends == [] then 0 else sends[0] + Sum(sends[1..])
  }

  lemma {:induction false} OneMoreSend(data: seq<byte>, sends: seq<nat>, sent: nat)
    requires sent <= |data|
    ensures Emitted(data, sends + [sent]) == Emitted(data, sends) + data[..sent]
    ensures Sum(sends + [sent]) == Sum(sends) + sent
  {
    if sends == [] {
      assert [sent][1..] == [];
    } else {
      assert (sends + [sent])[1..] == sends[1..] + [sent];
      OneMoreSend(data, sends[1..], sent);
    }
  }

  /** It sends what it was given, for all data of a length, exactly if the kernel takes everything at once. */
  lemma SingleSendIff(length: nat, sends: seq<nat>)
    requires Sum(sends) == length && forall i | 0 <= i < |sends| :: sends[i] > 0
    ensures (forall data | |data| == length :: Emitted(data, sends) == data) <==> |sends| <= 1
  {
    if |sends| == 0 {
    } else if |sends| == 1 {
      assert sends[1..] == [] && Sum(sends) == sends[0];
      forall data | |data| == length ensures Emitted(data, sends) == data {
        assert Emitted(data, sends) == data[..length] + Emitted(data, sends[1..]);
      }
    } else {
      var n := sends[0];
      assert sends[1..] != [] && sends[1..][0] > 0 && n < length;
      var data := seq(length, i => if i == 0 then 1 else 0);
      var rest := Emitted(data, sends[1..]);
      assert rest[0] == data[0];
      assert Emitted(data, sends)[n] == 1;
    }
  }

  /** A connected socket: what went out, and what the peer will have sent before it disconnects. */
  class Socket {
    var wire: seq<byte>
    var incoming: seq<byte>
    ghost var broken: bool  // a timeout or an error has cut a transfer short

    constructor (incoming: seq<byte>)
      ensures wire == [] && this.incoming == incoming && !broken
    {
      wire, this.incoming, broken := [], incoming, false;
    }

    /** One call of the kernel's gathering send: any positive number of bytes if there are any, or an error. */
    method SendBuffers(buffers: seq<seq<byte>>) returns (sent: int)
      modifies this`wire, this`broken
      ensures broken <==> old(broken) || sent == -1
      ensures sent == -1 || (sent >= 0 && Progress(buffers, sent))
      ensures wire == if sent == -1 then old(wire) else old(wire) + Flatten(buffers)[..sent]
    {
      assert Progress(buffers, |Flatten(buffers)|);
      var n: nat :| n <= |Flatten(buffers)| && Progress(buffers, n);
      if * {
        broken := true;
        return -1;
      }
      wire := wire + Flatten(buffers)[..n];
      return n;
    }

    /** The loop that skips past the bytes just sent. */
    method Skip(buffers: seq<seq<byte>>, sent: nat) returns (rest: seq<seq<byte>>)
      requires sent <= |Flatten(buffers)|
      ensures rest == Adjust(buffers, sent)
    {
      var left, i := sent, 0;
      rest := buffers;
      while left > 0
        invariant 0 <= left && i <= |buffers| && rest == buffers[i..]
        invariant left <= |Flatten(rest)| && Adjust(rest, left) == Adjust(buffers, sent)
        decreases |buffers| - i
      {
        if |rest[0]| > left {
          rest := rest[0 := rest[0][left..]];
          return;
        }
        left := left - |rest[0]|;
        i := i + 1;
        rest := buffers[i..];
      }
    }

    /** Send of a list of buffers. A list that ends with an empty buffer is not for a method that returns. */
    method Send(buffers: seq<seq<byte>>) returns (ok: bool)
      requires !EndsEmpty(buffers)
      modifies this`wire, this`broken
      ensures if ok then broken == old(broken) else broken
      ensures ok ==> wire == old(wire) + Flatten(buffers)
      ensures old(wire) <= wire <= old(wire) + Flatten(buffers)
    {
      var left := buffers;
      ghost var out := [];
      while left != []
        invariant !EndsEmpty(left)
        invariant out + Flatten(left) == Flatten(buffers) && wire == old(wire) + out && broken == old(broken)
        decreases |Flatten(left)|
      {
        AdjustEnds(left, 0);
        var sent := SendBuffers(left);
        if sent == -1 {
          return false;
        }
        AdjustEnds(left, sent);
        AdjustKeeps(left, sent);
        ConcatAssociates(out, Flatten(left)[..sent], Flatten(Adjust(left, sent)));
        ConcatAssociates(old(wire), out, Flatten(left)[..sent]);
        out := out + Flatten(left)[..sent];
        left := Skip(left, sent);
      }
      return true;
    }

    /** Send of a single buffer. The kernel may take any positive part of it each time. */
    method SendData(data: seq<byte>) returns (ok: bool, ghost sends: seq<nat>)
      modifies this`wire, this`broken
      ensures if ok then broken == old(broken) else broken
      ensures wire == old(wire) + Emitted(data, sends) && forall i | 0 <= i < |sends| :: sends[i] > 0
      ensures ok ==> Sum(sends) == |data|
    {
      var length := |data|;
      sends := [];
      while length > 0
        invariant 0 <= length && Sum(sends) + length == |data| && forall i | 0 <= i < |sends| :: sends[i] > 0
        invariant wire == old(wire) + Emitted(data, sends) && broken == old(broken)
      {
        var sent: nat :| 0 < sent <= length;
        if * {
          broken := true;
          return false, sends;
        }
        OneMoreSend(data, sends, sent);
        ConcatAssociates(old(wire), Emitted(data, sends), data[..sent]);
        wire, length, sends := wire + data[..sent], length - sent, sends + [sent];
      }
      ok := true;
    }

    /** Receive: some of the bytes, or none after a timeout, an error or the peer's disconnect. */
    method Receive(length: nat) returns (data: seq<byte>)
      modifies this`incoming, this`broken
      ensures |data| <= length && old(incoming) == data + incoming
      ensures broken <==> old(broken) || (data == [] && length > 0 && incoming != [])
    {
      var n: nat :| n <= length && n <= |incoming|;
      broken := broken || (n == 0 && length > 0 && incoming != []);
      data, incoming := incoming[..n], incoming[n..];
    }

    /** ReceiveAll: -1 if nothing came though something was wanted, and otherwise the bytes in order. */
    method ReceiveAll(length: nat) returns (data: seq<byte>, r: int)
      modifies this`incoming, this`broken
      ensures |data| <= length && old(incoming) == data + incoming
      ensures old(broken) ==> broken
      ensures !broken ==> |data| == Min(length, |old(incoming)|)
      ensures r == if data == [] && length > 0 then -1 else |data|
    {
      data := [];
      while |data| < length
        invariant |data| <= length && old(incoming) == data + incoming && broken == old(broken)
      {
        var bytes := Receive(length - |data|);
        if bytes == [] {
          return data, if |data| == 0 then -1 else |data|;
        }
        ConcatAssociates(data, bytes, incoming);
        data := data + bytes;
      }
      r := |data|;
    }
  }
}
