/** The message framing of fastboot/tcp.cpp: 8 bytes of big-endian length before each message. */
module TcpTransport {
  import opened Arithmetic
  import opened Bytes
  import opened TcpSocket

  const HEADER: nat := 8

  function Power256(i: nat): (p: nat)
    ensures p > 0
  {
    if i == 0 then 1 else 0x100 * Power256(i - 1)
  }

  /** The number that big-endian bytes stand for. */
  function Value(bytes: seq<byte>): nat {
    if bytes == [] then 0 else 0x100 * Value(bytes[..|bytes| - 1]) + bytes[|bytes| - 1] as int
  }

  /** The last `width` base-256 digits of a number. */
  function Digits(n: nat, width: nat): (bytes: seq<byte>)
    ensures |bytes| == width
  {
    if width == 0 then [] else Digits(n / 0x100, width - 1) + [n % 0x100]
  }

  /** Reading back what was written gives the number, exactly if it fits. */
  lemma {:induction false} ValueOfDigits(n: nat, width: nat)
    ensures Value(Digits(n, width)) <= n
    ensures Value(Digits(n, width)) == n <==> n < Power256(width)
    ensures Value(Digits(n, width)) < Power256(width)
  {
    if width > 0 {
      var bytes := Digits(n, width);
      assert bytes[..width - 1] == Digits(n / 0x100, width - 1);
      ValueOfDigits(n / 0x100, width - 1);
    }
  }

  /** Every header is the encoding of the number it stands for. */
  lemma {:induction false} DigitsOfValue(bytes: seq<byte>)
    ensures Digits(Value(bytes), |bytes|) == bytes
  {
    if bytes != [] {
      DigitsOfValue(bytes[..|bytes| - 1]);
      assert Value(bytes) / 0x100 == Value(bytes[..|bytes| - 1]);
      assert Value(bytes) % 0x100 == bytes[|bytes| - 1] as int;
    }
  }

  /** `n >> 8 * k`, truncated to a byte. */
  lemma {:induction false} DigitAt(n: nat, width: nat, i: nat)
    requires i < width
    ensures Digits(n, width)[i] == n / Power256(width - 1 - i) % 0x100
  {
    if i < width - 1 {
      DigitAt(n / 0x100, width - 1, i);
      DivTwice(n, 0x100, Power256(width - 2 - i));
    } else {
      assert Power256(0) == 1;
    }
  }

  /** EncodeMessageLength. */
  method EncodeMessageLength(length: nat, buffer: array<byte>)
    requires buffer.Length == HEADER
    modifies buffer
    ensures buffer[..] == Digits(length, HEADER)
  {
    for i := 0 to HEADER
      invariant forall j | 0 <= j < i :: buffer[j] == Digits(length, HEADER)[j]
    {
      DigitAt(length, HEADER, i);
      buffer[i] := length / Power256(HEADER - 1 - i) % 0x100;
    }
  }

  lemma ValueFits(buffer: seq<byte>)
    ensures Value(buffer) < Power256(|buffer|)
  {
    DigitsOfValue(buffer);
    ValueOfDigits(Value(buffer), |buffer|);
  }

  lemma ShiftIn(v: nat, b: nat, p: nat)
    ensures v * (0x100 * p) + b * p == (0x100 * v + b) * p
  {
  }

  lemma NextDigit(buffer: seq<byte>, i: nat)
    requires i < HEADER <= |buffer|
    ensures (buffer[i] as int) * Power256(HEADER - 1 - i) >= 0
    ensures Value(buffer[..i]) * Power256(HEADER - i) + (buffer[i] as int) * Power256(HEADER - 1 - i)
         == Value(buffer[..i + 1]) * Power256(HEADER - 1 - i)
  {
    assert buffer[..i + 1][..i] == buffer[..i];
    ShiftIn(Value(buffer[..i]), buffer[i] as int, Power256(HEADER - 1 - i));
  }

  /** ExtractMessageLength. The bytes are put in place from the most significant one on; no two of them share a bit, so
      that or-ing them is adding them. */
  method ExtractMessageLength(buffer: seq<byte>) returns (length: nat)
    requires |buffer| == HEADER
    ensures length == Value(buffer) < Power256(HEADER)
  {
    length := 0;
    for i := 0 to HEADER
      invariant length == Value(buffer[..i]) * Power256(HEADER - i)
    {
      NextDigit(buffer, i);
      length := length + (buffer[i] as int) * Power256(HEADER - 1 - i);
    }
    assert buffer[..HEADER] == buffer && Power256(0) == 1;
    ValueFits(buffer);
  }

  /** A message as it goes over the wire. */
  function Frame(message: seq<byte>): seq<byte> {
    Digits(|message|, HEADER) + message
  }

  lemma PowerOfHeader()
    ensures Power256(8) == 0x1_0000_0000_0000_0000
  {
    assert Power256(8) == 0x1_0000 * Power256(6) && Power256(6) == 0x1_0000 * Power256(4);
    assert Power256(4) == 0x1_0000 * Power256(2) && Power256(2) == 0x1_0000 * Power256(0);
  }

  /** Eight bytes with the length, then the message. */
  lemma FrameIs(message: seq<byte>)
    ensures |Frame(message)| == 8 + |message| && Frame(message)[8..] == message
    ensures Value(Frame(message)[..8]) == |message| <==> |message| < 0x1_0000_0000_0000_0000
  {
    assert Frame(message)[..8] == Digits(|message|, 8);
    ValueOfDigits(|message|, 8);
    PowerOfHeader();
  }

  function Frames(messages: seq<seq<byte>>): seq<byte> {
    if messages == [] then [] else Frame(messages[0]) + Frames(messages[1..])
  }

  lemma SameSplit(a: seq<byte>, b: seq<byte>, c: seq<byte>, d: seq<byte>)
    requires a + b == c + d && |a| == |c|
    ensures a == c && b == d
  {
    assert a == (a + b)[..|a|] && b == (a + b)[|a|..];
    assert c == (c + d)[..|a|] && d == (c + d)[|a|..];
  }

  lemma SameStart(a: seq<byte>, b: seq<byte>, c: seq<byte>, d: seq<byte>)
    requires a + b == c + d && |a| <= |c|
    ensures c == a + c[|a|..] && b == c[|a|..] + d
  {
    ConcatAssociates(c[..|a|], c[|a|..], d);
    assert c == c[..|a|] + c[|a|..];
    SameSplit(a, b, c[..|a|], c[|a|..] + d);
  }

  lemma FirstFrame(header: seq<byte>, behind: seq<byte>, messages: seq<seq<byte>>)
    requires messages != [] && |messages[0]| < Power256(HEADER)
    requires |header| == HEADER && header + behind == Frames(messages)
    ensures Value(header) == |messages[0]| && behind == messages[0] + Frames(messages[1..])
  {
    var m, rest := messages[0], Frames(messages[1..]);
    ValueOfDigits(|m|, HEADER);
    ConcatAssociates(Digits(|m|, HEADER), m, rest);
    SameSplit(header, behind, Digits(|m|, HEADER), m + rest);
  }

  ghost function Next(messages: seq<seq<byte>>): seq<byte> {
    if messages == [] then [] else messages[0]
  }

  /** One read moves bytes from what is still to come to what has been read. */
  lemma TookOn(pieces: seq<seq<byte>>, data: seq<byte>, before: seq<byte>, behind: seq<seq<byte>>,
               current: seq<byte>, messages: seq<seq<byte>>)
    requires data + current == (if before != [] then before else Next(behind))
    requires messages == if before != [] || behind == [] then behind else behind[1..]
    ensures Flatten(pieces + [data]) + (current + Flatten(messages)) == Flatten(pieces) + (before + Flatten(behind))
  {
    assert data + current + Flatten(messages) == before + Flatten(behind);
    FlattenSnoc(pieces, data);
    ConcatAssociates(data, current, Flatten(messages));
    ConcatAssociates(Flatten(pieces), data, current + Flatten(messages));
  }

  class TcpTransport {
    var socket: Socket?
    var messageBytesLeft: nat

    constructor (socket: Socket)
      ensures this.socket == socket && messageBytesLeft == 0
    {
      this.socket, messageBytesLeft := socket, 0;
    }

    /** The peer's stream is what is left of the current message, then whole messages. */
    ghost predicate Carries(current: seq<byte>, messages: seq<seq<byte>>)
      reads this, socket
    {
      && messageBytesLeft == |current|
      && (forall i | 0 <= i < |messages| :: |messages[i]| < Power256(HEADER))
      && (socket != null ==> socket.incoming == current + Frames(messages))
    }

    /** The length of the next message, unless one is being read. */
    method ReadLength(ghost current: seq<byte>, ghost messages: seq<seq<byte>>)
      returns (ok: bool, ghost current': seq<byte>, ghost messages': seq<seq<byte>>)
      requires socket != null && Carries(current, messages)
      modifies this, socket`incoming, socket`broken
      ensures ok ==> socket == old(socket) && Carries(current', messages')
      ensures ok ==> if current != [] then current' == current && messages' == messages
                     else messages != [] && current' == messages[0] && messages' == messages[1..]
      ensures !ok ==> socket == null
      ensures !ok && (current != [] || messages != []) ==> old(socket).broken
      ensures old(socket.broken) ==> old(socket).broken
    {
      current', messages' := current, messages;
      if messageBytesLeft == 0 {
        assert socket.incoming == Frames(messages);
        var buffer, r := socket.ReceiveAll(HEADER);
        if r != HEADER {
          socket := null;
          return false, current, messages;
        }
        messageBytesLeft := ExtractMessageLength(buffer);
        ghost var m := messages[0];
        FirstFrame(buffer, socket.incoming, messages);
        current', messages' := m, messages[1..];
      }
      ok := true;
    }

    /** The bytes of the message being read. */
    method ReadPart(wanted: nat, ghost message: seq<byte>, ghost messages: seq<seq<byte>>)
      returns (data: seq<byte>, r: int, ghost left: seq<byte>)
      requires socket != null && Carries(message, messages) && wanted <= messageBytesLeft
      modifies this, socket`incoming, socket`broken
      ensures r == -1 ==> socket == null && data == [] && old(socket).broken
      ensures r != -1 ==> socket == old(socket) && r == |data| <= wanted
      ensures r != -1 ==> Carries(left, messages) && message == data + left
      ensures old(socket.broken) ==> old(socket).broken
      ensures !old(socket).broken ==> r == wanted
    {
      data, r := socket.ReceiveAll(wanted);
      if r == -1 {
        socket := null;
        return [], -1, message;
      }
      SameStart(data, socket.incoming, message, Frames(messages));
      messageBytesLeft := messageBytesLeft - r;
      left := message[|data|..];
    }

    /** Read: at most `length` bytes, in order, of one message. */
    method Read(length: nat, ghost current: seq<byte>, ghost messages: seq<seq<byte>>)
      returns (data: seq<byte>, r: int, ghost current': seq<byte>, ghost messages': seq<seq<byte>>)
      requires Carries(current, messages)
      modifies this, if socket != null then {socket} else {}
      ensures r == -1 || r == |data| <= length
      ensures r == -1 ==> socket == null && data == []
      ensures r != -1 ==> socket == old(socket)
      ensures old(socket) != null ==> old(socket).wire == old(socket.wire)
      ensures r != -1 ==> Carries(current', messages')
      ensures r != -1 ==> var message := if current != [] then current else Next(messages);
        && message == data + current'
        && messages' == (if current != [] || messages == [] then messages else messages[1..])
      ensures old(socket) != null && old(socket.broken) ==> old(socket).broken
      ensures old(socket) != null && !old(socket).broken && (current != [] || messages != []) ==>
        r == Min(length, |if current != [] then current else messages[0]|)
    {
      data, current', messages' := [], current, messages;
      if socket == null {
        return [], -1, current, messages;
      }
      var ok;
      ok, current', messages' := ReadLength(current, messages);
      if !ok {
        return [], -1, current, messages;
      }
      ghost var message := current';
      data, r, current' := ReadPart(Min(length, messageBytesLeft), message, messages');
    }

    /** Successive reads of any sizes return the messages' bytes in order, without a gap. */
    method ReadMany(sizes: seq<nat>, ghost current: seq<byte>, ghost messages: seq<seq<byte>>)
      returns (pieces: seq<seq<byte>>, ok: bool, ghost current': seq<byte>, ghost messages': seq<seq<byte>>)
      requires messageBytesLeft == |current| && (socket != null ==> socket.incoming == current + Frames(messages))
      requires forall i | 0 <= i < |messages| :: |messages[i]| < 0x1_0000_0000_0000_0000
      modifies this, if socket != null then {socket} else {}
      ensures |pieces| <= |sizes| && forall i | 0 <= i < |pieces| :: |pieces[i]| <= sizes[i]
      ensures ok ==> |pieces| == |sizes| && Carries(current', messages')
      ensures ok ==> Flatten(pieces) + (current' + Flatten(messages')) == current + Flatten(messages)
      ensures Flatten(pieces) <= current + Flatten(messages)
    {
      pieces, current', messages' := [], current, messages;
      PowerOfHeader();
      assert Carries(current, messages);
      for i := 0 to |sizes|
        invariant |pieces| == i && forall j | 0 <= j < i :: |pieces[j]| <= sizes[j]
        invariant Carries(current', messages') && (socket == null || socket == old(socket))
        invariant Flatten(pieces) + (current' + Flatten(messages')) == current + Flatten(messages)
        invariant Flatten(pieces) <= current + Flatten(messages)
      {
        ghost var before, behind := current', messages';
        var data, r;
        data, r, current', messages' := Read(sizes[i], current', messages');
        if r == -1 {
          return pieces, false, current', messages';
        }
        TookOn(pieces, data, before, behind, current', messages');
        pieces := pieces + [data];
      }
      ok := true;
    }

    /** Write: sends the frame of the message. Of an empty message it would never return. */
    method Write(data: seq<byte>) returns (r: int)
      requires 0 < |data| < Power256(HEADER)
      modifies this, if socket != null then {socket} else {}
      ensures r == -1 || r == |data|
      ensures r != -1 ==> socket != null && socket == old(socket) && socket.wire == old(socket.wire) + Frame(data)
      ensures r == -1 ==> socket == null && (old(socket) != null ==> old(socket).broken)
      ensures r != -1 ==> socket.broken == old(socket.broken)
    {
      if socket == null {
        return -1;
      }
      var header := new byte[HEADER];
      EncodeMessageLength(|data|, header);
      FlattenOne(data);
      var sent := socket.Send([header[..], data]);
      if !sent {
        socket := null;
        return -1;
      }
      return |data|;
    }
  }

  /** What Write sends for an empty message is never sent to the end: the loop of Send goes on forever. */
  lemma EmptyWriteNeverEnds(sends: seq<nat>)
    requires IsSchedule([Digits(0, HEADER), []], sends)
    ensures AfterRounds([Digits(0, HEADER), []], sends) != []
  {
    NeverEnds([Digits(0, HEADER), []], sends);
  }
}
