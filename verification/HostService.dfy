/** parse_host_service of adb/sockets.cpp: splits a host service string into a serial and a command. */
module HostService {
  import opened Bytes

  /** OutOfBounds stands for an access past the end of an empty view. */
  datatype Outcome = Rejected | Parsed(serial: string, command: string) | OutOfBounds

  /** The first occurrence of a character from an index on. */
  function Find(s: string, c: char, from: nat): (at: Option<nat>)
    requires from <= |s|
    ensures at.Some? ==> from <= at.value < |s| && s[at.value] == c && forall i | from <= i < at.value :: s[i] != c
    ensures at == None ==> forall i | from <= i < |s| :: s[i] != c
    decreases |s| - from
  {
    if from == |s| then None else if s[from] == c then Some(from) else Find(s, c, from + 1)
  }

  lemma FindIs(s: string, c: char, from: nat, at: nat)
    requires from <= at < |s| && s[at] == c && forall i | from <= i < at :: s[i] != c
    ensures Find(s, c, from) == Some(at)
  {
  }

  predicate Digits(s: string) {
    forall i | 0 <= i < |s| :: '0' <= s[i] <= '9'
  }

  /** The prefixes, without their colons, that take everything up to the next colon as part of the serial. */
  const PREFIXES: seq<string> := ["usb", "product", "model", "device", "localfilesystem"]

  /** Whether a name and a colon are found at an index. */
  predicate NameAt(s: string, k: nat, name: string)
    requires k <= |s|
  {
    k + |name| < |s| && s[k..k + |name|] == name && s[k + |name|] == ':'
  }

  function PrefixLength(s: string, from: nat): (n: nat)
    requires from <= |PREFIXES|
    ensures n <= |s|
    decreases |PREFIXES| - from
  {
    if from == |PREFIXES| then 0
    else if NameAt(s, 0, PREFIXES[from]) then |PREFIXES[from]| + 1
    else PrefixLength(s, from + 1)
  }

  function AfterProtocol(s: string): (k: nat)
    ensures k <= |s|
  {
    if NameAt(s, 0, "tcp") || NameAt(s, 0, "udp") then 4 else 0
  }

  function AfterVsock(s: string, k: nat): (v: nat)
    requires k <= |s|
    ensures v <= |s|
  {
    if NameAt(s, k, "vsock") then k + 6 else k
  }

  function AfterAddress(s: string, k: nat): (a: Option<nat>)
    requires k < |s|
    ensures a.Some? ==> k < a.value <= |s| && s[a.value - 1] == ':'
  {
    var bracket := if s[k] == '[' then Find(s, ']', k) else None;
    match bracket
    case Some(e) => if e + 1 < |s| && s[e + 1] == ':' then Some(e + 2) else None
    case None =>
      match Find(s, ':', k)
      case Some(i) => Some(i + 1)
      case None => None
  }

  function AfterPort(s: string, k: nat): (p: nat)
    requires k <= |s|
    ensures k <= p <= |s| && (p > k ==> s[p - 1] == ':')
  {
    match Find(s, ':', k)
    case Some(i) => if Digits(s[k..i]) then i + 1 else k
    case None => k
  }

  /** The serial without its trailing colon, and the command, which must not be empty. */
  function Finish(s: string, k: nat): (o: Outcome)
    requires 0 < k <= |s| && s[k - 1] == ':'
    ensures o.Parsed? <==> k < |s|
    ensures o != OutOfBounds
  {
    if k == |s| then Rejected else Parsed(s[..k - 1], s[k..])
  }

  /** What follows a prefix of length `n`. */
  function ParsePrefixed(s: string, n: nat): (o: Outcome)
    requires n <= |s|
    ensures o != OutOfBounds
  {
    match Find(s, ':', n)
    case Some(i) => Finish(s, i + 1)
    case None => Rejected
  }

  /** What follows the protocol and "vsock:". */
  function ParseAddress(s: string, v: nat): (o: Outcome)
    requires v <= |s|
    ensures o == OutOfBounds <==> v == |s|
  {
    if v == |s| then OutOfBounds
    else
      match AfterAddress(s, v)
      case Some(a) => Finish(s, AfterPort(s, a))
      case None => Rejected
  }

  /** parse_host_service. */
  function Parse(s: string): Outcome {
    if s == "" then Rejected
    else if PrefixLength(s, 0) > 0 then ParsePrefixed(s, PrefixLength(s, 0))
    else if AfterProtocol(s) == |s| then Rejected
    else ParseAddress(s, AfterVsock(s, AfterProtocol(s)))
  }

  lemma FinishIsWhole(s: string, k: nat)
    requires 0 < k < |s| && s[k - 1] == ':'
    ensures s[..k - 1] + ":" + s[k..] == s
  {
  }

  /** Nothing of the input is lost or invented. */
  lemma LosesNothing(s: string)
    requires Parse(s).Parsed?
    ensures Parse(s).serial + ":" + Parse(s).command == s && Parse(s).command != ""
  {
    var k := |Parse(s).serial| + 1;
    FinishIsWhole(s, k);
  }

  lemma FindName(s: string, k: nat, name: string)
    requires k <= |s| && ':' !in name && NameAt(s, k, name)
    ensures k + |name| < |s| && Find(s, ':', k) == Some(k + |name|)
  {
    var t := s[k..];
    assert t[..|name|] == name && t[|name|] == ':';
    forall i | k <= i < k + |name| ensures s[i] != ':' {
      assert s[i] == name[i - k];
    }
    FindIs(s, ':', k, k + |name|);
  }

  /** Where one name is, no other is. */
  lemma OneName(s: string, k: nat, a: string, b: string)
    requires k <= |s| && ':' !in a && ':' !in b && NameAt(s, k, a)
    ensures NameAt(s, k, b) <==> a == b
  {
    if NameAt(s, k, b) {
      FindName(s, k, a);
      FindName(s, k, b);
      assert s[k..][..|a|] == a && s[k..][..|b|] == b;
    }
  }

  lemma {:induction false} StartsWithPrefix(s: string, name: string, from: nat)
    requires from <= |PREFIXES| && ':' !in name && NameAt(s, 0, name) && name !in PREFIXES
    ensures PrefixLength(s, from) == 0
    decreases |PREFIXES| - from
  {
    if from < |PREFIXES| {
      assert PREFIXES[from] in PREFIXES;
      OneName(s, 0, name, PREFIXES[from]);
      StartsWithPrefix(s, name, from + 1);
    }
  }

  /** A string that starts with a name. */
  lemma Starts(s: string, name: string)
    requires ':' !in name && NameAt(s, 0, name)
    ensures name !in PREFIXES ==> PrefixLength(s, 0) == 0
    ensures AfterProtocol(s) == if name == "tcp" || name == "udp" then 4 else 0
    ensures AfterVsock(s, 0) == if name == "vsock" then 6 else 0
  {
    OneName(s, 0, name, "tcp");
    OneName(s, 0, name, "udp");
    OneName(s, 0, name, "vsock");
    if name !in PREFIXES {
      StartsWithPrefix(s, name, 0);
    }
  }

  predicate Protocol(p: string) {
    p == "tcp:" || p == "udp:"
  }

  lemma NameStarts(s: string, name: string)
    requires NameAt(s, 0, name)
    ensures |name| < |s| && s[..|name| + 1] == name + ":"
  {
    assert s[0..] == s;
  }

  lemma NameEnds(s: string, k: nat, name: string)
    requires k <= |s| && NameAt(s, k, name) && |s| == k + |name| + 1
    ensures s == s[..k] + (name + ":")
  {
    assert s[k..] == name + ":";
  }

  lemma ProtocolIs(s: string)
    ensures var k := AfterProtocol(s); k == 0 || Protocol(s[..k])
  {
    if AfterProtocol(s) != 0 {
      NameStarts(s, if NameAt(s, 0, "tcp") then "tcp" else "udp");
      assert "tcp" + ":" == "tcp:" && "udp" + ":" == "udp:";
    }
  }

  lemma OutOfBoundsOnly(s: string)
    requires Parse(s) == OutOfBounds
    ensures s == "vsock:" || s == "tcp:vsock:" || s == "udp:vsock:"
  {
    var k := AfterProtocol(s);
    assert NameAt(s, k, "vsock") && |s| == k + 6;
    NameEnds(s, k, "vsock");
    ProtocolIs(s);
    assert "vsock" + ":" == "vsock:" && s == s[..k] + "vsock:";
    if k == 0 {
      assert s[..k] == "";
    } else {
      assert "tcp:" + "vsock:" == "tcp:vsock:" && "udp:" + "vsock:" == "udp:vsock:";
    }
  }

  lemma NameThenVsock(s: string, name: string)
    requires s == name + ":" + "vsock:"
    ensures NameAt(s, 0, name) && |s| == |name| + 7 && NameAt(s, |name| + 1, "vsock")
  {
    assert s[0..] == s && s[|name| + 1..] == "vsock:" == "vsock" + ":";
  }

  lemma OutOfBoundsAfter(p: string)
    requires Protocol(p)
    ensures Parse(p + "vsock:") == OutOfBounds
  {
    var name := if p == "tcp:" then "tcp" else "udp";
    assert name + ":" == p;
    NameThenVsock(p + "vsock:", name);
    Starts(p + "vsock:", name);
  }

  /** The one access out of bounds is behind "vsock:" with nothing after it. */
  lemma OutOfBoundsIff(s: string)
    ensures Parse(s) == OutOfBounds
      <==> s == "vsock:" || s == "tcp:vsock:" || s == "udp:vsock:"
  {
    if Parse(s) == OutOfBounds {
      OutOfBoundsOnly(s);
    }
    if s == "vsock:" {
      assert s[0..] == s;
      Starts(s, "vsock");
    }
    assert "tcp:" + "vsock:" == "tcp:vsock:" && "udp:" + "vsock:" == "udp:vsock:";
    OutOfBoundsAfter("tcp:");
    OutOfBoundsAfter("udp:");
  }

  /** A host with what follows its colon: without colons, in brackets, or after a bracket that nothing closes. */
  predicate Host(h: string, behind: string) {
    || (':' !in h && (h == "" || h[0] != '['))
    || (|h| >= 2 && h[0] == '[' && h[|h| - 1] == ']' && ']' !in h[1..|h| - 1])
    || (h != "" && h[0] == '[' && ':' !in h && ']' !in h + behind)
  }

  /** What a host may not be called, because it would be read as something else. */
  const RESERVED: set<string> := {"usb", "product", "model", "device", "localfilesystem", "tcp", "udp", "vsock"}

  /** An address: an optional protocol and an optional "vsock:" before a host. */
  predicate Address(protocol: string, vsock: string, host: string, behind: string) {
    && (protocol == "" || Protocol(protocol)) && (vsock == "" || vsock == "vsock:") && Host(host, behind)
    && (vsock == "" ==> if protocol == "" then host !in RESERVED else host != "vsock")
  }

  lemma UnclosedIsFound(s: string, k: nat, host: string)
    requires k <= |s| && NameAt(s, k, host) && host != "" && host[0] == '[' && ':' !in host
    requires ']' !in host + s[k + |host| + 1..]
    ensures k < |s| && AfterAddress(s, k) == Some(k + |host| + 1)
  {
    var t, behind := s[k..k + |host|], s[k + |host| + 1..];
    forall i | k <= i < |s| ensures s[i] != ']' {
      var end := k + |host|;
      assert s[i] == if i < end then host[i - k] else if i == end then ':' else behind[i - end - 1];
    }
    assert Find(s, ']', k) == None;
    FindName(s, k, host);
  }

  lemma HostIsFound(s: string, k: nat, host: string)
    requires k <= |s| && NameAt(s, k, host) && Host(host, s[k + |host| + 1..])
    ensures k < |s| && AfterAddress(s, k) == Some(k + |host| + 1)
  {
    var t := s[k..k + |host|];
    if ':' !in host && (host == "" || host[0] != '[') {
      FindName(s, k, host);
      assert s[k] != '[';
    } else if |host| >= 2 && host[|host| - 1] == ']' && ']' !in host[1..|host| - 1] {
      forall i | k <= i < k + |host| - 1 ensures s[i] != ']' {
        assert s[i] == host[i - k];
        assert i > k ==> s[i] == host[1..|host| - 1][i - k - 1];
      }
      assert s[k] == host[0] && s[k + |host| - 1] == host[|host| - 1];
      FindIs(s, ']', k, k + |host| - 1);
    } else {
      UnclosedIsFound(s, k, host);
    }
  }

  /** A host is not taken for a name it is not. */
  lemma NotAName(s: string, k: nat, host: string, behind: string, name: string)
    requires k <= |s| && Host(host, behind) && NameAt(s, k, host)
    requires name != host && name != "" && name[0] != '[' && ':' !in name
    ensures !NameAt(s, k, name)
  {
    if NameAt(s, k, name) {
      assert s[k] == name[0];
      assert host != "" ==> s[k] == host[0];
      OneName(s, k, name, host);
    }
  }

  /** Where the parts of an address are in a string. */
  predicate Starting(s: string, protocol: string, vsock: string, host: string) {
    protocol <= s && vsock <= s[|protocol|..] && NameAt(s, |protocol| + |vsock|, host)
  }

  lemma Concatenated(protocol: string, vsock: string, host: string, rest: string)
    ensures var s, serial := protocol + vsock + host + ":" + rest, protocol + vsock + host;
      Starting(s, protocol, vsock, host) && s[..|serial|] == serial && s[|serial|] == ':' && s[|serial| + 1..] == rest
  {
    var s, serial := protocol + vsock + host + ":" + rest, protocol + vsock + host;
    assert s == protocol + (vsock + (host + ":" + rest));
    assert s[|protocol|..] == vsock + (host + ":" + rest);
    assert s[|protocol|..][|vsock|..] == host + ":" + rest;
    assert s == serial + (":" + rest);
  }

  lemma {:induction false} NoPrefix(s: string, host: string, behind: string, from: nat)
    requires from <= |PREFIXES| && Host(host, behind) && NameAt(s, 0, host) && host !in RESERVED
    ensures PrefixLength(s, from) == 0
    decreases |PREFIXES| - from
  {
    if from < |PREFIXES| {
      assert PREFIXES[from] in RESERVED;
      NotAName(s, 0, host, behind, PREFIXES[from]);
      NoPrefix(s, host, behind, from + 1);
    }
  }

  lemma PassesProtocol(s: string, protocol: string, vsock: string, host: string, behind: string)
    requires Address(protocol, vsock, host, behind) && Starting(s, protocol, vsock, host)
    ensures PrefixLength(s, 0) == 0 && AfterProtocol(s) == |protocol|
  {
    assert s[0..] == s;
    if protocol != "" {
      Starts(s, if protocol == "tcp:" then "tcp" else "udp");
    } else if vsock != "" {
      assert NameAt(s, 0, "vsock");
      Starts(s, "vsock");
    } else {
      NotAName(s, 0, host, behind, "tcp");
      NotAName(s, 0, host, behind, "udp");
      NoPrefix(s, host, behind, 0);
    }
  }

  lemma PassesVsock(s: string, k: nat, vsock: string, host: string, behind: string)
    requires k <= |s| && vsock <= s[k..] && NameAt(s, k + |vsock|, host) && Host(host, behind)
    requires vsock == "vsock:" || (vsock == "" && host != "vsock")
    ensures AfterVsock(s, k) == k + |vsock|
  {
    if vsock == "" {
      NotAName(s, k, host, behind, "vsock");
    } else {
      assert "vsock" + ":" == "vsock:" && NameAt(s, k, "vsock");
    }
  }

  lemma ParseIsAddress(s: string)
    requires PrefixLength(s, 0) == 0 && AfterProtocol(s) < |s|
    ensures Parse(s) == ParseAddress(s, AfterVsock(s, AfterProtocol(s)))
  {
  }

  lemma AddressIsFinished(s: string, v: nat, a: nat)
    requires v < |s| && AfterAddress(s, v) == Some(a)
    ensures ParseAddress(s, v) == Finish(s, AfterPort(s, a))
  {
  }

  lemma PassesHost(s: string, v: nat, a: nat, host: string, behind: string)
    requires a == v + |host| + 1 <= |s| && NameAt(s, v, host) && Host(host, behind) && behind == s[a..]
    ensures ParseAddress(s, v) == Finish(s, AfterPort(s, a))
  {
    HostIsFound(s, v, host);
    AddressIsFinished(s, v, a);
  }

  lemma PassesNames(s: string, protocol: string, vsock: string, host: string, behind: string, o: Outcome)
    requires Address(protocol, vsock, host, behind) && Starting(s, protocol, vsock, host)
    requires ParseAddress(s, |protocol| + |vsock|) == o
    ensures Parse(s) == o
  {
    PassesProtocol(s, protocol, vsock, host, behind);
    PassesVsock(s, |protocol|, vsock, host, behind);
    ParseIsAddress(s);
  }

  lemma AddressHas(s: string, protocol: string, vsock: string, host: string, behind: string)
    requires Address(protocol, vsock, host, behind) && Starting(s, protocol, vsock, host)
    ensures |protocol| + |vsock| <= |s| && NameAt(s, |protocol| + |vsock|, host) && Host(host, behind)
  {
  }

  /** The protocol, "vsock:" and the host are passed over. */
  lemma PassesAddress(s: string, protocol: string, vsock: string, host: string, a: nat, o: Outcome)
    requires a == |protocol| + |vsock| + |host| + 1 <= |s|
    requires Address(protocol, vsock, host, s[a..]) && Starting(s, protocol, vsock, host)
    requires s[a - 1] == ':' && o == Finish(s, AfterPort(s, a))
    ensures Parse(s) == o
  {
    AddressHas(s, protocol, vsock, host, s[a..]);
    PassesHost(s, |protocol| + |vsock|, a, host, s[a..]);
    PassesNames(s, protocol, vsock, host, s[a..], o);
  }

  lemma PortIsFound(s: string, a: nat, port: string, command: string)
    requires a <= |s| && Digits(port) && s[a..] == port + ":" + command
    ensures AfterPort(s, a) == a + |port| + 1 <= |s|
    ensures s[a..a + |port|] == port && s[a + |port| + 1..] == command
  {
    FindName(s, a, port);
    assert s[a..a + |port|] == s[a..][..|port|];
    assert s[a + |port| + 1..] == s[a..][|port| + 1..];
  }

  lemma PortFrom(s: string, serial: string, port: string, command: string, o: Outcome)
    requires |s| > |serial| && s[..|serial|] == serial && s[|serial|] == ':'
    requires s[|serial| + 1..] == port + ":" + command && Digits(port) && command != ""
    requires o == Finish(s, AfterPort(s, |serial| + 1))
    ensures o == Parsed(serial + ":" + port, command)
  {
    var a := |serial| + 1;
    PortIsFound(s, a, port, command);
    assert s[..a + |port|] == s[..a - 1] + [s[a - 1]] + s[a..a + |port|];
  }

  lemma PortAt(s: string, protocol: string, vsock: string, host: string, serial: string, port: string, command: string)
    requires Address(protocol, vsock, host, port + ":" + command) && Digits(port) && command != ""
    requires Starting(s, protocol, vsock, host) && |serial| == |protocol| + |vsock| + |host|
    requires |s| > |serial| && s[|serial|] == ':' && s[..|serial|] == serial
    requires s[|serial| + 1..] == port + ":" + command
    ensures Parse(s) == Parsed(serial + ":" + port, command)
  {
    var o := Finish(s, AfterPort(s, |serial| + 1));
    PortFrom(s, serial, port, command, o);
    PassesAddress(s, protocol, vsock, host, |serial| + 1, o);
  }

  /** An address, a numeric port and a command. */
  lemma ParsesPort(protocol: string, vsock: string, host: string, port: string, command: string)
    requires Address(protocol, vsock, host, port + ":" + command) && Digits(port) && command != ""
    ensures Parse(protocol + vsock + host + ":" + (port + ":" + command))
         == Parsed(protocol + vsock + host + ":" + port, command)
  {
    var serial, rest := protocol + vsock + host, port + ":" + command;
    Concatenated(protocol, vsock, host, rest);
    PortAt(serial + ":" + rest, protocol, vsock, host, serial, port, command);
  }

  /** Whether a command would be read as a port and a command. */
  predicate PortLike(command: string) {
    var i := Find(command, ':', 0);
    i.Some? && Digits(command[..i.value])
  }

  lemma FinishesAt(s: string, a: nat, p: nat, serial: string, command: string)
    requires 0 < a <= p <= |s| && s[p - 1] == ':' && command != ""
    requires s[..a - 1] == serial && s[a..] == command
    ensures Finish(s, p) == Parsed(serial, command) <==> p == a
  {
    if Finish(s, p) == Parsed(serial, command) {
      assert |s[p..]| == |s| - p;
    }
  }

  lemma FindShifted(s: string, a: nat, tail: string)
    requires a <= |s| && s[a..] == tail
    ensures Find(tail, ':', 0).Some? ==> Find(s, ':', a) == Some(a + Find(tail, ':', 0).value)
    ensures Find(tail, ':', 0) == None ==> Find(s, ':', a) == None
  {
    assert forall i | a <= i < |s| :: s[i] == tail[i - a];
    if Find(tail, ':', 0).Some? {
      FindIs(s, ':', a, a + Find(tail, ':', 0).value);
    }
  }

  lemma NoPortIff(s: string, a: nat, command: string)
    requires 0 < a <= |s| && s[a..] == command
    ensures AfterPort(s, a) == a <==> !PortLike(command)
  {
    FindShifted(s, a, command);
    var i := Find(command, ':', 0);
    if i.Some? {
      assert s[a..a + i.value] == command[..i.value];
    }
  }

  lemma NoPortFrom(s: string, serial: string, command: string, o: Outcome)
    requires |s| > |serial| && s[..|serial|] == serial && s[|serial| + 1..] == command && s[|serial|] == ':'
    requires command != "" && o == Finish(s, AfterPort(s, |serial| + 1))
    ensures o == Parsed(serial, command) <==> !PortLike(command)
  {
    NoPortIff(s, |serial| + 1, command);
    FinishesAt(s, |serial| + 1, AfterPort(s, |serial| + 1), serial, command);
  }

  lemma NoPortAt(s: string, protocol: string, vsock: string, host: string, serial: string, command: string)
    requires Address(protocol, vsock, host, command) && command != ""
    requires Starting(s, protocol, vsock, host) && |serial| == |protocol| + |vsock| + |host|
    requires |s| > |serial| && s[|serial|] == ':' && s[..|serial|] == serial && s[|serial| + 1..] == command
    ensures Parse(s) == Parsed(serial, command) <==> !PortLike(command)
  {
    var o := Finish(s, AfterPort(s, |serial| + 1));
    NoPortFrom(s, serial, command, o);
    PassesAddress(s, protocol, vsock, host, |serial| + 1, o);
  }

  /** An address and a command, which may have colons of its own: without a port exactly if it is not like one. */
  lemma ParsesNoPortIff(protocol: string, vsock: string, host: string, command: string)
    requires Address(protocol, vsock, host, command) && command != ""
    ensures Parse(protocol + vsock + host + ":" + command) == Parsed(protocol + vsock + host, command)
      <==> !PortLike(command)
  {
    var serial := protocol + vsock + host;
    Concatenated(protocol, vsock, host, command);
    NoPortAt(serial + ":" + command, protocol, vsock, host, serial, command);
  }

  lemma PrefixParts(prefix: string, name: string, command: string)
    ensures var serial := prefix + ":" + name;
      var s := serial + ":" + command;
      && NameAt(s, 0, prefix) && s[|prefix| + 1..] == name + ":" + command
      && s[..|serial|] == serial && s[|serial| + 1..] == command
  {
    var s := prefix + ":" + name + ":" + command;
    assert s[0..] == s == prefix + ":" + (name + ":" + command);
  }

  lemma PrefixedAt(s: string, n: nat, serial: string, name: string, command: string)
    requires n + |name| == |serial| < |s| && s[n..] == name + ":" + command && ':' !in name && command != ""
    requires s[..|serial|] == serial && s[|serial| + 1..] == command
    ensures ParsePrefixed(s, n) == Parsed(serial, command)
  {
    FindName(s, n, name);
  }

  lemma {:induction false} PrefixIsFound(s: string, prefix: string, from: nat)
    requires from <= |PREFIXES| && prefix in PREFIXES[from..] && NameAt(s, 0, prefix)
    ensures PrefixLength(s, from) == |prefix| + 1
    decreases |PREFIXES| - from
  {
    assert prefix in PREFIXES && ':' !in prefix && ':' !in PREFIXES[from];
    OneName(s, 0, prefix, PREFIXES[from]);
    if prefix != PREFIXES[from] {
      assert PREFIXES[from..][1..] == PREFIXES[from + 1..];
      PrefixIsFound(s, prefix, from + 1);
    }
  }

  /** One of the five prefixes, a name and a command, whatever the command looks like. */
  lemma ParsesPrefix(prefix: string, name: string, command: string)
    requires prefix in {"usb", "product", "model", "device", "localfilesystem"} && ':' !in name && command != ""
    ensures Parse(prefix + ":" + name + ":" + command) == Parsed(prefix + ":" + name, command)
  {
    var serial := prefix + ":" + name;
    var s := serial + ":" + command;
    assert PREFIXES[0] == "usb" && PREFIXES[1] == "product" && PREFIXES[2] == "model" && PREFIXES[3] == "device";
    assert PREFIXES[4] == "localfilesystem" && prefix in PREFIXES;
    PrefixParts(prefix, name, command);
    PrefixIsFound(s, prefix, 0);
    PrefixedAt(s, |prefix| + 1, serial, name, command);
  }

  // ---- Everything that is accepted ----

  lemma DigitsAre(s: string)
    ensures Digits(s) <==> forall i | 0 <= i < |s| :: s[i] in "0123456789"
  {
    var digits := "0123456789";
    forall i | 0 <= i < |s| ensures '0' <= s[i] <= '9' <==> s[i] in digits {
      if '0' <= s[i] <= '9' {
        assert digits[s[i] as int - '0' as int] == s[i];
      }
    }
  }

  predicate ByPrefix(serial: string, prefix: string, name: string) {
    && prefix in {"usb", "product", "model", "device", "localfilesystem"} && ':' !in name
    && serial == prefix + ":" + name
  }

  predicate ByAddress(serial: string, protocol: string, vsock: string, host: string, command: string) {
    Address(protocol, vsock, host, command) && !PortLike(command) && serial == protocol + vsock + host
  }

  predicate ByPort(serial: string, protocol: string, vsock: string, host: string, port: string, command: string) {
    && Address(protocol, vsock, host, port + ":" + command) && Digits(port)
    && serial == protocol + vsock + host + ":" + port
  }

  /** The three forms of a serial before a command. */
  ghost predicate Grammatical(serial: string, command: string) {
    && command != ""
    && (|| (exists prefix, name :: ByPrefix(serial, prefix, name))
        || (exists protocol, vsock, host :: ByAddress(serial, protocol, vsock, host, command))
        || (exists protocol, vsock, host, port :: ByPort(serial, protocol, vsock, host, port, command)))
  }

  lemma IsGrammatical(serial: string, protocol: string, vsock: string, host: string, port: string, command: string)
    requires command != ""
    requires ByAddress(serial, protocol, vsock, host, command) || ByPort(serial, protocol, vsock, host, port, command)
    ensures Grammatical(serial, command)
  {
  }

  lemma Regroup(address: string, port: string, command: string)
    ensures address + ":" + port + ":" + command == address + ":" + (port + ":" + command)
  {
  }

  lemma GrammaticalParses(serial: string, command: string)
    requires Grammatical(serial, command)
    ensures Parse(serial + ":" + command) == Parsed(serial, command)
  {
    if prefix, name :| ByPrefix(serial, prefix, name) {
      ParsesPrefix(prefix, name, command);
    } else if protocol, vsock, host :| ByAddress(serial, protocol, vsock, host, command) {
      ParsesNoPortIff(protocol, vsock, host, command);
    } else {
      var protocol, vsock, host, port :| ByPort(serial, protocol, vsock, host, port, command);
      ParsesPort(protocol, vsock, host, port, command);
      Regroup(protocol + vsock + host, port, command);
    }
  }

  lemma {:induction false} PrefixIs(s: string, from: nat) returns (prefix: string)
    requires from <= |PREFIXES| && PrefixLength(s, from) > 0
    ensures prefix in PREFIXES && NameAt(s, 0, prefix) && PrefixLength(s, from) == |prefix| + 1
    decreases |PREFIXES| - from
  {
    if NameAt(s, 0, PREFIXES[from]) {
      prefix := PREFIXES[from];
    } else {
      prefix := PrefixIs(s, from + 1);
    }
  }

  lemma PrefixedIs(s: string, serial: string, command: string)
    requires PrefixLength(s, 0) > 0 && Parse(s) == Parsed(serial, command)
    ensures exists prefix, name :: ByPrefix(serial, prefix, name)
  {
    var prefix := PrefixIs(s, 0);
    NameStarts(s, prefix);
    var n := |prefix| + 1;
    var name := s[n..|serial|];
    assert serial == s[..n] + name;
    assert ByPrefix(serial, prefix, name);
  }

  lemma HostIs(s: string, v: nat, a: nat)
    requires v < |s| && AfterAddress(s, v) == Some(a)
    ensures Host(s[v..a - 1], s[a..])
  {
    var host, behind := s[v..a - 1], s[a..];
    var e := if s[v] == '[' then Find(s, ']', v) else None;
    if e.Some? {
      var inner := host[1..|host| - 1];
      assert host[|host| - 1] == ']' && forall i | 0 <= i < |inner| :: inner[i] == s[v + 1 + i];
    } else {
      assert forall i | 0 <= i < |host| :: host[i] == s[v + i];
      assert s[v] == '[' ==> forall i | 0 <= i < |behind| :: behind[i] == s[a + i];
    }
  }

  /** A reserved name would have been read as what it is. */
  lemma NotReserved(s: string, k: nat, host: string)
    requires k == AfterProtocol(s) && AfterVsock(s, k) == k && PrefixLength(s, 0) == 0 && NameAt(s, k, host)
    ensures if k == 0 then host !in RESERVED else host != "vsock"
  {
    assert PREFIXES[0] == "usb" && PREFIXES[1] == "product" && PREFIXES[2] == "model" && PREFIXES[3] == "device";
    assert PREFIXES[4] == "localfilesystem";
    if k == 0 && host in PREFIXES {
      assert PREFIXES[0..] == PREFIXES;
      PrefixIsFound(s, host, 0);
    }
  }

  lemma VsockIs(s: string, k: nat)
    requires k <= |s|
    ensures var v := AfterVsock(s, k); v == k || (v == k + 6 && s[k..v] == "vsock:")
  {
    if AfterVsock(s, k) != k {
      assert "vsock" + ":" == "vsock:" && s[k..k + 6] == s[k..][..6];
    }
  }

  lemma HostNotReserved(s: string, k: nat, a: nat)
    requires k == AfterProtocol(s) < |s| && AfterVsock(s, k) == k && PrefixLength(s, 0) == 0
    requires AfterAddress(s, k) == Some(a)
    ensures if k == 0 then s[k..a - 1] !in RESERVED else s[k..a - 1] != "vsock"
  {
    var host := s[k..a - 1];
    assert |host| == a - 1 - k && s[k + |host|] == ':';
    NotReserved(s, k, host);
  }

  lemma IsAddress(s: string, k: nat, v: nat, a: nat)
    requires k <= v < a <= |s| && (k == 0 || Protocol(s[..k])) && (v == k || s[k..v] == "vsock:")
    requires Host(s[v..a - 1], s[a..])
    requires v == k ==> if k == 0 then s[v..a - 1] !in RESERVED else s[v..a - 1] != "vsock"
    ensures Address(s[..k], s[k..v], s[v..a - 1], s[a..])
  {
    assert |s[..k]| == k && |s[k..v]| == v - k;
  }

  /** What the parser passes over is an address. */
  lemma AddressIs(s: string, k: nat, v: nat, a: nat)
    requires PrefixLength(s, 0) == 0 && k == AfterProtocol(s) && v == AfterVsock(s, k) < |s|
    requires AfterAddress(s, v) == Some(a)
    ensures k <= v < a <= |s| && Address(s[..k], s[k..v], s[v..a - 1], s[a..])
  {
    ProtocolIs(s);
    VsockIs(s, k);
    HostIs(s, v, a);
    if v == k {
      HostNotReserved(s, k, a);
    }
    IsAddress(s, k, v, a);
  }

  lemma Parts(s: string, k: nat, v: nat, a: nat)
    requires k <= v < a <= |s| && s[a - 1] == ':'
    ensures s[..a - 1] == s[..k] + s[k..v] + s[v..a - 1]
  {
  }

  lemma PortParts(s: string, a: nat, p: nat)
    requires 0 < a < p <= |s| && s[a - 1] == ':' == s[p - 1]
    ensures s[a..] == s[a..p - 1] + ":" + s[p..] && s[..p - 1] == s[..a - 1] + ":" + s[a..p - 1]
  {
  }

  lemma WithoutPort(s: string, k: nat, v: nat, a: nat)
    requires k <= v < a <= |s| && s[a - 1] == ':' && Address(s[..k], s[k..v], s[v..a - 1], s[a..])
    requires AfterPort(s, a) == a
    ensures ByAddress(s[..a - 1], s[..k], s[k..v], s[v..a - 1], s[a..])
  {
    NoPortIff(s, a, s[a..]);
    Parts(s, k, v, a);
  }

  lemma WithPort(s: string, k: nat, v: nat, a: nat) returns (port: string)
    requires k <= v < a <= |s| && s[a - 1] == ':' && Address(s[..k], s[k..v], s[v..a - 1], s[a..])
    requires AfterPort(s, a) != a
    ensures var p := AfterPort(s, a); ByPort(s[..p - 1], s[..k], s[k..v], s[v..a - 1], port, s[p..])
  {
    var p := AfterPort(s, a);
    port := s[a..p - 1];
    PortParts(s, a, p);
    Parts(s, k, v, a);
  }

  /** Where the parser ends. */
  lemma EndIs(s: string, serial: string, command: string) returns (k: nat, v: nat, a: nat)
    requires PrefixLength(s, 0) == 0 && Parse(s) == Parsed(serial, command)
    ensures k == AfterProtocol(s) && v == AfterVsock(s, k) < |s| && AfterAddress(s, v) == Some(a)
    ensures a <= |s| && s[a - 1] == ':'
    ensures serial == s[..AfterPort(s, a) - 1] && command == s[AfterPort(s, a)..]
  {
    k := AfterProtocol(s);
    v := AfterVsock(s, k);
    a := AfterAddress(s, v).value;
  }

  lemma AddressedIs(s: string, serial: string, command: string)
    requires PrefixLength(s, 0) == 0 && Parse(s) == Parsed(serial, command)
    ensures Grammatical(serial, command)
  {
    var k, v, a := EndIs(s, serial, command);
    AddressIs(s, k, v, a);
    if AfterPort(s, a) == a {
      WithoutPort(s, k, v, a);
      IsGrammatical(serial, s[..k], s[k..v], s[v..a - 1], "", command);
    } else {
      var port := WithPort(s, k, v, a);
      IsGrammatical(serial, s[..k], s[k..v], s[v..a - 1], port, command);
    }
  }

  /** A serial and a command are read as such exactly if they have one of the three forms; whatever else is read is
      rejected, or read past its end. */
  lemma ParsesIff(serial: string, command: string)
    ensures Parse(serial + ":" + command) == Parsed(serial, command) <==> Grammatical(serial, command)
  {
    var s := serial + ":" + command;
    if Grammatical(serial, command) {
      GrammaticalParses(serial, command);
    } else if Parse(s) == Parsed(serial, command) {
      if PrefixLength(s, 0) > 0 {
        PrefixedIs(s, serial, command);
      } else {
        AddressedIs(s, serial, command);
      }
      assert false;
    }
  }

  /** The two views, which the parser moves along the string together. */
  class Views {
    const fullService: string
    var serial: string
    var command: string

    ghost predicate Valid()
      reads this
    {
      |serial| <= |fullService| && serial == fullService[..|serial|] && command == fullService[|serial|..]
    }

    ghost function At(): nat
      reads this
    {
      |serial|
    }

    constructor (fullService: string)
      ensures Valid() && At() == 0 && this.fullService == fullService && command == fullService
    {
      this.fullService, serial, command := fullService, "", fullService;
    }

    /** consume, with its CHECK_LE as precondition. */
    method Consume(count: nat)
      requires Valid() && count <= |command|
      modifies this
      ensures Valid() && At() == old(At()) + count && command == old(command)[count..]
    {
      serial := fullService[..|serial| + count];
      command := command[count..];
    }

    /** finish, whose CHECK_EQ is that the last character of the serial is a colon. */
    method Finished() returns (o: Outcome)
      requires Valid() && At() > 0 && serial[|serial| - 1] == ':'
      ensures o == Finish(fullService, At())
    {
      if serial == "" || command == "" {
        return Rejected;
      }
      return Parsed(serial[..|serial| - 1], command);
    }

    method FindInCommand(c: char) returns (at: Option<nat>)
      requires Valid()
      ensures at.Some? ==> at.value < |command| && command[at.value] == c
      ensures Find(fullService, c, At()) == if at.Some? then Some(At() + at.value) else None
    {
      for i := 0 to |command|
        invariant forall j | 0 <= j < i :: command[j] != c
      {
        if command[i] == c {
          assert forall j | At() <= j < At() + i :: fullService[j] == command[j - At()];
          FindIs(fullService, c, At(), At() + i);
          return Some(i);
        }
      }
      assert forall j | At() <= j < |fullService| :: fullService[j] == command[j - At()];
      return None;
    }
  }

  /** The loop over the prefixes. */
  method FindPrefix(command: string) returns (length: nat)
    ensures length == PrefixLength(command, 0) && (length > 0 ==> command[length - 1] == ':')
  {
    for i := 0 to |PREFIXES|
      invariant PrefixLength(command, i) == PrefixLength(command, 0)
    {
      if PREFIXES[i] + ":" <= command {
        assert command[0..] == command;
        assert command[..|PREFIXES[i]| + 1] == PREFIXES[i] + ":";
        return |PREFIXES[i]| + 1;
      }
      assert !NameAt(command, 0, PREFIXES[i]) by {
        assert command[0..] == command;
      }
    }
    return 0;
  }

  method AllDigits(port: string) returns (valid: bool)
    ensures valid <==> Digits(port)
  {
    for i := 0 to |port|
      invariant Digits(port[..i])
    {
      if !('0' <= port[i] <= '9') {
        return false;
      }
      assert port[..i + 1] == port[..i] + [port[i]];
    }
    assert port[..|port|] == port;
    return true;
  }

  /** The address behind the protocol. */
  method ConsumeAddress(views: Views) returns (ok: bool)
    requires views.Valid() && views.command != ""
    modifies views
    ensures views.Valid()
    ensures var a := AfterAddress(views.fullService, old(views.At()));
      (ok <==> a.Some?) && (ok ==> views.At() == a.value)
  {
    ghost var s, k := views.fullService, views.At();
    assert views.command[0] == s[k];
    if views.command[0] == '[' {
      var end := views.FindInCommand(']');
      if end.Some? {
        views.Consume(end.value + 1);
        if views.command == "" {
          return false;
        } else if views.command[0] != ':' {
          return false;
        }
        views.Consume(1);
        return true;
      }
    }
    var colon := views.FindInCommand(':');
    if colon == None {
      return false;
    }
    views.Consume(colon.value + 1);
    return true;
  }

  method ConsumePort(views: Views)
    requires views.Valid()
    modifies views
    ensures views.Valid() && views.At() == AfterPort(views.fullService, old(views.At()))
  {
    var colon := views.FindInCommand(':');
    if colon.Some? {
      var port := views.command[..colon.value];
      assert port == views.fullService[views.At()..views.At() + colon.value];
      var valid := AllDigits(port);
      if valid {
        views.Consume(colon.value + 1);
      }
    }
  }

  method ConsumePrefixed(views: Views, length: nat) returns (o: Outcome)
    requires views.Valid() && views.At() == 0 && length <= |views.command|
    modifies views
    ensures o == ParsePrefixed(views.fullService, length)
  {
    views.Consume(length);
    var colon := views.FindInCommand(':');
    if colon == None {
      return Rejected;
    }
    ghost var at := length + colon.value;
    assert Find(views.fullService, ':', length) == Some(at) && views.fullService[at] == ':';
    views.Consume(colon.value + 1);
    o := views.Finished();
  }

  method ConsumeProtocol(views: Views) returns (ok: bool)
    requires views.Valid() && views.At() == 0 && views.command != ""
    modifies views
    ensures views.Valid() && views.At() == AfterProtocol(views.fullService)
    ensures ok <==> AfterProtocol(views.fullService) < |views.fullService|
  {
    assert views.fullService[0..] == views.fullService;
    if "tcp:" <= views.command || "udp:" <= views.command {
      views.Consume(4);
      if views.command == "" {
        return false;
      }
    }
    ok := true;
  }

  method ConsumeVsock(views: Views)
    requires views.Valid()
    modifies views
    ensures views.Valid() && views.At() == AfterVsock(views.fullService, old(views.At()))
  {
    if "vsock:" <= views.command {
      var colon := views.FindInCommand(':');
      assert NameAt(views.fullService, views.At(), "vsock");
      FindName(views.fullService, views.At(), "vsock");
      views.Consume(colon.value + 1);
    }
  }

  method ConsumeHost(views: Views) returns (o: Outcome)
    requires views.Valid()
    modifies views
    ensures o == ParseAddress(views.fullService, old(views.At()))
  {
    if views.command == "" {
      return OutOfBounds;
    }
    var found := ConsumeAddress(views);
    if !found {
      return Rejected;
    }
    ConsumePort(views);
    o := views.Finished();
  }

  /** parse_host_service. All its internal checks hold. */
  method ParseHostService(fullService: string) returns (o: Outcome)
    ensures o == Parse(fullService)
    ensures o.Parsed? ==> o.serial + ":" + o.command == fullService && o.command != ""
  {
    if Parse(fullService).Parsed? {
      LosesNothing(fullService);
    }
    if fullService == "" {
      return Rejected;
    }
    var views := new Views(fullService);
    var length := FindPrefix(views.command);
    if length > 0 {
      o := ConsumePrefixed(views, length);
      return;
    }
    var more := ConsumeProtocol(views);
    if !more {
      return Rejected;
    }
    ConsumeVsock(views);
    o := ConsumeHost(views);
  }
}
