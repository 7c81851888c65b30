/** The buffered line reader and the socket lifecycle. */
module Tcp {
  import opened Basics

  const NEWLINE: byte := 10
  const SIZE: int := 4096

  datatype Errno = ConnReset | WouldBlock | Other

  // What the environment does next: another thread asks for a close, or a pending read returns.
  datatype Event =
    | CloseRequest
    | Data(first: byte, more: seq<byte>)
    | Zero(errno: Errno)
    | Error(errno: Errno)

  // What happens to descriptors and SSL objects. The system may hand out a number again once it is released.
  datatype Action =
    | Opened(fd: int)
    | NewSsl(ssl: int)
    | Io(fd: int)
    | SslIo(ssl: int, fd: int)
    | CloseFd(fd: int)
    | FreeSsl(ssl: int)

  // ---------- the simple splitter ----------

  predicate Complete(s: seq<byte>, max: nat) {
    max <= |s| || NEWLINE in s
  }

  // The length of the shortest prefix that ends in a newline, or max.
  function Cut(s: seq<byte>, max: nat): (k: nat)
    requires Complete(s, max)
    ensures k <= |s| && k <= max
    ensures k == max || (k > 0 && s[k - 1] == NEWLINE)
    ensures NEWLINE !in s[..if k > 0 then k - 1 else 0]
  {
    if max == 0 then 0 else if s[0] == NEWLINE then 1 else
      assert s == [s[0]] + s[1..];
      1 + Cut(s[1..], max - 1)
  }

  lemma {:induction false} CutUnique(s: seq<byte>, max: nat, k: nat)
    requires k <= |s| && k <= max && NEWLINE !in s[..if k > 0 then k - 1 else 0]
    requires k == max || (k > 0 && s[k - 1] == NEWLINE)
    ensures Complete(s, max) && Cut(s, max) == k
  {}

  lemma CutFound(rest: seq<byte>, line: seq<byte>, max: nat)
    requires line <= rest && 0 < |line| <= max && NEWLINE !in line[..|line| - 1]
    requires |line| == max || line[|line| - 1] == NEWLINE
    ensures Complete(rest, max) && Cut(rest, max) == |line|
  {}

  lemma Unfinished(rest: seq<byte>, line: seq<byte>, max: nat)
    requires rest == line && |line| < max && NEWLINE !in line
    ensures !Complete(rest, max)
  {}

  lemma LineGrows(before: seq<byte>, pending: seq<byte>, k: nat, line: seq<byte>)
    requires 0 < k <= |pending| && line == before + pending[..k]
    requires NEWLINE !in before && NEWLINE !in pending[..k - 1]
    ensures line + pending[k..] == before + pending
    ensures NEWLINE !in line[..|line| - 1] && line[|line| - 1] == pending[k - 1]
  {}

  // No newline before the last byte, and one there or not.
  ghost predicate IsLine(s: seq<byte>, lf: bool) {
    s != [] && NEWLINE !in s[..|s| - 1] && (lf <==> s[|s| - 1] == NEWLINE)
  }

  lemma LineOneMore(s: seq<byte>, b: byte)
    requires s == [] || IsLine(s, false)
    ensures IsLine(s + [b], b == NEWLINE)
  {
    var t := s + [b];
    assert t[..|t| - 1] == s;
    assert s != [] ==> s == s[..|s| - 1] + [s[|s| - 1]];
  }

  // The copying loop has moved taken from all to the line, and stops behind a newline or before a NUL.
  ghost predicate Taking(before: seq<byte>, line: seq<byte>, taken: seq<byte>, pending: seq<byte>, all: seq<byte>,
                         lf: bool, stop: bool)
  {
    && line == before + taken && taken + pending == all
    && (taken != [] ==> IsLine(taken, lf))
    && (!stop ==> !lf) && (stop && !lf ==> pending == [] || pending[0] == 0)
  }

  lemma TakeOne(before: seq<byte>, line: seq<byte>, taken: seq<byte>, b: byte, pending: seq<byte>, all: seq<byte>,
                nul: bool)
    requires Taking(before, line, taken, [b] + pending, all, false, false)
    requires nul ==> pending == [] || pending[0] == 0
    ensures Taking(before, line + [b], taken + [b], pending, all, b == NEWLINE, b == NEWLINE || nul)
  {
    hide IsLine;
    LineOneMore(taken, b);
    assert before + taken + [b] == before + (taken + [b]);
    assert taken + ([b] + pending) == taken + [b] + pending;
  }

  lemma TakingStarts(before: seq<byte>, all: seq<byte>)
    ensures Taking(before, before, [], all, all, false, false)
  {
    assert before + [] == before && [] + all == all;
  }

  lemma TakingEnds(before: seq<byte>, line: seq<byte>, taken: seq<byte>, pending: seq<byte>, all: seq<byte>,
                   lf: bool, stop: bool)
    requires Taking(before, line, taken, pending, all, lf, stop) && taken != []
    ensures var k := |taken|;
      && 0 < k <= |all| == k + |pending| && line == before + all[..k] && pending == all[k..]
      && NEWLINE !in all[..k - 1] && (lf <==> all[k - 1] == NEWLINE)
      && (stop && !lf ==> k == |all| || all[k] == 0)
  {
    assert all[..|taken|] == taken && all[|taken|..] == pending;
    assert all[..|taken| - 1] == taken[..|taken| - 1];
  }

  lemma NothingLeft()
    ensures Stream([]) == []
  {}

  // The lines that calls with the given limits cut from a stream, until one is incomplete.
  function Split(s: seq<byte>, maxes: seq<nat>): seq<seq<byte>> {
    if maxes == [] || !Complete(s, maxes[0]) then []
    else
      var k := Cut(s, maxes[0]);
      [s[..k]] + Split(s[k..], maxes[1..])
  }

  lemma SplitStep(rest: seq<byte>, line: seq<byte>, tail: seq<byte>, maxes: seq<nat>, i: nat)
    requires i < |maxes| && rest == line + tail
    ensures !Complete(rest, maxes[i]) ==> Split(rest, maxes[i..]) == []
    ensures Complete(rest, maxes[i]) && Cut(rest, maxes[i]) == |line|
            ==> Split(rest, maxes[i..]) == [line] + Split(tail, maxes[i + 1..])
  {}

  lemma SplitEnd(s: seq<byte>)
    ensures Split(s, []) == []
  {}

  // Bytes that arrive later never change a line that could already be cut.
  lemma {:induction false} SplitGrows(s: seq<byte>, later: seq<byte>, maxes: seq<nat>)
    ensures Split(s, maxes) <= Split(s + later, maxes)
    decreases |maxes|
  {
    if maxes != [] && Complete(s, maxes[0]) {
      var k := Cut(s, maxes[0]);
      assert (s + later)[..k] == s[..k] && (s + later)[k..] == s[k..] + later;
      CutUnique(s + later, maxes[0], k) by {
        assert (s + later)[..if k > 0 then k - 1 else 0] == s[..if k > 0 then k - 1 else 0];
      }
      SplitGrows(s[k..], later, maxes[1..]);
    }
  }

  function Joined(lines: seq<seq<byte>>): seq<byte> {
    if lines == [] then [] else lines[0] + Joined(lines[1..])
  }

  // The lines are the stream cut up: nothing is dropped, repeated or reordered.
  lemma {:induction false} SplitLosesNothing(s: seq<byte>, maxes: seq<nat>)
    ensures Joined(Split(s, maxes)) <= s
    decreases |maxes|
  {
    if maxes != [] && Complete(s, maxes[0]) {
      var k := Cut(s, maxes[0]);
      var rest := Split(s[k..], maxes[1..]);
      SplitLosesNothing(s[k..], maxes[1..]);
      assert Split(s, maxes)[1..] == rest;
      assert s == s[..k] + s[k..];
    }
  }

  // ---------- the environment ----------

  function Stream(script: seq<Event>): seq<byte> {
    if script == [] then []
    else if script[0].Data? then [script[0].first] + script[0].more + Stream(script[1..])
    else Stream(script[1..])
  }

  // A script without close requests and without failing reads.
  predicate Harmless(e: Event, ssl: int) {
    match e
    case CloseRequest => false
    case Data(_, _) => true
    case Zero(errno) => ssl == 0 || errno == WouldBlock
    case Error(errno) => errno == WouldBlock
  }

  predicate Benign(script: seq<Event>, ssl: int) {
    forall i :: 0 <= i < |script| ==> Harmless(script[i], ssl)
  }

  // ---------- safety of what was done ----------

  predicate IsOpen(trace: seq<Action>, fd: int) {
    trace != [] &&
    var last := trace[|trace| - 1];
    last == Opened(fd) || (last != CloseFd(fd) && IsOpen(trace[..|trace| - 1], fd))
  }

  predicate IsLive(trace: seq<Action>, ssl: int) {
    trace != [] &&
    var last := trace[|trace| - 1];
    last == NewSsl(ssl) || (last != FreeSsl(ssl) && IsLive(trace[..|trace| - 1], ssl))
  }

  // Descriptors and SSL objects are used and released only between being made and being released.
  predicate Allowed(trace: seq<Action>, a: Action) {
    match a
    case Opened(fd) => fd > -1 && !IsOpen(trace, fd)
    case NewSsl(ssl) => ssl != 0 && !IsLive(trace, ssl)
    case Io(fd) => IsOpen(trace, fd)
    case SslIo(ssl, fd) => IsLive(trace, ssl) && (fd != -1 ==> IsOpen(trace, fd))
    case CloseFd(fd) => IsOpen(trace, fd)
    case FreeSsl(ssl) => IsLive(trace, ssl)
  }

  ghost predicate Safe(trace: seq<Action>) {
    forall j :: 0 <= j < |trace| ==> Allowed(trace[..j], trace[j])
  }

  lemma SafeAppend(trace: seq<Action>, a: Action)
    requires Safe(trace) && Allowed(trace, a)
    ensures Safe(trace + [a])
    ensures forall fd :: IsOpen(trace + [a], fd) <==> a == Opened(fd) || (a != CloseFd(fd) && IsOpen(trace, fd))
    ensures forall ssl :: IsLive(trace + [a], ssl) <==> a == NewSsl(ssl) || (a != FreeSsl(ssl) && IsLive(trace, ssl))
  {
    var after := trace + [a];
    assert after[..|trace|] == trace;
    forall j | 0 <= j < |after|
      ensures Allowed(after[..j], after[j])
    {
      assert after[..j] == trace[..j];
    }
  }

  // In a safe trace each descriptor is closed once for every time it was handed out, and once less while it is open.
  lemma {:induction false} ReleasedOnce(trace: seq<Action>, fd: int)
    requires Safe(trace)
    ensures multiset(trace)[Opened(fd)] == multiset(trace)[CloseFd(fd)] + if IsOpen(trace, fd) then 1 else 0
  {
    if trace != [] {
      SafeBefore(trace);
      CountLast(trace, Opened(fd));
      CountLast(trace, CloseFd(fd));
      hide Safe;
      ReleasedOnce(trace[..|trace| - 1], fd);
    }
  }

  lemma {:induction false} FreedOnce(trace: seq<Action>, ssl: int)
    requires Safe(trace)
    ensures multiset(trace)[NewSsl(ssl)] == multiset(trace)[FreeSsl(ssl)] + if IsLive(trace, ssl) then 1 else 0
  {
    if trace != [] {
      SafeBefore(trace);
      CountLast(trace, NewSsl(ssl));
      CountLast(trace, FreeSsl(ssl));
      hide Safe;
      FreedOnce(trace[..|trace| - 1], ssl);
    }
  }

  lemma CountLast(trace: seq<Action>, a: Action)
    requires trace != []
    ensures var n := |trace| - 1;
      multiset(trace)[a] == multiset(trace[..n])[a] + if trace[n] == a then 1 else 0
  {
    var n := |trace| - 1;
    assert trace == trace[..n] + [trace[n]];
  }

  lemma SafeBefore(trace: seq<Action>)
    requires Safe(trace) && trace != []
    ensures var n := |trace| - 1; Safe(trace[..n]) && Allowed(trace[..n], trace[n])
  {
    var before := trace[..|trace| - 1];
    forall j | 0 <= j < |before|
      ensures Allowed(before[..j], before[j])
    {
      assert before[..j] == trace[..j];
    }
  }

  // What an owner's close does: the SSL object is shut down first and freed last.
  function Releases(socket: int, ssl: int, sslFd: int): seq<Action> {
    (if ssl != 0 then [SslIo(ssl, sslFd)] else [])
    + (if socket > -1 then [CloseFd(socket)] else [])
    + (if ssl != 0 then [FreeSsl(ssl)] else [])
  }

  class TcpSocket {
    var socket: int
    var ssl: int  // 0 stands for NULL
    var usingTls: bool
    var wantClose: bool
    var bytesIn: int
    var bytesOut: int
    var recvbufsize: int
    var recvbufoffset: int
    const recvbuf: array<byte>

    var script: seq<Event>
    var trace: seq<Action>
    var sslFd: int  // the descriptor that ssl was bound to

    ghost predicate Valid()
      reads `socket, `ssl, `recvbufsize, `recvbufoffset, `trace, `sslFd
    {
      && recvbuf.Length == SIZE
      && 0 <= recvbufoffset && 0 <= recvbufsize && recvbufoffset + recvbufsize <= SIZE - 2
      && -1 <= socket
      && Safe(trace)
      && (socket != -1 ==> IsOpen(trace, socket))
      && (ssl != 0 ==> IsLive(trace, ssl) && (sslFd != -1 ==> IsOpen(trace, sslFd)))
    }

    // Received but not yet delivered.
    ghost function Pending(): seq<byte>
      reads this, recvbuf
      requires Valid()
    {
      recvbuf[recvbufoffset..recvbufoffset + recvbufsize]
    }

    // Everything still to be delivered.
    ghost function Rest(): seq<byte>
      reads this, recvbuf
      requires Valid()
    {
      Pending() + Stream(script)
    }

    constructor (script: seq<Event>)
      ensures Valid() && fresh(recvbuf)
      ensures socket == -1 && ssl == 0 && !wantClose && this.script == script && trace == []
      ensures bytesIn == 0 && bytesOut == 0 && Pending() == []
    {
      socket, ssl, sslFd := -1, 0, -1;
      usingTls, wantClose := false, false;
      bytesIn, bytesOut, recvbufsize, recvbufoffset := 0, 0, 0, 0;
      recvbuf := new byte[SIZE];
      this.script := script;
      trace := [];
    }

    // tcp_accept and tcp_connect: the system hands out a number that is not open.
    method Adopt(fd: int)
      requires Valid() && fd > -1 && !IsOpen(trace, fd)
      modifies this`socket, this`trace
      ensures Valid() && socket == fd && trace == old(trace) + [Opened(fd)]
    {
      hide IsOpen, IsLive, Safe;
      SafeAppend(trace, Opened(fd));
      trace := trace + [Opened(fd)];
      socket := fd;
    }

    // ssl_accept: ssl' is what SSL_new returns, accepted whether SSL_accept succeeds.
    method SslAccept(ssl': int, accepted: bool) returns (rc: int)
      requires Valid() && (ssl' != 0 ==> !IsLive(trace, ssl'))
      modifies this`ssl, this`usingTls, this`sslFd, this`trace
      ensures Valid() && old(trace) <= trace
      ensures rc == if old(usingTls) || ssl' == 0 || !accepted then -1 else 0
      ensures rc == 0 ==> ssl == ssl' && usingTls
    {
      hide IsOpen, IsLive, Safe;
      if usingTls {
        return -1;
      }
      ssl := ssl';
      if ssl == 0 {
        return -1;
      }
      SafeAppend(trace, NewSsl(ssl));
      trace := trace + [NewSsl(ssl)];
      sslFd := socket;
      SafeAppend(trace, SslIo(ssl, sslFd));
      trace := trace + [SslIo(ssl, sslFd)];
      if !accepted {
        return -1;
      }
      usingTls := true;
      rc := 0;
    }

    // ssl_close.
    method SslClose()
      requires Valid()
      modifies this`ssl, this`socket, this`trace
      ensures Valid() && old(trace) <= trace
      ensures socket == -1 && ssl == 0
      ensures trace == old(trace) + Releases(old(socket), old(ssl), sslFd)
      ensures old(socket) != -1 ==> !IsOpen(trace, old(socket))
      ensures old(ssl) != 0 ==> !IsLive(trace, old(ssl))
    {
      hide IsOpen, IsLive, Safe;
      if ssl != 0 {
        SafeAppend(trace, SslIo(ssl, sslFd));
        trace := trace + [SslIo(ssl, sslFd)];
      }
      if socket > -1 {
        SafeAppend(trace, CloseFd(socket));
        trace := trace + [CloseFd(socket)];
        socket := -1;
      }
      if ssl != 0 {
        SafeAppend(trace, FreeSsl(ssl));
        trace := trace + [FreeSsl(ssl)];
        ssl := 0;
      }
    }

    // tcp_close: others only leave a request, the owner releases.
    method Close(ownerKilled: bool)
      requires Valid()
      modifies this`wantClose, this`ssl, this`socket, this`trace
      ensures Valid() && old(trace) <= trace && Rest() == old(Rest())
      ensures wantClose == !ownerKilled
      ensures !ownerKilled ==> trace == old(trace) && socket == old(socket) && ssl == old(ssl)
      ensures ownerKilled ==> socket == -1 && ssl == 0
      ensures ownerKilled ==> trace == old(trace) + Releases(old(socket), old(ssl), sslFd)
      ensures ownerKilled && old(socket) != -1 ==> !IsOpen(trace, old(socket))
      ensures ownerKilled && old(ssl) != 0 ==> !IsLive(trace, old(ssl))
    {
      hide IsOpen, IsLive, Safe;
      if !ownerKilled {
        wantClose := true;
      } else {
        wantClose := false;
        if ssl != 0 {
          SslClose();
        }
        if socket > -1 {
          SafeAppend(trace, CloseFd(socket));
          trace := trace + [CloseFd(socket)];
          socket := -1;
        }
      }
    }

    // Another thread may ask for a close before any read of want_close.
    method Poll()
      requires Valid()
      modifies this`wantClose, this`script
      ensures Valid() && Stream(script) == old(Stream(script)) && Rest() == old(Rest())
      ensures old(script) != [] && old(script)[0].CloseRequest? ==> wantClose && script == old(script)[1..]
      ensures !(old(script) != [] && old(script)[0].CloseRequest?) ==>
        wantClose == old(wantClose) && script == old(script)
    {
      if script != [] && script[0].CloseRequest? {
        wantClose := true;
        script := script[1..];
      }
    }

    // The system call, or SSL_read. An exhausted script stands for a connection that fails.
    method Read(len: int) returns (rc: int, data: seq<byte>, errno: Errno)
      requires Valid() && len > 0 && socket != -1
      requires script == [] || !script[0].CloseRequest?
      modifies this`script, this`trace
      ensures Valid() && trace == old(trace) + [if ssl != 0 then SslIo(ssl, sslFd) else Io(socket)]
      ensures -1 <= rc <= len && (rc > 0 ==> rc == |data|) && (rc <= 0 ==> data == [])
      ensures data + Stream(script) == old(Stream(script))
      ensures rc > 0 || (rc == -1 && old(script) == []) || |script| < |old(script)|
      ensures |script| <= |old(script)|
      ensures Benign(old(script), ssl) ==> Benign(script, ssl)
      ensures Benign(old(script), ssl) && old(script) != [] && (rc == -1 || (rc == 0 && ssl != 0)) ==>
        errno == WouldBlock
      ensures old(script) == [] ==> rc == -1 && errno == Other && script == []
    {
      hide IsOpen, IsLive, Safe;
      var io := if ssl != 0 then SslIo(ssl, sslFd) else Io(socket);
      SafeAppend(trace, io);
      trace := trace + [io];
      if script == [] {
        return -1, [], Other;
      }
      var e := script[0];
      assert Benign(script, ssl) ==> Harmless(script[0], ssl);
      script := script[1..];
      match e
      case CloseRequest =>
        assert false;
      case Data(first, more) =>
        data := [first] + more;
        if |data| > len {
          ghost var rest := script;
          script := [Data(data[len], data[len + 1..])] + script;
          assert script[1..] == rest;
          assert [data[len]] + data[len + 1..] == data[len..];
          data := data[..len];
        }
        rc, errno := |data|, Other;
      case Zero(no) =>
        rc, data, errno := 0, [], no;
      case Error(no) =>
        rc, data, errno := -1, [], no;
    }

    // tcp_recv.
    method Recv(max: int) returns (rc: int, data: seq<byte>)
      requires Valid() && max > 0
      modifies this`wantClose, this`ssl, this`socket, this`trace, this`script, this`bytesIn
      ensures Valid() && old(trace) <= trace
      ensures rc == -1 || 0 < rc == |data| <= max
      ensures rc == -1 ==> data == []
      ensures data + Stream(script) == old(Stream(script))
      ensures bytesIn == if rc == -1 then old(bytesIn) else (old(bytesIn) + rc) % 0x1_0000_0000
      ensures |script| <= |old(script)|
      ensures old(Running()) ==> (rc > 0 && Running()) || (rc == -1 && script == [])
      ensures old(socket) != -1 && old(wantClose || (script != [] && script[0].CloseRequest?)) ==>
        rc == -1 && socket == -1 && ssl == 0 && trace == old(trace) + Releases(old(socket), old(ssl), sslFd)
      ensures old(socket) != -1 ==> !wantClose
    {
      hide Valid, Pending, Rest, Stream;
      var len := max;
      while true
        invariant Valid() && old(trace) <= trace
        invariant Stream(script) == old(Stream(script))
        invariant bytesIn == old(bytesIn) && |script| <= |old(script)|
        invariant 0 < len <= max
        invariant old(Running()) ==> Running()
        invariant old(socket) != -1 && old(wantClose || (script != [] && script[0].CloseRequest?)) ==>
          ssl == old(ssl) && trace == old(trace) && script == old(script) && wantClose == old(wantClose)
        invariant socket == old(socket)
        decreases |script|
      {
        if socket == -1 {
          return -1, [];
        }
        Poll();
        if wantClose {
          Close(true);
          return -1, [];
        }
        if len > 16384 {
          len := 16384;
        }
        var errno;
        ghost var before := script;
        rc, data, errno := Read(len);
        if ssl != 0 && rc == 0 {
          rc := -1;
        }
        if rc < 0 {
          if errno == ConnReset {
            Close(true);
            return -1, [];
          } else if errno != WouldBlock {
            return -1, [];
          }
        } else if rc > 0 {
          bytesIn := (bytesIn + rc) % 0x1_0000_0000;
          return;
        }
      }
    }

    // memset of the receive buffer.
    method Wipe()
      requires Valid() && recvbufsize == 0
      modifies this`recvbufoffset, recvbuf
      ensures Valid() && recvbufoffset == 0
    {
      for i := 0 to SIZE {
        recvbuf[i] := 0;
      }
      recvbufoffset := 0;
    }

    // recv into the receive buffer, behind what it holds.
    method Fill(data: seq<byte>)
      requires Valid() && recvbufsize == 0 && recvbufoffset + |data| <= SIZE - 2
      modifies this`recvbufsize, recvbuf
      ensures Valid() && Pending() == data
    {
      var o := recvbufoffset + recvbufsize;
      for i := 0 to |data|
        invariant recvbufsize == 0 && o == recvbufoffset
        invariant recvbuf[o..o + i] == data[..i]
      {
        recvbuf[o + i] := data[i];
      }
      recvbufsize := recvbufsize + |data|;
    }

    // Refills an empty receive buffer, from its start when there is no room left behind the last read.
    method Refill() returns (ok: bool)
      requires Valid() && recvbufsize == 0
      modifies this, recvbuf
      ensures Valid() && old(trace) <= trace
      ensures Pending() + Stream(script) == old(Stream(script)) && |script| <= |old(script)|
      ensures ok <==> recvbufsize > 0
      ensures old(Running()) ==> (ok && Running()) || (!ok && script == [])
      ensures bytesIn == if ok then (old(bytesIn) + |Pending()|) % 0x1_0000_0000 else old(bytesIn)
    {
      hide Stream, Benign, Safe, IsOpen, IsLive;
      var x := SIZE - recvbufoffset - recvbufsize - 2;
      if x < 1 {
        Wipe();
        x := SIZE - recvbufoffset - recvbufsize - 2;
      }
      var rc, data := Recv(x);
      if rc < 0 {
        return false;
      }
      Fill(data);
      ok := true;
    }

    // The next byte, moved to the caller's buffer, and whether a NUL stands behind it.
    method Move(buffer: array<byte>, n: nat) returns (b: byte, nul: bool)
      requires Valid() && recvbufsize > 0 && n < buffer.Length && buffer != recvbuf
      modifies `recvbufsize, `recvbufoffset, buffer
      ensures Valid() && recvbufsize == |Pending()|
      ensures [b] + Pending() == old(Pending())
      ensures nul ==> Pending() == [] || Pending()[0] == 0
      ensures buffer[..n + 1] == old(buffer[..n]) + [b]
    {
      hide Safe, IsOpen, IsLive;
      b := recvbuf[recvbufoffset];
      buffer[n] := b;
      recvbufoffset := recvbufoffset + 1;
      recvbufsize := recvbufsize - 1;
      nul := recvbuf[recvbufoffset] == 0;
    }

    // The copying loop: it stops behind a newline, before a NUL, and at the limits.
    method Take(buffer: array<byte>, start: nat, max: nat) returns (n: nat, lf: bool)
      requires Valid() && recvbufsize > 0 && start < max < buffer.Length && buffer != recvbuf
      modifies `recvbufsize, `recvbufoffset, buffer
      ensures Valid()
      ensures start < n <= max && n - start <= |old(Pending())|
      ensures buffer[..n] == old(buffer[..start]) + old(Pending())[..n - start]
      ensures Pending() == old(Pending())[n - start..]
      ensures NEWLINE !in old(Pending())[..n - start - 1] && (lf <==> old(Pending())[n - start - 1] == NEWLINE)
      ensures lf || n == max || n - start == |old(Pending())| || old(Pending())[n - start] == 0
    {
      hide *;
      PendingSize();
      ghost var before, taken, all := buffer[..start], [], Pending();
      TakingStarts(before, all);
      n, lf := start, false;
      var stop := false;
      while n < max && recvbufsize > 0 && !stop
        invariant Valid() && n == start + |taken| <= max && recvbufsize == |Pending()|
        invariant taken == [] ==> recvbufsize > 0 && !stop
        invariant Taking(before, buffer[..n], taken, Pending(), all, lf, stop)
        invariant !stop ==> !lf
        decreases max - n
      {
        ghost var line, was := buffer[..n], Pending();
        var b, nul := Move(buffer, n);
        assert [b] + Pending() == was;
        TakeOne(before, line, taken, b, Pending(), all, nul);
        n := n + 1;
        taken := taken + [b];
        if b == NEWLINE {
          lf := true;
        }
        if lf || nul {
          stop := true;
        }
      }
      TakingEnds(before, buffer[..n], taken, Pending(), all, lf, stop);
      assert |taken| == n - start && |all| == |taken| + recvbufsize;
    }

    lemma InsideBuffer()
      requires Valid()
      ensures 0 <= recvbufoffset && 0 <= recvbufsize && recvbufoffset + recvbufsize <= 4094
    {}

    lemma PendingSize()
      requires Valid()
      ensures |Pending()| == recvbufsize
    {}

    // memmove of n bytes from o to the front of the buffer.
    method MoveDown(n: nat, o: nat)
      requires o + n <= recvbuf.Length
      modifies recvbuf
      ensures forall k :: 0 <= k < n ==> recvbuf[k] == old(recvbuf[o + k])
    {
      for i := 0 to n
        invariant forall k :: 0 <= k < i ==> recvbuf[k] == old(recvbuf[o + k])
        invariant forall k :: o + i <= k < recvbuf.Length ==> recvbuf[k] == old(recvbuf[k])
      {
        recvbuf[i] := recvbuf[o + i];
      }
    }

    // memset to zero from n on.
    method ClearFrom(n: nat)
      requires n <= recvbuf.Length
      modifies recvbuf
      ensures forall k :: 0 <= k < n ==> recvbuf[k] == old(recvbuf[k])
    {
      for i := n to recvbuf.Length
        invariant forall k :: 0 <= k < n ==> recvbuf[k] == old(recvbuf[k])
      {
        recvbuf[i] := 0;
      }
    }

    // The unread bytes move to the front, and the rest is cleared.
    method Compact()
      requires Valid()
      modifies this`recvbufoffset, recvbuf
      ensures Valid() && Pending() == old(Pending()) && recvbufoffset == 0
    {
      hide Safe, IsOpen, IsLive;
      MoveDown(recvbufsize, recvbufoffset);
      ClearFrom(recvbufsize);
      recvbufoffset := 0;
    }

    // One pass over what is buffered.
    method Pass(buffer: array<byte>, start: nat, max: nat) returns (n: nat, done: bool)
      requires Valid() && recvbufsize > 0 && start < max < buffer.Length && buffer != recvbuf
      requires NEWLINE !in buffer[..start]
      modifies this`recvbufsize, this`recvbufoffset, recvbuf, buffer
      ensures Valid() && start < n <= max
      ensures buffer[..n] + Pending() == old(buffer[..start]) + old(Pending())
      ensures NEWLINE !in buffer[..n - 1]
      ensures done <==> n == max || buffer[n - 1] == NEWLINE
      ensures done ==> buffer[n] == 0
    {
      hide Valid, Pending;
      var lf;
      ghost var before, pending := buffer[..start], Pending();
      n, lf := Take(buffer, start, max);
      ghost var line := buffer[..n];
      LineGrows(before, pending, n - start, line);
      buffer[n] := 0;
      assert buffer[..n] == line;
      assert buffer[..n - 1] == line[..n - 1];
      done := n > max - 1 || lf;
      if !done {
        Compact();
      }
    }

    // One round of the retry loop: refill if empty, then copy.
    method Round(buffer: array<byte>, start: nat, max: nat) returns (ok: bool, n: nat, done: bool)
      requires Valid() && start < max < buffer.Length && buffer != recvbuf
      requires NEWLINE !in buffer[..start]
      modifies this, recvbuf, buffer
      ensures Valid() && old(trace) <= trace
      ensures start <= n <= max && buffer[..n] + Rest() == old(buffer[..start]) + old(Rest())
      ensures !ok ==> n == start && buffer[..n] == old(buffer[..start])
      ensures ok ==> n > start && NEWLINE !in buffer[..n - 1]
      ensures ok ==> (done <==> n == max || buffer[n - 1] == NEWLINE) && (done ==> buffer[n] == 0)
      ensures old(Running()) ==> if ok then Running() else Rest() == []
    {
      hide Stream, Benign, Safe, IsOpen, IsLive;
      n, done := start, false;
      if recvbufsize == 0 {
        ok := Refill();
        if !ok {
          NothingLeft();
          return;
        }
      }
      ghost var line, rest, pending := buffer[..start], Rest(), Pending();
      n, done := Pass(buffer, start, max);
      ok := true;
      assert buffer[..n] + Rest() == (buffer[..n] + Pending()) + Stream(script);
      assert line + rest == (line + pending) + Stream(script);
    }

    // tcp_fgets. On success the buffer holds exactly the bytes a splitter cuts from the rest of
    // the stream; on failure it holds the bytes that were taken and are lost to later calls.
    method Fgets(buffer: array<byte>, max: nat) returns (rc: int, ghost taken: nat)
      requires Valid() && 1 <= max <= 32767 && max < buffer.Length && buffer != recvbuf
      modifies this, recvbuf, buffer
      ensures Valid() && old(trace) <= trace
      ensures taken <= max
      ensures buffer[..taken] + Rest() == old(Rest())
      ensures rc == -1 || rc == taken
      ensures rc != -1 ==> Complete(old(Rest()), max) && rc == Cut(old(Rest()), max) && buffer[rc] == 0
      ensures rc == -1 ==> NEWLINE !in buffer[..taken] && taken < max
      ensures old(Running()) ==> (rc != -1 <==> Complete(old(Rest()), max))
      ensures old(Running()) && rc != -1 ==> Running()
      ensures old(wantClose || (script != [] && script[0].CloseRequest?)) ==>
        && rc == -1 && taken == 0 && socket == -1 && ssl == 0 && !wantClose
        && trace == old(trace) + Releases(old(socket), old(ssl), sslFd)
      ensures 0 <= recvbufoffset && 0 <= recvbufsize && recvbufoffset + recvbufsize <= 4094
    {
      hide Valid, Pending, Rest, Cut, Complete, Stream, Benign;
      var n: nat, done := 0, false;
      ghost var rest := Rest();
      assert buffer[..0] + Rest() == rest;
      while !done
        invariant Valid() && old(trace) <= trace && n <= max
        invariant !done ==> n < max && NEWLINE !in buffer[..n]
        invariant buffer[..n] + Rest() == rest
        invariant old(Running()) ==> Running()
        invariant done ==> Complete(rest, max) && n == Cut(rest, max) && buffer[n] == 0
        invariant old(wantClose || (script != [] && script[0].CloseRequest?)) ==>
          && !done && n == 0 && script == old(script) && wantClose == old(wantClose)
          && socket == old(socket) && ssl == old(ssl) && trace == old(trace)
        decreases !done, max - n
      {
        AtRest();
        Poll();
        if wantClose {
          Close(true);
          InsideBuffer();
          return -1, n;
        }
        var ok;
        ok, n, done := Round(buffer, n, max);
        if !ok {
          if Rest() == [] {
            Unfinished(rest, buffer[..n], max);
          }
          InsideBuffer();
          return -1, n;
        }
        if done {
          CutFound(rest, buffer[..n], max);
        }
      }
      InsideBuffer();
      return n, n;
    }

    // tcp_send_nolog: outcome is what send or SSL_write returns.
    method Send(outcome: int) returns (rc: int)
      requires Valid()
      modifies this`wantClose, this`ssl, this`socket, this`trace, this`bytesOut
      ensures Valid() && old(trace) <= trace
      ensures rc == if old(socket) == -1 || old(wantClose) then -1 else outcome
      ensures old(socket) != -1 && old(wantClose) ==> socket == -1 && ssl == 0
      ensures trace == old(trace) +
        if old(socket) == -1 then []
        else if old(wantClose) then Releases(old(socket), old(ssl), old(sslFd))
        else [if old(ssl) != 0 then SslIo(old(ssl), old(sslFd)) else Io(old(socket))]
      ensures bytesOut == if rc > 0 then (old(bytesOut) + rc) % 0x1_0000_0000 else old(bytesOut)
    {
      hide IsOpen, IsLive, Safe;
      if socket == -1 {
        return -1;
      }
      if wantClose {
        Close(true);
        return -1;
      }
      var io := if ssl != 0 then SslIo(ssl, sslFd) else Io(socket);
      SafeAppend(trace, io);
      trace := trace + [io];
      rc := outcome;
      if rc > 0 {
        bytesOut := (bytesOut + rc) % 0x1_0000_0000;
      }
    }

    // A script without failures has no close request for Poll to find.
    lemma AtRest()
      ensures Running() && script != [] ==> !script[0].CloseRequest?
    {}

    // The connection is up and no failure or close request lies ahead.
    ghost predicate Running()
      reads this
    {
      socket != -1 && !wantClose && Benign(script, ssl)
    }
  }

  // The splitter cuts at line feeds.
  lemma NewlineIs()
    ensures NEWLINE == '\n' as int
  {}

  // Calls with the given limits, one after the other, as long as they succeed.
  method ReadLines(socket: TcpSocket, maxes: seq<nat>) returns (lines: seq<seq<byte>>)
    requires socket.Valid() && forall i :: 0 <= i < |maxes| ==> 1 <= maxes[i] <= 32767
    modifies socket, socket.recvbuf
    ensures socket.Valid() && lines <= Split(old(socket.Rest()), maxes)
    ensures old(socket.Running()) ==> lines == Split(old(socket.Rest()), maxes)
  {
    hide *;
    lines := [];
    var buffer := new byte[32768];
    ghost var all, rest := Split(socket.Rest(), maxes), socket.Rest();
    assert maxes[0..] == maxes;
    for i := 0 to |maxes|
      invariant socket.Valid() && socket.Rest() == rest
      invariant all == lines + Split(rest, maxes[i..])
      invariant old(socket.Running()) ==> socket.Running()
    {
      var rc, taken := socket.Fgets(buffer, maxes[i]);
      SplitStep(rest, buffer[..taken], socket.Rest(), maxes, i);
      if rc == -1 {
        return;
      }
      lines := lines + [buffer[..rc]];
      rest := socket.Rest();
    }
    assert maxes[|maxes|..] == [];
    SplitEnd(rest);
  }

  // ---------- whole runs ----------

  // The environment picks the numbers of descriptors and SSL objects.
  datatype Call =
    | CallAdopt(fd: int)
    | CallSslAccept(ssl: int, accepted: bool)
    | CallRecv(max: nat)
    | CallSend(outcome: int)
    | CallFgets(max: nat)
    | CallClose
    | RequestClose  // by another thread

  // Every run of owner calls, interleaved with requests of others, stays safe.
  method Serve(calls: seq<Call>, script: seq<Event>) returns (socket: TcpSocket)
    ensures fresh(socket) && Safe(socket.trace)
  {
    hide Cut, Complete, Stream, Benign, Safe, IsOpen, IsLive;
    socket := new TcpSocket(script);
    var buffer := new byte[32768];
    for i := 0 to |calls|
      invariant socket.Valid() && fresh(socket) && fresh(socket.recvbuf) && buffer != socket.recvbuf
    {
      match calls[i]
      case CallAdopt(fd) =>
        // never a number that is still open
        if fd > -1 && !IsOpen(socket.trace, fd) {
          socket.Adopt(fd);
        }
      case CallSslAccept(ssl, accepted) =>
        // never an object that is still there
        if ssl == 0 || !IsLive(socket.trace, ssl) {
          var rc := socket.SslAccept(ssl, accepted);
        }
      case CallRecv(max) =>
        if max > 0 {
          var rc, data := socket.Recv(max);
        }
      case CallSend(outcome) =>
        var rc := socket.Send(outcome);
      case CallFgets(max) =>
        if 1 <= max <= 32767 {
          var rc, taken := socket.Fgets(buffer, max);
        }
      case CallClose =>
        socket.Close(true);
      case RequestClose =>
        socket.Close(false);
    }
  }
}
