/**
 * The WinSock2 socket handle: the same move-only owner of one descriptor
 * as the POSIX handles, plus the process-wide instance counter that
 * starts the WinSock2 library with the first socket and cleans it up
 * with the last one.
 */
module WinSocket {
  import opened Common
  import opened NativeOs
  import NativeSend
  import NativeReceive

  /** SOCKET_ERROR: what select() returns when it fails. */
  const SocketError: int := -1

  /** What WSAStartup answers: an error code (0 on success) and the version it loaded. */
  datatype Startup = Startup(code: int, low: nat, high: nat)
  {
    /** The library started, in the version 2.2 that was asked for. */
    predicate Loaded()
    {
      code == 0 && low == 2 && high == 2
    }
  }

  /**
   * contador_inst and the state of the WinSock2 library.  `live` holds the
   * sockets constructed and not yet destroyed.
   */
  class Library {
    var count: nat
    var running: bool
    ghost var live: set<object>

    /** One count per live socket, and the library runs exactly while there is one. */
    ghost predicate Valid()
      reads this
    {
      count == |live| && (running <==> count > 0)
    }

    constructor()
      ensures Valid() && live == {} && !running
    {
      count := 0;
      running := false;
      live := {};
    }

    /** The error a failed start reports. */
    function StartError(s: Startup): (e: Error)
    {
      if s.code != 0 then WsaStartupFailed(s.code) else WsaWrongVersion
    }

    /**
     * inicializa_WSA: count one more socket, starting the library when it
     * is the first.  When starting fails the count is left as it was.
     */
    method Acquire(o: object, s: Startup) returns (r: Outcome)
      requires Valid() && o !in live
      modifies this
      ensures Valid()
      ensures r.Pass? <==> old(count) > 0 || s.Loaded()
      ensures r.Fail? ==> r.error == StartError(s) && live == old(live) && count == old(count) && !running
      ensures r.Pass? ==> live == old(live) + {o} && count == old(count) + 1
    {
      var first := count == 0;
      count := count + 1;
      if first {
        if s.code != 0 {
          count := count - 1;
          return Fail(WsaStartupFailed(s.code));
        }
        running := true;
        if !(s.low == 2 && s.high == 2) {
          running := false;
          count := count - 1;
          return Fail(WsaWrongVersion);
        }
      }
      live := live + {o};
      return Pass;
    }

    /** finaliza_WSA: count one socket less, cleaning the library up after the last. */
    method Release(o: object)
      requires Valid() && o in live
      modifies this
      ensures Valid()
      ensures live == old(live) - {o} && count == old(count) - 1
      ensures old(count) == 1 ==> !running
    {
      live := live - {o};
      count := count - 1;
      if count == 0 {
        running := false;
      }
    }
  }

  /** A live socket is counted, so the library is running. */
  lemma LiveCounted(w: Library, o: object)
    requires w.Valid() && o in w.live
    ensures w.count > 0 && w.running
  {
    assert {o} <= w.live;
  }

  /**
   * Any WSAStartup answer: a socket constructed while another is alive
   * does not start the library, so its answer is never consulted.
   */
  const NotConsulted := Startup(0, 2, 2)

  /**
   * inicializa_WSA as written: the counter is incremented before the
   * library is started and is not decremented again when starting fails.
   * The triple is the new count, whether the library runs, and the outcome.
   */
  function AcquireAsWritten(count: nat, running: bool, s: Startup): (nat, bool, Outcome)
  {
    if count != 0 then (count + 1, running, Pass)
    else if s.code != 0 then (count + 1, running, Fail(WsaStartupFailed(s.code)))
    else if !(s.low == 2 && s.high == 2) then (count + 1, false, Fail(WsaWrongVersion))
    else (count + 1, true, Pass)
  }

  /**
   * As written, a failed start is never retried: the first socket's
   * constructor fails, no socket is alive, yet the count is 1, so the
   * next socket is constructed without the library being started.
   */
  lemma FailedStartNeverRetried(s: Startup)
    requires s.Loaded()
    ensures var failed := Startup(10091, 0, 0);
            AcquireAsWritten(0, false, failed) == (1, false, Fail(WsaStartupFailed(10091)))
            && AcquireAsWritten(1, false, s) == (2, false, Pass)
  {
  }

  /**
   * inet_ntop: the text and its terminating NUL written into a buffer of
   * `size` characters, the rest of the buffer untouched (here NUL), or
   * nothing when they do not fit.
   */
  function Ntop(text: string, size: nat): (b: Option<string>)
    ensures b.Some? <==> |text| < size
    ensures b.Some? ==> |b.value| == size && b.value[..|text|] == text
                        && forall i :: |text| <= i < size ==> b.value[i] == '\0'
  {
    if |text| < size then Some(text + Nuls(size - |text|)) else None
  }

  function Nuls(n: nat): (z: string)
    ensures |z| == n && forall i :: 0 <= i < n ==> z[i] == '\0'
  {
    if n == 0 then [] else Nuls(n - 1) + ['\0']
  }

  /** What strlen() sees: the text up to the first NUL. */
  function UpToNul(b: string): (t: string)
    ensures |t| <= |b| && t == b[..|t|] && '\0' !in t
    ensures |t| < |b| ==> b[|t|] == '\0'
  {
    if b == [] || b[0] == '\0' then [] else [b[0]] + UpToNul(b[1..])
  }

  /**
   * The address aceitar records as written: a 15-character buffer, kept
   * at its full length.
   */
  function AcceptedAddressAsWritten(text: string): Option<string>
  {
    Ntop(text, 15)
  }

  /**
   * The address aceitar records, corrected: a buffer of INET_ADDRSTRLEN
   * (16) characters, cut at the terminating NUL.
   */
  function AcceptedAddress(text: string): Option<string>
  {
    match Ntop(text, 16)
    case None => None
    case Some(b) => Some(UpToNul(b))
  }

  lemma {:induction false} UpToNulPadded(text: string, n: nat)
    requires '\0' !in text
    ensures UpToNul(text + Nuls(n)) == text
  {
    if text == [] {
      if n > 0 {
        assert (text + Nuls(n))[0] == '\0';
      }
    } else {
      assert (text + Nuls(n))[0] == text[0];
      assert (text + Nuls(n))[1..] == text[1..] + Nuls(n);
      UpToNulPadded(text[1..], n);
    }
  }

  /** Every dotted-quad text, up to the 15 characters of "255.255.255.255", is recorded exactly. */
  lemma AcceptedAddressExact(text: string)
    requires |text| <= 15 && '\0' !in text
    ensures AcceptedAddress(text) == Some(text)
  {
    UpToNulPadded(text, 16 - |text|);
  }

  /**
   * As written, a 15-character address does not fit with its NUL and
   * aceitar fails; a shorter one is recorded with NUL padding, so it
   * differs from the address text.
   */
  lemma AcceptedAddressAsWrittenFails()
    ensures AcceptedAddressAsWritten("255.255.255.255") == None
    ensures AcceptedAddressAsWritten("10.0.0.1").Some?
            && AcceptedAddressAsWritten("10.0.0.1").value != "10.0.0.1"
            && |AcceptedAddressAsWritten("10.0.0.1").value| == 15
  {
  }

  class Socket {
    var fd: int
    var address: string
    var port: nat

    /** The fields of a default socket: no descriptor, wildcard address, port 0. */
    constructor Empty()
      ensures fd == Invalid && address == AnyAddress && port == 0
      ensures Mode() == Unconfigured
    {
      fd := Invalid;
      address := AnyAddress;
      port := 0;
    }

    /**
     * win_socket(): a default socket, counted by the library, which it
     * starts when it is the first one.
     */
    static method New(w: Library, s: Startup) returns (r: Result<Socket>)
      requires w.Valid()
      modifies w
      ensures w.Valid()
      ensures r.Ok? <==> old(w.count) > 0 || s.Loaded()
      ensures r.Err? ==> r.error == w.StartError(s) && w.live == old(w.live) && w.count == old(w.count)
      ensures r.Ok? ==> fresh(r.value) && w.live == old(w.live) + {r.value} && w.count == old(w.count) + 1
      ensures r.Ok? ==> r.value.fd == Invalid && r.value.address == AnyAddress && r.value.port == 0
    {
      var sock := new Socket.Empty();
      var started := w.Acquire(sock, s);
      if started.Fail? {
        return Err(started.error);
      }
      return Ok(sock);
    }

    /**
     * The move constructor: takes over the descriptor of `other`, leaves
     * it without one, and is counted by the library like any other socket.
     * `other` is alive, so the library is running and is not started again.
     */
    static method Moved(w: Library, other: Socket) returns (sock: Socket)
      requires w.Valid() && other in w.live
      modifies w, other
      ensures w.Valid() && w.running
      ensures other.fd == Invalid && other.port == old(other.port) && other.Mode() == Unconfigured
      ensures fresh(sock) && w.live == old(w.live) + {sock} && w.count == old(w.count) + 1
      ensures sock.fd == old(other.fd) && sock.address == old(other.address) && sock.port == old(other.port)
    {
      sock := new Socket.Empty();
      sock.fd, sock.address, sock.port := other.fd, other.address, other.port;
      other.fd := Invalid;
      other.address := "";
      LiveCounted(w, other);
      var started := w.Acquire(sock, NotConsulted);
    }

    function Mode(): Mode
      reads this
    {
      ModeOf(fd, address, port)
    }

    predicate IsConnected()
      reads this
    {
      Mode() == Connected
    }

    predicate IsListening()
      reads this
    {
      Mode() == Listening
    }

    /**
     * The move assignment: takes over `other`'s descriptor and fields and
     * leaves `other` without a descriptor.  The descriptor this socket
     * held is not closed.
     */
    method MoveAssign(other: Socket)
      modifies this, other
      ensures other != this ==> fd == old(other.fd) && address == old(other.address) && port == old(other.port)
      ensures other != this ==> other.fd == Invalid && other.port == old(other.port)
      ensures other == this ==> fd == Invalid && port == old(port)
      ensures other.Mode() == Unconfigured
    {
      fd := other.fd;
      other.fd := Invalid;
      var moved := other.address;
      other.address := "";
      address := moved;
      port := other.port;
    }

    /** The destructor: closes the descriptor, if any, and leaves the library's count. */
    method Dispose(k: Kernel, w: Library)
      requires k.Valid() && w.Valid() && this in w.live
      modifies k, w
      ensures k.Valid() && w.Valid()
      ensures fd != Invalid ==> k.open == old(k.open) - {fd}
      ensures fd == Invalid ==> k.open == old(k.open)
      ensures w.live == old(w.live) - {this} && w.count == old(w.count) - 1
      ensures old(w.count) == 1 ==> !w.running
    {
      if fd != Invalid {
        k.Close(fd);
      }
      w.Release(this);
    }

    /**
     * escutar: socket, resolve the wildcard address for the port, bind,
     * non-blocking, listen.  The fields change only when all five steps succeed.
     */
    method Listen(k: Kernel, p: nat, os: ListenOs) returns (r: Outcome)
      requires k.Valid()
      modifies this, k
      ensures k.Valid()
      ensures old(fd) != Invalid ==> r == Fail(AlreadyConfigured)
      ensures r.Pass? <==> old(fd) == Invalid && os.create && os.resolve && os.bind && os.nonBlocking && os.listen
      ensures old(fd) == Invalid ==>
                (!os.create ==> r == Fail(CreateFailed))
                && (os.create && !os.resolve ==> r == Fail(ResolveFailed))
                && (os.create && os.resolve && !os.bind ==> r == Fail(BindFailed))
                && (os.create && os.resolve && os.bind && !os.nonBlocking ==> r == Fail(NonBlockingFailed))
                && (os.create && os.resolve && os.bind && os.nonBlocking && !os.listen ==> r == Fail(ListenFailed))
      ensures r.Fail? ==> fd == old(fd) && address == old(address) && port == old(port) && k.open == old(k.open)
      ensures r.Pass? ==> fd !in old(k.open) && k.open == old(k.open) + {fd}
      ensures r.Pass? ==> address == AnyAddress && port == p
      ensures r.Pass? ==> (IsListening() <==> p != 0) && !IsConnected()
    {
      if fd != Invalid {
        return Fail(AlreadyConfigured);
      }
      var s := k.Create(os.create);
      if s == Invalid {
        return Fail(CreateFailed);
      }
      if !os.resolve {
        k.Close(s);
        return Fail(ResolveFailed);
      }
      if !os.bind {
        k.Close(s);
        return Fail(BindFailed);
      }
      if !os.nonBlocking {
        k.Close(s);
        return Fail(NonBlockingFailed);
      }
      if !os.listen {
        k.Close(s);
        return Fail(ListenFailed);
      }
      fd, address, port := s, AnyAddress, p;
      return Pass;
    }

    /**
     * ha_cliente: only a listening socket can have a client, and only when
     * select() succeeds and leaves the socket in the readable set.
     */
    method HasClient(poll: PollAnswer) returns (b: bool)
      ensures b <==> IsListening() && poll.result != SocketError && poll.ready
    {
      if !IsListening() {
        return false;
      }
      if poll.result == SocketError {
        return false;
      }
      return poll.ready;
    }

    /**
     * aceitar: a new connected socket for a queued client, nothing when the
     * OS would block, an error otherwise.  The new socket is counted by the
     * library; when its address cannot be written out or its descriptor
     * cannot be made non-blocking it is destroyed again, closing the
     * client's descriptor and leaving the count as it was.
     */
    method Accept(k: Kernel, w: Library, answer: AcceptAnswer) returns (r: Result<Option<Socket>>)
      requires k.Valid() && w.Valid() && this in w.live
      modifies k, w
      ensures k.Valid() && w.Valid()
      ensures r.Err? || r == Ok(None) ==> k.open == old(k.open) && w.live == old(w.live) && w.count == old(w.count)
      ensures !IsListening() ==> r == Err(NotListening)
      ensures IsListening() && answer.AcceptRefused? ==>
                r == (if answer.code == Windows.WouldBlock() then Ok(None) else Err(AcceptFailed))
      ensures IsListening() && answer.Client? ==>
                (r.Ok? <==> AcceptedAddress(answer.address).Some? && answer.nonBlocking)
      ensures IsListening() && answer.Client? && AcceptedAddress(answer.address).None? ==> r == Err(AddressFailed)
      ensures IsListening() && answer.Client? && AcceptedAddress(answer.address).Some? && !answer.nonBlocking ==>
                r == Err(NonBlockingFailed)
      ensures r.Ok? && r.value.Some? ==>
                answer.Client? && fresh(r.value.value)
                && r.value.value.fd !in old(k.open) && k.open == old(k.open) + {r.value.value.fd}
                && Some(r.value.value.address) == AcceptedAddress(answer.address) && r.value.value.port == answer.port
                && w.live == old(w.live) + {r.value.value} && w.count == old(w.count) + 1
    {
      if !IsListening() {
        return Err(NotListening);
      }
      match answer {
        case AcceptRefused(code) =>
          if code == Windows.WouldBlock() {
            return Ok(None);
          }
          return Err(AcceptFailed);
        case Client(text, clientPort, nonBlocking) =>
          var client := k.Create(true);
          LiveCounted(w, this);
          var made := New(w, NotConsulted);
          var ret := made.value;
          ret.fd := client;
          var shown := AcceptedAddress(text);
          if shown.None? {
            ret.Dispose(k, w);
            return Err(AddressFailed);
          }
          ret.address, ret.port := shown.value, clientPort;
          if !nonBlocking {
            ret.Dispose(k, w);
            return Err(NonBlockingFailed);
          }
          return Ok(Some(ret));
      }
    }

    /**
     * conectar: socket, resolve, connect, non-blocking.  On success the
     * socket records the name it was given, as given.
     */
    method Connect(k: Kernel, name: string, p: nat, os: ConnectOs) returns (r: Outcome)
      requires k.Valid()
      modifies this, k
      ensures k.Valid()
      ensures old(fd) != Invalid ==> r == Fail(AlreadyConfigured)
      ensures r.Pass? <==> old(fd) == Invalid && os.create && os.resolve && os.connect && os.nonBlocking
      ensures old(fd) == Invalid ==>
                (!os.create ==> r == Fail(CreateFailed))
                && (os.create && !os.resolve ==> r == Fail(ResolveFailed))
                && (os.create && os.resolve && !os.connect ==> r == Fail(ConnectFailed))
                && (os.create && os.resolve && os.connect && !os.nonBlocking ==> r == Fail(NonBlockingFailed))
      ensures r.Fail? ==> fd == old(fd) && address == old(address) && port == old(port) && k.open == old(k.open)
      ensures r.Pass? ==> fd !in old(k.open) && k.open == old(k.open) + {fd}
      ensures r.Pass? ==> address == name && port == p
      ensures r.Pass? ==> (IsConnected() <==> name != AnyAddress && p != 0)
    {
      if fd != Invalid {
        return Fail(AlreadyConfigured);
      }
      var s := k.Create(os.create);
      if s == Invalid {
        return Fail(CreateFailed);
      }
      if !os.resolve {
        k.Close(s);
        return Fail(ResolveFailed);
      }
      if !os.connect {
        k.Close(s);
        return Fail(ConnectFailed);
      }
      if !os.nonBlocking {
        k.Close(s);
        return Fail(NonBlockingFailed);
      }
      fd, address, port := s, name, p;
      return Pass;
    }

    /** desconectar: a connected socket closes its descriptor and forgets its peer; any other is left alone. */
    method Disconnect(k: Kernel)
      requires k.Valid()
      modifies this, k
      ensures k.Valid()
      ensures old(IsConnected()) ==>
                fd == Invalid && address == AnyAddress && port == 0 && k.open == old(k.open) - {old(fd)}
      ensures !old(IsConnected()) ==> fd == old(fd) && address == old(address) && port == old(port) && k.open == old(k.open)
      ensures !IsConnected()
    {
      if IsConnected() {
        k.Close(fd);
        fd, address, port := Invalid, AnyAddress, 0;
      }
    }

    /**
     * enviar: refuses unless connected, then sends the data in packets,
     * retrying "would block" answers; the OS receives exactly the data
     * when the send returns normally.
     */
    method Send(cfg: Config, data: seq<byte>, answers: seq<SendAnswer>) returns (r: Outcome, wire: seq<byte>, offers: seq<nat>)
      requires cfg.Valid()
      ensures !IsConnected() ==> r == Fail(NotConnected) && wire == [] && offers == []
      ensures IsConnected() ==> NativeSend.SendRun(r, wire, offers) == NativeSend.Send(Windows, cfg, data, answers)
      ensures r.Pass? ==> wire == data
      ensures IsConnected() && data == [] ==> r == Pass && offers == []
    {
      if !IsConnected() {
        return Fail(NotConnected), [], [];
      }
      NativeSend.SendContract(Windows, cfg, data, answers);
      var run := NativeSend.Transmit(Windows, cfg, data, answers);
      return run.outcome, run.wire, run.offers;
    }

    /** receber: refuses unless connected, then drains what the OS has. */
    method Receive(answers: seq<RecvAnswer>) returns (r: Result<seq<byte>>)
      ensures !IsConnected() ==> r == Err(NotConnected)
      ensures IsConnected() ==> r == NativeReceive.Drained(Windows, answers)
    {
      if !IsConnected() {
        return Err(NotConnected);
      }
      r := NativeReceive.Drain(Windows, answers);
    }
  }
}
