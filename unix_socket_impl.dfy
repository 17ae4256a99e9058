/**
 * The POSIX socket handle of the C++ module version: a move-only owner of
 * one descriptor, with the IPv4 address and port it was set up with.
 * Its mode (unconfigured, listening, connected) follows from those three
 * fields; `listen` and `connect` set them only after every OS step
 * succeeded, closing the new descriptor otherwise.
 */
module UnixModuleSocket {
  import opened Common
  import opened NativeOs
  import NativeSend
  import NativeReceive

  class Socket {
    var fd: int
    var address: string
    var port: nat

    /** A default socket: no descriptor, wildcard address, port 0. */
    constructor()
      ensures fd == Invalid && address == AnyAddress && port == 0
      ensures Mode() == Unconfigured
    {
      fd := Invalid;
      address := AnyAddress;
      port := 0;
    }

    /** The move constructor: takes over the descriptor and leaves `other` without one. */
    constructor Moved(other: Socket)
      modifies other
      ensures fd == old(other.fd) && address == old(other.address) && port == old(other.port)
      ensures other.fd == Invalid && other.port == old(other.port)
      ensures other.Mode() == Unconfigured
    {
      fd := other.fd;
      address := other.address;
      port := other.port;
      new;
      other.fd := Invalid;
      other.address := "";
    }

    function Mode(): Mode
      reads this
    {
      ModeOf(fd, address, port)
    }

    predicate IsConnected()
      reads this
    {
      Mode() == Connected
    }

    predicate IsListening()
      reads this
    {
      Mode() == Listening
    }

    /**
     * The move assignment: takes over `other`'s descriptor and fields and
     * leaves `other` without a descriptor.  The descriptor this socket
     * held is not closed.
     */
    method MoveAssign(other: Socket)
      modifies this, other
      ensures other != this ==> fd == old(other.fd) && address == old(other.address) && port == old(other.port)
      ensures other != this ==> other.fd == Invalid && other.port == old(other.port)
      ensures other == this ==> fd == Invalid && port == old(port)
      ensures other.Mode() == Unconfigured
    {
      fd := other.fd;
      other.fd := Invalid;
      var moved := other.address;
      other.address := "";
      address := moved;
      port := other.port;
    }

    /** The destructor: closes the descriptor, if any. */
    method Dispose(k: Kernel)
      requires k.Valid()
      modifies k
      ensures k.Valid()
      ensures fd != Invalid ==> k.open == old(k.open) - {fd}
      ensures fd == Invalid ==> k.open == old(k.open)
    {
      if fd != Invalid {
        k.Close(fd);
      }
    }

    /**
     * listen: socket, bind to the port on every interface, non-blocking,
     * listen.  The fields change only when all four steps succeed.
     */
    method Listen(k: Kernel, p: nat, os: ListenOs) returns (r: Outcome)
      requires k.Valid()
      modifies this, k
      ensures k.Valid()
      ensures old(fd) != Invalid ==> r == Fail(AlreadyConfigured)
      ensures r.Pass? <==> old(fd) == Invalid && os.create && os.bind && os.nonBlocking && os.listen
      ensures old(fd) == Invalid ==>
                (!os.create ==> r == Fail(CreateFailed))
                && (os.create && !os.bind ==> r == Fail(BindFailed))
                && (os.create && os.bind && !os.nonBlocking ==> r == Fail(NonBlockingFailed))
                && (os.create && os.bind && os.nonBlocking && !os.listen ==> r == Fail(ListenFailed))
      ensures r.Fail? ==> fd == old(fd) && address == old(address) && port == old(port) && k.open == old(k.open)
      ensures r.Pass? ==> fd !in old(k.open) && k.open == old(k.open) + {fd}
      ensures r.Pass? ==> address == AnyAddress && port == p
      ensures r.Pass? ==> (IsListening() <==> p != 0) && !IsConnected()
    {
      if fd != Invalid {
        return Fail(AlreadyConfigured);
      }
      var s := k.Create(os.create);
      if s == Invalid {
        return Fail(CreateFailed);
      }
      if !os.bind {
        k.Close(s);
        return Fail(BindFailed);
      }
      if !os.nonBlocking {
        k.Close(s);
        return Fail(NonBlockingFailed);
      }
      if !os.listen {
        k.Close(s);
        return Fail(ListenFailed);
      }
      fd, address, port := s, AnyAddress, p;
      return Pass;
    }

    /** has_client: only a listening socket can have a client, and only when poll reports it readable. */
    method HasClient(poll: PollAnswer) returns (b: bool)
      ensures b <==> IsListening() && poll.result > 0 && poll.ready
    {
      if !IsListening() {
        return false;
      }
      if poll.result <= 0 {
        return false;
      }
      return poll.ready;
    }

    /**
     * accept: a new connected socket for a queued client, nothing when the
     * OS would block, an error otherwise.  When the client's descriptor
     * cannot be made non-blocking the new socket is destroyed, closing it.
     */
    method Accept(k: Kernel, answer: AcceptAnswer) returns (r: Result<Option<Socket>>)
      requires k.Valid()
      modifies k
      ensures k.Valid()
      ensures !IsListening() ==> r == Err(NotListening) && k.open == old(k.open)
      ensures IsListening() && answer.AcceptRefused? ==>
                k.open == old(k.open)
                && r == (if answer.code == Posix.WouldBlock() then Ok(None) else Err(AcceptFailed))
      ensures IsListening() && answer.Client? && !answer.nonBlocking ==>
                r == Err(NonBlockingFailed) && k.open == old(k.open)
      ensures IsListening() && answer.Client? && answer.nonBlocking ==>
                r.Ok? && r.value.Some? && fresh(r.value.value)
                && r.value.value.fd !in old(k.open) && k.open == old(k.open) + {r.value.value.fd}
                && r.value.value.address == answer.address && r.value.value.port == answer.port
    {
      if !IsListening() {
        return Err(NotListening);
      }
      match answer {
        case AcceptRefused(code) =>
          if code == Posix.WouldBlock() {
            return Ok(None);
          }
          return Err(AcceptFailed);
        case Client(text, clientPort, nonBlocking) =>
          var s := k.Create(true);
          var ret := new Socket();
          ret.fd, ret.address, ret.port := s, text, clientPort;
          if !nonBlocking {
            ret.Dispose(k);
            return Err(NonBlockingFailed);
          }
          return Ok(Some(ret));
      }
    }

    /**
     * connect: socket, resolve, address to text, connect, non-blocking.
     * On success the socket records the resolved address, not the name
     * it was given.
     */
    method Connect(k: Kernel, name: string, p: nat, os: ConnectOs) returns (r: Outcome)
      requires k.Valid()
      modifies this, k
      ensures k.Valid()
      ensures old(fd) != Invalid ==> r == Fail(AlreadyConfigured)
      ensures r.Pass? <==> old(fd) == Invalid && os.create && os.resolve && os.text.Some? && os.connect && os.nonBlocking
      ensures old(fd) == Invalid ==>
                (!os.create ==> r == Fail(CreateFailed))
                && (os.create && !os.resolve ==> r == Fail(ResolveFailed))
                && (os.create && os.resolve && os.text.None? ==> r == Fail(AddressFailed))
                && (os.create && os.resolve && os.text.Some? && !os.connect ==> r == Fail(ConnectFailed))
                && (os.create && os.resolve && os.text.Some? && os.connect && !os.nonBlocking ==> r == Fail(NonBlockingFailed))
      ensures r.Fail? ==> fd == old(fd) && address == old(address) && port == old(port) && k.open == old(k.open)
      ensures r.Pass? ==> fd !in old(k.open) && k.open == old(k.open) + {fd}
      ensures r.Pass? ==> address == os.text.value && port == p
      ensures r.Pass? ==> (IsConnected() <==> os.text.value != AnyAddress && p != 0)
    {
      if fd != Invalid {
        return Fail(AlreadyConfigured);
      }
      var s := k.Create(os.create);
      if s == Invalid {
        return Fail(CreateFailed);
      }
      if !os.resolve {
        k.Close(s);
        return Fail(ResolveFailed);
      }
      if os.text.None? {
        k.Close(s);
        return Fail(AddressFailed);
      }
      if !os.connect {
        k.Close(s);
        return Fail(ConnectFailed);
      }
      if !os.nonBlocking {
        k.Close(s);
        return Fail(NonBlockingFailed);
      }
      fd, address, port := s, os.text.value, p;
      return Pass;
    }

    /** disconnect: a connected socket closes its descriptor and forgets its peer; any other is left alone. */
    method Disconnect(k: Kernel)
      requires k.Valid()
      modifies this, k
      ensures k.Valid()
      ensures old(IsConnected()) ==>
                fd == Invalid && address == AnyAddress && port == 0 && k.open == old(k.open) - {old(fd)}
      ensures !old(IsConnected()) ==> fd == old(fd) && address == old(address) && port == old(port) && k.open == old(k.open)
      ensures !IsConnected()
    {
      if IsConnected() {
        k.Close(fd);
        fd, address, port := Invalid, AnyAddress, 0;
      }
    }

    /**
     * send: refuses unless connected, then sends the data in packets,
     * retrying "would block" answers; the OS receives exactly the data
     * when the send returns normally.
     */
    method Send(cfg: Config, data: seq<byte>, answers: seq<SendAnswer>) returns (r: Outcome, wire: seq<byte>, offers: seq<nat>)
      requires cfg.Valid()
      ensures !IsConnected() ==> r == Fail(NotConnected) && wire == [] && offers == []
      ensures IsConnected() ==> NativeSend.SendRun(r, wire, offers) == NativeSend.Send(Posix, cfg, data, answers)
      ensures r.Pass? ==> wire == data
      ensures IsConnected() && data == [] ==> r == Pass && offers == []
    {
      if !IsConnected() {
        return Fail(NotConnected), [], [];
      }
      NativeSend.SendContract(Posix, cfg, data, answers);
      var run := NativeSend.Transmit(Posix, cfg, data, answers);
      return run.outcome, run.wire, run.offers;
    }

    /** receive: refuses unless connected, then drains what the OS has. */
    method Receive(answers: seq<RecvAnswer>) returns (r: Result<seq<byte>>)
      ensures !IsConnected() ==> r == Err(NotConnected)
      ensures IsConnected() ==> r == NativeReceive.Drained(Posix, answers)
    {
      if !IsConnected() {
        return Err(NotConnected);
      }
      r := NativeReceive.Drain(Posix, answers);
    }
  }
}
