/**
 * The TLS socket: a native socket plus an OpenSSL session, with the
 * handshake driven lazily by the first send or receive, and the shared
 * OpenSSL context kept alive by a reference count.  The engine's answers
 * are scripts: SSL_connect / SSL_accept answer 1, 0 or -1 with an
 * SSL_get_error code; SSL_write / SSL_read answer a byte count or an
 * error code.  Past the end of a script the engine keeps asking to be
 * called again (WANT_READ / WANT_WRITE).
 */
module TlsSocket {
  import opened Common
  import opened NativeOs
  import UnixSocket
  import NativeReceive

  /** estado_handshake: which engine call the handshake makes, or done. */
  datatype Handshake = Connecting | Accepting | Done

  /** SSL_ERROR_WANT_READ, SSL_ERROR_WANT_WRITE, SSL_ERROR_SYSCALL. */
  const WantRead: int := 2
  const WantWrite: int := 3
  const SyscallError: int := 5

  /** The engine asks to be called again. */
  predicate Want(code: int)
  {
    code == WantRead || code == WantWrite
  }

  /** The handshake's own timer: 50 ms per WANT signal, giving up at 1000 ms. */
  const HandshakeStep: nat := 50
  const HandshakeLimit: nat := 1000

  /*
   * ---------------------------------------------------------------------
   * Retry timers
   * ---------------------------------------------------------------------
   */

  /**
   * The number of engine calls a retry loop makes at most, when each WANT
   * signal adds `step` to the time waited and the loop gives up once that
   * time reaches `limit`.
   */
  function Calls(step: nat, limit: nat): (n: nat)
    requires step > 0
    ensures n >= 1 && n * step >= limit
    ensures n == 1 || (n - 1) * step < limit
    decreases limit
  {
    if limit <= step then 1 else 1 + Calls(step, limit - step)
  }

  lemma {:induction false} MulMonotone(a: nat, b: nat, step: nat)
    requires a <= b
    ensures a * step <= b * step
  {
    if a < b {
      MulMonotone(a, b - 1, step);
      assert b * step == (b - 1) * step + step;
    }
  }

  /** The w-th WANT signal (counting from 1) ends the loop exactly when w reaches the number of calls. */
  lemma TimesOutIff(step: nat, limit: nat, w: nat)
    requires step > 0 && w >= 1
    ensures w * step >= limit <==> w >= Calls(step, limit)
  {
    var n := Calls(step, limit);
    if w >= n {
      MulMonotone(n, w, step);
    } else {
      MulMonotone(w, n - 1, step);
    }
  }

  /** The handshake gives up at its 20th WANT signal. */
  lemma HandshakeCalls()
    ensures Calls(HandshakeStep, HandshakeLimit) == 20
  {
    var n := Calls(HandshakeStep, HandshakeLimit);
    assert n * 50 >= 1000 && (n == 1 || (n - 1) * 50 < 1000);
  }

  /*
   * ---------------------------------------------------------------------
   * The handshake
   * ---------------------------------------------------------------------
   */

  /** What SSL_connect / SSL_accept return: 1, 0, or -1 with the SSL_get_error code. */
  datatype StepAnswer = Completed | Aborted | Signalled(code: int)

  function StepAt(answers: seq<StepAnswer>, i: nat): (a: StepAnswer)
    ensures i >= |answers| ==> a == Signalled(WantRead)
  {
    if i < |answers| then answers[i] else Signalled(WantRead)
  }

  /** An answer after which the handshake calls the engine again. */
  predicate Waiting(a: StepAnswer)
  {
    a.Signalled? && Want(a.code)
  }

  /** How an answer that is not a WANT signal ends the handshake. */
  function Decided(a: StepAnswer): Outcome
  {
    match a
    case Completed => Pass
    case Aborted => Fail(HandshakeFailed)
    case Signalled(code) => Fail(HandshakeError(code))
  }

  /** A handshake's outcome and the number of engine calls it made. */
  datatype Run = Run(outcome: Outcome, steps: nat)

  /** The handshake loop from the i-th engine call, `elapsed` ms having been waited. */
  function Handshaking(answers: seq<StepAnswer>, i: nat, elapsed: nat): Run
    requires elapsed < HandshakeLimit
    decreases HandshakeLimit - elapsed
  {
    var a := StepAt(answers, i);
    if !Waiting(a) then Run(Decided(a), i + 1)
    else if elapsed + HandshakeStep >= HandshakeLimit then Run(Fail(TlsTimeout), i + 1)
    else Handshaking(answers, i + 1, elapsed + HandshakeStep)
  }

  lemma {:induction false} HandshakingSettles(answers: seq<StepAnswer>, i: nat)
    requires i < 20
    ensures var run := Handshaking(answers, i, HandshakeStep * i);
            && i < run.steps <= 20
            && (forall j :: i <= j < run.steps - 1 ==> Waiting(StepAt(answers, j)))
            && (Waiting(StepAt(answers, run.steps - 1)) ==> run.steps == 20 && run.outcome == Fail(TlsTimeout))
            && (!Waiting(StepAt(answers, run.steps - 1)) ==> run.outcome == Decided(StepAt(answers, run.steps - 1)))
    decreases 20 - i
  {
    if Waiting(StepAt(answers, i)) && i + 1 < 20 {
      assert HandshakeStep * i + HandshakeStep == HandshakeStep * (i + 1);
      HandshakingSettles(answers, i + 1);
    }
  }

  /**
   * handshake(): at most 20 engine calls; every call but the last got a
   * WANT signal; the last decides: 1 completes, 0 or another error code
   * fails, and a 20th WANT signal times out.
   */
  lemma HandshakeContract(answers: seq<StepAnswer>)
    ensures var run := Handshaking(answers, 0, 0);
            && 1 <= run.steps <= 20
            && (forall j :: 0 <= j < run.steps - 1 ==> Waiting(StepAt(answers, j)))
            && (run.outcome == Pass <==> StepAt(answers, run.steps - 1) == Completed)
            && (run.outcome == Fail(TlsTimeout) <==> run.steps == 20 && Waiting(StepAt(answers, 19)))
  {
    HandshakingSettles(answers, 0);
  }

  /*
   * ---------------------------------------------------------------------
   * Writing and reading
   * ---------------------------------------------------------------------
   */

  /** What SSL_write answers: the byte count it took (ret > 0), or else an SSL_get_error code. */
  datatype WriteAnswer = WriteAnswer(ret: int, code: int)

  function WriteAt(answers: seq<WriteAnswer>, i: nat): (a: WriteAnswer)
    ensures i >= |answers| ==> a == WriteAnswer(-1, WantWrite)
  {
    if i < |answers| then answers[i] else WriteAnswer(-1, WantWrite)
  }

  predicate WriteWaiting(a: WriteAnswer)
  {
    a.ret <= 0 && Want(a.code)
  }

  /** How a write answer that is not a WANT signal ends the write of `size` bytes. */
  function WriteDecided(size: nat, a: WriteAnswer): Outcome
  {
    if a.ret > 0 then (if a.ret == size then Pass else Fail(IncompleteWrite))
    else Fail(TlsWriteError(a.code))
  }

  /** The SSL_write loop of enviar from the i-th call, `elapsed` ms having been waited. */
  function Writing(cfg: Config, size: nat, answers: seq<WriteAnswer>, i: nat, elapsed: nat): Run
    requires cfg.Valid()
    decreases if elapsed <= cfg.ioTimeout then cfg.ioTimeout - elapsed else 0
  {
    var a := WriteAt(answers, i);
    if !WriteWaiting(a) then Run(WriteDecided(size, a), i + 1)
    else if elapsed + cfg.stepMin >= cfg.ioTimeout then Run(Fail(TlsTimeout), i + 1)
    else Writing(cfg, size, answers, i + 1, elapsed + cfg.stepMin)
  }

  lemma {:induction false} WritingSettles(cfg: Config, size: nat, answers: seq<WriteAnswer>, i: nat)
    requires cfg.Valid() && i < Calls(cfg.stepMin, cfg.ioTimeout)
    ensures var n := Calls(cfg.stepMin, cfg.ioTimeout);
            var run := Writing(cfg, size, answers, i, cfg.stepMin * i);
            && i < run.steps <= n
            && (forall j :: i <= j < run.steps - 1 ==> WriteWaiting(WriteAt(answers, j)))
            && (WriteWaiting(WriteAt(answers, run.steps - 1)) ==> run.steps == n && run.outcome == Fail(TlsTimeout))
            && (!WriteWaiting(WriteAt(answers, run.steps - 1)) ==> run.outcome == WriteDecided(size, WriteAt(answers, run.steps - 1)))
    decreases Calls(cfg.stepMin, cfg.ioTimeout) - i
  {
    var n := Calls(cfg.stepMin, cfg.ioTimeout);
    assert cfg.stepMin * i + cfg.stepMin == (i + 1) * cfg.stepMin;
    TimesOutIff(cfg.stepMin, cfg.ioTimeout, i + 1);
    if WriteWaiting(WriteAt(answers, i)) && i + 1 < n {
      assert cfg.stepMin * (i + 1) == (i + 1) * cfg.stepMin;
      WritingSettles(cfg, size, answers, i + 1);
    }
  }

  /**
   * enviar's write loop: a bounded number of calls; it succeeds exactly
   * when the engine takes all the bytes at once after WANT signals only.
   */
  lemma WriteContract(cfg: Config, size: nat, answers: seq<WriteAnswer>)
    requires cfg.Valid()
    ensures var run := Writing(cfg, size, answers, 0, 0);
            && 1 <= run.steps <= Calls(cfg.stepMin, cfg.ioTimeout)
            && (forall j :: 0 <= j < run.steps - 1 ==> WriteWaiting(WriteAt(answers, j)))
            && (run.outcome == Pass <==> WriteAt(answers, run.steps - 1).ret == size && size > 0)
            && (WriteAt(answers, run.steps - 1).ret > 0 && WriteAt(answers, run.steps - 1).ret != size ==>
                  run.outcome == Fail(IncompleteWrite))
  {
    WritingSettles(cfg, size, answers, 0);
  }

  /** What SSL_read answers: the bytes it read (ret > 0), or else an error code and whether the OpenSSL error queue is empty. */
  datatype ReadAnswer = ReadAnswer(bytes: seq<byte>, code: int, queueEmpty: bool)

  function ReadAt(answers: seq<ReadAnswer>, i: nat): (a: ReadAnswer)
    ensures i >= |answers| ==> a == ReadAnswer([], WantRead, true)
  {
    if i < |answers| then answers[i] else ReadAnswer([], WantRead, true)
  }

  /** A read that filled the whole buffer, after which receber reads again. */
  predicate FullBlock(cfg: Config, a: ReadAnswer)
  {
    |a.bytes| == cfg.packetSize
  }

  /** The number of leading reads that filled the buffer. */
  function FullRun(cfg: Config, answers: seq<ReadAnswer>): (k: nat)
    ensures k <= |answers|
    ensures forall j :: 0 <= j < k ==> FullBlock(cfg, answers[j])
    ensures k < |answers| ==> !FullBlock(cfg, answers[k])
  {
    if answers == [] || !FullBlock(cfg, answers[0]) then 0 else 1 + FullRun(cfg, answers[1..])
  }

  /** The bytes the first k reads returned, in order. */
  function Blocks(answers: seq<ReadAnswer>, k: nat): seq<byte>
    requires k <= |answers|
  {
    if k == 0 then [] else Blocks(answers, k - 1) + answers[k - 1].bytes
  }

  /**
   * What receber's read loop returns, decided by the first read that did
   * not fill the buffer: everything read up to it, unless it is an error.
   * An SSL_ERROR_SYSCALL with an empty error queue first asks the native
   * socket, whose own error (such as "disconnected") takes precedence.
   */
  function Reading(cfg: Config, answers: seq<ReadAnswer>, native: Result<seq<byte>>): Result<seq<byte>>
  {
    var k := FullRun(cfg, answers);
    var data := Blocks(answers, k);
    var a := ReadAt(answers, k);
    if a.bytes != [] then Ok(data + a.bytes)
    else if Want(a.code) then (if cfg.stepMin >= cfg.ioTimeout then Err(TlsTimeout) else Ok(data))
    else if a.code == SyscallError && a.queueEmpty && native.Err? then Err(native.error)
    else Err(TlsReadError(a.code))
  }

  lemma {:induction false} BlocksLength(cfg: Config, answers: seq<ReadAnswer>, k: nat)
    requires k <= |answers| && forall j :: 0 <= j < k ==> FullBlock(cfg, answers[j])
    ensures |Blocks(answers, k)| == k * cfg.packetSize
  {
    if k > 0 {
      BlocksLength(cfg, answers, k - 1);
      assert FullBlock(cfg, answers[k - 1]);
    }
  }

  /**
   * receber's read loop returns k whole buffers followed by the read that
   * did not fill one; it returns nothing only when the first read had
   * nothing and asked to be called again.
   */
  lemma ReadContract(cfg: Config, answers: seq<ReadAnswer>, native: Result<seq<byte>>)
    requires cfg.Valid()
    ensures var k := FullRun(cfg, answers);
            var r := Reading(cfg, answers, native);
            && |Blocks(answers, k)| == k * cfg.packetSize
            && (r.Ok? ==> r.value == Blocks(answers, k) + ReadAt(answers, k).bytes
                          && |ReadAt(answers, k).bytes| != cfg.packetSize)
            && (r == Ok([]) <==> k == 0 && ReadAt(answers, 0).bytes == [] && Want(ReadAt(answers, 0).code)
                                 && cfg.stepMin < cfg.ioTimeout)
  {
    var k := FullRun(cfg, answers);
    BlocksLength(cfg, answers, k);
    if k > 0 {
      assert |Blocks(answers, k)| >= cfg.packetSize;
    }
  }

  /*
   * ---------------------------------------------------------------------
   * The shared OpenSSL context
   * ---------------------------------------------------------------------
   */

  /**
   * openssl_ctx_contador and openssl_ctxe: the number of holders of the
   * shared context and whether it is created.  `holders` are the
   * objects that took a reference and have not given it back.
   */
  class Context {
    var count: nat
    var created: bool
    ghost var holders: set<object>

    /** One reference per holder, and the context is created exactly while there is one. */
    ghost predicate Valid()
      reads this
    {
      count == |holders| && (created <==> count > 0)
    }

    constructor()
      ensures Valid() && holders == {} && !created
    {
      count := 0;
      created := false;
      holders := {};
    }

    /**
     * openssl_ctx: take a reference, allocating the context on the first;
     * when SSL_CTX_new fails the increment is undone.
     */
    method Acquire(o: object, alloc: bool) returns (r: Outcome)
      requires Valid() && o !in holders
      modifies this
      ensures Valid()
      ensures r.Pass? <==> old(count) > 0 || alloc
      ensures r.Fail? ==> r == Fail(ContextAllocFailed) && holders == old(holders) && count == old(count)
      ensures r.Pass? ==> holders == old(holders) + {o} && count == old(count) + 1
    {
      var first := count == 0;
      count := count + 1;
      if first {
        if !alloc {
          count := count - 1;
          return Fail(ContextAllocFailed);
        }
        created := true;
      }
      holders := holders + {o};
      return Pass;
    }

    /** openssl_ctx_free: give a reference back, freeing the context with the last. */
    method Release(o: object)
      requires Valid() && o in holders
      modifies this
      ensures Valid()
      ensures holders == old(holders) - {o} && count == old(count) - 1
      ensures old(count) == 1 ==> !created
    {
      holders := holders - {o};
      count := count - 1;
      if count == 0 {
        created := false;
      }
    }
  }

  /** A holder of a reference keeps the context created. */
  lemma HolderCounted(ctx: Context, o: object)
    requires ctx.Valid() && o in ctx.holders
    ensures ctx.count > 0 && ctx.created
  {
    assert {o} <= ctx.holders;
  }

  /** The value an unsigned 32-bit counter wraps to below 0. */
  const UIntMax: nat := 0xFFFF_FFFF

  /** A call to openssl_ctx() (which takes a reference) or openssl_ctx_free() (which gives one back). */
  datatype CtxCall = Take | Drop

  /**
   * The counter and the allocation after a sequence of calls, from
   * `count` and `created`, every allocation succeeding.
   */
  function Replay(count: nat, created: bool, calls: seq<CtxCall>): (nat, bool)
    decreases |calls|
  {
    if calls == [] then (count, created)
    else match calls[0]
      case Take => Replay(count + 1, count == 0 || created, calls[1..])
      case Drop =>
        if count == 0 then Replay(UIntMax, created, calls[1..])
        else Replay(count - 1, created && count != 1, calls[1..])
  }

  /** The calls a client socket makes in its life as written: the constructor takes two references, the destructor drops one. */
  const ClientLifeAsWritten: seq<CtxCall> := [Take, Take, Drop]

  /** The calls a socket makes in its life: one reference taken, one given back. */
  const Life: seq<CtxCall> := [Take, Drop]

  /**
   * As written, once the only client socket is gone the counter is still
   * 1 and the context is never freed.
   */
  lemma ClientLifeLeaks()
    ensures Replay(0, false, ClientLifeAsWritten) == (1, true)
  {
  }

  /** A balanced life leaves the counter where it was, and frees the context when it was the only one. */
  lemma LifeBalanced(count: nat, created: bool)
    ensures Replay(count, created, Life).0 == count
    ensures count == 0 ==> Replay(count, created, Life) == (0, false)
  {
  }

  /*
   * ---------------------------------------------------------------------
   * The socket
   * ---------------------------------------------------------------------
   */

  class Socket {
    /** m_sock: the native socket (its POSIX build). */
    var sock: UnixSocket.Socket
    /** m_sock_ssl is set. */
    var session: bool
    var state: Handshake

    /** The fields of a socket without a session, about to connect. */
    constructor Empty(native: UnixSocket.Socket)
      ensures sock == native && !session && state == Connecting
    {
      sock := native;
      session := false;
      state := Connecting;
    }

    /** tls_socket(): an unconnected socket, in state conectar, holding a context reference. */
    static method New(ctx: Context, alloc: bool) returns (r: Result<Socket>)
      requires ctx.Valid()
      modifies ctx
      ensures ctx.Valid()
      ensures r.Ok? <==> old(ctx.count) > 0 || alloc
      ensures r.Err? ==> r.error == ContextAllocFailed && ctx.holders == old(ctx.holders)
      ensures r.Ok? ==> fresh(r.value) && fresh(r.value.sock) && ctx.holders == old(ctx.holders) + {r.value}
      ensures r.Ok? ==> r.value.state == Connecting && !r.value.session && r.value.sock.Mode() == Unconfigured
    {
      var native := new UnixSocket.Socket();
      var t := new Socket.Empty(native);
      var taken := ctx.Acquire(t, alloc);
      if taken.Fail? {
        return Err(taken.error);
      }
      return Ok(t);
    }

    /**
     * tls_socket(SSL*, socket): a server-side socket around an accepted
     * native socket and its session, in state aceitar.
     */
    static method Accepted(ctx: Context, native: UnixSocket.Socket) returns (t: Socket)
      requires ctx.Valid() && ctx.count > 0
      modifies ctx
      ensures ctx.Valid()
      ensures fresh(t) && ctx.holders == old(ctx.holders) + {t}
      ensures t.sock == native && t.session && t.state == Accepting
    {
      t := new Socket.Empty(native);
      t.session, t.state := true, Accepting;
      var taken := ctx.Acquire(t, true);
    }

    /**
     * tls_socket(ip, port): connect the native socket, then allocate a
     * session and bind it to the descriptor.  The context reference is
     * taken once, and given back if a later step fails; a failure also
     * destroys the native socket.
     */
    static method Connect(k: Kernel, ctx: Context, alloc: bool, name: string, p: nat, os: ConnectOs,
                          sslNew: bool, setFd: bool) returns (r: Result<Socket>)
      requires k.Valid() && ctx.Valid()
      modifies k, ctx
      ensures k.Valid() && ctx.Valid()
      ensures r.Ok? <==> os.create && os.resolve && os.connect && os.nonBlocking
                         && (old(ctx.count) > 0 || alloc) && sslNew && setFd
      ensures r.Err? ==> k.open == old(k.open) && ctx.holders == old(ctx.holders) && ctx.count == old(ctx.count)
      ensures os.create && os.resolve && os.connect && os.nonBlocking && (old(ctx.count) > 0 || alloc) ==>
                (!sslNew ==> r == Err(SessionAllocFailed)) && (sslNew && !setFd ==> r == Err(SessionBindFailed))
      ensures r.Ok? ==> fresh(r.value) && fresh(r.value.sock) && ctx.holders == old(ctx.holders) + {r.value}
                        && ctx.count == old(ctx.count) + 1
      ensures r.Ok? ==> r.value.state == Connecting && r.value.session
                        && r.value.sock.address == name && r.value.sock.port == p
                        && r.value.sock.fd !in old(k.open) && k.open == old(k.open) + {r.value.sock.fd}
    {
      var native := new UnixSocket.Socket();
      var connected := native.Connect(k, name, p, os);
      if connected.Fail? {
        return Err(connected.error);
      }
      var t := new Socket.Empty(native);
      var taken := ctx.Acquire(t, alloc);
      if taken.Fail? {
        native.Dispose(k);
        return Err(taken.error);
      }
      if !sslNew {
        ctx.Release(t);
        native.Dispose(k);
        return Err(SessionAllocFailed);
      }
      if !setFd {
        ctx.Release(t);
        native.Dispose(k);
        return Err(SessionBindFailed);
      }
      t.session := true;
      return Ok(t);
    }

    /**
     * The move constructor: takes over the native socket, the session and
     * the handshake state, and holds a reference of its own.
     */
    static method Moved(ctx: Context, other: Socket) returns (t: Socket)
      requires ctx.Valid() && other in ctx.holders
      modifies ctx, other, other.sock
      ensures ctx.Valid()
      ensures fresh(t) && fresh(t.sock) && ctx.holders == old(ctx.holders) + {t}
      ensures t.sock.fd == old(other.sock.fd) && t.sock.address == old(other.sock.address) && t.sock.port == old(other.sock.port)
      ensures t.session == old(other.session) && t.state == old(other.state)
      ensures !other.session && other.sock.fd == Invalid && other.state == old(other.state)
    {
      var native := new UnixSocket.Socket.Moved(other.sock);
      t := new Socket.Empty(native);
      t.session, t.state := other.session, other.state;
      other.session := false;
      HolderCounted(ctx, other);
      var taken := ctx.Acquire(t, true);
    }

    /** The move assignment: exchanges the native sockets, sessions and states. */
    method MoveAssign(other: Socket)
      modifies this, other
      ensures sock == old(other.sock) && session == old(other.session) && state == old(other.state)
      ensures other.sock == old(sock) && other.session == old(session) && other.state == old(state)
    {
      sock, other.sock := other.sock, sock;
      session, other.session := other.session, session;
      state, other.state := other.state, state;
    }

    /** The destructor: frees the session, gives the reference back and destroys the native socket. */
    method Dispose(k: Kernel, ctx: Context)
      requires k.Valid() && ctx.Valid() && this in ctx.holders
      modifies k, ctx
      ensures k.Valid() && ctx.Valid()
      ensures ctx.holders == old(ctx.holders) - {this} && ctx.count == old(ctx.count) - 1
      ensures old(ctx.count) == 1 ==> !ctx.created
      ensures sock.fd != Invalid ==> k.open == old(k.open) - {sock.fd}
      ensures sock.fd == Invalid ==> k.open == old(k.open)
    {
      ctx.Release(this);
      sock.Dispose(k);
    }

    /** cifra: the name of the negotiated cipher, or nothing without a session. */
    method Cipher(negotiated: string) returns (name: string)
      ensures session ==> name == negotiated
      ensures !session ==> name == ""
    {
      if session {
        return negotiated;
      }
      return "";
    }

    /**
     * handshake(): SSL_connect (state conectar) or SSL_accept (state
     * aceitar) until it completes, fails or times out; `answers` are that
     * call's answers.  The state becomes ok only on completion.
     */
    method Handshake(answers: seq<StepAnswer>) returns (r: Outcome, steps: nat)
      modifies this
      ensures old(state) == Done ==> r == Fail(AlreadyHandshaken) && steps == 0
      ensures old(state) != Done ==> Run(r, steps) == Handshaking(answers, 0, 0)
      ensures state == (if r.Pass? then Done else old(state))
      ensures sock == old(sock) && session == old(session)
    {
      if state == Done {
        return Fail(AlreadyHandshaken), 0;
      }
      var elapsed: nat := 0;
      var i: nat := 0;
      while true
        invariant elapsed < HandshakeLimit
        invariant Handshaking(answers, i, elapsed) == Handshaking(answers, 0, 0)
        decreases HandshakeLimit - elapsed
      {
        var a := StepAt(answers, i);
        match a {
          case Completed =>
            state := Done;
            return Pass, i + 1;
          case Aborted =>
            return Fail(HandshakeFailed), i + 1;
          case Signalled(code) =>
            if !Want(code) {
              return Fail(HandshakeError(code)), i + 1;
            }
            elapsed := elapsed + HandshakeStep;
            if elapsed >= HandshakeLimit {
              return Fail(TlsTimeout), i + 1;
            }
        }
        i := i + 1;
      }
    }

    /**
     * enviar: refuses unless the native socket is connected, completes the
     * handshake first when needed, then writes all the bytes in one call,
     * retrying WANT signals until the timeout.
     */
    method Send(cfg: Config, data: seq<byte>, hs: seq<StepAnswer>, writes: seq<WriteAnswer>) returns (r: Outcome)
      requires cfg.Valid()
      modifies this
      ensures !sock.IsConnected() ==> r == Fail(NotConnected) && state == old(state)
      ensures sock.IsConnected() && old(state) != Done && Handshaking(hs, 0, 0).outcome.Fail? ==>
                r == Handshaking(hs, 0, 0).outcome && state == old(state)
      ensures sock.IsConnected() && (old(state) == Done || Handshaking(hs, 0, 0).outcome.Pass?) ==>
                r == Writing(cfg, |data|, writes, 0, 0).outcome && state == Done
      ensures sock == old(sock) && session == old(session)
    {
      if !sock.IsConnected() {
        return Fail(NotConnected);
      }
      if state != Done {
        var h, _ := Handshake(hs);
        if h.Fail? {
          return h;
        }
      }
      var elapsed: nat := 0;
      var i: nat := 0;
      while true
        invariant Writing(cfg, |data|, writes, i, elapsed) == Writing(cfg, |data|, writes, 0, 0)
        decreases if elapsed <= cfg.ioTimeout then cfg.ioTimeout - elapsed else 0
      {
        var a := WriteAt(writes, i);
        if a.ret > 0 {
          if a.ret != |data| {
            return Fail(IncompleteWrite);
          }
          return Pass;
        }
        if !Want(a.code) {
          return Fail(TlsWriteError(a.code));
        }
        elapsed := elapsed + cfg.stepMin;
        if elapsed >= cfg.ioTimeout {
          return Fail(TlsTimeout);
        }
        i := i + 1;
      }
    }

    /**
     * receber: refuses unless the native socket is connected, completes
     * the handshake first when needed, then reads while whole buffers come
     * back.  `recv` is what the native socket would answer if asked.
     */
    method Receive(cfg: Config, hs: seq<StepAnswer>, got: seq<ReadAnswer>, recv: seq<RecvAnswer>)
      returns (r: Result<seq<byte>>)
      requires cfg.Valid()
      modifies this
      ensures !sock.IsConnected() ==> r == Err(NotConnected) && state == old(state)
      ensures sock.IsConnected() && old(state) != Done && Handshaking(hs, 0, 0).outcome.Fail? ==>
                r == Err(Handshaking(hs, 0, 0).outcome.error) && state == old(state)
      ensures sock.IsConnected() && (old(state) == Done || Handshaking(hs, 0, 0).outcome.Pass?) ==>
                r == Reading(cfg, got, NativeReceive.Drained(Posix, recv)) && state == Done
      ensures sock == old(sock) && session == old(session)
    {
      if !sock.IsConnected() {
        return Err(NotConnected);
      }
      if state != Done {
        var h, _ := Handshake(hs);
        if h.Fail? {
          return Err(h.error);
        }
      }
      var data: seq<byte> := [];
      var i: nat := 0;
      while true
        invariant i <= FullRun(cfg, got)
        invariant data == Blocks(got, i)
        decreases |got| - i
      {
        var a := ReadAt(got, i);
        if a.bytes != [] {
          data := data + a.bytes;
          if |a.bytes| != cfg.packetSize {
            return Ok(data);
          }
        } else {
          if !Want(a.code) {
            if a.code == SyscallError && a.queueEmpty {
              var native := sock.Receive(recv);
              if native.Err? {
                return Err(native.error);
              }
            }
            return Err(TlsReadError(a.code));
          }
          var elapsed := cfg.stepMin;
          if elapsed >= cfg.ioTimeout {
            return Err(TlsTimeout);
          }
          return Ok(data);
        }
        i := i + 1;
      }
    }
  }

  /*
   * ---------------------------------------------------------------------
   * Handshake between two sockets of the same thread
   * ---------------------------------------------------------------------
   */

  /**
   * The engine calls of estabelecer_handshake as one script: the server
   * side (aceitar) first, then alternately the client side, each side
   * answering from its own script.
   */
  function Interleaved(serv: seq<StepAnswer>, cli: seq<StepAnswer>, k: nat): StepAnswer
  {
    if k % 2 == 0 then StepAt(serv, k / 2) else StepAt(cli, k / 2)
  }

  /** The round-robin loop: the i-th call on the server side, the j-th on the client side. */
  function Pairing(serv: seq<StepAnswer>, cli: seq<StepAnswer>, servTurn: bool, i: nat, j: nat, elapsed: nat): Run
    requires elapsed < HandshakeLimit
    decreases HandshakeLimit - elapsed
  {
    var a := if servTurn then StepAt(serv, i) else StepAt(cli, j);
    if !Waiting(a) then Run(Decided(a), i + j + 1)
    else if elapsed + HandshakeStep >= HandshakeLimit then Run(Fail(TlsTimeout), i + j + 1)
    else if servTurn then Pairing(serv, cli, false, i + 1, j, elapsed + HandshakeStep)
    else Pairing(serv, cli, true, i, j + 1, elapsed + HandshakeStep)
  }

  /** A script that answers like the interleaving up to `n` calls. */
  function InterleavedScript(serv: seq<StepAnswer>, cli: seq<StepAnswer>, n: nat): (s: seq<StepAnswer>)
    ensures |s| == n && forall k :: 0 <= k < n ==> s[k] == Interleaved(serv, cli, k)
  {
    if n == 0 then [] else InterleavedScript(serv, cli, n - 1) + [Interleaved(serv, cli, n - 1)]
  }

  lemma {:induction false} PairingInterleaves(serv: seq<StepAnswer>, cli: seq<StepAnswer>, s: seq<StepAnswer>, k: nat)
    requires k < 20 && |s| == 20 && forall m :: 0 <= m < 20 ==> s[m] == Interleaved(serv, cli, m)
    ensures Pairing(serv, cli, k % 2 == 0, (k + 1) / 2, k / 2, HandshakeStep * k) == Handshaking(s, k, HandshakeStep * k)
    decreases 20 - k
  {
    var a := if k % 2 == 0 then StepAt(serv, (k + 1) / 2) else StepAt(cli, k / 2);
    assert a == StepAt(s, k);
    if Waiting(a) && HandshakeStep * k + HandshakeStep < HandshakeLimit {
      assert HandshakeStep * k + HandshakeStep == HandshakeStep * (k + 1);
      PairingInterleaves(serv, cli, s, k + 1);
    }
  }

  /**
   * estabelecer_handshake is the handshake loop over the interleaved
   * calls: at most 20 calls, alternating sides after every WANT signal,
   * ending on the first answer that is not one.
   */
  lemma PairingIsHandshake(serv: seq<StepAnswer>, cli: seq<StepAnswer>)
    ensures var s := InterleavedScript(serv, cli, 20);
            Pairing(serv, cli, true, 0, 0, 0) == Handshaking(s, 0, 0)
  {
    var s := InterleavedScript(serv, cli, 20);
    PairingInterleaves(serv, cli, s, 0);
  }

  /**
   * estabelecer_handshake: one socket must be in state conectar and the
   * other in aceitar; the aceitar side is called first, and on success
   * both end in state ok.
   */
  method EstablishHandshake(a: Socket, b: Socket, aAnswers: seq<StepAnswer>, bAnswers: seq<StepAnswer>)
    returns (r: Outcome, steps: nat)
    modifies a, b
    ensures !(old(a.state) == Connecting && old(b.state) == Accepting) && !(old(a.state) == Accepting && old(b.state) == Connecting) ==>
              r == Fail(IncompatibleHandshakeStates) && steps == 0
    ensures old(a.state) == Connecting && old(b.state) == Accepting ==>
              Run(r, steps) == Pairing(bAnswers, aAnswers, true, 0, 0, 0)
    ensures old(a.state) == Accepting && old(b.state) == Connecting ==>
              Run(r, steps) == Pairing(aAnswers, bAnswers, true, 0, 0, 0)
    ensures r.Pass? ==> a.state == Done && b.state == Done
    ensures r.Fail? ==> a.state == old(a.state) && b.state == old(b.state)
    ensures a.sock == old(a.sock) && a.session == old(a.session) && b.sock == old(b.sock) && b.session == old(b.session)
  {
    var serv: seq<StepAnswer>, cli: seq<StepAnswer>;
    if a.state == Connecting && b.state == Accepting {
      serv, cli := bAnswers, aAnswers;
    } else if a.state == Accepting && b.state == Connecting {
      serv, cli := aAnswers, bAnswers;
    } else {
      return Fail(IncompatibleHandshakeStates), 0;
    }
    var servTurn := true;
    var i: nat, j: nat := 0, 0;
    var elapsed: nat := 0;
    while true
      invariant elapsed < HandshakeLimit
      invariant Pairing(serv, cli, servTurn, i, j, elapsed) == Pairing(serv, cli, true, 0, 0, 0)
      decreases HandshakeLimit - elapsed
    {
      var answer := if servTurn then StepAt(serv, i) else StepAt(cli, j);
      match answer {
        case Completed =>
          a.state, b.state := Done, Done;
          return Pass, i + j + 1;
        case Aborted =>
          return Fail(HandshakeFailed), i + j + 1;
        case Signalled(code) =>
          if !Want(code) {
            return Fail(HandshakeError(code)), i + j + 1;
          }
      }
      elapsed := elapsed + HandshakeStep;
      if elapsed >= HandshakeLimit {
        return Fail(TlsTimeout), i + j + 1;
      }
      if servTurn {
        i := i + 1;
      } else {
        j := j + 1;
      }
      servTurn := !servTurn;
    }
  }
}
