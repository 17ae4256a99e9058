/**
 * The TLS listening server: a native listening socket plus the paths of
 * the certificate and the private key loaded into the shared OpenSSL
 * context.  Accepted clients become TLS sockets in state aceitar.
 */
module TlsServer {
  import opened Common
  import opened NativeOs
  import UnixSocket
  import TlsSocket

  /**
   * What OpenSSL answers to the three checks of escutar: the certificate
   * file loads, the private key file loads, the two match.
   */
  datatype KeyChecks = KeyChecks(certificate: bool, key: bool, pair: bool)
  {
    predicate Accepted()
    {
      certificate && key && pair
    }

    /** The first check that fails decides the error. */
    function FirstError(): Error
    {
      if !certificate then CertificateError else if !key then KeyError else KeyMismatch
    }
  }

  class Server {
    /** m_sock: the native listening socket (its POSIX build). */
    var listener: UnixSocket.Socket
    var certificatePath: string
    var keyPath: string

    constructor Empty(native: UnixSocket.Socket)
      ensures listener == native && certificatePath == "" && keyPath == ""
    {
      listener := native;
      certificatePath := "";
      keyPath := "";
    }

    /** tls_socket_serv(): a server that does not listen yet, holding a context reference. */
    static method New(ctx: TlsSocket.Context, alloc: bool) returns (r: Result<Server>)
      requires ctx.Valid()
      modifies ctx
      ensures ctx.Valid()
      ensures r.Ok? <==> old(ctx.count) > 0 || alloc
      ensures r.Err? ==> r.error == ContextAllocFailed && ctx.holders == old(ctx.holders)
      ensures r.Ok? ==> fresh(r.value) && fresh(r.value.listener) && ctx.holders == old(ctx.holders) + {r.value}
      ensures r.Ok? ==> r.value.listener.Mode() == Unconfigured && r.value.certificatePath == "" && r.value.keyPath == ""
    {
      var native := new UnixSocket.Socket();
      var s := new Server.Empty(native);
      var taken := ctx.Acquire(s, alloc);
      if taken.Fail? {
        return Err(taken.error);
      }
      return Ok(s);
    }

    /**
     * tls_socket_serv(port, certificate, key): take a context reference,
     * then listen; when listening fails the reference is given back.
     */
    static method Open(k: Kernel, ctx: TlsSocket.Context, alloc: bool, p: nat, certificate: string, key: string,
                       keys: KeyChecks, os: ListenOs) returns (r: Result<Server>)
      requires k.Valid() && ctx.Valid()
      modifies k, ctx
      ensures k.Valid() && ctx.Valid()
      ensures r.Ok? <==> (old(ctx.count) > 0 || alloc) && keys.Accepted()
                         && os.create && os.bind && os.nonBlocking && os.listen
      ensures r.Err? ==> k.open == old(k.open) && ctx.holders == old(ctx.holders) && ctx.count == old(ctx.count)
      ensures (old(ctx.count) > 0 || alloc) && !keys.Accepted() ==> r == Err(keys.FirstError())
      ensures r.Ok? ==> fresh(r.value) && fresh(r.value.listener)
                        && ctx.holders == old(ctx.holders) + {r.value} && ctx.count == old(ctx.count) + 1
      ensures r.Ok? ==> r.value.certificatePath == certificate && r.value.keyPath == key
                        && r.value.listener.address == AnyAddress && r.value.listener.port == p
                        && r.value.listener.fd !in old(k.open) && k.open == old(k.open) + {r.value.listener.fd}
    {
      var native := new UnixSocket.Socket();
      var s := new Server.Empty(native);
      var taken := ctx.Acquire(s, alloc);
      if taken.Fail? {
        return Err(taken.error);
      }
      var listening := s.Listen(k, p, certificate, key, keys, os);
      if listening.Fail? {
        ctx.Release(s);
        return Err(listening.error);
      }
      return Ok(s);
    }

    /** escutando: delegated to the native socket. */
    predicate IsListening()
      reads this, listener
    {
      listener.IsListening()
    }

    /**
     * escutar: check the certificate, then the key, then that they match,
     * failing at the first check that does not pass; then listen on the
     * port.  The listener and the paths change only when all succeed.
     */
    method Listen(k: Kernel, p: nat, certificate: string, key: string, keys: KeyChecks, os: ListenOs)
      returns (r: Outcome)
      requires k.Valid()
      modifies this, listener, k
      ensures k.Valid() && listener == old(listener)
      ensures !keys.Accepted() ==> r == Fail(keys.FirstError())
      ensures r.Pass? <==> keys.Accepted() && old(listener.fd) == Invalid && os.create && os.bind && os.nonBlocking && os.listen
      ensures keys.Accepted() && old(listener.fd) != Invalid ==> r == Fail(AlreadyConfigured)
      ensures r.Fail? ==> certificatePath == old(certificatePath) && keyPath == old(keyPath) && k.open == old(k.open)
                          && listener.fd == old(listener.fd) && listener.address == old(listener.address)
                          && listener.port == old(listener.port)
      ensures r.Pass? ==> certificatePath == certificate && keyPath == key
                          && listener.address == AnyAddress && listener.port == p
                          && listener.fd !in old(k.open) && k.open == old(k.open) + {listener.fd}
      ensures r.Pass? ==> (IsListening() <==> p != 0)
    {
      if !keys.certificate {
        return Fail(CertificateError);
      }
      if !keys.key {
        return Fail(KeyError);
      }
      if !keys.pair {
        return Fail(KeyMismatch);
      }
      r := listener.Listen(k, p, os);
      if r.Fail? {
        return r;
      }
      certificatePath, keyPath := certificate, key;
    }

    /** ha_cliente: delegated to the native socket. */
    method HasClient(poll: PollAnswer) returns (b: bool)
      ensures b <==> IsListening() && poll.result > 0 && poll.ready
    {
      b := listener.HasClient(poll);
    }

    /**
     * aceitar: nothing when the listener has no client; otherwise a new
     * session bound to the accepted socket, wrapped in a TLS socket in
     * state aceitar.  When the session cannot be allocated or bound, it is
     * freed and the accepted socket destroyed.
     */
    method Accept(k: Kernel, ctx: TlsSocket.Context, answer: AcceptAnswer, sslNew: bool, setFd: bool)
      returns (r: Result<Option<TlsSocket.Socket>>)
      requires k.Valid() && ctx.Valid() && this in ctx.holders
      modifies k, ctx
      ensures k.Valid() && ctx.Valid()
      ensures r == Ok(None) <==> IsListening() && answer == AcceptRefused(Posix.WouldBlock())
      ensures !IsListening() ==> r == Err(NotListening)
      ensures r.Err? || r == Ok(None) ==> k.open == old(k.open) && ctx.holders == old(ctx.holders) && ctx.count == old(ctx.count)
      ensures IsListening() && answer.Client? && answer.nonBlocking ==>
                (!sslNew ==> r == Err(SessionAllocFailed)) && (sslNew && !setFd ==> r == Err(SessionBindFailed))
                && (r.Ok? <==> sslNew && setFd)
      ensures r.Ok? && r.value.Some? ==>
                var t := r.value.value;
                && answer.Client? && fresh(t) && fresh(t.sock)
                && t.state == TlsSocket.Accepting && t.session
                && t.sock.address == answer.address && t.sock.port == answer.port
                && t.sock.fd !in old(k.open) && k.open == old(k.open) + {t.sock.fd}
                && ctx.holders == old(ctx.holders) + {t} && ctx.count == old(ctx.count) + 1
    {
      var c := listener.Accept(k, answer);
      if c.Err? {
        return Err(c.error);
      }
      if c.value.None? {
        return Ok(None);
      }
      var native := c.value.value;
      if !sslNew {
        native.Dispose(k);
        return Err(SessionAllocFailed);
      }
      if !setFd {
        native.Dispose(k);
        return Err(SessionBindFailed);
      }
      TlsSocket.HolderCounted(ctx, this);
      var t := TlsSocket.Socket.Accepted(ctx, native);
      return Ok(Some(t));
    }

    /** The move constructor: takes over the listener and the paths, and holds a reference of its own. */
    static method Moved(ctx: TlsSocket.Context, other: Server) returns (s: Server)
      requires ctx.Valid() && other in ctx.holders
      modifies ctx, other, other.listener
      ensures ctx.Valid()
      ensures fresh(s) && fresh(s.listener) && ctx.holders == old(ctx.holders) + {s}
      ensures s.listener.fd == old(other.listener.fd) && s.listener.address == old(other.listener.address)
              && s.listener.port == old(other.listener.port)
      ensures s.certificatePath == old(other.certificatePath) && s.keyPath == old(other.keyPath)
      ensures other.listener.fd == Invalid && !other.IsListening()
    {
      var native := new UnixSocket.Socket.Moved(other.listener);
      s := new Server.Empty(native);
      s.certificatePath, s.keyPath := other.certificatePath, other.keyPath;
      other.certificatePath, other.keyPath := "", "";
      TlsSocket.HolderCounted(ctx, other);
      var taken := ctx.Acquire(s, true);
    }

    /** The move assignment: exchanges the listeners and both paths, so nothing is lost. */
    method MoveAssign(other: Server)
      modifies this, other
      ensures listener == old(other.listener) && certificatePath == old(other.certificatePath) && keyPath == old(other.keyPath)
      ensures other.listener == old(listener) && other.certificatePath == old(certificatePath) && other.keyPath == old(keyPath)
    {
      listener, other.listener := other.listener, listener;
      certificatePath, other.certificatePath := other.certificatePath, certificatePath;
      keyPath, other.keyPath := other.keyPath, keyPath;
    }

    /** The destructor: gives the reference back and destroys the listener. */
    method Dispose(k: Kernel, ctx: TlsSocket.Context)
      requires k.Valid() && ctx.Valid() && this in ctx.holders
      modifies k, ctx
      ensures k.Valid() && ctx.Valid()
      ensures ctx.holders == old(ctx.holders) - {this} && ctx.count == old(ctx.count) - 1
      ensures old(ctx.count) == 1 ==> !ctx.created
      ensures listener.fd != Invalid ==> k.open == old(k.open) - {listener.fd}
      ensures listener.fd == Invalid ==> k.open == old(k.open)
    {
      ctx.Release(this);
      listener.Dispose(k);
    }
  }

  /**
   * The references escutar takes as written: one openssl_ctx() per check
   * it reaches (certificate, key, pairing), none of them given back.
   */
  function ListenTakesAsWritten(keys: KeyChecks): seq<TlsSocket.CtxCall>
  {
    [TlsSocket.Take] + (if keys.certificate then [TlsSocket.Take] + (if keys.key then [TlsSocket.Take] else []) else [])
  }

  /**
   * The context calls of a server constructed with a port as written: the
   * constructor's reference, escutar's, and one reference given back
   * (by the destructor, or by the constructor's guard when escutar fails).
   */
  function ServerLifeAsWritten(keys: KeyChecks): seq<TlsSocket.CtxCall>
  {
    [TlsSocket.Take] + ListenTakesAsWritten(keys) + [TlsSocket.Drop]
  }

  /**
   * As written, whether escutar succeeds or not, once the only server is
   * gone the counter stays at 1 to 3 and the context is never freed.
   */
  lemma ServerLifeLeaks(keys: KeyChecks)
    ensures var after := TlsSocket.Replay(0, false, ServerLifeAsWritten(keys));
            after.0 == |ListenTakesAsWritten(keys)| && 1 <= after.0 <= 3 && after.1
  {
    var calls := ServerLifeAsWritten(keys);
    var n := |ListenTakesAsWritten(keys)|;
    var one := [TlsSocket.Take, TlsSocket.Drop];
    assert TakesThenDrop(1) == one;
    assert TakesThenDrop(2) == [TlsSocket.Take] + one;
    assert TakesThenDrop(3) == [TlsSocket.Take, TlsSocket.Take] + one;
    if !keys.certificate {
      assert calls == [TlsSocket.Take] + TakesThenDrop(1);
    } else if !keys.key {
      assert calls == [TlsSocket.Take] + TakesThenDrop(2);
    } else {
      assert calls == [TlsSocket.Take] + TakesThenDrop(3);
    }
    assert calls[1..] == TakesThenDrop(n);
    ReplayTakes(1, n);
  }

  /** n references taken, then one given back. */
  function TakesThenDrop(n: nat): seq<TlsSocket.CtxCall>
  {
    if n == 0 then [TlsSocket.Drop] else [TlsSocket.Take] + TakesThenDrop(n - 1)
  }

  lemma {:induction false} ReplayTakes(count: nat, n: nat)
    requires count > 0
    decreases n
    ensures TlsSocket.Replay(count, true, TakesThenDrop(n)) == (count + n - 1, count + n != 1)
  {
    if n > 0 {
      ReplayTakes(count + 1, n - 1);
    }
  }

  /**
   * The context calls of an accepted socket as written: aceitar takes one
   * for SSL_new, the socket's constructor another, its destructor gives
   * one back.
   */
  const AcceptedLifeAsWritten: seq<TlsSocket.CtxCall> := [TlsSocket.Take, TlsSocket.Take, TlsSocket.Drop]

  /** As written, every accepted client leaves the counter one higher. */
  lemma AcceptedLifeLeaks(count: nat, created: bool)
    requires count > 0 && created
    ensures TlsSocket.Replay(count, created, AcceptedLifeAsWritten) == (count + 1, true)
  {
  }
}
