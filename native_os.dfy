/**
 * What the three native socket classes share: the descriptor table of the
 * operating system, the way a socket's mode follows from its descriptor,
 * address and port, and the answers the OS gives to the calls the
 * classes make.
 */
module NativeOs {
  import opened Common

  /** SOCKET_INVALID / INVALID_SOCKET: the descriptor of an unconfigured socket. */
  const Invalid: int := -1

  /** The address a listening socket records, and a disconnected one falls back to. */
  const AnyAddress: string := "0.0.0.0"

  datatype Mode = Unconfigured | Listening | Connected

  /**
   * is_connected / is_listening: a valid descriptor with a non-zero port is
   * listening when its address is the wildcard and connected otherwise.
   */
  function ModeOf(fd: int, address: string, port: nat): (m: Mode)
    ensures m == Connected <==> fd != Invalid && address != AnyAddress && port != 0
    ensures m == Listening <==> fd != Invalid && address == AnyAddress && port != 0
    ensures fd == Invalid || port == 0 ==> m == Unconfigured
  {
    if fd == Invalid || port == 0 then Unconfigured
    else if address == AnyAddress then Listening
    else Connected
  }

  /**
   * The descriptors the OS has handed out and not closed yet.  New
   * descriptors are numbered upwards, so each is fresh.
   */
  class Kernel {
    var open: set<int>
    var next: int

    ghost predicate Valid()
      reads this
    {
      0 <= next && forall d :: d in open ==> 0 <= d < next
    }

    constructor()
      ensures Valid() && open == {}
    {
      open := {};
      next := 0;
    }

    /** socket() or accept(): a fresh open descriptor, or Invalid when the OS refuses. */
    method Create(ok: bool) returns (fd: int)
      requires Valid()
      modifies this
      ensures Valid()
      ensures ok ==> fd >= 0 && fd !in old(open) && open == old(open) + {fd}
      ensures !ok ==> fd == Invalid && open == old(open)
    {
      if ok {
        fd := next;
        open := open + {fd};
        next := next + 1;
      } else {
        fd := Invalid;
      }
    }

    /** close() / closesocket(). */
    method Close(fd: int)
      requires Valid()
      modifies this
      ensures Valid() && open == old(open) - {fd}
    {
      open := open - {fd};
    }
  }

  /** The error codes differ between the POSIX socket API and WinSock2. */
  datatype Platform = Posix | Windows
  {
    /** EWOULDBLOCK (the Linux value) / WSAEWOULDBLOCK. */
    function WouldBlock(): int
    {
      if Posix? then 11 else 10035
    }

    /** How a refused send is reported: WinSock2 singles out WSAECONNABORTED. */
    function SendError(code: int): (e: Error)
      ensures e == Disconnected <==> Windows? && code == 10053
      ensures e != Disconnected ==> e == SendFailed(code)
    {
      if Windows? && code == 10053 then Disconnected else SendFailed(code)
    }
  }

  /** What send() answers: it took up to n of the bytes offered, or failed with a code. */
  datatype SendAnswer = Accepted(n: nat) | Refused(code: int)

  /** What recv() answers: some bytes (none when the peer closed), or a failure code. */
  datatype RecvAnswer = Got(bytes: seq<byte>) | RecvRefused(code: int)

  /** The i-th send answer; past the script the OS keeps answering "would block". */
  function SendAt(p: Platform, answers: seq<SendAnswer>, i: nat): (a: SendAnswer)
    ensures i >= |answers| ==> a == Refused(p.WouldBlock())
  {
    if i < |answers| then answers[i] else Refused(p.WouldBlock())
  }

  /** The i-th recv answer; past the script the OS keeps answering "would block". */
  function RecvAt(p: Platform, answers: seq<RecvAnswer>, i: nat): (a: RecvAnswer)
    ensures i >= |answers| ==> a == RecvRefused(p.WouldBlock())
  {
    if i < |answers| then answers[i] else RecvRefused(p.WouldBlock())
  }

  /** Whether a send answer is the "would block" refusal. */
  predicate Blocked(p: Platform, a: SendAnswer)
  {
    a == Refused(p.WouldBlock())
  }

  /**
   * What the OS answers to the steps of listen(): each step succeeds or
   * fails.  Only the WinSock listen resolves its address (getaddrinfo);
   * the POSIX listens bind INADDR_ANY directly and ignore `resolve`.
   */
  datatype ListenOs = ListenOs(create: bool, resolve: bool, bind: bool, nonBlocking: bool, listen: bool)

  /**
   * What the OS answers to the steps of connect(): the resolved address in
   * text form is absent when inet_ntop fails.
   */
  datatype ConnectOs = ConnectOs(create: bool, resolve: bool, text: Option<string>, connect: bool, nonBlocking: bool)

  /**
   * What accept() answers: a client with its dotted-quad address, its port
   * and whether its descriptor could be made non-blocking, or a failure code.
   */
  datatype AcceptAnswer =
    | Client(address: string, port: nat, nonBlocking: bool)
    | AcceptRefused(code: int)

  /** has_client: what poll()/select() reports; `ready` is the readable flag. */
  datatype PollAnswer = PollAnswer(result: int, ready: bool)

  function Min(a: int, b: int): (m: int)
    ensures m <= a && m <= b && (m == a || m == b)
  {
    if a < b then a else b
  }
}
