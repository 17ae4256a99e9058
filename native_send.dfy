/**
 * The chunked send loop of the native sockets.
 *
 * All three classes offer the OS at most one packet of the remaining data
 * per call, retry a "would block" answer up to `maxRetry` times in a row
 * (waiting a growing interval, which is not modelled) and reset the retry
 * count after every successful write.  They differ in how they advance
 * through the data: the module version shrinks a span, the two older
 * versions move an index back and forth around the loop increment.  Both
 * as-written advances lose data in one case each; `Sending` is the
 * intended loop, used by the classes.
 */
module NativeSend {
  import opened Common
  import opened NativeOs

  /** What a send loop did: how it ended, the bytes the OS took in order, and the size offered per call. */
  datatype SendRun = SendRun(outcome: Outcome, wire: seq<byte>, offers: seq<nat>)

  /** Scripted answers not used yet; past the script only retries remain. */
  function Left(answers: seq<SendAnswer>, i: nat): nat
  {
    if i < |answers| then |answers| - i else 0
  }

  /**
   * The intended send loop from call i, with `pos` bytes delivered,
   * `retry` consecutive would-blocks so far, and what was delivered and
   * offered until now.
   */
  function Sending(p: Platform, cfg: Config, data: seq<byte>, answers: seq<SendAnswer>,
                   i: nat, pos: nat, retry: nat, wire: seq<byte>, offers: seq<nat>): SendRun
    requires cfg.Valid() && pos <= |data| && retry <= cfg.maxRetry
    decreases Left(answers, i), cfg.maxRetry - retry
  {
    if pos == |data| then SendRun(Pass, wire, offers)
    else
      var chunk: nat := Min(|data| - pos, cfg.packetSize);
      match SendAt(p, answers, i)
      case Accepted(n) =>
        var took: nat := Min(n, chunk);
        Sending(p, cfg, data, answers, i + 1, pos + took, 0, wire + data[pos..pos + took], offers + [chunk])
      case Refused(code) =>
        if retry < cfg.maxRetry && code == p.WouldBlock() then
          Sending(p, cfg, data, answers, i + 1, pos, retry + 1, wire, offers + [chunk])
        else SendRun(Fail(p.SendError(code)), wire, offers + [chunk])
  }

  /** The loop as the classes run it: from the start of the data, nothing sent, no retries. */
  function Send(p: Platform, cfg: Config, data: seq<byte>, answers: seq<SendAnswer>): SendRun
    requires cfg.Valid()
  {
    Sending(p, cfg, data, answers, 0, 0, 0, [], [])
  }

  /** The send loop: the intended advance by exactly what the OS took. */
  method Transmit(p: Platform, cfg: Config, data: seq<byte>, answers: seq<SendAnswer>) returns (run: SendRun)
    requires cfg.Valid()
    ensures run == Send(p, cfg, data, answers)
  {
    var i: nat, pos: nat, retry: nat := 0, 0, 0;
    var wire: seq<byte>, offers: seq<nat> := [], [];
    while pos < |data|
      invariant pos <= |data| && retry <= cfg.maxRetry
      invariant Sending(p, cfg, data, answers, i, pos, retry, wire, offers) == Send(p, cfg, data, answers)
      decreases Left(answers, i), cfg.maxRetry - retry
    {
      var chunk: nat := Min(|data| - pos, cfg.packetSize);
      var answer := if i < |answers| then answers[i] else Refused(p.WouldBlock());
      offers := offers + [chunk];
      match answer {
        case Accepted(n) =>
          var took: nat := Min(n, chunk);
          wire := wire + data[pos..pos + took];
          pos := pos + took;
          retry := 0;
        case Refused(code) =>
          if retry < cfg.maxRetry && code == p.WouldBlock() {
            retry := retry + 1;
          } else {
            return SendRun(Fail(p.SendError(code)), wire, offers);
          }
      }
      i := i + 1;
    }
    return SendRun(Pass, wire, offers);
  }

  // ---------------------------------------------------------------------
  // Properties of the intended loop

  /** The OS receives a prefix of the data, and all of it when the send returns normally. */
  lemma {:induction false} SendingDelivers(p: Platform, cfg: Config, data: seq<byte>, answers: seq<SendAnswer>,
                                           i: nat, pos: nat, retry: nat, wire: seq<byte>, offers: seq<nat>)
    requires cfg.Valid() && pos <= |data| && retry <= cfg.maxRetry
    requires wire == data[..pos]
    ensures var r := Sending(p, cfg, data, answers, i, pos, retry, wire, offers);
            |r.wire| <= |data| && r.wire == data[..|r.wire|] && (r.outcome.Pass? ==> r.wire == data)
    decreases Left(answers, i), cfg.maxRetry - retry
  {
    assert |wire| == pos;
    if pos < |data| {
      var chunk: nat := Min(|data| - pos, cfg.packetSize);
      match SendAt(p, answers, i)
      case Accepted(n) =>
        var took: nat := Min(n, chunk);
        assert data[..pos + took] == data[..pos] + data[pos..pos + took];
        SendingDelivers(p, cfg, data, answers, i + 1, pos + took, 0, wire + data[pos..pos + took], offers + [chunk]);
      case Refused(code) =>
        if retry < cfg.maxRetry && code == p.WouldBlock() {
          SendingDelivers(p, cfg, data, answers, i + 1, pos, retry + 1, wire, offers + [chunk]);
        }
    } else {
      assert data[..pos] == data;
    }
  }

  /** Every offer is between one byte and one packet. */
  predicate Packets(offers: seq<nat>, size: nat)
  {
    forall k :: 0 <= k < |offers| ==> 0 < offers[k] <= size
  }

  /** Every call offers between one byte and one packet. */
  lemma {:induction false} SendingOffersPackets(p: Platform, cfg: Config, data: seq<byte>, answers: seq<SendAnswer>,
                                                i: nat, pos: nat, retry: nat, wire: seq<byte>, offers: seq<nat>)
    requires cfg.Valid() && pos <= |data| && retry <= cfg.maxRetry
    requires Packets(offers, cfg.packetSize)
    ensures Packets(Sending(p, cfg, data, answers, i, pos, retry, wire, offers).offers, cfg.packetSize)
    decreases Left(answers, i), cfg.maxRetry - retry
  {
    if pos < |data| {
      var chunk: nat := Min(|data| - pos, cfg.packetSize);
      var more := offers + [chunk];
      assert Packets(more, cfg.packetSize) by {
        assert 0 < chunk <= cfg.packetSize;
      }
      match SendAt(p, answers, i)
      case Accepted(n) =>
        var took: nat := Min(n, chunk);
        SendingOffersPackets(p, cfg, data, answers, i + 1, pos + took, 0, wire + data[pos..pos + took], more);
      case Refused(code) =>
        if retry < cfg.maxRetry && code == p.WouldBlock() {
          SendingOffersPackets(p, cfg, data, answers, i + 1, pos, retry + 1, wire, more);
        }
    }
  }

  /** The last `retry` answers before call i were all "would block". */
  ghost predicate BlockedRun(p: Platform, answers: seq<SendAnswer>, i: nat, retry: nat)
  {
    retry <= i && forall j :: i - retry <= j < i ==> Blocked(p, SendAt(p, answers, j))
  }

  /**
   * A failed send failed on the answer to its last call and reports that
   * answer's code; it gives up on "would block" only after maxRetry + 1 of
   * them in a row.
   */
  lemma {:induction false} SendingFails(p: Platform, cfg: Config, data: seq<byte>, answers: seq<SendAnswer>,
                                        i: nat, pos: nat, retry: nat, wire: seq<byte>, offers: seq<nat>)
    requires cfg.Valid() && pos <= |data| && retry <= cfg.maxRetry
    requires i == |offers| && BlockedRun(p, answers, i, retry)
    ensures var r := Sending(p, cfg, data, answers, i, pos, retry, wire, offers);
            r.outcome.Fail? ==>
              |r.offers| > 0 && SendAt(p, answers, |r.offers| - 1).Refused?
              && r.outcome.error == p.SendError(SendAt(p, answers, |r.offers| - 1).code)
              && (Blocked(p, SendAt(p, answers, |r.offers| - 1)) ==> BlockedRun(p, answers, |r.offers|, cfg.maxRetry + 1))
    decreases Left(answers, i), cfg.maxRetry - retry
  {
    if pos < |data| {
      var chunk: nat := Min(|data| - pos, cfg.packetSize);
      match SendAt(p, answers, i)
      case Accepted(n) =>
        var took: nat := Min(n, chunk);
        SendingFails(p, cfg, data, answers, i + 1, pos + took, 0, wire + data[pos..pos + took], offers + [chunk]);
      case Refused(code) =>
        if retry < cfg.maxRetry && code == p.WouldBlock() {
          SendingFails(p, cfg, data, answers, i + 1, pos, retry + 1, wire, offers + [chunk]);
        }
    }
  }

  /** When every answer takes at least one byte and there are enough of them, the send completes. */
  lemma {:induction false} SendingCompletes(p: Platform, cfg: Config, data: seq<byte>, answers: seq<SendAnswer>,
                                            i: nat, pos: nat, retry: nat, wire: seq<byte>, offers: seq<nat>)
    requires cfg.Valid() && pos <= |data| && retry <= cfg.maxRetry
    requires forall j :: i <= j < |answers| ==> answers[j].Accepted? && answers[j].n > 0
    requires |data| - pos <= |answers| - i
    ensures Sending(p, cfg, data, answers, i, pos, retry, wire, offers).outcome == Pass
    decreases |data| - pos
  {
    if pos < |data| {
      var chunk: nat := Min(|data| - pos, cfg.packetSize);
      var took: nat := Min(answers[i].n, chunk);
      SendingCompletes(p, cfg, data, answers, i + 1, pos + took, 0, wire + data[pos..pos + took], offers + [chunk]);
    }
  }

  /** Everything the classes rely on, from the start of a send. */
  lemma SendContract(p: Platform, cfg: Config, data: seq<byte>, answers: seq<SendAnswer>)
    requires cfg.Valid()
    ensures var r := Send(p, cfg, data, answers);
            && |r.wire| <= |data| && r.wire == data[..|r.wire|]
            && (r.outcome.Pass? ==> r.wire == data)
            && (data == [] ==> r == SendRun(Pass, [], []))
            && Packets(r.offers, cfg.packetSize)
            && (r.outcome.Fail? ==>
                  |r.offers| > 0 && SendAt(p, answers, |r.offers| - 1).Refused?
                  && r.outcome.error == p.SendError(SendAt(p, answers, |r.offers| - 1).code)
                  && (Blocked(p, SendAt(p, answers, |r.offers| - 1)) ==> BlockedRun(p, answers, |r.offers|, cfg.maxRetry + 1)))
  {
    SendingDelivers(p, cfg, data, answers, 0, 0, 0, [], []);
    SendingOffersPackets(p, cfg, data, answers, 0, 0, 0, [], []);
    SendingFails(p, cfg, data, answers, 0, 0, 0, [], []);
  }

  // ---------------------------------------------------------------------
  // The span-shrinking loop as written (module version)

  /**
   * As `Sending`, except that after a "would block" the span is also shrunk
   * by the chunk size, which was never reset to what the OS took.
   */
  function SendingShrinkAsWritten(p: Platform, cfg: Config, data: seq<byte>, answers: seq<SendAnswer>,
                                  i: nat, pos: nat, retry: nat, wire: seq<byte>, offers: seq<nat>): SendRun
    requires cfg.Valid() && pos <= |data| && retry <= cfg.maxRetry
    decreases Left(answers, i), cfg.maxRetry - retry
  {
    if pos == |data| then SendRun(Pass, wire, offers)
    else
      var chunk: nat := Min(|data| - pos, cfg.packetSize);
      match SendAt(p, answers, i)
      case Accepted(n) =>
        var took: nat := Min(n, chunk);
        SendingShrinkAsWritten(p, cfg, data, answers, i + 1, pos + took, 0, wire + data[pos..pos + took], offers + [chunk])
      case Refused(code) =>
        if retry < cfg.maxRetry && code == p.WouldBlock() then
          SendingShrinkAsWritten(p, cfg, data, answers, i + 1, pos + chunk, retry + 1, wire, offers + [chunk])
        else SendRun(Fail(p.SendError(code)), wire, offers + [chunk])
  }

  /**
   * One byte, one "would block", then an accepting OS: as written the byte
   * is skipped and the send still returns normally; the intended loop
   * retries it.
   */
  lemma ShrinkSkipsBlockedChunk(cfg: Config)
    requires cfg.Valid()
    ensures SendingShrinkAsWritten(Posix, cfg, [7], [Refused(11), Accepted(1)], 0, 0, 0, [], [])
            == SendRun(Pass, [], [1])
    ensures Send(Posix, cfg, [7], [Refused(11), Accepted(1)]) == SendRun(Pass, [7], [1, 1])
  {
    var d: seq<byte> := [7];
    var a := [Refused(11), Accepted(1)];
    assert Posix.WouldBlock() == 11;
    assert SendAt(Posix, a, 0) == Refused(11);
    assert SendAt(Posix, a, 1) == Accepted(1);
    assert Min(1, cfg.packetSize) == 1;
    assert SendingShrinkAsWritten(Posix, cfg, d, a, 1, 1, 1, [], [1]) == SendRun(Pass, [], [1]);
    assert d[0..1] == [7];
    assert Sending(Posix, cfg, d, a, 2, 1, 0, [7], [1, 1]) == SendRun(Pass, [7], [1, 1]);
    assert Sending(Posix, cfg, d, a, 1, 0, 1, [], [1]) == SendRun(Pass, [7], [1, 1]);
  }

  // ---------------------------------------------------------------------
  // The index loop as written (header and Windows versions)

  /**
   * Where the index lands after the loop body moved it back by `back` and
   * the loop increment added min(size - i, packet) to it.
   */
  function IndexAfter(n: nat, b: nat, i: nat, back: nat): int
  {
    (i - back) + Min(n - (i - back), b)
  }

  /**
   * The index arithmetic: a "would block" (moving back a whole packet)
   * returns to the same offset, a complete write advances by the chunk, a
   * short write of a full packet advances by what was taken, but a short
   * write of a tail chunk shorter than a packet jumps past bytes that were
   * never taken.
   */
  lemma IndexAfterCases(n: nat, b: nat, i: nat, took: nat)
    requires b > 0 && i < n
    ensures IndexAfter(n, b, i, b) == i
    ensures IndexAfter(n, b, i, 0) == i + Min(n - i, b)
    ensures n - i >= b && took < b ==> IndexAfter(n, b, i, b - took) == i + took
    ensures n - i < b && took < n - i ==> i + took < IndexAfter(n, b, i, n - i - took) <= n
  {
  }

  /** The index loop as written: `i` is the offset at the top of the loop. */
  function SendingIndexAsWritten(p: Platform, cfg: Config, data: seq<byte>, answers: seq<SendAnswer>,
                                 k: nat, i: nat, retry: nat, wire: seq<byte>, offers: seq<nat>): SendRun
    requires cfg.Valid() && i <= |data| && retry <= cfg.maxRetry
    decreases Left(answers, k), cfg.maxRetry - retry
  {
    if i == |data| then SendRun(Pass, wire, offers)
    else
      var n, b := |data|, cfg.packetSize;
      var chunk: nat := Min(n - i, b);
      IndexAfterCases(n, b, i, 0);
      match SendAt(p, answers, k)
      case Accepted(m) =>
        var took: nat := Min(m, chunk);
        var next := IndexAfter(n, b, i, if took < chunk then chunk - took else 0);
        SendingIndexAsWritten(p, cfg, data, answers, k + 1, next, 0, wire + data[i..i + took], offers + [chunk])
      case Refused(code) =>
        if retry < cfg.maxRetry && code == p.WouldBlock() then
          SendingIndexAsWritten(p, cfg, data, answers, k + 1, IndexAfter(n, b, i, b), retry + 1, wire, offers + [chunk])
        else SendRun(Fail(p.SendError(code)), wire, offers + [chunk])
  }

  /**
   * Ten bytes, a packet of at least 16, and an OS that first takes 4 bytes:
   * as written the loop ends with only those 4 delivered and returns
   * normally; the intended loop offers the remaining 6.
   */
  lemma IndexSkipsTail(p: Platform, cfg: Config)
    requires cfg.Valid() && cfg.packetSize >= 16
    ensures var data: seq<byte> := [0, 1, 2, 3, 4, 5, 6, 7, 8, 9];
            SendingIndexAsWritten(p, cfg, data, [Accepted(4), Accepted(6)], 0, 0, 0, [], [])
            == SendRun(Pass, data[..4], [10])
    ensures var data: seq<byte> := [0, 1, 2, 3, 4, 5, 6, 7, 8, 9];
            Send(p, cfg, data, [Accepted(4), Accepted(6)]) == SendRun(Pass, data, [10, 6])
  {
    var data: seq<byte> := [0, 1, 2, 3, 4, 5, 6, 7, 8, 9];
    var a := [Accepted(4), Accepted(6)];
    assert SendAt(p, a, 0) == Accepted(4);
    assert SendAt(p, a, 1) == Accepted(6);
    assert Min(10, cfg.packetSize) == 10;
    assert IndexAfter(10, cfg.packetSize, 0, 6) == 10;
    assert SendingIndexAsWritten(p, cfg, data, a, 1, 10, 0, data[0..4], [10]) == SendRun(Pass, data[..4], [10]);
    assert data[..4] + data[4..10] == data;
    assert Sending(p, cfg, data, a, 2, 10, 0, data, [10, 6]) == SendRun(Pass, data, [10, 6]);
    assert Sending(p, cfg, data, a, 1, 4, 0, data[0..4], [10]) == SendRun(Pass, data, [10, 6]);
  }
}
