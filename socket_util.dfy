/**
 * The socket-independent I/O algorithms: the proportional back-off
 * interval and the three "receive until" loops over any socket.
 *
 * The socket's `receber()` is an oracle: `answers[i]` is what its i-th
 * call does, return a chunk (possibly nothing) or throw, and the deadline
 * passes after the last scripted call, so the length of the script is
 * the number of rounds the clock allows.  The sleep between rounds is not modelled.
 */
module SocketUtil {
  import opened Common

  // ---------------------------------------------------------------------
  // Back-off interval

  /**
   * calc_intervalo_proporcional: the wait grows linearly from the minimum
   * step (after 0 tries) to the maximum step (after maxRetry tries), in
   * whole milliseconds rounded towards zero.
   */
  function Interval(cfg: Config, tries: nat): int
    requires cfg.Valid()
  {
    cfg.stepMin + (cfg.stepMax - cfg.stepMin) * tries / cfg.maxRetry
  }

  /** The interpolation starts at the minimum step and reaches the maximum step. */
  lemma IntervalEnds(cfg: Config)
    requires cfg.Valid()
    ensures Interval(cfg, 0) == cfg.stepMin
    ensures Interval(cfg, cfg.maxRetry) == cfg.stepMax
  {
    var d := cfg.stepMax - cfg.stepMin;
    DivExact(d, cfg.maxRetry);
  }

  lemma DivExact(d: int, m: int)
    requires m > 0
    ensures (d * m) / m == d
  {
    DivUnique(d * m, m, d, 0);
  }

  lemma DivUnique(x: int, m: int, q: int, r: int)
    requires m > 0 && 0 <= r < m && x == m * q + r
    ensures x / m == q
  {
    var q0 := x / m;
    if q0 < q {
      MulGrows(m, q - q0);
    } else if q0 > q {
      MulGrows(m, q0 - q);
    }
  }

  lemma {:induction false} MulGrows(m: int, k: int)
    requires m > 0 && k >= 1
    ensures m * k >= m
    decreases k
  {
    if k > 1 {
      MulGrows(m, k - 1);
      assert m * k == m * (k - 1) + m;
    }
  }

  /** Euclidean division by a positive number is monotone. */
  lemma DivMonotone(x: int, y: int, m: int)
    requires m > 0 && x <= y
    ensures x / m <= y / m
  {
    var qx, qy := x / m, y / m;
    if qx > qy {
      MulGrows(m, qx - qy);
    }
  }

  /** More tries never shorten the wait. */
  lemma IntervalMonotone(cfg: Config, a: nat, b: nat)
    requires cfg.Valid() && a <= b
    ensures Interval(cfg, a) <= Interval(cfg, b)
  {
    var d := cfg.stepMax - cfg.stepMin;
    assert d * a <= d * b by {
      assert d * b == d * a + d * (b - a);
    }
    DivMonotone(d * a, d * b, cfg.maxRetry);
  }

  /** Up to maxRetry tries the wait stays between the two steps. */
  lemma IntervalBounds(cfg: Config, tries: nat)
    requires cfg.Valid() && tries <= cfg.maxRetry
    ensures cfg.stepMin <= Interval(cfg, tries) <= cfg.stepMax
  {
    IntervalEnds(cfg);
    IntervalMonotone(cfg, 0, tries);
    IntervalMonotone(cfg, tries, cfg.maxRetry);
  }

  /** Beyond maxRetry nothing clamps the wait: every further maxRetry tries add the whole span again. */
  lemma IntervalShift(cfg: Config, tries: nat)
    requires cfg.Valid()
    ensures Interval(cfg, tries + cfg.maxRetry) == Interval(cfg, tries) + (cfg.stepMax - cfg.stepMin)
  {
    var d, m := cfg.stepMax - cfg.stepMin, cfg.maxRetry;
    var x := d * tries;
    assert d * (tries + m) == m * (x / m + d) + x % m by {
      assert d * (tries + m) == x + d * m;
      assert m * (x / m + d) == m * (x / m) + m * d;
    }
    DivUnique(d * (tries + m), m, x / m + d, x % m);
  }

  /**
   * Hence from 2 * maxRetry tries on the wait exceeds the maximum step
   * whenever the two steps differ.
   */
  lemma IntervalUnclamped(cfg: Config, tries: nat)
    requires cfg.Valid()
    ensures Interval(cfg, 2 * cfg.maxRetry) == 2 * cfg.stepMax - cfg.stepMin
    ensures cfg.stepMin < cfg.stepMax && tries >= 2 * cfg.maxRetry ==> Interval(cfg, tries) > cfg.stepMax
  {
    IntervalEnds(cfg);
    IntervalShift(cfg, cfg.maxRetry);
    if tries >= 2 * cfg.maxRetry {
      IntervalMonotone(cfg, 2 * cfg.maxRetry, tries);
    }
  }

  // ---------------------------------------------------------------------
  // What the socket hands over

  /** How many leading calls of `receber()` returned instead of throwing. */
  function Returned(answers: seq<Result<seq<byte>>>): (n: nat)
    ensures n <= |answers|
    ensures forall j :: 0 <= j < n ==> answers[j].Ok?
    ensures n < |answers| ==> answers[n].Err?
  {
    if answers == [] || answers[0].Err? then 0 else 1 + Returned(answers[1..])
  }

  /** The chunks handed over before the first exception, in order. */
  function Chunks(answers: seq<Result<seq<byte>>>): (c: seq<seq<byte>>)
    ensures |c| == Returned(answers)
    ensures forall j :: 0 <= j < |c| ==> c[j] == answers[j].value
  {
    seq(Returned(answers), j requires 0 <= j < Returned(answers) => answers[j].value)
  }

  /**
   * How a loop that never decided ends: with the first exception
   * `receber()` threw, or with expiry when every call returned.
   */
  function Ending(answers: seq<Result<seq<byte>>>): Error
  {
    if Returned(answers) < |answers| then answers[Returned(answers)].error else Expired
  }

  /** Everything the first k calls of `receber()` returned, in order. */
  function Received(chunks: seq<seq<byte>>, k: nat): seq<byte>
    requires k <= |chunks|
  {
    Concat(chunks[..k])
  }

  lemma ReceivedStep(chunks: seq<seq<byte>>, k: nat)
    requires k < |chunks|
    ensures Received(chunks, k + 1) == Received(chunks, k) + chunks[k]
  {
    ConcatStep(chunks, k);
  }

  /** What fewer calls returned is a prefix of what more calls returned. */
  lemma ReceivedPrefix(chunks: seq<seq<byte>>, k: nat, j: nat)
    requires k <= j <= |chunks|
    ensures |Received(chunks, k)| <= |Received(chunks, j)|
    ensures Received(chunks, j)[..|Received(chunks, k)|] == Received(chunks, k)
  {
    ConcatPrefix(chunks, k, j);
  }

  // ---------------------------------------------------------------------
  // Delimiter search (std::search)

  predicate OccursAt(buf: seq<byte>, delim: seq<byte>, i: nat)
  {
    i + |delim| <= |buf| && buf[i..i + |delim|] == delim
  }

  /** No occurrence of the delimiter, or nothing searched yet. */
  ghost predicate Unmatched(buf: seq<byte>, delim: seq<byte>)
  {
    buf == [] || forall j: nat :: !OccursAt(buf, delim, j)
  }

  /** The first position at or after `from` where the delimiter occurs. */
  function SearchFrom(buf: seq<byte>, delim: seq<byte>, from: nat): (r: Option<nat>)
    ensures r.Some? ==> from <= r.value && OccursAt(buf, delim, r.value)
    ensures r.Some? ==> forall j: nat :: from <= j < r.value ==> !OccursAt(buf, delim, j)
    ensures r.None? ==> forall j: nat :: from <= j ==> !OccursAt(buf, delim, j)
    decreases |buf| - from
  {
    if from + |delim| > |buf| then None
    else if buf[from..from + |delim|] == delim then Some(from)
    else SearchFrom(buf, delim, from + 1)
  }

  /** std::search: the first occurrence of the delimiter. */
  function Search(buf: seq<byte>, delim: seq<byte>): (r: Option<nat>)
    ensures r.Some? ==> OccursAt(buf, delim, r.value)
    ensures r.Some? ==> forall j: nat :: j < r.value ==> !OccursAt(buf, delim, j)
    ensures r.None? ==> forall j: nat :: !OccursAt(buf, delim, j)
  {
    SearchFrom(buf, delim, 0)
  }

  /** An occurrence inside a prefix is an occurrence in the whole buffer. */
  lemma OccursInExtension(pre: seq<byte>, buf: seq<byte>, delim: seq<byte>, i: nat)
    requires |pre| <= |buf| && buf[..|pre|] == pre && OccursAt(pre, delim, i)
    ensures OccursAt(buf, delim, i)
  {
    assert buf[i..i + |delim|] == pre[i..i + |delim|];
  }

  // ---------------------------------------------------------------------
  // receber_ate_delim

  datatype Found = Found(data: seq<byte>, at: nat)

  /**
   * receber_ate_delim: collect chunks until the delimiter shows up in what
   * was collected.  A chunk that would take the total past `limit` throws
   * before it is appended; an exception from `receber()` is passed on;
   * running out of rounds throws expiry.
   */
  method ReceiveUntilDelim(answers: seq<Result<seq<byte>>>, delim: seq<byte>, limit: nat) returns (r: Result<Found>)
    ensures r.Ok? || r == Err(Excess) || r == Err(Ending(answers))
    ensures r.Ok? ==> r.value.data != [] && |r.value.data| <= limit
    ensures r.Ok? ==> Search(r.value.data, delim) == Some(r.value.at)
    ensures r.Ok? ==>
              var c := Chunks(answers);
              exists k :: 0 < k <= |c| && r.value.data == Received(c, k)
                          && Unmatched(Received(c, k - 1), delim)
    ensures r.Err? ==>
              var c := Chunks(answers);
              (r.error == Excess &&
               exists k :: 0 < k <= |c| && limit < |Received(c, k)|
                           && |Received(c, k - 1)| <= limit && Unmatched(Received(c, k - 1), delim))
              || (r.error == Ending(answers) &&
                  |Received(c, |c|)| <= limit && Unmatched(Received(c, |c|), delim))
  {
    ghost var c := Chunks(answers);
    var ret: seq<byte> := [];
    var i := 0;
    while i < |answers|
      invariant i <= |c|
      invariant ret == Received(c, i)
      invariant |ret| <= limit && Unmatched(ret, delim)
    {
      match answers[i] {
        case Err(e) =>
          return Err(e);
        case Ok(data) =>
          ReceivedStep(c, i);
          if |data| > 0 {
            if |ret| + |data| > limit {
              return Err(Excess);
            }
            ret := ret + data;
            var found := Search(ret, delim);
            if found.Some? {
              return Ok(Found(ret, found.value));
            }
          }
      }
      i := i + 1;
    }
    return Err(Expired);
  }

  /** The three outcomes of receber_ate_delim exclude each other for the same script. */
  lemma UntilDelimOutcomesExclusive(chunks: seq<seq<byte>>, delim: seq<byte>, limit: nat, k: nat, k2: nat)
    requires 0 < k <= |chunks| && 0 < k2 <= |chunks|
    requires Received(chunks, k) != [] && |Received(chunks, k)| <= limit
    requires Search(Received(chunks, k), delim).Some?
    requires limit < |Received(chunks, k2)| && |Received(chunks, k2 - 1)| <= limit
    ensures !Unmatched(Received(chunks, k2 - 1), delim)
  {
    if k2 <= k {
      ReceivedPrefix(chunks, k2, k);
      assert false;
    } else {
      ReceivedPrefix(chunks, k, k2 - 1);
      var at := Search(Received(chunks, k), delim).value;
      OccursInExtension(Received(chunks, k), Received(chunks, k2 - 1), delim, at);
    }
  }

  // ---------------------------------------------------------------------
  // receber_ate_tam

  /**
   * receber_ate_tam: collect chunks until exactly `size` bytes arrived.
   * A chunk that would overshoot throws instead of being cut; an exception
   * from `receber()` is passed on.
   */
  method ReceiveExactly(answers: seq<Result<seq<byte>>>, size: nat) returns (r: Result<seq<byte>>)
    ensures r.Ok? || r == Err(Excess) || r == Err(Ending(answers))
    ensures r.Ok? ==>
              var all := Received(Chunks(answers), Returned(answers));
              |r.value| == size <= |all| && r.value == all[..size]
    ensures r.Ok? <==>
              var c := Chunks(answers);
              size > 0 && exists k :: 0 <= k <= |c| && |Received(c, k)| == size
    ensures var all := Received(Chunks(answers), Returned(answers));
            |all| < size || all == [] ==> r == Err(Ending(answers))
    ensures var all := Received(Chunks(answers), Returned(answers));
            r.Err? && size <= |all| && all != [] ==> r == Err(Excess)
  {
    ghost var c := Chunks(answers);
    var ret: seq<byte> := [];
    var i := 0;
    while i < |answers|
      invariant i <= |c|
      invariant ret == Received(c, i)
      invariant |ret| < size || ret == []
    {
      match answers[i] {
        case Err(e) =>
          ExactlyNeverReached(c, size);
          return Err(e);
        case Ok(data) =>
          ReceivedStep(c, i);
          if |data| > 0 {
            if |ret| + |data| > size {
              ExactlyOvershoots(c, size, i + 1);
              return Err(Excess);
            }
            ret := ret + data;
            if |ret| == size {
              ReceivedPrefix(c, i + 1, |c|);
              return Ok(ret);
            }
          }
      }
      i := i + 1;
    }
    ExactlyNeverReached(c, size);
    return Err(Expired);
  }

  /** Once a chunk overshoots the size, no number of calls hits the size exactly. */
  lemma ExactlyOvershoots(chunks: seq<seq<byte>>, size: nat, k: nat)
    requires 0 < k <= |chunks|
    requires |Received(chunks, k - 1)| < size || Received(chunks, k - 1) == []
    requires size < |Received(chunks, k)|
    ensures size > 0 ==> forall j :: 0 <= j <= |chunks| ==> |Received(chunks, j)| != size
    ensures size < |Received(chunks, |chunks|)|
  {
    ReceivedPrefix(chunks, k, |chunks|);
    forall j | 0 <= j <= |chunks| && size > 0 ensures |Received(chunks, j)| != size {
      if j < k {
        ReceivedPrefix(chunks, j, k - 1);
      } else {
        ReceivedPrefix(chunks, k, j);
      }
    }
  }

  /** Without a stop, everything received is short of the size. */
  lemma ExactlyNeverReached(chunks: seq<seq<byte>>, size: nat)
    requires |Received(chunks, |chunks|)| < size || Received(chunks, |chunks|) == []
    ensures size > 0 ==> forall j :: 0 <= j <= |chunks| ==> |Received(chunks, j)| != size
  {
    forall j | 0 <= j <= |chunks| && size > 0 ensures |Received(chunks, j)| != size {
      ReceivedPrefix(chunks, j, |chunks|);
    }
  }

  // ---------------------------------------------------------------------
  // receber_ao_menos

  /**
   * receber_ao_menos: collect chunks until at least `size` bytes arrived;
   * the last chunk is kept whole, so the result may be longer.  It only
   * checks after a non-empty chunk, so even `size == 0` waits for data.
   * An exception from `receber()` is passed on.
   */
  method ReceiveAtLeast(answers: seq<Result<seq<byte>>>, size: nat) returns (r: Result<seq<byte>>)
    ensures r.Ok? || r == Err(Ending(answers))
    ensures r.Ok? <==>
              var all := Received(Chunks(answers), Returned(answers));
              |all| >= size && all != []
    ensures r.Ok? ==> r.value != [] && |r.value| >= size
    ensures r.Ok? ==>
              var all := Received(Chunks(answers), Returned(answers));
              |r.value| <= |all| && r.value == all[..|r.value|]
    ensures r.Ok? ==>
              var c := Chunks(answers);
              exists k :: 0 < k <= |c| && r.value == Received(c, k)
                          && (|Received(c, k - 1)| < size || Received(c, k - 1) == [])
  {
    ghost var c := Chunks(answers);
    var ret: seq<byte> := [];
    var i := 0;
    while i < |answers|
      invariant i <= |c|
      invariant ret == Received(c, i)
      invariant |ret| < size || ret == []
    {
      match answers[i] {
        case Err(e) =>
          return Err(e);
        case Ok(data) =>
          ReceivedStep(c, i);
          if |data| > 0 {
            ret := ret + data;
            if |ret| >= size {
              ReceivedPrefix(c, i + 1, |c|);
              return Ok(ret);
            }
          }
      }
      i := i + 1;
    }
    return Err(Expired);
  }

  // ---------------------------------------------------------------------
  // receber_resto

  /** A caller's byte vector, extended in place. */
  class ByteVector {
    var bytes: seq<byte>

    constructor(initial: seq<byte>)
      ensures bytes == initial
    {
      bytes := initial;
    }
  }

  /**
   * receber_resto: top the caller's buffer up to `size` bytes with
   * receber_ate_tam; a buffer already that long is left alone.  When the
   * read throws, the buffer is untouched and the exception is passed on.
   */
  method ReceiveRest(buf: ByteVector, answers: seq<Result<seq<byte>>>, size: nat) returns (r: Outcome)
    modifies buf
    ensures |old(buf.bytes)| >= size ==> r == Pass && buf.bytes == old(buf.bytes)
    ensures r.Pass? && |old(buf.bytes)| < size ==>
              var all := Received(Chunks(answers), Returned(answers));
              |buf.bytes| == size && buf.bytes[..|old(buf.bytes)|] == old(buf.bytes)
              && size - |old(buf.bytes)| <= |all|
              && buf.bytes[|old(buf.bytes)|..] == all[..size - |old(buf.bytes)|]
    ensures r.Fail? ==> buf.bytes == old(buf.bytes) && (r.error == Excess || r.error == Ending(answers))
    ensures r.Fail? <==>
              var c := Chunks(answers);
              |old(buf.bytes)| < size
              && !exists k :: 0 <= k <= |c| && |Received(c, k)| == size - |old(buf.bytes)|
    ensures |Received(Chunks(answers), Returned(answers))| < size - |old(buf.bytes)| ==>
              r == Fail(Ending(answers))
  {
    if |buf.bytes| < size {
      var rest := ReceiveExactly(answers, size - |buf.bytes|);
      if rest.Err? {
        return Fail(rest.error);
      }
      buf.bytes := buf.bytes + rest.value;
    }
    return Pass;
  }
}
