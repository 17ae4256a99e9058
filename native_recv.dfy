/**
 * The receive loop of the native sockets: call recv() until it would
 * block, collecting what it returns.  A closed connection (recv returning
 * 0 bytes) ends the loop with the data collected so far, or throws
 * "disconnected" when there is none; any other failure throws.
 */
module NativeReceive {
  import opened Common
  import opened NativeOs

  /** Whether an answer delivered data. */
  predicate Delivered(a: RecvAnswer)
  {
    a.Got? && a.bytes != []
  }

  /** The number of leading answers that delivered data. */
  function DataRun(answers: seq<RecvAnswer>): (k: nat)
    ensures k <= |answers|
    ensures forall j :: 0 <= j < k ==> Delivered(answers[j])
    ensures k < |answers| ==> !Delivered(answers[k])
  {
    if answers == [] || !Delivered(answers[0]) then 0 else 1 + DataRun(answers[1..])
  }

  /** The bytes the first k answers delivered, in order. */
  function Payload(answers: seq<RecvAnswer>, k: nat): seq<byte>
    requires k <= |answers|
  {
    if k == 0 then []
    else Payload(answers, k - 1) + (if answers[k - 1].Got? then answers[k - 1].bytes else [])
  }

  /**
   * What receiving returns, decided by the first answer that delivered
   * nothing: everything delivered before it, unless that answer is an
   * error, or a close with nothing delivered.
   */
  function Drained(p: Platform, answers: seq<RecvAnswer>): Result<seq<byte>>
  {
    var k := DataRun(answers);
    var data := Payload(answers, k);
    match RecvAt(p, answers, k)
    case Got(_) => if data != [] then Ok(data) else Err(Disconnected)
    case RecvRefused(code) => if code == p.WouldBlock() then Ok(data) else Err(ReceiveFailed(code))
  }

  /** The recv() loop. */
  method Drain(p: Platform, answers: seq<RecvAnswer>) returns (r: Result<seq<byte>>)
    ensures r == Drained(p, answers)
  {
    var ret: seq<byte> := [];
    var i: nat := 0;
    while true
      invariant i <= DataRun(answers)
      invariant ret == Payload(answers, i)
      decreases |answers| - i
    {
      var answer := if i < |answers| then answers[i] else RecvRefused(p.WouldBlock());
      match answer {
        case RecvRefused(code) =>
          if code == p.WouldBlock() {
            return Ok(ret);
          }
          return Err(ReceiveFailed(code));
        case Got(bytes) =>
          if |bytes| == 0 {
            if |ret| > 0 {
              return Ok(ret);
            }
            return Err(Disconnected);
          }
          ret := ret + bytes;
      }
      i := i + 1;
    }
  }

  /** A receive that returns normally returns something, unless the OS had nothing and would block. */
  lemma {:induction false} PayloadEmpty(answers: seq<RecvAnswer>, k: nat)
    requires k <= |answers| && forall j :: 0 <= j < k ==> Delivered(answers[j])
    ensures Payload(answers, k) == [] <==> k == 0
  {
    if k > 0 {
      PayloadEmpty(answers, k - 1);
      assert Delivered(answers[k - 1]);
    }
  }

  /**
   * The receive outcomes: data only when some arrived or the OS would
   * block; "disconnected" exactly when the peer closed before any data.
   */
  lemma DrainedOutcomes(p: Platform, answers: seq<RecvAnswer>)
    ensures var k := DataRun(answers);
            && (Drained(p, answers) == Ok([]) <==> k == 0 && RecvAt(p, answers, 0) == RecvRefused(p.WouldBlock()))
            && (Drained(p, answers) == Err(Disconnected) <==> k == 0 && RecvAt(p, answers, 0) == Got([]))
            && (Drained(p, answers).Ok? ==> Drained(p, answers).value == Payload(answers, k))
  {
    var k := DataRun(answers);
    PayloadEmpty(answers, k);
  }
}
