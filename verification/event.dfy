/**
 * The cancellation latch of botweet/event.py: `BotweetEvent` is a
 * `threading.Event` whose `stop` sets it and whose `stopped` reads it.
 */
module BotweetEvent {

  /** The two states of the underlying `threading.Event`. */
  datatype Latch = Unset | Set

  /** A freshly constructed event: `threading.Event` starts unset. */
  function Fresh(): (l: Latch)
    ensures !Stopped(l)
  {
    Unset
  }

  /** `stop()`: sets the event, whatever its state. */
  function Stop(l: Latch): (r: Latch)
    ensures Stopped(r)
    ensures Stopped(l) ==> r == l
  {
    Set
  }

  /** The `stopped` property: a read of the event's flag. */
  predicate Stopped(l: Latch)
  {
    l.Set?
  }

  /** The operations botweet performs on the event: `stop()` and reading `stopped`. */
  datatype Op = StopOp | ReadStopped

  /** The state after one operation; a read leaves the state alone. */
  function After(l: Latch, op: Op): Latch
  {
    match op
    case StopOp => Stop(l)
    case ReadStopped => l
  }

  /** The states the event passes through: `states[k]` is the state after `ops[k]`. */
  function Trace(l: Latch, ops: seq<Op>): (states: seq<Latch>)
    ensures |states| == |ops|
    decreases |ops|
  {
    if ops == [] then [] else
      var next := After(l, ops[0]);
      [next] + Trace(next, ops[1..])
  }

  /** A stop followed by a stop is a single stop. */
  lemma StopIdempotent(l: Latch)
    ensures Stop(Stop(l)) == Stop(l)
  {
  }

  /**
   * The event is set after `ops[..k+1]` exactly when it started set or one of
   * those operations was a stop: reads never set it, and neither operation unsets it.
   */
  lemma {:induction false} TraceSetExactlyAfterStop(l: Latch, ops: seq<Op>, k: nat)
    requires k < |ops|
    ensures Stopped(Trace(l, ops)[k]) <==> Stopped(l) || StopOp in ops[..k + 1]
    decreases |ops|
  {
    var next := After(l, ops[0]);
    assert Trace(l, ops) == [next] + Trace(next, ops[1..]);
    if k == 0 {
      assert ops[..1] == [ops[0]];
    } else {
      TraceSetExactlyAfterStop(next, ops[1..], k - 1);
      assert ops[1..][..k] == ops[1..k + 1];
      assert ops[..k + 1] == [ops[0]] + ops[1..k + 1];
    }
  }

  /** Monotonicity under `stop()` and `stopped`: once the event has been seen set, it is set at every later point. */
  lemma TraceMonotone(l: Latch, ops: seq<Op>, j: nat, k: nat)
    requires j <= k < |ops|
    requires Stopped(Trace(l, ops)[j])
    ensures Stopped(Trace(l, ops)[k])
  {
    TraceSetExactlyAfterStop(l, ops, j);
    TraceSetExactlyAfterStop(l, ops, k);
    if StopOp in ops[..j + 1] {
      var i :| 0 <= i < j + 1 && ops[..j + 1][i] == StopOp;
      assert ops[..k + 1][i] == StopOp;
    }
  }

  /** Reading `stopped` does not change the event. */
  lemma {:induction false} ReadLeavesState(l: Latch, ops: seq<Op>, k: nat)
    requires k < |ops| && ops[k] == ReadStopped
    ensures Trace(l, ops)[k] == (if k == 0 then l else Trace(l, ops)[k - 1])
    decreases |ops|
  {
    var next := After(l, ops[0]);
    assert Trace(l, ops) == [next] + Trace(next, ops[1..]);
    if k > 0 {
      ReadLeavesState(next, ops[1..], k - 1);
    }
  }
}
