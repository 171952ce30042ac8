/**
 * `Transformer` of the worker command: every record received from the
 * extract channel is forwarded with its `Message` upper-cased. The input
 * channel is the sequence of records this worker receives, the output
 * channel the returned sequence; cancellation is the loop head at which
 * `ctx.Done()` is chosen.
 */
module Transform {
  import opened Wrappers
  import opened EtlTypes
  import Text

  /** The per-record step: only `Message` changes, and it becomes upper case. */
  function TransformRecord(r: Record): (t: Record)
    ensures t.id == r.id && t.date == r.date && t.timestamp == r.timestamp
    ensures t.deviceType == r.deviceType && t.eventType == r.eventType
    ensures |t.message| == |r.message|
    ensures forall i :: 0 <= i < |t.message| ==> t.message[i] == Text.UpperChar(r.message[i])
  {
    r.(message := Text.Upper(r.message))
  }

  /** Transforming an already transformed record changes nothing. */
  lemma TransformIdempotent(r: Record)
    ensures TransformRecord(TransformRecord(r)) == TransformRecord(r)
  {
    Text.UpperIdempotent(r.message);
  }

  /**
   * How many records the worker handles before it returns: all of them when
   * the channel is closed first, `k` when the context is seen cancelled at the
   * loop head before receiving record `k`.
   */
  function Handled(received: nat, cancelAt: Option<nat>): (n: nat)
    ensures n <= received
    ensures cancelAt.None? ==> n == received
  {
    if cancelAt.Some? && cancelAt.value < received then cancelAt.value else received
  }

  /**
   * The receive/transform/send loop. Exactly one output per handled input, in
   * the order received, and nothing after the return.
   */
  method Transformer(input: seq<Record>, cancelAt: Option<nat>) returns (out: seq<Record>)
    ensures |out| == Handled(|input|, cancelAt)
    ensures forall i :: 0 <= i < |out| ==> out[i] == TransformRecord(input[i])
  {
    out := [];
    var i := 0;
    while true
      invariant 0 <= i <= |input|
      invariant cancelAt.Some? ==> i <= cancelAt.value
      invariant |out| == i
      invariant forall k :: 0 <= k < i ==> out[k] == TransformRecord(input[k])
      decreases |input| - i
    {
      if cancelAt == Some(i) {
        // case <-ctx.Done()
        return;
      }
      if i == |input| {
        // the channel is closed and drained
        return;
      }
      var r := input[i];
      out := out + [TransformRecord(r)];
      i := i + 1;
    }
  }
}
