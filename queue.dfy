/**
 * What the queueing pipeline produces. The Go producers write migration records and errors to a
 * channel and close it; here that channel is the sequence of items written, in order.
 */
module Queue {
  import opened Errors
  import opened Source

  /** One value sent on the channel: a migration record, `ErrNoChange`, or another error. */
  datatype Item = Record(migr: Migration) | NoChange | Err(error: Error)

  /**
   * The cooperative stop flag polled by `m.stop()`. Polls are numbered from 0 in the order a
   * producer makes them; once a graceful stop is observed it stays observed.
   */
  datatype StopSignal = Never | AfterPolls(n: nat)
  {
    predicate Stopped(poll: nat)
    {
      AfterPolls? && poll >= n
    }
  }

  /** The number of versions among the first `len` a producer polls for before the stop is seen. */
  function Horizon(len: nat, stop: StopSignal): (h: nat)
    ensures h <= len
    ensures forall k :: 0 <= k < h ==> !stop.Stopped(k)
    ensures h < len ==> stop.Stopped(h)
  {
    if stop.AfterPolls? && stop.n < len then stop.n else len
  }

  /**
   * The first `limit` entries of `p`. A limit of -1 means "no limit"; any other limit that is not
   * positive admits nothing.
   */
  function Limited<T>(p: seq<T>, limit: int): (r: seq<T>)
    ensures r <= p
    ensures limit == -1 ==> r == p
    ensures limit >= 0 ==> |r| == if limit < |p| then limit else |p|
    ensures limit < -1 ==> r == []
  {
    if limit == -1 then p
    else if limit <= 0 then []
    else if limit < |p| then p[..limit]
    else p
  }

  /** The part of `limit` left once `count` records have been queued; -1 stays unbounded. */
  function Remaining(limit: int, count: nat): int
  {
    if limit == -1 then -1
    else if limit - count < 0 then 0
    else limit - count
  }

  /** Taking one more entry leaves one less of a positive or unbounded limit. */
  lemma LimitedCons<T>(x: T, p: seq<T>, limit: int, count: nat)
    requires limit == -1 || count < limit
    ensures Limited([x] + p, Remaining(limit, count)) == [x] + Limited(p, Remaining(limit, count + 1))
  {
    var r := Remaining(limit, count);
    if limit != -1 && r < |p| + 1 {
      assert ([x] + p)[..r] == [x] + p[..r - 1];
    }
  }

  /** A counted producer ends its output with `ErrNoChange` exactly when it queued nothing. */
  function FinishWith(count: nat): seq<Item>
  {
    if count == 0 then [NoChange] else []
  }

  /**
   * The shape of everything a producer writes: the records it set out to queue, in order, cut
   * short anywhere, and then at most one terminal item, where an error may end the output at
   * any point, `ErrNoChange` only when nothing was queued (`initial`), and a silent end only after
   * at least one record.
   */
  predicate Truncated(out: seq<Item>, intended: seq<Item>, initial: bool)
    decreases |out|
  {
    if out == [] then !initial
    else if out[0].Record? then
      intended != [] && out[0] == intended[0] && Truncated(out[1..], intended[1..], false)
    else |out| == 1 && (out[0].Err? || (out[0].NoChange? && initial))
  }

  /** What a truncated output says: its records are a prefix of the intended ones, in order. */
  lemma {:induction false} TruncatedPrefix(out: seq<Item>, intended: seq<Item>, initial: bool, k: nat)
    requires Truncated(out, intended, initial) && k < |out| && out[k].Record?
    ensures k < |intended| && out[k] == intended[k]
    ensures forall j :: 0 <= j < k ==> out[j].Record?
    decreases k
  {
    if k > 0 {
      TruncatedPrefix(out[1..], intended[1..], false, k - 1);
      forall j | 0 < j < k ensures out[j].Record? {
        assert out[1..][j - 1] == out[j];
      }
    }
  }

  /** A producer that queued nothing writes exactly one item: `ErrNoChange` or an error. */
  lemma TruncatedFresh(out: seq<Item>, intended: seq<Item>)
    requires Truncated(out, intended, true)
    ensures out != []
    ensures NoChange in out ==> out == [NoChange]
  {
    if out[0].Record? {
      forall k | 0 <= k < |out| ensures out[k] != NoChange {
        if k > 0 {
          assert out[1..][k - 1] == out[k];
          TruncatedNoChange(out[1..], intended[1..], k - 1);
        }
      }
    }
  }

  /** After a record, `ErrNoChange` can no longer appear. */
  lemma {:induction false} TruncatedNoChange(out: seq<Item>, intended: seq<Item>, k: nat)
    requires Truncated(out, intended, false) && k < |out|
    ensures out[k] != NoChange
    decreases k
  {
    if k > 0 && out[0].Record? {
      assert out[1..][k - 1] == out[k];
      TruncatedNoChange(out[1..], intended[1..], k - 1);
    }
  }
}
