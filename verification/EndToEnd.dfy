/**
 From the message manager to the peer's parser: what the manager hands to its channel passes
 the synchronised queue and the byte stream unchanged and in order.
 */
module EndToEnd {
  import opened Machine
  import opened Frames
  import opened WireProperties
  import T = Transactions
  import Q = QueueMonitor
  import S = Scanner
  import D = Delivery

  /** Every frame the manager has sent can be encoded and survives encoding as it is. */
  lemma {:induction false} ManagerFramesSurvive(p: T.Policy, run: seq<T.Step>, n: nat)
    requires T.Legal(p, run) && n <= |run|
    ensures AllEncodable(T.Channelled(run, 0, n))
    ensures NormalisedAll(T.Channelled(run, 0, n)) == T.Channelled(run, 0, n)
  {
    hide T.Legal, T.At;
    if n > 0 {
      ManagerFramesSurvive(p, run, n - 1);
      T.TakesStep(p, run, n - 1);
      T.RunInv(p, run, n - 1);
      SendableFrame(p, T.At(p, run, n - 1), run[n - 1]);
    }
  }

  lemma SendableFrame(p: T.Policy, s: T.State, step: T.Step)
    requires T.Inv(p, s) && T.Enabled(p, s, step)
    ensures forall i :: 0 <= i < |T.FrameOf(step)| ==>
                          Encodable(T.FrameOf(step)[i]) && Normalised(T.FrameOf(step)[i]) == T.FrameOf(step)[i]
  {
    hide Encodable, Normalised, T.FirstUnused;
  }

  /**
   However the threads using the queue interleave, however far sending has got, and however the
   stream is cut into chunks: the frames the manager has sent are those parsed by the peer, in
   order, then those taken but not whole on the wire, then those still queued.
   */
  lemma SentFramesArrive(p: T.Policy, run: seq<T.Step>, capacity: nat, threads: set<Q.Tid>, steps: seq<Q.Step>,
                         sent: nat, chunks: seq<seq<Byte>>)
    requires T.Legal(p, run) && Q.Legal(Q.Start(capacity, threads), steps)
    requires Q.Moved(Q.Start(capacity, threads), steps, true) == T.Channelled(run, 0, |run|)
    requires D.Underway(S.Joined(chunks), Q.Moved(Q.Start(capacity, threads), steps, false), sent)
    ensures var taken := Q.Moved(Q.Start(capacity, threads), steps, false);
            && S.DrainChunks([], chunks).frames == taken[..sent]
            && T.Channelled(run, 0, |run|)
            == S.DrainChunks([], chunks).frames + taken[sent..]
               + Q.Final(Q.Start(capacity, threads), steps).queue
  {
    hide T.Legal, Q.Legal, T.Channelled, Q.Moved, S.Drain, S.DrainChunks, S.Joined, Q.Final, D.Underway;
    assert Q.Start(capacity, threads).queue == [];
    hide Q.Start, AllEncodable, NormalisedAll, Normalised, Encodable;
    var start := Q.Start(capacity, threads);
    var all, taken := T.Channelled(run, 0, |run|), Q.Moved(start, steps, false);
    ManagerFramesSurvive(p, run, |run|);
    Q.FirstInFirstOut(start, steps);
    WholeFramesOnly(S.Joined(chunks), taken, sent);
    D.UnderwayDelivers(S.Joined(chunks), taken, sent);
    S.ChunkingInvariance([], chunks);
    InOrder(start.queue, all, taken, Q.Final(start, steps).queue, sent, S.Joined(chunks));
    Unchanged(all, taken, sent);
  }

  lemma InOrder(empty: seq<Frame>, all: seq<Frame>, taken: seq<Frame>, queue: seq<Frame>, sent: nat, wire: seq<Byte>)
    requires empty == [] && empty + all == taken + queue && sent <= |taken|
    ensures all == taken[..sent] + taken[sent..] + queue && taken <= all
    ensures [] + wire == wire
  {
    assert taken == taken[..sent] + taken[sent..];
  }

  lemma WholeFramesOnly(wire: seq<Byte>, frames: seq<Frame>, sent: nat)
    requires D.Underway(wire, frames, sent)
    ensures AllEncodable(frames) && sent <= |frames|
  {
  }

  /** The first of a list of frames that survive encoding survive it too. */
  lemma Unchanged(all: seq<Frame>, taken: seq<Frame>, sent: nat)
    requires AllEncodable(all) && NormalisedAll(all) == all && taken <= all && sent <= |taken|
    ensures AllEncodable(taken[..sent]) && NormalisedAll(taken[..sent]) == taken[..sent]
  {
    forall i | 0 <= i < sent ensures Encodable(taken[i]) && Normalised(taken[i]) == taken[i] {
      assert taken[i] == all[i] && NormalisedAll(all)[i] == Normalised(all[i]);
    }
  }
}
