/**
 The request/reply protocol seen from outside: what the message manager puts on its channel,
 what it reports, and when. A run is the list of these observations; `Legal` says which runs
 the protocol allows, and the results below hold of every legal run.
 */
module Transactions {
  import opened Machine
  import opened Frames

  /** The fixed policy: how many requests may wait, for how long, how often they are repeated. */
  datatype Policy = Policy(capacity: nat, timeout: U32, maxRetries: U8)

  /** A request that has been sent and neither answered nor given up. */
  datatype Transaction = Transaction(request: Frame, deadline: U64, retries: nat)

  /** The open transactions by sequence number, and where the search for a new number starts. */
  datatype State = State(open: map<U16, Transaction>, cursor: U16)

  datatype Step =
    | Started(request: Frame, now: U64)
    | Resent(request: Frame, retry: nat, now: U64)
    | Sent(frame: Frame)
    | Refused(frame: Frame)
    | Matched(reply: Frame, retries: nat)
    | Unmatched(reply: Frame)
    | Arrived(frame: Frame)
    | TimedOut(request: Frame, retries: nat, now: U64)
    | TurnedAway
    | Reset(cancelled: nat)

  const START := State(map[], 1)

  // ----- Sequence numbers ----------------------------------------------------------------------

  /** The numbers 1..65535 in a circle; 0 is never a request's number. */
  function NextSequence(sequence: U16): U16 {
    if sequence == U16_MAX then 1 else sequence + 1
  }

  /** How many steps along the circle lead from one number to the other. */
  function Distance(from: U16, to: U16): int {
    if from <= to then to - from else to - from + U16_MAX
  }

  /** `v` is the first number from the cursor on that is not in use. */
  ghost predicate FirstUnused(cursor: U16, used: set<U16>, v: U16) {
    && v != 0 && v !in used
    && forall w: U16 :: w != 0 && Distance(cursor, w) < Distance(cursor, v) ==> w in used
  }

  /** Upwards from the cursor to 65535, then from 1: everything on the way to `v` is in use. */
  lemma FirstUnusedMeans(cursor: U16, used: set<U16>, v: U16)
    requires cursor != 0
    ensures FirstUnused(cursor, used, v)
       <==> && v != 0 && v !in used
            && if cursor <= v then forall w: U16 :: cursor <= w < v ==> w in used
               else (forall w: U16 :: cursor <= w ==> w in used) && (forall w: U16 :: 1 <= w < v ==> w in used)
  {
  }

  /** The end of a waiting time: the clock's last value when the sum would pass it. */
  function Deadline(now: U64, timeout: U32): U64 {
    AddSaturating(now, timeout)
  }

  // ----- Legal runs ------------------------------------------------------------------------------

  predicate IsReply(f: Frame) {
    f.kind == TYPE_RESPONSE || f.kind == TYPE_ERROR
  }

  ghost predicate Enabled(p: Policy, s: State, step: Step) {
    match step
    case Started(f, now) =>
      && |s.open| < p.capacity
      && Encodable(f) && Normalised(f) == f && f.kind == TYPE_REQUEST
      && FirstUnused(s.cursor, s.open.Keys, f.sequence)
    case Resent(f, retry, now) =>
      && f.sequence in s.open
      && var t := s.open[f.sequence];
         t.request == f && t.deadline <= now && retry == t.retries + 1 <= p.maxRetries
    case Sent(f) =>
      && Encodable(f) && Normalised(f) == f
      && ((IsReply(f) && f.sequence != 0) || (f.kind == TYPE_REPORT && f.sequence == 0))
    case Refused(f) => Encodable(f)
    case Matched(f, retries) =>
      IsReply(f) && f.sequence in s.open && retries == s.open[f.sequence].retries
    case Unmatched(f) => IsReply(f) && f.sequence !in s.open
    case Arrived(f) => f.kind == TYPE_REQUEST || f.kind == TYPE_REPORT
    case TimedOut(f, retries, now) =>
      && f.sequence in s.open
      && var t := s.open[f.sequence];
         t.request == f && t.deadline <= now && retries == t.retries == p.maxRetries
    case TurnedAway => |s.open| >= p.capacity
    case Reset(cancelled) => cancelled == |s.open|
  }

  function Apply(p: Policy, s: State, step: Step): State {
    match step
    case Started(f, now) =>
      State(s.open[f.sequence := Transaction(f, Deadline(now, p.timeout), 0)], NextSequence(f.sequence))
    case Resent(f, retry, now) =>
      s.(open := s.open[f.sequence := Transaction(f, Deadline(now, p.timeout), retry)])
    case Matched(f, retries) => s.(open := s.open - {f.sequence})
    case TimedOut(f, retries, now) => s.(open := s.open - {f.sequence})
    case Reset(cancelled) => START
    case _ => s
  }

  /** The state before step number `k`. */
  function At(p: Policy, run: seq<Step>, k: nat): State
    requires k <= |run|
  {
    if k == 0 then START else Apply(p, At(p, run, k - 1), run[k - 1])
  }

  function End(p: Policy, run: seq<Step>): State {
    At(p, run, |run|)
  }

  /** The first `n` steps are allowed where they are taken. */
  ghost predicate LegalUpTo(p: Policy, run: seq<Step>, n: nat)
    requires n <= |run|
  {
    n == 0 || (LegalUpTo(p, run, n - 1) && Enabled(p, At(p, run, n - 1), run[n - 1]))
  }

  ghost predicate Legal(p: Policy, run: seq<Step>) {
    LegalUpTo(p, run, |run|)
  }

  lemma {:induction false} AtExtended(p: Policy, run: seq<Step>, step: Step, k: nat)
    requires k <= |run|
    ensures At(p, run + [step], k) == At(p, run, k)
    ensures LegalUpTo(p, run + [step], k) == LegalUpTo(p, run, k)
  {
    hide Apply;
    hide Enabled;
    if k > 0 {
      AtExtended(p, run, step, k - 1);
    }
  }

  lemma Extend(p: Policy, run: seq<Step>, step: Step)
    requires Legal(p, run) && Enabled(p, End(p, run), step)
    ensures Legal(p, run + [step]) && End(p, run + [step]) == Apply(p, End(p, run), step)
  {
    hide Apply;
    hide Enabled;
    AtExtended(p, run, step, |run|);
  }

  lemma {:induction false} LegalPrefix(p: Policy, run: seq<Step>, k: nat, n: nat)
    requires k <= n <= |run| && LegalUpTo(p, run, n)
    ensures LegalUpTo(p, run, k)
  {
    hide Enabled;
    hide At;
    if k < n {
      LegalPrefix(p, run, k, n - 1);
    }
  }

  lemma TakesStep(p: Policy, run: seq<Step>, k: nat)
    requires Legal(p, run) && k < |run|
    ensures Enabled(p, At(p, run, k), run[k]) && At(p, run, k + 1) == Apply(p, At(p, run, k), run[k])
  {
    hide Enabled;
    hide Apply;
    LegalPrefix(p, run, k + 1, |run|);
  }

  // ----- What every step keeps ----------------------------------------------------------------------

  ghost predicate TransactionSound(p: Policy, v: U16, t: Transaction) {
    && v != 0 && t.request.sequence == v && t.request.kind == TYPE_REQUEST
    && Encodable(t.request) && Normalised(t.request) == t.request
    && t.retries <= p.maxRetries
  }

  ghost predicate Inv(p: Policy, s: State) {
    && s.cursor != 0
    && |s.open| <= p.capacity
    && forall v :: v in s.open ==> TransactionSound(p, v, s.open[v])
  }

  lemma EntryAdded(m: map<U16, Transaction>, v: U16, t: Transaction)
    ensures |m[v := t]| == if v in m then |m| else |m| + 1
  {
    assert m[v := t].Keys == m.Keys + {v};
    if v in m {
      assert m.Keys + {v} == m.Keys;
    }
  }

  lemma EntryRemoved(m: map<U16, Transaction>, v: U16)
    requires v in m
    ensures |m - {v}| == |m| - 1
  {
    assert (m - {v}).Keys == m.Keys - {v};
  }

  /** How many transactions a step leaves open. */
  lemma OpenAfter(p: Policy, s: State, step: Step)
    requires Enabled(p, s, step)
    ensures |Apply(p, s, step).open|
         == match step
            case Started(_, _) => |s.open| + 1
            case Matched(_, _) => |s.open| - 1
            case TimedOut(_, _, _) => |s.open| - 1
            case Reset(_) => 0
            case _ => |s.open|
  {
    match step
    case Started(f, now) => EntryAdded(s.open, f.sequence, Transaction(f, Deadline(now, p.timeout), 0));
    case Resent(f, retry, now) => EntryAdded(s.open, f.sequence, Transaction(f, Deadline(now, p.timeout), retry));
    case Matched(f, retries) => EntryRemoved(s.open, f.sequence);
    case TimedOut(f, retries, now) => EntryRemoved(s.open, f.sequence);
    case _ =>
  }

  lemma StepInv(p: Policy, s: State, step: Step)
    requires Inv(p, s) && Enabled(p, s, step)
    ensures Inv(p, Apply(p, s, step))
  {
    OpenAfter(p, s, step);
  }

  lemma {:induction false} RunInv(p: Policy, run: seq<Step>, k: nat)
    requires Legal(p, run) && k <= |run|
    ensures Inv(p, At(p, run, k))
  {
    hide Apply;
    hide Enabled;
    if k > 0 {
      RunInv(p, run, k - 1);
      TakesStep(p, run, k - 1);
      StepInv(p, At(p, run, k - 1), run[k - 1]);
    }
  }

  // ----- Each transaction ends once -------------------------------------------------------------------

  /** Step `k` ends the open transaction `v`: by a reply, by a final timeout, or by a reset. */
  predicate Ends(p: Policy, run: seq<Step>, k: nat, v: U16)
    requires k < |run|
  {
    || (run[k].Matched? && run[k].reply.sequence == v)
    || (run[k].TimedOut? && run[k].request.sequence == v)
    || (run[k].Reset? && v in At(p, run, k).open)
  }

  predicate Starts(run: seq<Step>, k: nat, v: U16)
    requires k < |run|
  {
    run[k].Started? && run[k].request.sequence == v
  }

  function StartsIn(run: seq<Step>, from: nat, to: nat, v: U16): nat
    requires from <= to <= |run|
  {
    if from == to then 0 else StartsIn(run, from, to - 1, v) + if Starts(run, to - 1, v) then 1 else 0
  }

  function EndsIn(p: Policy, run: seq<Step>, from: nat, to: nat, v: U16): nat
    requires from <= to <= |run|
  {
    if from == to then 0 else EndsIn(p, run, from, to - 1, v) + if Ends(p, run, to - 1, v) then 1 else 0
  }

  /** Whether `v` is open changes exactly at its starts, when it was not, and its ends, when it was. */
  lemma OpenStep(p: Policy, run: seq<Step>, k: nat, v: U16)
    requires Legal(p, run) && k < |run|
    ensures !(Starts(run, k, v) && Ends(p, run, k, v))
    ensures Starts(run, k, v) ==> v !in At(p, run, k).open && v in At(p, run, k + 1).open
    ensures Ends(p, run, k, v) ==> v in At(p, run, k).open && v !in At(p, run, k + 1).open
    ensures !Starts(run, k, v) && !Ends(p, run, k, v) ==>
              (v in At(p, run, k).open <==> v in At(p, run, k + 1).open)
  {
    TakesStep(p, run, k);
    hide Legal;
    hide At;
  }

  /**
   Over any stretch of any run, starts and ends of one sequence number balance, so between two
   starts there is exactly one end and between two ends exactly one start.
   */
  lemma {:induction false} EveryTransactionEndsOnce(p: Policy, run: seq<Step>, from: nat, to: nat, v: U16)
    requires Legal(p, run) && from <= to <= |run|
    ensures (if v in At(p, run, from).open then 1 else 0) + StartsIn(run, from, to, v)
         == EndsIn(p, run, from, to, v) + if v in At(p, run, to).open then 1 else 0
  {
    hide Legal;
    hide At;
    hide Ends;
    if from < to {
      EveryTransactionEndsOnce(p, run, from, to - 1, v);
      OpenStep(p, run, to - 1, v);
    }
  }

  // ----- Retries and timeouts ----------------------------------------------------------------------------

  /** Step `k` puts a frame of request `v` on the channel. */
  predicate SendsCopy(run: seq<Step>, k: nat, v: U16)
    requires k < |run|
  {
    (run[k].Started? || run[k].Resent?) && run[k].request.sequence == v
  }

  function CopiesIn(run: seq<Step>, from: nat, to: nat, v: U16): nat
    requires from <= to <= |run|
  {
    if from == to then 0 else CopiesIn(run, from, to - 1, v) + if SendsCopy(run, to - 1, v) then 1 else 0
  }

  /** A moment `n` waiting times after `start`, or the clock's last value. */
  function NotBefore(start: U64, n: nat, timeout: U32): U64 {
    Min(start + n * timeout, U64_MAX)
  }

  /** Every frame of `f`'s sequence number sent at `from..to` is `f` itself, each copy a waiting time apart. */
  ghost predicate CopiesSpaced(p: Policy, run: seq<Step>, from: nat, to: nat, f: Frame, start: U64)
    requires from <= to <= |run|
  {
    forall k :: from <= k < to && SendsCopy(run, k, f.sequence) ==>
                  && run[k].request == f
                  && NotBefore(start, CopiesIn(run, from, k, f.sequence), p.timeout) <= run[k].now
  }

  /** Steps `i..j` are the life so far of one transaction, started by step `i`, with `retries` repeats. */
  ghost predicate LifeOf(p: Policy, run: seq<Step>, i: nat, j: nat, f: Frame, retries: nat)
    requires i < j <= |run|
  {
    && run[i].Started? && run[i].request == f
    && StartsIn(run, i + 1, j, f.sequence) == 0
    && EndsIn(p, run, i, j, f.sequence) == 0
    && CopiesIn(run, i, j, f.sequence) == 1 + retries
    && CopiesSpaced(p, run, i, j, f, run[i].now)
  }

  lemma NotBeforeAdds(start: U64, n: nat, timeout: U32, deadline: U64, now: U64)
    requires NotBefore(start, n, timeout) <= deadline <= now
    ensures NotBefore(start, n + 1, timeout) <= Deadline(now, timeout)
  {
    assert (n + 1) * timeout == n * timeout + timeout;
  }

  /** A transaction that stays open is repeated when its deadline has passed, or not touched at all. */
  lemma StaysOpen(p: Policy, s: State, step: Step, v: U16)
    requires Enabled(p, s, step) && v in s.open && v in Apply(p, s, step).open
    ensures var (t, u) := (s.open[v], Apply(p, s, step).open[v]);
            if step.Resent? && step.request.sequence == v then
              && step.request == t.request && t.deadline <= step.now
              && u == Transaction(t.request, Deadline(step.now, p.timeout), t.retries + 1)
            else
              u == t && !(step.Started? && step.request.sequence == v)
  {
    hide Encodable, Normalised, IsReply, Deadline;
  }

  /** What one more step means for the life of an open transaction. */
  lemma LifeGoesOn(p: Policy, run: seq<Step>, i: nat, j: nat, v: U16)
    requires Legal(p, run) && i < j < |run|
    requires v in At(p, run, j).open && v in At(p, run, j + 1).open
    requires var t := At(p, run, j).open[v];
             && LifeOf(p, run, i, j, t.request, t.retries) && t.request.sequence == v
             && NotBefore(run[i].now, t.retries + 1, p.timeout) <= t.deadline
    ensures var t := At(p, run, j + 1).open[v];
            && LifeOf(p, run, i, j + 1, t.request, t.retries) && t.request.sequence == v
            && NotBefore(run[i].now, t.retries + 1, p.timeout) <= t.deadline
  {
    hide Enabled, Apply, Legal, At, Starts, Ends, NotBefore, Deadline;
    TakesStep(p, run, j);
    StaysOpen(p, At(p, run, j), run[j], v);
    OpenStep(p, run, j, v);
    if SendsCopy(run, j, v) {
      var t := At(p, run, j).open[v];
      NotBeforeAdds(run[i].now, t.retries + 1, p.timeout, t.deadline, run[j].now);
    }
  }

  lemma LifeBegins(p: Policy, run: seq<Step>, i: nat)
    requires Legal(p, run) && i < |run| && run[i].Started?
    ensures LifeOf(p, run, i, i + 1, run[i].request, 0)
    ensures NotBefore(run[i].now, 1, p.timeout) <= Deadline(run[i].now, p.timeout)
  {
    hide Legal, At;
    var v := run[i].request.sequence;
    OpenStep(p, run, i, v);
    assert StartsIn(run, i + 1, i + 1, v) == 0;
    assert EndsIn(p, run, i, i, v) == 0;
    assert CopiesIn(run, i, i, v) == 0;
  }

  /** Every open transaction has such a life, and its deadline lies after all its waiting times. */
  lemma {:induction false} OpenTransactionLife(p: Policy, run: seq<Step>, j: nat, v: U16) returns (i: nat)
    requires Legal(p, run) && j <= |run| && v in At(p, run, j).open
    ensures i < j
    ensures var t := At(p, run, j).open[v];
            && LifeOf(p, run, i, j, t.request, t.retries) && t.request.sequence == v
            && NotBefore(run[i].now, t.retries + 1, p.timeout) <= t.deadline
  {
    hide Enabled, Legal, LifeOf, NotBefore;
    if j == 0 {
      assert false;
    }
    OpenStep(p, run, j - 1, v);
    TakesStep(p, run, j - 1);
    hide At;
    if Starts(run, j - 1, v) {
      i := j - 1;
      LifeBegins(p, run, i);
    } else {
      hide Apply;
      i := OpenTransactionLife(p, run, j - 1, v);
      LifeGoesOn(p, run, i, j - 1, v);
    }
  }

  /** Step `k` is the last before `j` that put a frame of request `v` on the channel. */
  ghost predicate LastCopyAt(run: seq<Step>, k: nat, j: nat, v: U16) {
    k < j <= |run| && SendsCopy(run, k, v) && forall m :: k < m < j ==> !SendsCopy(run, m, v)
  }

  /** A copy starts a waiting time of exactly `timeout`, cut off only by the clock's last value. */
  lemma CopyStartsWaiting(p: Policy, s: State, step: Step)
    requires Enabled(p, s, step) && (step.Started? || step.Resent?)
    ensures var open := Apply(p, s, step).open;
            && step.request.sequence in open
            && open[step.request.sequence].request == step.request
            && open[step.request.sequence].deadline
            == if step.now + p.timeout <= U64_MAX then step.now + p.timeout else U64_MAX
  {
  }

  /** An open transaction waits for exactly `timeout` from its last copy on. */
  lemma {:induction false} WaitsFromLastCopy(p: Policy, run: seq<Step>, j: nat, v: U16) returns (k: nat)
    requires Legal(p, run) && j <= |run| && v in At(p, run, j).open
    ensures LastCopyAt(run, k, j, v) && run[k].request == At(p, run, j).open[v].request
    ensures At(p, run, j).open[v].deadline
         == if run[k].now + p.timeout <= U64_MAX then run[k].now + p.timeout else U64_MAX
  {
    hide Enabled, Legal, Deadline, Apply, Ends;
    if j == 0 {
      assert false;
    }
    TakesStep(p, run, j - 1);
    OpenStep(p, run, j - 1, v);
    hide At;
    if SendsCopy(run, j - 1, v) {
      k := j - 1;
      CopyStartsWaiting(p, At(p, run, k), run[k]);
    } else {
      k := WaitsFromLastCopy(p, run, j - 1, v);
      StaysOpen(p, At(p, run, j - 1), run[j - 1], v);
    }
  }

  /** No transaction ever puts more than one frame and the permitted repeats on the channel. */
  lemma RetryBound(p: Policy, run: seq<Step>, j: nat, v: U16) returns (i: nat)
    requires Legal(p, run) && j <= |run| && v in At(p, run, j).open
    ensures i < j && LifeOf(p, run, i, j, At(p, run, j).open[v].request, At(p, run, j).open[v].retries)
    ensures 1 <= CopiesIn(run, i, j, v) <= 1 + p.maxRetries
  {
    i := OpenTransactionLife(p, run, j, v);
    RunInv(p, run, j);
  }

  lemma TimeoutIsDue(p: Policy, s: State, step: Step)
    requires Enabled(p, s, step) && step.TimedOut?
    ensures step.request.sequence in s.open && step.retries == p.maxRetries
    ensures var t := s.open[step.request.sequence];
            t.request == step.request && t.retries == p.maxRetries && t.deadline <= step.now
  {
  }

  /**
   A final timeout is never early: the request went out `1 + maxRetries` times, always the same
   frame, and as many waiting times have passed since it was first sent (or the clock is at its
   last value). Nothing is assumed about how the times given to the manager are ordered.
   */
  lemma NoEarlyTimeout(p: Policy, run: seq<Step>, j: nat) returns (i: nat)
    requires Legal(p, run) && j < |run| && run[j].TimedOut?
    ensures i < j && LifeOf(p, run, i, j, run[j].request, p.maxRetries) && run[j].retries == p.maxRetries
    ensures NotBefore(run[i].now, 1 + p.maxRetries, p.timeout) <= run[j].now
  {
    hide Legal, At, LifeOf, NotBefore, Apply, Enabled;
    TakesStep(p, run, j);
    TimeoutIsDue(p, At(p, run, j), run[j]);
    i := OpenTransactionLife(p, run, j, run[j].request.sequence);
  }

  /** A matched reply answers exactly one request, and reports how often that was repeated. */
  lemma ReplyEndsItsRequest(p: Policy, run: seq<Step>, j: nat) returns (i: nat)
    requires Legal(p, run) && j < |run| && run[j].Matched?
    ensures i < j && run[i].Started? && run[i].request.sequence == run[j].reply.sequence
    ensures LifeOf(p, run, i, j, run[i].request, run[j].retries) && run[j].retries <= p.maxRetries
  {
    TakesStep(p, run, j);
    hide Legal, At, LifeOf, NotBefore;
    i := OpenTransactionLife(p, run, j, run[j].reply.sequence);
    RunInv(p, run, j);
  }

  // ----- Reuse of sequence numbers --------------------------------------------------------------------------

  function RequestsIn(run: seq<Step>, from: nat, to: nat): nat
    requires from <= to <= |run|
  {
    if from == to then 0 else RequestsIn(run, from, to - 1) + if run[to - 1].Started? then 1 else 0
  }

  function NumbersIn(run: seq<Step>, from: nat, to: nat): (numbers: set<U16>)
    requires from <= to <= |run|
    ensures |numbers| <= RequestsIn(run, from, to)
  {
    if from == to then {}
    else NumbersIn(run, from, to - 1) + NumberOf(run[to - 1])
  }

  /** Every number but `v` was in use at the beginning or has been given out since. */
  ghost predicate Covered(v: U16, inUse: set<U16>, since: set<U16>) {
    forall w: U16 :: w != 0 && w != v ==> w in inUse || w in since
  }

  /** The cursor is on its first lap from just after `v`: what it has passed is covered so far. */
  ghost predicate OnFirstLap(s: State, v: U16, inUse: set<U16>, since: set<U16>) {
    && s.cursor != 0
    && (forall w: U16 :: w != 0 && w != v && Distance(s.cursor, w) >= Distance(s.cursor, v) ==>
                           w in inUse || w in since)
    && (forall w :: w in s.open && w != 0 && Distance(s.cursor, w) < Distance(s.cursor, v) ==> w in inUse)
  }

  /** One request either stays on the lap or completes it; completing it skips only numbers in use all along. */
  lemma LapOneRequest(p: Policy, s: State, f: Frame, now: U64, v: U16, inUse: set<U16>, since: set<U16>)
    requires v != 0 && Enabled(p, s, Started(f, now)) && OnFirstLap(s, v, inUse, since)
    ensures Distance(s.cursor, v) <= Distance(s.cursor, f.sequence) ==> Covered(v, inUse, since)
    ensures Covered(v, inUse, since + {f.sequence})
         || OnFirstLap(Apply(p, s, Started(f, now)), v, inUse, since + {f.sequence})
  {
    hide Encodable, Normalised, Deadline;
    assert FirstUnused(s.cursor, s.open.Keys, f.sequence);
  }

  /** Either the lap is still going on or every other number has been used. */
  ghost predicate Lapping(s: State, v: U16, inUse: set<U16>, since: set<U16>) {
    v != 0 && (Covered(v, inUse, since) || OnFirstLap(s, v, inUse, since))
  }

  /** The number a request step gives out. */
  function NumberOf(step: Step): set<U16> {
    if step.Started? then {step.request.sequence} else {}
  }

  lemma LapStep(p: Policy, s: State, step: Step, v: U16, inUse: set<U16>, since: set<U16>)
    requires Enabled(p, s, step) && !step.Reset? && Lapping(s, v, inUse, since)
    ensures Lapping(Apply(p, s, step), v, inUse, since + NumberOf(step))
  {
    if Covered(v, inUse, since) {
      assert Covered(v, inUse, since + NumberOf(step));
    } else if step.Started? {
      LapOneRequest(p, s, step.request, step.now, v, inUse, since);
    } else {
      assert since + {} == since;
    }
  }

  lemma LapBegins(p: Policy, s: State, step: Step)
    requires Enabled(p, s, step) && step.Started?
    ensures Lapping(Apply(p, s, step), step.request.sequence, s.open.Keys, {})
  {
  }

  ghost predicate NoResetIn(run: seq<Step>, from: nat, to: nat)
    requires from <= to <= |run|
  {
    forall k :: from <= k < to ==> !run[k].Reset?
  }

  /** From the step that gave out `v` onwards: still on the first lap, or everything else has been used. */
  lemma {:induction false} LapFrom(p: Policy, run: seq<Step>, i: nat, k: nat)
    requires Legal(p, run) && i < k <= |run| && run[i].Started? && NoResetIn(run, i, k)
    ensures Lapping(At(p, run, k), run[i].request.sequence, At(p, run, i).open.Keys, NumbersIn(run, i + 1, k))
  {
    hide Legal, At, Enabled, Apply, Lapping, RequestsIn, NumberOf;
    TakesStep(p, run, k - 1);
    if k == i + 1 {
      LapBegins(p, At(p, run, i), run[i]);
    } else {
      LapFrom(p, run, i, k - 1);
      LapStep(p, At(p, run, k - 1), run[k - 1], run[i].request.sequence, At(p, run, i).open.Keys,
              NumbersIn(run, i + 1, k - 1));
    }
  }

  lemma {:induction false} NumbersUpTo(n: nat) returns (s: set<int>)
    ensures |s| == n && forall x :: x in s <==> 1 <= x <= n
  {
    s := {};
    if n > 0 {
      var fewer := NumbersUpTo(n - 1);
      s := fewer + {n};
    }
  }

  /** All numbers but one do not fit into fewer places. */
  lemma CoveredCounts(v: U16, inUse: set<U16>, since: set<U16>)
    requires v != 0 && Covered(v, inUse, since)
    ensures |inUse| + |since| >= U16_MAX - 1
  {
    var all := NumbersUpTo(U16_MAX);
    var both: set<int> := inUse + since + {v};
    forall x | x in all ensures x in both {
      var w: U16 := x;
      assert w == v || w in inUse || w in since;
    }
    SubsetSize(all, both);
  }

  /**
   Between two requests with the same number, at least `65535 - capacity` other requests were
   sent: the cursor has gone round once, skipping only numbers that were in use when the first
   of the two was sent.
   */
  lemma SequenceReuseDistance(p: Policy, run: seq<Step>, i: nat, j: nat)
    requires Legal(p, run) && i < j < |run| && NoResetIn(run, i, j)
    requires run[i].Started? && run[j].Started? && run[i].request.sequence == run[j].request.sequence
    ensures RequestsIn(run, i + 1, j) >= U16_MAX - 1 - |At(p, run, i).open|
    ensures RequestsIn(run, i + 1, j) >= U16_MAX - p.capacity
  {
    var v, inUse, since := run[i].request.sequence, At(p, run, i).open.Keys, NumbersIn(run, i + 1, j);
    LapFrom(p, run, i, j);
    TakesStep(p, run, i);
    TakesStep(p, run, j);
    hide Legal, At, Covered, OnFirstLap;
    if !Covered(v, inUse, since) {
      LapOneRequest(p, At(p, run, j), run[j].request, run[j].now, v, inUse, since);
    }
    CoveredCounts(v, inUse, since);
  }

  ghost predicate NoRequestIn(run: seq<Step>, from: nat, to: nat)
    requires from <= to <= |run|
  {
    forall k :: from <= k < to ==> !run[k].Started?
  }

  /** Only requests and resets move the cursor, and only requests take numbers into use. */
  lemma {:induction false} CursorKept(p: Policy, run: seq<Step>, i: nat, k: nat)
    requires Legal(p, run) && i <= k <= |run| && NoRequestIn(run, i, k) && NoResetIn(run, i, k)
    ensures At(p, run, k).cursor == At(p, run, i).cursor
    ensures At(p, run, k).open.Keys <= At(p, run, i).open.Keys
  {
    hide Legal, At;
    if i < k {
      CursorKept(p, run, i, k - 1);
      TakesStep(p, run, k - 1);
    }
  }

  /** Numbers are given out upwards: the next request gets the next number, if that is not in use. */
  lemma NumbersGoUp(p: Policy, run: seq<Step>, i: nat, j: nat)
    requires Legal(p, run) && i < j < |run| && run[i].Started? && run[j].Started?
    requires NoRequestIn(run, i + 1, j) && NoResetIn(run, i + 1, j)
    ensures var u := run[i].request.sequence;
            var next: U16 := if u == 65535 then 1 else u + 1;
            && FirstUnused(next, At(p, run, j).open.Keys, run[j].request.sequence)
            && (next !in At(p, run, j).open ==> run[j].request.sequence == next)
  {
    hide Legal, At;
    TakesStep(p, run, i);
    TakesStep(p, run, j);
    CursorKept(p, run, i + 1, j);
  }

  /** The first request of all, and the first after a reset, gets number 1. */
  lemma FirstNumberIsOne(p: Policy, run: seq<Step>, i: nat, j: nat)
    requires Legal(p, run) && i <= j < |run| && run[j].Started?
    requires (i == 0 || run[i - 1].Reset?) && NoRequestIn(run, i, j) && NoResetIn(run, i, j)
    ensures run[j].request.sequence == 1
  {
    hide Legal, At;
    StartsAfresh(p, run, i);
    CursorKept(p, run, i, j);
    TakesStep(p, run, j);
    FirstUnusedMeans(1, At(p, run, j).open.Keys, run[j].request.sequence);
    var one: U16 := 1;
    assert one !in At(p, run, j).open.Keys;
  }

  lemma StartsAfresh(p: Policy, run: seq<Step>, i: nat)
    requires Legal(p, run) && i <= |run| && (i == 0 || run[i - 1].Reset?)
    ensures At(p, run, i).open == map[] && At(p, run, i).cursor == 1
  {
    hide Legal, Enabled;
    if i > 0 {
      TakesStep(p, run, i - 1);
    }
  }

  /** Were every number in use, the open transactions would exceed any capacity up to 65535. */
  lemma NumbersSuffice(open: map<U16, Transaction>, capacity: nat)
    requires |open| < capacity && forall v: U16 :: v != 0 ==> v in open
    ensures capacity > U16_MAX
  {
    var all := NumbersUpTo(U16_MAX);
    forall x | x in all ensures x in open.Keys {
      var w: U16 := x;
      assert w in open;
    }
    SubsetSize(all, open.Keys);
  }

  // ----- Conservation -----------------------------------------------------------------------------------------

  /** What a stretch of a run adds to the counters, and two counts the code does not keep. */
  datatype Tally = Tally(
    framesSent: nat, requestsSent: nat, sendFailures: nat, requestsReceived: nat,
    reportsReceived: nat, responsesMatched: nat, errorsMatched: nat, unmatchedReplies: nat,
    retriesSent: nat, requestTimeouts: nat, pendingFull: nat,
    otherSent: nat, cancelled: nat)

  const NOTHING := Tally(0, 0, 0, 0, 0, 0, 0, 0, 0, 0, 0, 0, 0)

  function Count(t: Tally, step: Step): Tally {
    match step
    case Started(_, _) => t.(framesSent := t.framesSent + 1, requestsSent := t.requestsSent + 1)
    case Resent(_, _, _) => t.(framesSent := t.framesSent + 1, retriesSent := t.retriesSent + 1)
    case Sent(_) => t.(framesSent := t.framesSent + 1, otherSent := t.otherSent + 1)
    case Refused(_) => t.(sendFailures := t.sendFailures + 1)
    case Matched(f, _) =>
      if f.kind == TYPE_RESPONSE then t.(responsesMatched := t.responsesMatched + 1)
      else t.(errorsMatched := t.errorsMatched + 1)
    case Unmatched(_) => t.(unmatchedReplies := t.unmatchedReplies + 1)
    case Arrived(f) =>
      if f.kind == TYPE_REQUEST then t.(requestsReceived := t.requestsReceived + 1)
      else t.(reportsReceived := t.reportsReceived + 1)
    case TimedOut(_, _, _) => t.(requestTimeouts := t.requestTimeouts + 1)
    case TurnedAway => t.(pendingFull := t.pendingFull + 1)
    case Reset(n) => t.(cancelled := t.cancelled + n)
  }

  function Totals(run: seq<Step>, from: nat, to: nat): Tally
    requires from <= to <= |run|
  {
    if from == to then NOTHING else Count(Totals(run, from, to - 1), run[to - 1])
  }

  /** What each counter is there to count. */
  datatype Counted =
    | FrameAccepted
    | RequestAccepted
    | FrameRefused
    | RequestArrived
    | ReportArrived
    | ResponseMatched
    | ErrorMatched
    | ReplyUnmatched
    | RepeatAccepted
    | RequestGivenUp
    | RequestTurnedAway

  predicate Is(step: Step, what: Counted) {
    match what
    case FrameAccepted => step.Started? || step.Resent? || step.Sent?
    case RequestAccepted => step.Started?
    case FrameRefused => step.Refused?
    case RequestArrived => step.Arrived? && step.frame.kind == TYPE_REQUEST
    case ReportArrived => step.Arrived? && step.frame.kind == TYPE_REPORT
    case ResponseMatched => step.Matched? && step.reply.kind == TYPE_RESPONSE
    case ErrorMatched => step.Matched? && step.reply.kind == TYPE_ERROR
    case ReplyUnmatched => step.Unmatched?
    case RepeatAccepted => step.Resent?
    case RequestGivenUp => step.TimedOut?
    case RequestTurnedAway => step.TurnedAway?
  }

  function HowMany(run: seq<Step>, from: nat, to: nat, what: Counted): nat
    requires from <= to <= |run|
  {
    if from == to then 0 else HowMany(run, from, to - 1, what) + if Is(run[to - 1], what) then 1 else 0
  }

  lemma CountStep(p: Policy, s: State, t: Tally, step: Step)
    requires Enabled(p, s, step)
    ensures var u := Count(t, step);
            && u.framesSent == t.framesSent + (if Is(step, FrameAccepted) then 1 else 0)
            && u.requestsSent == t.requestsSent + (if Is(step, RequestAccepted) then 1 else 0)
            && u.sendFailures == t.sendFailures + (if Is(step, FrameRefused) then 1 else 0)
            && u.requestsReceived == t.requestsReceived + (if Is(step, RequestArrived) then 1 else 0)
            && u.reportsReceived == t.reportsReceived + (if Is(step, ReportArrived) then 1 else 0)
            && u.responsesMatched == t.responsesMatched + (if Is(step, ResponseMatched) then 1 else 0)
            && u.errorsMatched == t.errorsMatched + (if Is(step, ErrorMatched) then 1 else 0)
            && u.unmatchedReplies == t.unmatchedReplies + (if Is(step, ReplyUnmatched) then 1 else 0)
            && u.retriesSent == t.retriesSent + (if Is(step, RepeatAccepted) then 1 else 0)
            && u.requestTimeouts == t.requestTimeouts + (if Is(step, RequestGivenUp) then 1 else 0)
            && u.pendingFull == t.pendingFull + (if Is(step, RequestTurnedAway) then 1 else 0)
  {
  }

  /** Each counter counts exactly the steps it is there for. */
  lemma {:induction false} TotalsCount(p: Policy, run: seq<Step>, from: nat, to: nat)
    requires Legal(p, run) && from <= to <= |run|
    ensures var t := Totals(run, from, to);
            && t.framesSent == HowMany(run, from, to, FrameAccepted)
            && t.requestsSent == HowMany(run, from, to, RequestAccepted)
            && t.sendFailures == HowMany(run, from, to, FrameRefused)
            && t.requestsReceived == HowMany(run, from, to, RequestArrived)
            && t.reportsReceived == HowMany(run, from, to, ReportArrived)
            && t.responsesMatched == HowMany(run, from, to, ResponseMatched)
            && t.errorsMatched == HowMany(run, from, to, ErrorMatched)
            && t.unmatchedReplies == HowMany(run, from, to, ReplyUnmatched)
            && t.retriesSent == HowMany(run, from, to, RepeatAccepted)
            && t.requestTimeouts == HowMany(run, from, to, RequestGivenUp)
            && t.pendingFull == HowMany(run, from, to, RequestTurnedAway)
  {
    hide Legal, At, Enabled, Count, Is;
    if from < to {
      TotalsCount(p, run, from, to - 1);
      TakesStep(p, run, to - 1);
      CountStep(p, At(p, run, to - 1), Totals(run, from, to - 1), run[to - 1]);
    }
  }

  /** Open transactions at the two ends of a stretch, and what happened in between. */
  predicate Balanced(before: nat, t: Tally, after: nat) {
    && before + t.requestsSent
    == t.responsesMatched + t.errorsMatched + t.requestTimeouts + t.cancelled + after
    && t.framesSent == t.requestsSent + t.retriesSent + t.otherSent
  }

  lemma BalanceStep(p: Policy, s: State, step: Step, before: nat, t: Tally)
    requires Enabled(p, s, step) && Balanced(before, t, |s.open|)
    ensures Balanced(before, Count(t, step), |Apply(p, s, step).open|)
  {
    OpenAfter(p, s, step);
    hide Apply;
  }

  /**
   Over any stretch of any run, the transactions open at its beginning and those started in it
   were answered, given up, cancelled, or are still open; and every frame the channel accepted
   is a request, a repeat, or some other message.
   */
  lemma {:induction false} Conservation(p: Policy, run: seq<Step>, from: nat, to: nat)
    requires Legal(p, run) && from <= to <= |run|
    ensures Balanced(|At(p, run, from).open|, Totals(run, from, to), |At(p, run, to).open|)
  {
    hide Legal, At, Enabled, Apply, Count;
    if from < to {
      Conservation(p, run, from, to - 1);
      TakesStep(p, run, to - 1);
      BalanceStep(p, At(p, run, to - 1), run[to - 1], |At(p, run, from).open|, Totals(run, from, to - 1));
    }
  }

  /** The most transactions ever open at once since `from`. */
  function Peak(p: Policy, run: seq<Step>, from: nat, to: nat): (peak: nat)
    requires from <= to <= |run|
    ensures |At(p, run, to).open| <= peak
  {
    if from == to then |At(p, run, to).open| else Max(Peak(p, run, from, to - 1), |At(p, run, to).open|)
  }

  lemma {:induction false} PeakCovers(p: Policy, run: seq<Step>, from: nat, to: nat, k: nat)
    requires from <= k <= to <= |run|
    ensures |At(p, run, k).open| <= Peak(p, run, from, to)
  {
    hide At;
    if k < to {
      PeakCovers(p, run, from, to - 1, k);
    }
  }

  /** The peak was reached. */
  lemma {:induction false} PeakReached(p: Policy, run: seq<Step>, from: nat, to: nat) returns (k: nat)
    requires from <= to <= |run|
    ensures from <= k <= to && |At(p, run, k).open| == Peak(p, run, from, to)
  {
    hide At;
    k := to;
    if from < to && |At(p, run, to).open| < Peak(p, run, from, to) {
      k := PeakReached(p, run, from, to - 1);
    }
  }

  lemma {:induction false} PeakWithin(p: Policy, run: seq<Step>, from: nat, to: nat)
    requires Legal(p, run) && from <= to <= |run|
    ensures Peak(p, run, from, to) <= p.capacity
  {
    hide Legal, At, TransactionSound;
    RunInv(p, run, to);
    if from < to {
      PeakWithin(p, run, from, to - 1);
    }
  }

  // ----- What the outside sees -----------------------------------------------------------------------------------

  datatype EventKind =
    | RequestReceived
    | ResponseReceived
    | ReportReceived
    | ErrorReceived
    | RequestTimeout
    | UnmatchedReply

  datatype Event = Event(kind: EventKind, frame: Frame, retries: nat)

  function EventOf(step: Step): seq<Event> {
    match step
    case Matched(f, n) => [Event(if f.kind == TYPE_RESPONSE then ResponseReceived else ErrorReceived, f, n)]
    case Unmatched(f) => [Event(UnmatchedReply, f, 0)]
    case Arrived(f) => [Event(if f.kind == TYPE_REQUEST then RequestReceived else ReportReceived, f, 0)]
    case TimedOut(f, n, _) => [Event(RequestTimeout, f, n)]
    case _ => []
  }

  function Events(run: seq<Step>, from: nat, to: nat): seq<Event>
    requires from <= to <= |run|
  {
    if from == to then [] else Events(run, from, to - 1) + EventOf(run[to - 1])
  }

  /** The event that ends a transaction names its frame and one less than the copies sent of it. */
  lemma EndReportsRetries(p: Policy, run: seq<Step>, j: nat) returns (i: nat)
    requires Legal(p, run) && j < |run| && (run[j].Matched? || run[j].TimedOut?)
    ensures i < j && run[i].Started? && |Events(run, j, j + 1)| == 1
    ensures var e, f := Events(run, j, j + 1)[0], run[i].request;
            && LifeOf(p, run, i, j, f, e.retries)
            && e.retries == CopiesIn(run, i, j, f.sequence) - 1
            && (run[j].Matched? ==>
                  && e.frame == run[j].reply && e.frame.sequence == f.sequence
                  && e.kind == (if run[j].reply.kind == TYPE_RESPONSE then ResponseReceived else ErrorReceived))
            && (run[j].TimedOut? ==> e.frame == f && e.kind == RequestTimeout && e.retries == p.maxRetries)
  {
    hide Legal, At, Enabled, NotBefore;
    assert Events(run, j, j) == [];
    if run[j].Matched? {
      i := ReplyEndsItsRequest(p, run, j);
    } else {
      i := NoEarlyTimeout(p, run, j);
    }
  }

  /** The frame a step puts on the channel. */
  function FrameOf(step: Step): seq<Frame> {
    match step
    case Started(f, _) => [f]
    case Resent(f, _, _) => [f]
    case Sent(f) => [f]
    case _ => []
  }

  function Channelled(run: seq<Step>, from: nat, to: nat): seq<Frame>
    requires from <= to <= |run|
  {
    if from == to then [] else Channelled(run, from, to - 1) + FrameOf(run[to - 1])
  }

  /** Every accepted frame is on the channel, once, in order, and nothing else is. */
  lemma {:induction false} ChannelledMean(run: seq<Step>, from: nat, to: nat, k: nat)
    requires from <= k < to <= |run|
    ensures |Channelled(run, from, to)| == HowMany(run, from, to, FrameAccepted)
    ensures Is(run[k], FrameAccepted) ==>
              && HowMany(run, from, k, FrameAccepted) < HowMany(run, from, to, FrameAccepted)
              && Channelled(run, from, to)[HowMany(run, from, k, FrameAccepted)]
              == if run[k].Sent? then run[k].frame else run[k].request
  {
    if k < to - 1 {
      ChannelledMean(run, from, to - 1, k);
    } else if from < to - 1 {
      ChannelledMean(run, from, to - 1, from);
    }
  }

  /** Longer runs agree on what happened earlier. */
  lemma {:induction false} SummariesExtended(p: Policy, run: seq<Step>, step: Step, from: nat, to: nat)
    requires from <= to <= |run|
    ensures Totals(run + [step], from, to) == Totals(run, from, to)
    ensures Peak(p, run + [step], from, to) == Peak(p, run, from, to)
    ensures Events(run + [step], from, to) == Events(run, from, to)
    ensures Channelled(run + [step], from, to) == Channelled(run, from, to)
  {
    hide Count;
    hide EventOf;
    hide FrameOf;
    hide At;
    AtExtended(p, run, step, to);
    if from < to {
      SummariesExtended(p, run, step, from, to - 1);
    }
  }
}
