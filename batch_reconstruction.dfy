/** Two-round batch reconstruction of t+1 secrets at once.

    Each party holds one share of each of t+1 secrets. It takes its shares as
    the coefficients of a polynomial f, sends f(point(j)) to every party j
    (round 1), robustly reconstructs the polynomial P1 through the round-1
    values it received, sends P1(0) to everyone (round 2), and robustly
    reconstructs P2 through the round-2 values; P2's coefficients are the
    secrets. A listener files incoming messages by round tag into two rows
    of n one-shot slots. */
module BatchReconstruction {
  import opened Wrappers
  import Field
  import opened RobustReconstruction

  /** A round-tagged message: ("R1", v) or ("R2", v); any other tag can
      arrive and is rejected. */
  datatype BatchMsg = BatchMsg(tag: string, value: int)

  /** A message to send: destination party and message. */
  type Outgoing = (nat, BatchMsg)

  /** The public evaluation point of party i: the field element i+1. */
  function Point(p: int, i: nat): (x: int)
    requires p >= 2
    ensures Field.IsElem(p, x)
  {
    (i + 1) % p
  }

  /** The round-1 messages: f(point(j)) tagged "R1" to each party j, where f
      has the batch as its coefficients, constant first. */
  function Round1Messages(p: int, secrets: seq<int>, n: nat): (out: seq<Outgoing>)
    requires p >= 2
    ensures |out| == n
    ensures forall j :: 0 <= j < n ==>
      out[j].0 == j && out[j].1.tag == "R1" && out[j].1.value == Field.PowerSum(secrets, Point(p, j), 0) % p
  {
    var out := seq(n, j requires 0 <= j < n => (j, BatchMsg("R1", Field.Eval(p, secrets, Point(p, j)))));
    assert forall j :: 0 <= j < n ==> out[j].1.value == Field.PowerSum(secrets, Point(p, j), 0) % p by {
      forall j | 0 <= j < n {
        Field.EvalIsPowerSum(p, secrets, Point(p, j));
      }
    }
    out
  }

  /** The round-2 messages: the same value P1(0), P1's constant coefficient,
      tagged "R2" to each party j. */
  function Round2Messages(p: int, P1: seq<int>, n: nat): (out: seq<Outgoing>)
    requires p >= 2
    ensures |out| == n
    ensures forall j :: 0 <= j < n ==>
      out[j].0 == j && out[j].1.tag == "R2" && out[j].1.value == (if P1 == [] then 0 else P1[0] % p)
  {
    Field.EvalAtZero(p, P1);
    seq(n, j requires 0 <= j < n => (j, BatchMsg("R2", Field.Eval(p, P1, 0))))
  }

  // ---------------------------------------------------------------------
  // The listener

  /** What one delivery (j, m) does to the two rows of slots: fill slot j of
      the row m's tag names, which must be empty; any other tag, or a second
      delivery to a filled slot, is an AssertionError, and a sender index
      past the row an IndexError. */
  function Arrive(r1: Snapshot, r2: Snapshot, j: nat, m: BatchMsg): Result<(Snapshot, Snapshot), Exception> {
    if m.tag == "R1" then
      if j >= |r1| then Err(IndexError)
      else if r1[j].Some? then Err(AssertionError)
      else Ok((r1[j := Some(m.value)], r2))
    else if m.tag == "R2" then
      if j >= |r2| then Err(IndexError)
      else if r2[j].Some? then Err(AssertionError)
      else Ok((r1, r2[j := Some(m.value)]))
    else Err(AssertionError)
  }

  /** Filling an empty slot adds exactly one resolved entry. */
  lemma {:induction false} FillOneSlot(fs: Snapshot, j: nat, v: int, k: nat)
    requires j < |fs| && fs[j].None? && k <= |fs|
    ensures ResolvedCount(fs[j := Some(v)], k) == ResolvedCount(fs, k) + (if j < k then 1 else 0)
  {
    if k > 0 {
      FillOneSlot(fs, j, v, k - 1);
    }
  }

  /** An accepted delivery fills exactly one empty slot of the row its tag
      names, with the delivered value, and leaves the other row as it was;
      both rows only grow. */
  lemma ArriveFillsOneSlot(r1: Snapshot, r2: Snapshot, j: nat, m: BatchMsg)
    requires Arrive(r1, r2, j, m).Ok?
    ensures m.tag == "R1" || m.tag == "R2"
    ensures var (a, b) := Arrive(r1, r2, j, m).value;
      && Grows(r1, a) && Grows(r2, b)
      && Resolved(a) + Resolved(b) == Resolved(r1) + Resolved(r2) + 1
      && (m.tag == "R1" ==> j < |r1| && r1[j].None? && a[j] == Some(m.value) && b == r2)
      && (m.tag == "R2" ==> j < |r2| && r2[j].None? && b[j] == Some(m.value) && a == r1)
  {
    if m.tag == "R1" {
      FillOneSlot(r1, j, m.value, |r1|);
    } else {
      FillOneSlot(r2, j, m.value, |r2|);
    }
  }

  /** The listener's state after it has taken the messages `msgs` in order:
      the two rows, and the exception that ended it, if one did. */
  function Drain(r1: Snapshot, r2: Snapshot, msgs: seq<(nat, BatchMsg)>): (Snapshot, Snapshot, Option<Exception>)
    decreases |msgs|
  {
    if msgs == [] then (r1, r2, None)
    else match Arrive(r1, r2, msgs[0].0, msgs[0].1)
      case Err(e) => (r1, r2, Some(e))
      case Ok((a, b)) => Drain(a, b, msgs[1..])
  }

  /** Whatever arrives, the rows the listener keeps only grow: a slot, once
      filled, is never changed. This is why the snapshots robust_reconstruct
      sees are successive later states of the same futures. */
  lemma {:induction false} DrainGrows(r1: Snapshot, r2: Snapshot, msgs: seq<(nat, BatchMsg)>)
    ensures Grows(r1, Drain(r1, r2, msgs).0) && Grows(r2, Drain(r1, r2, msgs).1)
    decreases |msgs|
  {
    if msgs != [] {
      match Arrive(r1, r2, msgs[0].0, msgs[0].1)
      case Err(_) =>
      case Ok((a, b)) =>
        ArriveFillsOneSlot(r1, r2, msgs[0].0, msgs[0].1);
        DrainGrows(a, b, msgs[1..]);
    }
  }

  /** The receive loop's state: the two rows of n one-shot slots (futures,
      None while pending) and whether the listener task is still running. */
  class Inbox {
    const n: nat
    const round1: array<Option<int>>
    const round2: array<Option<int>>
    var listening: bool

    ghost predicate Valid()
      reads this
    {
      round1.Length == n && round2.Length == n && round1 != round2
    }

    /** The listener task is created with all 2n slots pending. */
    constructor (n: nat)
      ensures Valid() && fresh(round1) && fresh(round2) && listening && this.n == n
      ensures round1[..] == seq(n, _ => None) && round2[..] == seq(n, _ => None)
    {
      this.n := n;
      round1 := new Option<int>[n](_ => None);
      round2 := new Option<int>[n](_ => None);
      listening := true;
    }

    /** One turn of `_recvloop`: file message m from sender j. An exception
        ends the listener. */
    method Deliver(j: nat, m: BatchMsg) returns (r: Result<(), Exception>)
      requires Valid() && listening
      modifies round1, round2, this`listening
      ensures Valid()
      ensures match Arrive(old(round1[..]), old(round2[..]), j, m)
        case Ok((a, b)) => r == Ok(()) && round1[..] == a && round2[..] == b && listening
        case Err(e) => r == Err(e) && round1[..] == old(round1[..]) && round2[..] == old(round2[..]) && !listening
    {
      if m.tag == "R1" {
        if j >= round1.Length {
          listening := false;
          return Err(IndexError);
        }
        if round1[j].Some? {
          listening := false;
          return Err(AssertionError);
        }
        round1[j] := Some(m.value);
        r := Ok(());
      } else if m.tag == "R2" {
        if j >= round2.Length {
          listening := false;
          return Err(IndexError);
        }
        if round2[j].Some? {
          listening := false;
          return Err(AssertionError);
        }
        round2[j] := Some(m.value);
        r := Ok(());
      } else {
        listening := false;
        r := Err(AssertionError);
      }
    }

    /** `_recvloop` run over the messages `msgs` as they arrive, until they
        run out or one raises. */
    method RecvLoop(msgs: seq<(nat, BatchMsg)>) returns (r: Option<Exception>)
      requires Valid() && listening
      modifies round1, round2, this`listening
      ensures Valid()
      ensures (round1[..], round2[..], r) == Drain(old(round1[..]), old(round2[..]), msgs)
      ensures listening <==> r.None?
    {
      var i := 0;
      r := None;
      while i < |msgs|
        invariant Valid() && 0 <= i <= |msgs|
        invariant listening
        invariant Drain(round1[..], round2[..], msgs[i..]) == Drain(old(round1[..]), old(round2[..]), msgs)
      {
        var d := Deliver(msgs[i].0, msgs[i].1);
        if d.Err? {
          return Some(d.error);
        }
        i := i + 1;
      }
      assert msgs[i..] == [];
    }

    /** `bgtask.cancel()`. */
    method Cancel()
      modifies this`listening
      ensures !listening
    {
      listening := false;
    }
  }

  // ---------------------------------------------------------------------
  // The local copy of robust_reconstruct

  /** The exceptions batch_reconstruction.py's own robust_reconstruct moves
      on from: every ValueError, "Did not coincide" included. */
  predicate CaughtLocally(e: Exception) {
    e.ValueError?
  }

  /** The point function of the batch: party i's point is i+1. */
  function PointFn(p: int): nat -> int
    requires p >= 2
  {
    (i: nat) => Point(p, i)
  }

  /** The local robust_reconstruct: the retry loop from 2t+1, retrying every
      ValueError, with no check that 2t < n. */
  function LocalRobust(dec: Decoder, p: int, n: nat, t: nat, snaps: seq<Snapshot>): Result<Reconstruction, Exception>
    requires p >= 2 && ValidSnapshots(snaps, n, t)
  {
    RetryFrom(dec, p, n, t, PointFn(p), CaughtLocally, snaps, 0)
  }

  method LocalRobustReconstruct(snaps: seq<Snapshot>, dec: Decoder, p: int, n: nat, t: nat)
    returns (r: Result<Reconstruction, Exception>)
    requires p >= 2 && ValidSnapshots(snaps, n, t)
    ensures r == LocalRobust(dec, p, n, t, snaps)
    ensures !(2 * t < n) ==> r == Err(AssertionError)
  {
    r := RetryLoop(snaps, dec, p, n, t, PointFn(p), CaughtLocally);
  }

  /** Unlike robust_reconstruction.py, the local copy does not stop at "Did
      not coincide": once the attempts before it were retried, an attempt
      failing that way hands over to the next nAvailable. */
  lemma LocalSkipsDidNotCoincide(dec: Decoder, p: int, n: nat, t: nat, snaps: seq<Snapshot>, i: nat)
    requires p >= 2 && ValidSnapshots(snaps, n, t) && i < |snaps|
    requires AllRetried(dec, p, n, t, PointFn(p), CaughtLocally, snaps, 0, i)
    requires Attempt(dec, p, n, t, PointFn(p), snaps[i]) == Err(DidNotCoincide)
    ensures LocalRobust(dec, p, n, t, snaps) == RetryFrom(dec, p, n, t, PointFn(p), CaughtLocally, snaps, i + 1)
  {
    assert AllRetried(dec, p, n, t, PointFn(p), CaughtLocally, snaps, 0, i + 1);
    RetrySkips(dec, p, n, t, PointFn(p), CaughtLocally, snaps, 0, i + 1);
  }

  // ---------------------------------------------------------------------
  // The protocol

  /** Outgoing messages and result of one batch: an AssertionError unless
      the batch has exactly t+1 values; otherwise the round-1 messages, the
      round-1 reconstruction P1, the round-2 messages carrying P1(0), and the
      coefficients of the round-2 reconstruction P2. An exception of either
      reconstruction ends the batch with the messages sent so far. */
  function Batch(secrets: seq<int>, p: int, t: nat, n: nat, dec: Decoder, snaps1: seq<Snapshot>, snaps2: seq<Snapshot>)
    : (seq<Outgoing>, Result<seq<int>, Exception>)
    requires p >= 2 && ValidSnapshots(snaps1, n, t) && ValidSnapshots(snaps2, n, t)
  {
    if |secrets| != t + 1 then ([], Err(AssertionError))
    else
      var sent1 := Round1Messages(p, secrets, n);
      match LocalRobust(dec, p, n, t, snaps1)
      case Err(e) => (sent1, Err(e))
      case Ok(rec1) =>
        var sent := sent1 + Round2Messages(p, rec1.poly, n);
        match LocalRobust(dec, p, n, t, snaps2)
        case Err(e) => (sent, Err(e))
        case Ok(rec2) => (sent, Ok(rec2.poly))
  }

  /** batch_reconstruction: snaps1 and snaps2 are what the round-1 and
      round-2 slot rows hold at each attempt of the two reconstructions. The
      size assertion comes before the listener exists; once it is started,
      it is cancelled on every way out. */
  method BatchReconstructionRun(secrets: seq<int>, p: int, t: nat, n: nat, dec: Decoder,
                                snaps1: seq<Snapshot>, snaps2: seq<Snapshot>)
    returns (sent: seq<Outgoing>, r: Result<seq<int>, Exception>, inbox: Option<Inbox>)
    requires p >= 2 && ValidSnapshots(snaps1, n, t) && ValidSnapshots(snaps2, n, t)
    ensures (sent, r) == Batch(secrets, p, t, n, dec, snaps1, snaps2)
    ensures inbox.Some? <==> |secrets| == t + 1
    ensures inbox.Some? ==>
      fresh(inbox.value) && inbox.value.Valid() && inbox.value.n == n && !inbox.value.listening
  {
    if |secrets| != t + 1 {
      return [], Err(AssertionError), None;
    }
    var listener := new Inbox(n);
    inbox := Some(listener);
    sent := Round1Messages(p, secrets, n);
    var r1 := LocalRobustReconstruct(snaps1, dec, p, n, t);
    if r1.Err? {
      listener.Cancel();
      return sent, Err(r1.error), inbox;
    }
    sent := sent + Round2Messages(p, r1.value.poly, n);
    var r2 := LocalRobustReconstruct(snaps2, dec, p, n, t);
    if r2.Err? {
      listener.Cancel();
      return sent, Err(r2.error), inbox;
    }
    r := Ok(r2.value.poly);
    listener.Cancel();
  }

  /** What a successful batch has checked: the batch had t+1 values; the
      round-1 messages went out, then the round-2 messages, all carrying P1's
      constant coefficient; P1 and the returned P2 passed the degree check and
      each coincides with at least 2t+1 of a round's received values, at an
      attempt that had at least 2t+1 of them. */
  lemma BatchSuccess(secrets: seq<int>, p: int, t: nat, n: nat, dec: Decoder, snaps1: seq<Snapshot>, snaps2: seq<Snapshot>)
    requires p >= 2 && ValidSnapshots(snaps1, n, t) && ValidSnapshots(snaps2, n, t)
    requires Batch(secrets, p, t, n, dec, snaps1, snaps2).1.Ok?
    ensures |secrets| == t + 1 && 2 * t < n
    ensures LocalRobust(dec, p, n, t, snaps1).Ok?
    ensures var (sent, r) := Batch(secrets, p, t, n, dec, snaps1, snaps2);
      var P1 := LocalRobust(dec, p, n, t, snaps1).value.poly;
      && sent == Round1Messages(p, secrets, n) + Round2Messages(p, P1, n)
      && dec.degree(P1) <= t && dec.degree(r.value) <= t
      && (exists i :: 0 <= i < |snaps1| && Resolved(snaps1[i]) >= 2 * t + 1 &&
            AgreeCount(p, P1, PointFn(p), snaps1[i], n) >= 2 * t + 1)
      && (exists i :: 0 <= i < |snaps2| && Resolved(snaps2[i]) >= 2 * t + 1 &&
            AgreeCount(p, r.value, PointFn(p), snaps2[i], n) >= 2 * t + 1)
  {
    var rec1 := LocalRobust(dec, p, n, t, snaps1);
    var rec2 := LocalRobust(dec, p, n, t, snaps2);
    RetrySuccessIsFirst(dec, p, n, t, PointFn(p), CaughtLocally, snaps1, 0);
    RetrySuccessIsFirst(dec, p, n, t, PointFn(p), CaughtLocally, snaps2, 0);
    var i1 :| 0 <= i1 < |snaps1| && Attempt(dec, p, n, t, PointFn(p), snaps1[i1]) == rec1 &&
      Resolved(snaps1[i1]) >= 2 * t + 1 + i1 && AgreeCount(p, rec1.value.poly, PointFn(p), snaps1[i1], n) >= 2 * t + 1;
    var i2 :| 0 <= i2 < |snaps2| && Attempt(dec, p, n, t, PointFn(p), snaps2[i2]) == rec2 &&
      Resolved(snaps2[i2]) >= 2 * t + 1 + i2 && AgreeCount(p, rec2.value.poly, PointFn(p), snaps2[i2], n) >= 2 * t + 1;
    AttemptDegree(dec, p, n, t, PointFn(p), snaps1[i1]);
    AttemptDegree(dec, p, n, t, PointFn(p), snaps2[i2]);
  }

  // ---------------------------------------------------------------------
  // Why two rounds recover the secrets

  /** Honest round 1. Let the t+1 secrets be shared by polynomials phis
      (secret k is phis[k](0)) and party i hold the shares phis[k](point(i)).
      The value party i sends to party j in round 1 is G_j(point(i)) for one
      polynomial G_j = F(point(j), .), the same for every sender, with no more
      coefficients than the phis: so round 1 at party j is a set of
      evaluations of G_j. */
  lemma HonestRound1(p: int, phis: seq<seq<int>>, t: nat, n: nat, i: nat, j: nat)
    requires p >= 2 && j < n
    requires forall k :: 0 <= k < |phis| ==> |phis[k]| <= t + 1
    ensures Round1Messages(p, Field.Values(p, phis, Point(p, i)), n)[j].1.value ==
      Field.Eval(p, Field.Combine(phis, Point(p, j)), Point(p, i))
    ensures |Field.Combine(phis, Point(p, j))| <= t + 1
  {
    Field.EvalCombine(p, phis, Point(p, j), Point(p, i));
    Field.EvalIsPowerSum(p, Field.Values(p, phis, Point(p, i)), Point(p, j));
    Field.CombineLength(phis, Point(p, j), t + 1);
  }

  /** Honest round 2. If party j's round-1 reconstruction is G_j, the value
      it sends in round 2 is S(point(j)) for the polynomial S whose
      coefficients are the secrets phis[k](0): so round 2 at every party is a
      set of evaluations of S, and P2's coefficients are the secrets. */
  lemma HonestRound2(p: int, phis: seq<seq<int>>, n: nat, j: nat, m: nat)
    requires p >= 2 && m < n
    ensures Round2Messages(p, Field.Combine(phis, Point(p, j)), n)[m].1.value ==
      Field.Eval(p, Field.Values(p, phis, 0), Point(p, j))
    ensures forall k :: 0 <= k < |phis| ==>
      Field.Values(p, phis, 0)[k] == (if phis[k] == [] then 0 else phis[k][0] % p)
  {
    var G := Field.Combine(phis, Point(p, j));
    Field.EvalCombine(p, phis, Point(p, j), 0);
    Field.EvalAtZero(p, G);
    forall k | 0 <= k < |phis| {
      Field.EvalAtZero(p, phis[k]);
    }
  }
}
