/** Robust reconstruction: recover a polynomial of degree at most t from n
    field values that arrive asynchronously, up to t of them wrong.

    The n futures are seen through snapshots: at each attempt, the state of
    every future (pending or done with its result). Waiting for nAvailable
    of them is the precondition that the snapshot has at least nAvailable
    resolved entries. The error-correcting decoder and the polynomial degree
    belong to the polynomial library and are taken as given functions. */
module RobustReconstruction {
  import opened Wrappers
  import Field

  /** `decode(n, k, p, v)` is the decoder `makeEncoderDecoder(n, k, p)`
      returns, applied to the erasure vector v, with the result wrapped in a
      polynomial: a coefficient list, constant first, or the exception the
      decoder raises. `degree(cs)` is `Poly(cs).degree()`. */
  datatype Decoder = Decoder(
    decode: (nat, nat, int, seq<Option<int>>) -> Result<seq<int>, Exception>,
    degree: seq<int> -> int)

  /** The futures at one moment: None for a future that is not done, Some(v)
      for one that is done with result v. As an erasure vector (None marks an
      erasure) it is exactly what the decoder is given. */
  type Snapshot = seq<Option<int>>

  /** A successful attempt: the polynomial and the indices found faulty. */
  datatype Reconstruction = Reconstruction(poly: seq<int>, failures: set<nat>)

  const WrongDegree: Exception := ValueError("Wrong degree")
  const DidNotCoincide: Exception := ValueError("Did not coincide")
  const NoDivisorsFound: Exception := ValueError("no divisors found")

  /** Number of resolved entries among the first k. */
  function ResolvedCount(fs: Snapshot, k: nat): (c: nat)
    requires k <= |fs|
    ensures c <= k
  {
    if k == 0 then 0 else ResolvedCount(fs, k - 1) + (if fs[k - 1].Some? then 1 else 0)
  }

  function Resolved(fs: Snapshot): nat {
    ResolvedCount(fs, |fs|)
  }

  /** Entry j is resolved and lies on P at its evaluation point. */
  predicate Coincides(p: int, P: seq<int>, point: nat -> int, fs: Snapshot, j: nat)
    requires p >= 2 && j < |fs|
  {
    fs[j].Some? && Field.Eval(p, P, point(j)) == fs[j].value
  }

  /** Number of entries among the first k that coincide with P. */
  function AgreeCount(p: int, P: seq<int>, point: nat -> int, fs: Snapshot, k: nat): (c: nat)
    requires p >= 2 && k <= |fs|
    ensures c <= ResolvedCount(fs, k)
  {
    if k == 0 then 0
    else AgreeCount(p, P, point, fs, k - 1) + (if Coincides(p, P, point, fs, k - 1) then 1 else 0)
  }

  /** The resolved entries among the first k whose value is not P at their
      evaluation point. */
  function FaultyUpTo(p: int, P: seq<int>, point: nat -> int, fs: Snapshot, k: nat): set<nat>
    requires p >= 2 && k <= |fs|
  {
    set j: nat | j < k && fs[j].Some? && !Coincides(p, P, point, fs, j)
  }

  function Faulty(p: int, P: seq<int>, point: nat -> int, fs: Snapshot): set<nat>
    requires p >= 2
  {
    FaultyUpTo(p, P, point, fs, |fs|)
  }

  /** What one attempt yields on snapshot fs: decode; reject a degree above t;
      accept only if at least 2t+1 resolved points coincide. */
  function Attempt(dec: Decoder, p: int, n: nat, t: nat, point: nat -> int, fs: Snapshot)
    : Result<Reconstruction, Exception>
    requires p >= 2 && |fs| == n
  {
    match dec.decode(n, t + 1, p, fs)
    case Err(e) => Err(e)
    case Ok(P) =>
      if dec.degree(P) > t then Err(WrongDegree)
      else if AgreeCount(p, P, point, fs, n) >= 2 * t + 1 then Ok(Reconstruction(P, Faulty(p, P, point, fs)))
      else Err(DidNotCoincide)
  }

  /** One attempt, after waiting for nAvailable of the futures. */
  method AttemptReconstruct(fs: Snapshot, dec: Decoder, p: int, n: nat, t: nat, nAvailable: nat, point: nat -> int)
    returns (r: Result<Reconstruction, Exception>)
    requires p >= 2 && |fs| == n && Resolved(fs) >= nAvailable
    ensures r == Attempt(dec, p, n, t, point, fs)
    ensures dec.decode(n, t + 1, p, fs).Ok? && dec.degree(dec.decode(n, t + 1, p, fs).value) > t ==>
      r == Err(WrongDegree)
    ensures r.Ok? ==> dec.decode(n, t + 1, p, fs) == Ok(r.value.poly) && dec.degree(r.value.poly) <= t
    ensures r.Ok? ==> |r.value.failures| + 2 * t + 1 <= Resolved(fs)
  {
    var decoded := dec.decode(n, t + 1, p, fs);
    if decoded.Err? {
      return Err(decoded.error);
    }
    var P := decoded.value;
    if dec.degree(P) > t {
      return Err(WrongDegree);
    }
    var coincides := 0;
    var failures: set<nat> := {};
    var j := 0;
    while j < n
      invariant 0 <= j <= n
      invariant coincides == AgreeCount(p, P, point, fs, j)
      invariant failures == FaultyUpTo(p, P, point, fs, j)
    {
      if fs[j].None? {
        j := j + 1;
        continue;
      }
      if Field.Eval(p, P, point(j)) == fs[j].value {
        coincides := coincides + 1;
      } else {
        failures := failures + {j};
      }
      assert FaultyUpTo(p, P, point, fs, j + 1) == failures;
      j := j + 1;
    }
    if coincides >= 2 * t + 1 {
      r := Ok(Reconstruction(P, failures));
      AgreementPartition(p, P, point, fs, n);
    } else {
      r := Err(DidNotCoincide);
    }
  }

  /** Every resolved entry either coincides with P or is faulty, never both. */
  lemma {:induction false} AgreementPartition(p: int, P: seq<int>, point: nat -> int, fs: Snapshot, k: nat)
    requires p >= 2 && k <= |fs|
    ensures AgreeCount(p, P, point, fs, k) + |FaultyUpTo(p, P, point, fs, k)| == ResolvedCount(fs, k)
  {
    if k > 0 {
      AgreementPartition(p, P, point, fs, k - 1);
      var prev := FaultyUpTo(p, P, point, fs, k - 1);
      if fs[k - 1].Some? && !Coincides(p, P, point, fs, k - 1) {
        assert FaultyUpTo(p, P, point, fs, k) == prev + {k - 1};
      } else {
        assert FaultyUpTo(p, P, point, fs, k) == prev;
      }
    }
  }

  /** The accounting of an attempt whose decoded polynomial passed the degree
      check: the faulty set holds exactly the resolved indices whose value is
      off P, no unresolved index, and together with the coinciding points it
      covers every resolved entry; the attempt then succeeds exactly when at
      least 2t+1 points coincide, and otherwise fails with "Did not coincide". */
  lemma AttemptAccounting(dec: Decoder, p: int, n: nat, t: nat, point: nat -> int, fs: Snapshot, P: seq<int>)
    requires p >= 2 && |fs| == n
    requires dec.decode(n, t + 1, p, fs) == Ok(P) && dec.degree(P) <= t
    ensures forall j: nat :: j in Faulty(p, P, point, fs) <==>
      j < n && fs[j].Some? && Field.Eval(p, P, point(j)) != fs[j].value
    ensures AgreeCount(p, P, point, fs, n) + |Faulty(p, P, point, fs)| == Resolved(fs)
    ensures Attempt(dec, p, n, t, point, fs).Ok? <==> AgreeCount(p, P, point, fs, n) >= 2 * t + 1
    ensures Attempt(dec, p, n, t, point, fs).Err? ==> Attempt(dec, p, n, t, point, fs).error == DidNotCoincide
  {
    AgreementPartition(p, P, point, fs, n);
  }

  /** A successful attempt's polynomial is the decoder's and passed the
      degree check. */
  lemma AttemptDegree(dec: Decoder, p: int, n: nat, t: nat, point: nat -> int, fs: Snapshot)
    requires p >= 2 && |fs| == n && Attempt(dec, p, n, t, point, fs).Ok?
    ensures dec.decode(n, t + 1, p, fs) == Ok(Attempt(dec, p, n, t, point, fs).value.poly)
    ensures dec.degree(Attempt(dec, p, n, t, point, fs).value.poly) <= t
  {
  }

  // ---------------------------------------------------------------------
  // Retrying with more points

  /** Snapshot b is a later state of the same futures as a: a future, once
      done, keeps its result. */
  predicate Grows(a: Snapshot, b: Snapshot) {
    |a| == |b| && forall j :: 0 <= j < |a| && a[j].Some? ==> b[j] == a[j]
  }

  /** The snapshots the retry loop sees: snaps[k] at the attempt with
      nAvailable = 2t+1+k, for every nAvailable in 2t+1 .. n, each with at
      least nAvailable resolved entries, each a later state of the ones
      before it. */
  ghost predicate ValidSnapshots(snaps: seq<Snapshot>, n: nat, t: nat) {
    && |snaps| == (if 2 * t < n then n - 2 * t else 0)
    && (forall k :: 0 <= k < |snaps| ==> |snaps[k]| == n && Resolved(snaps[k]) >= 2 * t + 1 + k)
    && (forall i, k :: 0 <= i <= k < |snaps| ==> Grows(snaps[i], snaps[k]))
  }

  /** The exceptions robust_reconstruct retries; any other is re-raised. */
  predicate Retryable(e: Exception) {
    e == WrongDegree || e == NoDivisorsFound
  }

  /** The outcome of the retry loop from attempt k on, where `retry` says which
      exceptions move on to the next nAvailable. Running out of attempts is an
      AssertionError. */
  function RetryFrom(dec: Decoder, p: int, n: nat, t: nat, point: nat -> int, retry: Exception -> bool,
                     snaps: seq<Snapshot>, k: nat): Result<Reconstruction, Exception>
    requires p >= 2 && k <= |snaps|
    requires forall i :: 0 <= i < |snaps| ==> |snaps[i]| == n
    decreases |snaps| - k
  {
    if k == |snaps| then Err(AssertionError)
    else match Attempt(dec, p, n, t, point, snaps[k])
      case Ok(rec) => Ok(rec)
      case Err(e) => if retry(e) then RetryFrom(dec, p, n, t, point, retry, snaps, k + 1) else Err(e)
  }

  /** Attempts k .. i-1 all failed with an exception that is retried. */
  ghost predicate AllRetried(dec: Decoder, p: int, n: nat, t: nat, point: nat -> int, retry: Exception -> bool,
                             snaps: seq<Snapshot>, k: nat, i: nat)
    requires p >= 2 && k <= i <= |snaps|
    requires forall m :: 0 <= m < |snaps| ==> |snaps[m]| == n
  {
    forall m :: k <= m < i ==>
      Attempt(dec, p, n, t, point, snaps[m]).Err? && retry(Attempt(dec, p, n, t, point, snaps[m]).error)
  }

  /** The retry loop, shared by both copies of robust_reconstruct: attempt
      with nAvailable = 2t+1, 2t+2, ..., n, return the first success, re-raise
      an exception `retry` does not accept, and fail with AssertionError when
      every attempt was retried. */
  method RetryLoop(snaps: seq<Snapshot>, dec: Decoder, p: int, n: nat, t: nat, point: nat -> int,
                   retry: Exception -> bool)
    returns (r: Result<Reconstruction, Exception>)
    requires p >= 2 && ValidSnapshots(snaps, n, t)
    ensures r == RetryFrom(dec, p, n, t, point, retry, snaps, 0)
  {
    var k := 0;
    while k < |snaps|
      invariant 0 <= k <= |snaps|
      invariant RetryFrom(dec, p, n, t, point, retry, snaps, k) == RetryFrom(dec, p, n, t, point, retry, snaps, 0)
    {
      var nAvailable := 2 * t + 1 + k;
      var attempt := AttemptReconstruct(snaps[k], dec, p, n, t, nAvailable, point);
      if attempt.Ok? {
        return attempt;
      }
      if !retry(attempt.error) {
        return attempt;
      }
      k := k + 1;
    }
    r := Err(AssertionError);
  }

  /** If attempts k .. i-1 were retried and attempt i succeeds or raises an
      exception that is not retried, the loop's outcome is attempt i's. */
  lemma {:induction false} RetryStopsAt(dec: Decoder, p: int, n: nat, t: nat, point: nat -> int,
                                        retry: Exception -> bool, snaps: seq<Snapshot>, k: nat, i: nat)
    requires p >= 2 && k <= i < |snaps|
    requires forall m :: 0 <= m < |snaps| ==> |snaps[m]| == n
    requires AllRetried(dec, p, n, t, point, retry, snaps, k, i)
    requires Attempt(dec, p, n, t, point, snaps[i]).Ok? || !retry(Attempt(dec, p, n, t, point, snaps[i]).error)
    ensures RetryFrom(dec, p, n, t, point, retry, snaps, k) == Attempt(dec, p, n, t, point, snaps[i])
    decreases i - k
  {
    if k < i {
      RetryStopsAt(dec, p, n, t, point, retry, snaps, k + 1, i);
    }
  }

  /** Attempts that were retried hand over to the next: the loop's outcome
      from k is its outcome from i. */
  lemma {:induction false} RetrySkips(dec: Decoder, p: int, n: nat, t: nat, point: nat -> int,
                                      retry: Exception -> bool, snaps: seq<Snapshot>, k: nat, i: nat)
    requires p >= 2 && k <= i <= |snaps|
    requires forall m :: 0 <= m < |snaps| ==> |snaps[m]| == n
    requires AllRetried(dec, p, n, t, point, retry, snaps, k, i)
    ensures RetryFrom(dec, p, n, t, point, retry, snaps, k) == RetryFrom(dec, p, n, t, point, retry, snaps, i)
    decreases i - k
  {
    if k < i {
      RetrySkips(dec, p, n, t, point, retry, snaps, k + 1, i);
    }
  }

  /** If every attempt from k on was retried, the loop falls out of its end:
      AssertionError. */
  lemma {:induction false} RetryExhausted(dec: Decoder, p: int, n: nat, t: nat, point: nat -> int,
                                          retry: Exception -> bool, snaps: seq<Snapshot>, k: nat)
    requires p >= 2 && k <= |snaps|
    requires forall m :: 0 <= m < |snaps| ==> |snaps[m]| == n
    requires AllRetried(dec, p, n, t, point, retry, snaps, k, |snaps|)
    ensures RetryFrom(dec, p, n, t, point, retry, snaps, k) == Err(AssertionError)
    decreases |snaps| - k
  {
    if k < |snaps| {
      RetryExhausted(dec, p, n, t, point, retry, snaps, k + 1);
    }
  }

  /** A success of the loop is the first attempt that did not fail with a
      retried exception, and it used a snapshot with at least 2t+1+i resolved
      entries, at least 2t+1 of them coinciding with the polynomial. */
  lemma {:induction false} RetrySuccessIsFirst(dec: Decoder, p: int, n: nat, t: nat, point: nat -> int,
                                               retry: Exception -> bool, snaps: seq<Snapshot>, k: nat)
    requires p >= 2 && k <= |snaps| && ValidSnapshots(snaps, n, t)
    requires RetryFrom(dec, p, n, t, point, retry, snaps, k).Ok?
    ensures exists i :: (k <= i < |snaps| && AllRetried(dec, p, n, t, point, retry, snaps, k, i) &&
      Attempt(dec, p, n, t, point, snaps[i]) == RetryFrom(dec, p, n, t, point, retry, snaps, k) &&
      Resolved(snaps[i]) >= 2 * t + 1 + i &&
      AgreeCount(p, RetryFrom(dec, p, n, t, point, retry, snaps, k).value.poly, point, snaps[i], n) >= 2 * t + 1)
    decreases |snaps| - k
  {
    if Attempt(dec, p, n, t, point, snaps[k]).Ok? {
      assert AllRetried(dec, p, n, t, point, retry, snaps, k, k);
    } else {
      RetrySuccessIsFirst(dec, p, n, t, point, retry, snaps, k + 1);
      var i :| k + 1 <= i < |snaps| && AllRetried(dec, p, n, t, point, retry, snaps, k + 1, i) &&
        Attempt(dec, p, n, t, point, snaps[i]) == RetryFrom(dec, p, n, t, point, retry, snaps, k + 1) &&
        Resolved(snaps[i]) >= 2 * t + 1 + i &&
        AgreeCount(p, RetryFrom(dec, p, n, t, point, retry, snaps, k + 1).value.poly, point, snaps[i], n) >= 2 * t + 1;
      assert AllRetried(dec, p, n, t, point, retry, snaps, k, i);
    }
  }

  /** robust_reconstruct of robust_reconstruction.py: an AssertionError
      unless 2t < n, otherwise the retry loop retrying only "Wrong degree" and
      "no divisors found". */
  function Robust(dec: Decoder, p: int, n: nat, t: nat, point: nat -> int, snaps: seq<Snapshot>)
    : Result<Reconstruction, Exception>
    requires p >= 2 && ValidSnapshots(snaps, n, t)
  {
    if 2 * t < n then RetryFrom(dec, p, n, t, point, Retryable, snaps, 0) else Err(AssertionError)
  }

  method RobustReconstruct(snaps: seq<Snapshot>, dec: Decoder, p: int, n: nat, t: nat, point: nat -> int)
    returns (r: Result<Reconstruction, Exception>)
    requires p >= 2 && ValidSnapshots(snaps, n, t)
    ensures r == Robust(dec, p, n, t, point, snaps)
    ensures !(2 * t < n) ==> r == Err(AssertionError)
  {
    if !(2 * t < n) {
      return Err(AssertionError);
    }
    r := RetryLoop(snaps, dec, p, n, t, point, Retryable);
  }

  /** "Did not coincide" (or any exception other than "Wrong degree" and "no
      divisors found") ends robust_reconstruct at once: once the attempts
      before it were retried, it is re-raised. */
  lemma RobustReraises(dec: Decoder, p: int, n: nat, t: nat, point: nat -> int, snaps: seq<Snapshot>, i: nat, e: Exception)
    requires p >= 2 && ValidSnapshots(snaps, n, t) && i < |snaps|
    requires AllRetried(dec, p, n, t, point, Retryable, snaps, 0, i)
    requires Attempt(dec, p, n, t, point, snaps[i]) == Err(e) && !Retryable(e)
    ensures Robust(dec, p, n, t, point, snaps) == Err(e)
  {
    RetryStopsAt(dec, p, n, t, point, Retryable, snaps, 0, i);
  }

  /** A success of robust_reconstruct is the first attempt that was not
      retried, never one with fewer than 2t+1 resolved points, and its
      polynomial coincides with at least 2t+1 of them. */
  lemma RobustSuccess(dec: Decoder, p: int, n: nat, t: nat, point: nat -> int, snaps: seq<Snapshot>)
    requires p >= 2 && ValidSnapshots(snaps, n, t)
    requires Robust(dec, p, n, t, point, snaps).Ok?
    ensures 2 * t < n
    ensures exists i :: (0 <= i < |snaps| && AllRetried(dec, p, n, t, point, Retryable, snaps, 0, i) &&
      Attempt(dec, p, n, t, point, snaps[i]) == Robust(dec, p, n, t, point, snaps) &&
      Resolved(snaps[i]) >= 2 * t + 1 &&
      AgreeCount(p, Robust(dec, p, n, t, point, snaps).value.poly, point, snaps[i], n) >= 2 * t + 1)
  {
    RetrySuccessIsFirst(dec, p, n, t, point, Retryable, snaps, 0);
  }

  /** Later snapshots only add evidence: for a fixed polynomial, a point that
      coincided still coincides and a point found faulty stays faulty. */
  lemma {:induction false} GrowsKeepsVerdicts(p: int, P: seq<int>, point: nat -> int, a: Snapshot, b: Snapshot, k: nat)
    requires p >= 2 && Grows(a, b) && k <= |a|
    ensures AgreeCount(p, P, point, a, k) <= AgreeCount(p, P, point, b, k)
    ensures FaultyUpTo(p, P, point, a, k) <= FaultyUpTo(p, P, point, b, k)
    ensures ResolvedCount(a, k) <= ResolvedCount(b, k)
  {
    if k > 0 {
      GrowsKeepsVerdicts(p, P, point, a, b, k - 1);
    }
  }
}
