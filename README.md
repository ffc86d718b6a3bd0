# HoneyBadgerMPC reconstruction core, modelled in Dafny

HoneyBadgerMPC is a multi-party computation runtime. Secrets are
Shamir-shared among N parties over a prime field: party i holds the
value at point i+1 of a polynomial of degree at most t whose constant
coefficient is the secret. This project models three pieces of the
sequential logic that sits under the runtime's asyncio plumbing:

- **Robust reconstruction** (`robust_reconstruction.dfy`). One attempt
  takes the n values received so far, some still missing, and hands
  them to an error-correcting decoder. It rejects a decoded polynomial
  of degree above t. It counts the received points that lie on the
  polynomial and records the others as faulty. It accepts only if at
  least 2t+1 points agree. The retry loop tries this with 2t+1, 2t+2,
  ..., n available values. It retries only "Wrong degree" and "no
  divisors found" and re-raises any other error.
- **Two-round batch reconstruction** (`batch_reconstruction.dfy`). It
  opens t+1 shared secrets at once. It builds the round-1 and round-2
  messages. It models the listener that files tagged messages into two
  rows of n one-shot slots, and the file's own copy of the retry loop,
  which retries every ValueError.
- **Passive MPC bookkeeping and share algebra** (`passive.dfy`). It models
  the per-party state: the list of openings, one append-only buffer per
  sender, and the preprocessed shares. It models `open_share`, the body
  of the receive loop, `_reconstruct`, and the linear operators on
  `Share`.

`field.dfy` holds the field arithmetic and the polynomial evaluation
(Horner's rule mod p) that the three pieces use. It also holds a power-sum
reference meaning for evaluation, with the lemmas that tie the two together.
`wrappers.dfy` holds `Option`, `Result` and the exceptions the code raises.

Modelling choices:

- A field element is an `int`. The modulus p is a parameter with `p >= 2`.
  The passive runtime uses its fixed BLS12-381 scalar-field modulus. No
  proof needs p to be prime.
- A polynomial is its coefficient list, constant coefficient first, as
  `Poly(coeffs)` takes it.
- The error-correcting decoder, `Poly.degree()` and `Poly.interpolate_at`
  belong to the polynomial library. They are given functions: a
  `Decoder` value holds the first two, and `PassiveMpc` holds the third
  as a constant. The `Poly(...)` wrapping of the decoder's result is part
  of the given decoder.
- Awaited futures are snapshots, `seq<Option<int>>`: `None` means still
  pending, `Some(v)` means done with result v. "Wait until nAvailable are
  done" becomes the precondition that the snapshot has at least nAvailable
  resolved entries. The retry loop is given one snapshot per attempt.
  Each later snapshot extends the earlier ones, because a done future keeps
  its result.
- Python exceptions are values of `Exception`. A `ValueError` carries
  its message, since the retry loops look at it. An `AssertionError`
  carries none.
- Messages that arrive become method arguments. Sent messages are
  returned as sequences.

Three behaviours of the code deserve a note, because the two copies of
the retry loop differ and failures are bare assertions:

- `robust_reconstruct` in honeybadgermpc/robust_reconstruction.py
  re-raises "Did not coincide" at once (lines 54-59). Only the copy in
  honeybadgermpc/batch_reconstruction.py retries it (lines 49-51).
- Running out of attempts fails an assertion
  (honeybadgermpc/robust_reconstruction.py:60), so the model gives an
  `AssertionError`.
- A duplicate delivery fails an assertion inside the listener task
  (honeybadgermpc/batch_reconstruction.py:91, 94). That ends the
  listener, not the batch.

## Model

| member | source | states |
|---|---|---|
| RobustReconstruction.AttemptReconstruct | honeybadgermpc/robust_reconstruction.py:18-42 | The loop computes exactly `Attempt`: a decoder error is passed on, and a degree above t gives "Wrong degree" before any counting. A success carries the decoder's polynomial, which passed the degree check, and a faulty set that leaves room for 2t+1 agreeing resolved points. |
| RobustReconstruction.AgreementPartition | honeybadgermpc/robust_reconstruction.py:29-37 | The agreeing count plus the size of the faulty set equals the number of resolved entries. |
| RobustReconstruction.AttemptAccounting | honeybadgermpc/robust_reconstruction.py:22-42 | After the degree check, the faulty set is exactly the resolved indices whose value is off the polynomial at their point, and never an unresolved index. Agreeing plus faulty covers every resolved entry. The attempt succeeds if and only if at least 2t+1 points agree, and otherwise fails with "Did not coincide". |
| RobustReconstruction.RetryLoop | honeybadgermpc/robust_reconstruction.py:49-60 | The loop over nAvailable = 2t+1 .. n computes the reference outcome `RetryFrom`: the first success, the first exception that is not retried, or an AssertionError after the last attempt. |
| RobustReconstruction.RetryStopsAt | honeybadgermpc/robust_reconstruction.py:50-59 | Suppose attempts k .. i-1 were all retried and attempt i succeeds or raises an exception that is not retried. Then the loop's outcome is attempt i's. |
| RobustReconstruction.RetrySkips | honeybadgermpc/robust_reconstruction.py:54-57 | Retried attempts hand over to the next nAvailable: the outcome from k equals the outcome from i. |
| RobustReconstruction.RetryExhausted | honeybadgermpc/robust_reconstruction.py:60 | When every remaining attempt is retried, the loop ends in an AssertionError. |
| RobustReconstruction.RetrySuccessIsFirst | honeybadgermpc/robust_reconstruction.py:49-53 | A success is the outcome of the first attempt that was not retried. That attempt saw at least 2t+1+i resolved values, and at least 2t+1 of them agree with the polynomial. |
| RobustReconstruction.RobustReconstruct | honeybadgermpc/robust_reconstruction.py:45-60 | The method equals `Robust`: an AssertionError unless 2t < n, and otherwise the retry loop that retries only "Wrong degree" and "no divisors found". |
| RobustReconstruction.RobustReraises | honeybadgermpc/robust_reconstruction.py:54-59 | An attempt that fails with anything else, "Did not coincide" included, ends `robust_reconstruct` with that same exception once the attempts before it were retried. |
| RobustReconstruction.RobustSuccess | honeybadgermpc/robust_reconstruction.py:48-53 | A success implies 2t < n. It is the first attempt that was not retried, never one with fewer than 2t+1 resolved values, and its polynomial agrees with at least 2t+1 of them. |
| RobustReconstruction.GrowsKeepsVerdicts | honeybadgermpc/robust_reconstruction.py:29-37 | On a later snapshot of the same futures, for a fixed polynomial, the resolved count and the agreeing count do not shrink, and every faulty index stays faulty. |
| Field.EvalIsPowerSum | honeybadgermpc/robust_reconstruction.py:34 | Horner evaluation mod p, used for `P(point(j))`, equals the sum of coefficient times power, taken mod p. |
| Field.EvalCombine | honeybadgermpc/batch_reconstruction.py:105-120 | Take the bivariate polynomial whose k-th coefficient in x is the k-th share polynomial. Evaluating it first in x and then in y gives the same value as evaluating first in y and then in x. |
| BatchReconstruction.Round1Messages | honeybadgermpc/batch_reconstruction.py:106-110 | Exactly n messages go out, one to each j in order. Message j is tagged "R1" and carries f(point(j)), where f has the batch as its coefficients. |
| BatchReconstruction.Round2Messages | honeybadgermpc/batch_reconstruction.py:119-120 | Exactly n messages go out, one to each j. Each is tagged "R2" and carries the same value, P1(0), which is P1's constant coefficient. |
| BatchReconstruction.ArriveFillsOneSlot | honeybadgermpc/batch_reconstruction.py:89-97 | An accepted delivery has tag R1 or R2. It fills exactly one previously empty slot of that tag's row with the delivered value. The other row is unchanged, both rows only grow, and the resolved count rises by one. |
| BatchReconstruction.DrainGrows | honeybadgermpc/batch_reconstruction.py:87-97 | Whatever messages arrive, a slot that is set is never changed, so the reconstructions see growing snapshots. |
| BatchReconstruction.Inbox.constructor | honeybadgermpc/batch_reconstruction.py:84-101 | Two fresh, separate rows of n pending slots (lines 84-85), with the listener running, as `loop.create_task` starts it (line 101). |
| BatchReconstruction.Inbox.Deliver | honeybadgermpc/batch_reconstruction.py:89-97 | The new rows are `Arrive`'s. On an exception (an unknown tag, a filled slot, a sender index out of range) the rows are unchanged and the listener stops. |
| BatchReconstruction.Inbox.RecvLoop | honeybadgermpc/batch_reconstruction.py:87-97 | Processing messages in order leaves the rows `Drain` gives. The loop stops at the first exception, and the listener is still running exactly when no exception occurred. |
| BatchReconstruction.Inbox.Cancel | honeybadgermpc/batch_reconstruction.py:128-129 | `bgtask.cancel()`: the listener is no longer running. |
| BatchReconstruction.LocalRobustReconstruct | honeybadgermpc/batch_reconstruction.py:42-53 | The local copy runs the retry loop with every ValueError retried and no 2t < n check. When 2t >= n it has no attempt to make and fails its final assertion. |
| BatchReconstruction.LocalSkipsDidNotCoincide | honeybadgermpc/batch_reconstruction.py:49-51 | In the local copy, an attempt failing with "Did not coincide" hands over to the next nAvailable. It does not end the loop. |
| BatchReconstruction.BatchReconstructionRun | honeybadgermpc/batch_reconstruction.py:76-129 | The sent messages and the result equal `Batch`: an AssertionError unless there are exactly t+1 secrets, then round 1, P1, round 2 and P2's coefficients. A listener exists exactly when the size assertion passed, and then it is cancelled on every way out. |
| BatchReconstruction.BatchSuccess | honeybadgermpc/batch_reconstruction.py:81-126 | A successful batch had t+1 secrets and 2t < n. It sent the round-1 messages and then the round-2 messages for P1. P1 and the returned P2 have degree at most t, and each agrees with at least 2t+1 received values at an attempt that had at least 2t+1. |
| BatchReconstruction.HonestRound1 | honeybadgermpc/batch_reconstruction.py:105-110 | With honest shares, every sender's round-1 value to party j lies on one polynomial G_j of at most t+1 coefficients, evaluated at the sender's point. |
| BatchReconstruction.HonestRound2 | honeybadgermpc/batch_reconstruction.py:118-120 | If party j reconstructed G_j, its round-2 value is S(point(j)). S is the polynomial whose coefficients are the secrets, the constant coefficients of the share polynomials. |
| Shares.NewShare | honeybadgermpc/passive.py:202-207 | An int is coerced into the field, keeping its residue. A field element is kept as is. Anything else fails the type assertion. |
| Shares.Add | honeybadgermpc/passive.py:220-224 | With a Share or a field element, the result is a field element congruent mod p to the sum of the two values. With anything else (a Python int) it is None, because the method falls off its end. |
| Shares.Sub | honeybadgermpc/passive.py:226 | The field difference: a field element that, added to the subtrahend, gives the minuend mod p. |
| Shares.RSub | honeybadgermpc/passive.py:229 | `other - self` is the same as `Sub(other, self)`. |
| Shares.RMul | honeybadgermpc/passive.py:232 | A field element congruent mod p to the value times the scalar. For an int scalar this holds for the int itself, so coercing it into the field first does not change the product. |
| Shares.AddIsShareOfSum | honeybadgermpc/passive.py:220-224 | Adding shares f(x) and g(x) gives the share (f+g)(x) of the sum of the secrets. |
| Shares.SubIsShareOfDifference | honeybadgermpc/passive.py:226 | Subtracting shares f(x) and g(x) gives the share (f-g)(x). |
| Shares.RMulIsShareOfMultiple | honeybadgermpc/passive.py:232 | Multiplying share f(x) by scalar c gives the share (c*f)(x). |
| Shares.AddElemIsShareOfShift | honeybadgermpc/passive.py:220-222 | Adding a public field element e to share f(x) gives the share of f+e. |
| Passive.Collect | honeybadgermpc/passive.py:59-61 | The pairs collected for an id are exactly (i+1, buf_i[id]) for the senders whose buffer reaches id. They are in increasing order of sender, and there are as many as such senders. |
| Passive.ReachingGrows | honeybadgermpc/passive.py:59-62 | When buffers only grow, the senders reaching an id do not decrease, and every collected pair is still collected. |
| Passive.Broadcast | honeybadgermpc/passive.py:78-79 | Exactly N messages, (shareid, v) to each party 0 .. N-1 in order, the sender included. |
| Passive.FromSenderAppend | honeybadgermpc/passive.py:124-128 | Accepting (j, v) extends sender j's received values by v and leaves every other sender's values unchanged. |
| Passive.AppendKeepsResolved | honeybadgermpc/passive.py:124-128 | Appending to one buffer keeps every recorded resolution valid. |
| Passive.PassiveMpc.constructor | honeybadgermpc/passive.py:19-54 | Given t < N, the state starts with no openings, N empty sender buffers and the given preprocessing streams, and it satisfies the state invariant. |
| Passive.NewPassiveMpc | honeybadgermpc/passive.py:19-42 | Construction fails with an AssertionError exactly when t < N does not hold. Otherwise the new state holds the given N, t, myid, interpolation and preprocessing streams, no openings and N empty buffers, and satisfies the state invariant. |
| Passive.PassiveMpc.Reconstruct | honeybadgermpc/passive.py:57-70 | With fewer than t+1 collected shares: NotEnoughShares and no change. Otherwise a pending opening is set to the interpolation of the collected shares. An opening already resolved keeps its value: the first resolution wins. |
| Passive.PassiveMpc.OpenShare | honeybadgermpc/passive.py:72-88 | The new id is the number of earlier openings, and earlier openings are unchanged. The broadcast goes to all N parties. The new opening is resolved, from the shares already buffered, exactly when at least t+1 buffers reach its id. |
| Passive.PassiveMpc.Receive | honeybadgermpc/passive.py:121-136 | A message from a sender index out of range is an IndexError. A message whose shareid is not the length of the sender's buffer is an AssertionError. On either error nothing changes. Otherwise the value goes onto that buffer alone. If the opening was asked for, is still pending and is now reached by t+1 buffers, it is resolved; every other opening is unchanged. |
| Passive.PassiveMpc.GetTriple | honeybadgermpc/passive.py:90-94 | The next three preprocessed shares in order. With fewer than three left, StopIteration after consuming them. |
| Passive.PassiveMpc.GetRand | honeybadgermpc/passive.py:96-97 | The next preprocessed random share, or StopIteration. |
| Passive.PassiveMpc.GetZero | honeybadgermpc/passive.py:99-100 | The next preprocessed share of zero, or StopIteration. |
| Passive.ResolvedOpening | honeybadgermpc/passive.py:57-70 | A resolved opening has at least t+1 buffers reaching its id. Its value is the interpolation of at least t+1 shares from distinct senders in increasing order, all still in the current buffers. |

The state invariant `PassiveMpc.Valid` says the following:

- Buffer j is exactly the sequence of values accepted from sender j.
- An opening is resolved exactly when a resolution was recorded for it.
- Every resolution was computed from at least t+1 buffers, each a prefix of the current buffer.

Every method keeps this invariant.

## Left out

- Asyncio scheduling (`waitFor`'s `asyncio.wait` loop, task creation, `_run`, `handle_result`, `runProgramAsTasks`): waiting becomes a precondition on the snapshots. No liveness is claimed.
- The decoder, `Poly.degree()` and `Poly.interpolate_at` are given functions: their correctness is the polynomial library's promise, and the degree of the zero polynomial is left to that library.
- Field internals: primality and inverses are not needed. `Field.Eval` is Horner's rule as the library's `P(x)` is taken to compute it.
- The `point` argument of honeybadgermpc/robust_reconstruction.py is any given function. Only batch_reconstruction.py's `point(i) = i+1` is concrete.
- Messages of AssertionError, debug printing and `myid`-only logging are not modelled. They do not change control flow.
- Python negative indexing is not modelled. Sender indices are natural numbers, and an index past the end is an IndexError.
- `type(N) is int and type(t) is int`: N and t are natural numbers by type, so a negative count is not representable.
- Passive.PassiveMpc.Reconstruct: with fewer than t+1 collected shares it gives NotEnoughShares for any shareid, as the code does. With at least t+1, it requires `shareid < |openings|`. Both of the code's callers guarantee that. The IndexError the code would raise otherwise is not modelled.
- Passive.PassiveMpc.Receive: covers one turn of `_recvloop`. The loop's death on an AssertionError and the background task's error callback are not modelled.
- Shares.Add: the other operand is a Share, a field element or an int. Other Python types are not modelled.
- Shares.Sub and Shares.RSub: both read `other.v` (honeybadgermpc/passive.py:226, 229), so only a Share operand is modelled. With an int, or a field element without a `.v`, the code fails with AttributeError, and that path is not modelled.
- `Share.open`, `GFElementFuture`, `ShareFuture`, `_binopField` and `_binopShare` (honeybadgermpc/passive.py:176-268) are future callback plumbing.
- `Share.__mul__` (honeybadgermpc/passive.py:236) executes `raise NotImplemented`, which in Python 3 raises a TypeError. It is not modelled.
- `get_bit` reads a `_bits` stream that is never initialised (honeybadgermpc/passive.py:103), so it is not modelled.
- File I/O is not modelled. This covers `read_shares`, both `write_shares` and `write_polys`. The method `write_shares` passes four arguments to a five-parameter function (honeybadgermpc/passive.py:158, 162). The preprocessing streams are given to the constructor instead.
- Test-file generation (`generate_test_*`), the test programs and the Jubjub curve code are not modelled.
- ShareArray and batched opening do not appear in the files this model covers, so they are not modelled.
- BatchReconstruction.BatchReconstructionRun: the Inbox it creates receives no message inside this method. The snapshots snaps1 and snaps2 are parameters, and the model does not link them to the Inbox's rows. They stand for what the rows would hold at each attempt; `DrainGrows` shows that rows filled by the listener only grow, which is what `ValidSnapshots` assumes. The interleaving of the listener with the two reconstructions is not modelled.
