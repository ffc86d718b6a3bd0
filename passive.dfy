/** Local share algebra of the passive MPC runtime.

    A Share is one party's value of a secret-shared field element. Its
    operators are local: each returns a new Share computed in the field. The
    field is fixed: the scalar field of BLS12-381. */
module Shares {
  import opened Wrappers
  import Field

  const Modulus: int := 0x73eda753299d7d483339d80809a1d80553bda402fffe5bfeffffffff00000001

  /** The local value v of a share, a field element. */
  datatype Share = Share(v: int)

  /** What `Share(v)` can be given: a Python int, a field element, or
      anything else. */
  datatype Value = IntValue(i: int) | ElemValue(e: int) | OtherValue

  /** The right operand of `+`: a Share, a field element, or a Python int. */
  datatype Operand = ShareOperand(s: Share) | ElemOperand(e: int) | IntOperand(i: int)

  /** The left operand of the scalar product `other * share`. */
  datatype Scalar = IntScalar(i: int) | ElemScalar(e: int)

  /** `Share(v)`: an int is coerced into the field; anything but an int or a
      field element fails the type assertion. */
  function NewShare(x: Value): (r: Result<Share, Exception>)
    ensures r.Err? <==> x.OtherValue?
    ensures r.Err? ==> r.error == AssertionError
    ensures x.IntValue? ==> r.Ok? && Field.IsElem(Modulus, r.value.v) && (r.value.v - x.i) % Modulus == 0
    ensures x.ElemValue? ==> r == Ok(Share(x.e))
  {
    match x
    case IntValue(i) =>
      Field.ModAddCongruent(Modulus, i, -i);
      Ok(Share(i % Modulus))
    case ElemValue(e) => Ok(Share(e))
    case OtherValue => Err(AssertionError)
  }

  function Coerce(c: Scalar): int {
    match c
    case IntScalar(i) => i % Modulus
    case ElemScalar(e) => e
  }

  /** `share + other` (and `other + share`, the same method): the field sum
      with a Share or a field element; with anything else, such as a Python
      int, the method falls off its end and gives None. */
  function Add(a: Share, other: Operand): (r: Option<Share>)
    ensures r.None? <==> other.IntOperand?
    ensures other.ShareOperand? ==>
      r.Some? && Field.IsElem(Modulus, r.value.v) && (r.value.v - (a.v + other.s.v)) % Modulus == 0
    ensures other.ElemOperand? ==>
      r.Some? && Field.IsElem(Modulus, r.value.v) && (r.value.v - (a.v + other.e)) % Modulus == 0
  {
    match other
    case ShareOperand(s) =>
      Field.ReducedCongruent(Modulus, a.v + s.v);
      Some(Share((a.v + s.v) % Modulus))
    case ElemOperand(e) =>
      Field.ReducedCongruent(Modulus, a.v + e);
      Some(Share((a.v + e) % Modulus))
    case IntOperand(_) => None
  }

  /** `share - other` for a Share other. */
  function Sub(a: Share, b: Share): (r: Share)
    ensures Field.IsElem(Modulus, r.v) && (r.v + b.v) % Modulus == a.v % Modulus
  {
    Share(Field.Sub(Modulus, a.v, b.v))
  }

  /** `other - share` for a Share other. */
  function RSub(a: Share, other: Share): (r: Share)
    ensures r == Sub(other, a)
  {
    Share((-a.v + other.v) % Modulus)
  }

  /** `other * share`: the value times the scalar, an int coerced into the
      field first; coercing first does not change the product mod p. */
  function RMul(a: Share, c: Scalar): (r: Share)
    ensures Field.IsElem(Modulus, r.v)
    ensures c.IntScalar? ==> (r.v - a.v * c.i) % Modulus == 0
    ensures c.ElemScalar? ==> (r.v - a.v * c.e) % Modulus == 0
  {
    match c
    case IntScalar(i) =>
      Field.ModMulCongruent(Modulus, a.v, i);
      Field.ReducedCongruent(Modulus, a.v * i);
      Share((a.v * Coerce(c)) % Modulus)
    case ElemScalar(e) =>
      Field.ReducedCongruent(Modulus, a.v * e);
      Share((a.v * Coerce(c)) % Modulus)
  }

  /** The local operators are the operators on the sharing polynomials. If
      a is this party's share f(x) of a secret and b its share g(x) of
      another, then a + b is its share of f + g, so the secret behind the sum
      is f(0) + g(0). */
  lemma AddIsShareOfSum(f: seq<int>, g: seq<int>, x: int)
    ensures Add(Share(Field.Eval(Modulus, f, x)), ShareOperand(Share(Field.Eval(Modulus, g, x))))
      == Some(Share(Field.Eval(Modulus, Field.PolyAdd(f, g), x)))
  {
    Field.EvalPolyAdd(Modulus, f, g, x);
  }

  /** a - b is the share of f - g. */
  lemma SubIsShareOfDifference(f: seq<int>, g: seq<int>, x: int)
    ensures Sub(Share(Field.Eval(Modulus, f, x)), Share(Field.Eval(Modulus, g, x)))
      == Share(Field.Eval(Modulus, Field.PolyAdd(f, Field.PolyScale(-1, g)), x))
  {
    Field.EvalPolySub(Modulus, f, g, x);
  }

  /** c * a is the share of c * f. */
  lemma RMulIsShareOfMultiple(f: seq<int>, x: int, c: int)
    ensures RMul(Share(Field.Eval(Modulus, f, x)), ElemScalar(c))
      == Share(Field.Eval(Modulus, Field.PolyScale(c, f), x))
  {
    Field.EvalPolyScale(Modulus, c, f, x);
  }

  /** a + e, for a public field element e, is the share of f + e. */
  lemma AddElemIsShareOfShift(f: seq<int>, x: int, e: int)
    ensures Add(Share(Field.Eval(Modulus, f, x)), ElemOperand(e))
      == Some(Share(Field.Eval(Modulus, Field.PolyAdd(f, [e]), x)))
  {
    Field.EvalAddConstant(Modulus, f, e, x);
  }
}

/** The per-party state of the passive MPC runtime: the openings asked for
    so far and, per sender, the share values received in order. */
module Passive {
  import opened Wrappers
  import opened Shares

  /** A message to send: destination, then (shareid, value). */
  type Outgoing = (nat, (int, int))

  /** Number of buffers among the first k that reach index id. */
  function CountReaching(bufs: seq<seq<int>>, id: nat, k: nat): (c: nat)
    requires k <= |bufs|
    ensures c <= k
  {
    if k == 0 then 0 else CountReaching(bufs, id, k - 1) + (if |bufs[k - 1]| > id then 1 else 0)
  }

  /** The shares `_reconstruct` collects for `id` among the first k senders:
      (i+1, bufs[i][id]) for each sender i whose buffer reaches id, in order. */
  function Collect(bufs: seq<seq<int>>, id: nat, k: nat): (r: seq<(int, int)>)
    requires k <= |bufs|
    ensures |r| == CountReaching(bufs, id, k)
    ensures forall x, v :: (x, v) in r <==> 1 <= x <= k && |bufs[x - 1]| > id && v == bufs[x - 1][id]
    ensures forall m :: 0 <= m < |r| - 1 ==> r[m].0 < r[m + 1].0
    ensures forall m :: 0 <= m < |r| ==> 1 <= r[m].0 <= k
  {
    if k == 0 then []
    else
      var prev := Collect(bufs, id, k - 1);
      if |bufs[k - 1]| > id then prev + [(k, bufs[k - 1][id])] else prev
  }

  function Collected(bufs: seq<seq<int>>, id: nat): seq<(int, int)> {
    Collect(bufs, id, |bufs|)
  }

  /** The values accepted from sender j, in the order they were accepted. */
  function FromSender(log: seq<(nat, int)>, j: nat): seq<int> {
    if log == [] then []
    else FromSender(log[..|log| - 1], j) + (if log[|log| - 1].0 == j then [log[|log| - 1].1] else [])
  }

  /** Buffers that have only grown from older ones reach at least as many
      ids, and every share collected from the older ones is still there. */
  lemma {:induction false} ReachingGrows(B: seq<seq<int>>, C: seq<seq<int>>, id: nat, k: nat)
    requires |B| == |C| && k <= |B|
    requires forall i :: 0 <= i < |B| ==> B[i] <= C[i]
    ensures CountReaching(B, id, k) <= CountReaching(C, id, k)
    ensures forall e :: e in Collect(B, id, k) ==> e in Collect(C, id, k)
  {
    if k > 0 {
      ReachingGrows(B, C, id, k - 1);
      assert B[k - 1] <= C[k - 1];
    }
  }

  /** Accepting (j, v) extends sender j's values by v and no other's. */
  lemma FromSenderAppend(log: seq<(nat, int)>, j: nat, v: int, i: nat)
    ensures FromSender(log + [(j, v)], i) == FromSender(log, i) + (if i == j then [v] else [])
  {
    assert (log + [(j, v)])[..|log|] == log;
  }

  /** Growing one buffer keeps every resolution recorded against the old
      buffers. */
  lemma AppendKeepsResolved(N: nat, t: nat, f: seq<(int, int)> -> int, cur: seq<seq<int>>, j: nat, v: int,
                            id: nat, B: seq<seq<int>>, value: Option<int>)
    requires j < |cur| && ResolvedAt(N, t, f, cur, id, B, value)
    ensures ResolvedAt(N, t, f, cur[j := cur[j] + [v]], id, B, value)
  {
    assert B[j] <= cur[j] + [v];
  }

  /** The broadcast of (shareid, v) to every party 0 .. N-1, itself included. */
  function Broadcast(N: nat, shareid: int, v: int): (out: seq<Outgoing>)
    ensures |out| == N
    ensures forall j :: 0 <= j < N ==> out[j] == (j, (shareid, v))
  {
    seq(N, j requires 0 <= j < N => (j, (shareid, v)))
  }

  /** An opening `value` for id was resolved by interpolating the shares
      collected from buffers B, each a prefix of the current buffer `cur`, at
      least t+1 of them. */
  ghost predicate ResolvedAt(N: nat, t: nat, interpolateAt: seq<(int, int)> -> int,
                             cur: seq<seq<int>>, id: nat, B: seq<seq<int>>, value: Option<int>)
  {
    && |B| == N == |cur|
    && (forall i :: 0 <= i < N ==> B[i] <= cur[i])
    && CountReaching(B, id, N) >= t + 1
    && value == Some(interpolateAt(Collected(B, id)))
  }

  class PassiveMpc {
    const N: nat
    const t: nat
    const myid: nat
    /** `Poly.interpolate_at`: the value at 0 of the polynomial through the
        given (x, y) points, from the polynomial library. */
    const interpolateAt: seq<(int, int)> -> int

    /** `_openings`: one future per shareid, None until resolved. */
    var openings: seq<Option<int>>
    /** `_share_buffers`: per sender, the values received, by shareid. */
    const buffers: array<seq<int>>
    /** The remaining preprocessed shares, as the iterators will give them. */
    var zeros: seq<Share>
    var rands: seq<Share>
    var triples: seq<Share>

    /** Every accepted (sender, value), in order of arrival. */
    ghost var accepted: seq<(nat, int)>
    /** For each resolved shareid, the buffers as they were when it resolved. */
    ghost var resolvedFrom: map<nat, seq<seq<int>>>

    ghost predicate Valid()
      reads this, buffers
    {
      && t < N && buffers.Length == N
      && (forall j :: 0 <= j < N ==> buffers[j] == FromSender(accepted, j))
      && (forall id :: 0 <= id < |openings| ==> (openings[id].Some? <==> id in resolvedFrom))
      && (forall id :: id in resolvedFrom ==>
            id < |openings| && ResolvedAt(N, t, interpolateAt, buffers[..], id, resolvedFrom[id], openings[id]))
    }

    /** `__init__` past its assertions: no openings and N empty buffers; the
        preprocessing streams are what the share files hold. */
    constructor (N: nat, t: nat, myid: nat, interpolateAt: seq<(int, int)> -> int,
                 zeros: seq<Share>, rands: seq<Share>, triples: seq<Share>)
      requires t < N
      ensures Valid() && fresh(buffers)
      ensures this.N == N && this.t == t && this.myid == myid && this.interpolateAt == interpolateAt
      ensures openings == [] && buffers[..] == seq(N, _ => []) && accepted == []
      ensures this.zeros == zeros && this.rands == rands && this.triples == triples
    {
      this.N, this.t, this.myid, this.interpolateAt := N, t, myid, interpolateAt;
      openings := [];
      buffers := new seq<int>[N](_ => []);
      this.zeros, this.rands, this.triples := zeros, rands, triples;
      accepted := [];
      resolvedFrom := map[];
    }

    /** `_reconstruct`: collect the shares for shareid; with fewer than t+1,
        NotEnoughShares; otherwise resolve the opening unless it is already
        resolved, in which case it keeps its value. */
    method Reconstruct(shareid: nat) returns (r: Result<(), Exception>)
      requires Valid() && (|Collected(buffers[..], shareid)| >= t + 1 ==> shareid < |openings|)
      modifies this
      ensures Valid()
      ensures accepted == old(accepted) && zeros == old(zeros) && rands == old(rands) && triples == old(triples)
      ensures |Collected(buffers[..], shareid)| < t + 1 ==> r == Err(NotEnoughShares) && openings == old(openings)
      ensures |Collected(buffers[..], shareid)| >= t + 1 ==>
        && r == Ok(())
        && openings == old(openings)[shareid := if old(openings)[shareid].Some? then old(openings)[shareid]
                                                else Some(interpolateAt(Collected(buffers[..], shareid)))]
    {
      var shares := Collected(buffers[..], shareid);
      if |shares| < t + 1 {
        return Err(NotEnoughShares);
      }
      if openings[shareid].None? {
        ghost var oldOpenings, oldResolved := openings, resolvedFrom;
        openings := openings[shareid := Some(interpolateAt(shares))];
        resolvedFrom := resolvedFrom[shareid := buffers[..]];
        forall id | id in resolvedFrom
          ensures id < |openings| && ResolvedAt(N, t, interpolateAt, buffers[..], id, resolvedFrom[id], openings[id])
        {
          if id != shareid {
            assert id in oldResolved && openings[id] == oldOpenings[id];
          }
        }
      }
      r := Ok(());
    }

    /** `open_share`: the next shareid, a new pending opening, the broadcast
        of (shareid, v) to all N parties, and a reconstruction attempt with
        the shares already buffered. */
    method OpenShare(share: Share) returns (shareid: nat, sent: seq<Outgoing>)
      requires Valid()
      modifies this
      ensures Valid()
      ensures shareid == |old(openings)| && |openings| == shareid + 1 && openings[..shareid] == old(openings)
      ensures openings[shareid] ==
        if CountReaching(buffers[..], shareid, N) >= t + 1 then Some(interpolateAt(Collected(buffers[..], shareid)))
        else None
      ensures sent == Broadcast(N, shareid, share.v)
      ensures accepted == old(accepted) && zeros == old(zeros) && rands == old(rands) && triples == old(triples)
    {
      shareid := |openings|;
      openings := openings + [None];
      sent := [];
      var j := 0;
      while j < N
        invariant 0 <= j <= N && |sent| == j
        invariant forall k :: 0 <= k < j ==> sent[k] == (k, (shareid as int, share.v))
      {
        sent := sent + [(j, (shareid, share.v))];
        j := j + 1;
      }
      var _ := Reconstruct(shareid);
    }

    /** One turn of `_recvloop`: (shareid, v) from sender j. It must be the
        next value for j's buffer; it is appended to that buffer alone, and
        if that opening was asked for, reconstruction is tried. */
    method Receive(j: nat, shareid: int, v: int) returns (r: Result<(), Exception>)
      requires Valid()
      modifies this, buffers
      ensures Valid()
      ensures zeros == old(zeros) && rands == old(rands) && triples == old(triples)
      ensures j >= N ==> r == Err(IndexError)
      ensures j < N && shareid != |old(buffers[j])| ==> r == Err(AssertionError)
      ensures r.Err? ==> buffers[..] == old(buffers[..]) && openings == old(openings) && accepted == old(accepted)
      ensures j < N && shareid == |old(buffers[j])| ==>
        && r == Ok(())
        && buffers[..] == old(buffers[..])[j := old(buffers[j]) + [v]]
        && accepted == old(accepted) + [(j, v)]
        && openings == if shareid < |old(openings)| && old(openings)[shareid].None?
                          && CountReaching(buffers[..], shareid, N) >= t + 1
                       then old(openings)[shareid := Some(interpolateAt(Collected(buffers[..], shareid)))]
                       else old(openings)
    {
      if j >= buffers.Length {
        return Err(IndexError);
      }
      var buf := buffers[j];
      if shareid != |buf| {
        return Err(AssertionError);
      }
      ghost var cur := buffers[..];
      buffers[j] := buf + [v];
      accepted := accepted + [(j, v)];
      assert buffers[..] == cur[j := buf + [v]];
      forall i | 0 <= i < N ensures buffers[i] == FromSender(accepted, i) {
        FromSenderAppend(old(accepted), j, v, i);
      }
      forall id | id in resolvedFrom
        ensures id < |openings| && ResolvedAt(N, t, interpolateAt, buffers[..], id, resolvedFrom[id], openings[id])
      {
        AppendKeepsResolved(N, t, interpolateAt, cur, j, v, id, resolvedFrom[id], openings[id]);
      }
      if |openings| > shareid {
        var _ := Reconstruct(shareid);
      }
      r := Ok(());
    }

    /** `get_triple`: the next three preprocessed shares. When fewer than
        three remain, `next` raises StopIteration after consuming them. */
    method GetTriple() returns (r: Result<(Share, Share, Share), Exception>)
      requires Valid()
      modifies this`triples
      ensures Valid()
      ensures |old(triples)| >= 3 ==> r == Ok((old(triples)[0], old(triples)[1], old(triples)[2])) && triples == old(triples)[3..]
      ensures |old(triples)| < 3 ==> r == Err(StopIteration) && triples == []
    {
      if |triples| < 3 {
        triples := [];
        return Err(StopIteration);
      }
      var a, b, ab := triples[0], triples[1], triples[2];
      triples := triples[3..];
      r := Ok((a, b, ab));
    }

    /** `get_rand`: the next preprocessed random share. */
    method GetRand() returns (r: Result<Share, Exception>)
      requires Valid()
      modifies this`rands
      ensures Valid()
      ensures old(rands) == [] ==> r == Err(StopIteration) && rands == []
      ensures old(rands) != [] ==> r == Ok(old(rands)[0]) && rands == old(rands)[1..]
    {
      if rands == [] {
        return Err(StopIteration);
      }
      r := Ok(rands[0]);
      rands := rands[1..];
    }

    /** `get_zero`: the next preprocessed share of zero. */
    method GetZero() returns (r: Result<Share, Exception>)
      requires Valid()
      modifies this`zeros
      ensures Valid()
      ensures old(zeros) == [] ==> r == Err(StopIteration) && zeros == []
      ensures old(zeros) != [] ==> r == Ok(old(zeros)[0]) && zeros == old(zeros)[1..]
    {
      if zeros == [] {
        return Err(StopIteration);
      }
      r := Ok(zeros[0]);
      zeros := zeros[1..];
    }
  }

  /** `PassiveMpc(...)`: the assertion t < N, then the initial state. */
  method NewPassiveMpc(N: nat, t: nat, myid: nat, interpolateAt: seq<(int, int)> -> int,
                       zeros: seq<Share>, rands: seq<Share>, triples: seq<Share>)
    returns (r: Result<PassiveMpc, Exception>)
    ensures r.Err? <==> !(t < N)
    ensures r.Err? ==> r.error == AssertionError
    ensures r.Ok? ==>
      && fresh(r.value) && fresh(r.value.buffers) && r.value.Valid()
      && r.value.N == N && r.value.t == t && r.value.myid == myid && r.value.interpolateAt == interpolateAt
      && r.value.zeros == zeros && r.value.rands == rands && r.value.triples == triples
      && r.value.openings == [] && r.value.buffers[..] == seq(N, _ => [])
  {
    if !(t < N) {
      return Err(AssertionError);
    }
    var m := new PassiveMpc(N, t, myid, interpolateAt, zeros, rands, triples);
    r := Ok(m);
  }

  /** A resolved opening stays as it was: at least t+1 buffers reach its id,
      and its value is the interpolation of shares that are all still in the
      buffers, at least t+1 of them from distinct senders. */
  lemma ResolvedOpening(m: PassiveMpc, id: nat)
    requires m.Valid() && id < |m.openings| && m.openings[id].Some?
    ensures CountReaching(m.buffers[..], id, m.N) >= m.t + 1
    ensures exists shares: seq<(int, int)> ::
      && |shares| >= m.t + 1
      && m.openings[id] == Some(m.interpolateAt(shares))
      && (forall k :: 0 <= k < |shares| - 1 ==> shares[k].0 < shares[k + 1].0)
      && (forall e :: e in shares ==> e in Collected(m.buffers[..], id))
  {
    var B := m.resolvedFrom[id];
    assert ResolvedAt(m.N, m.t, m.interpolateAt, m.buffers[..], id, B, m.openings[id]);
    ReachingGrows(B, m.buffers[..], id, m.N);
    var shares := Collected(B, id);
    assert |shares| >= m.t + 1;
  }
}
