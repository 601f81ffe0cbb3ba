/** The retry policy shared by the senders of utils.py: each payload is
    handed to `sendall` at most MAX_RETRIES times, and a payload that fails
    that many times abandons the whole transfer.

    The connection is scripted: `failing` holds the numbers (counting from
    0) of the send attempts on which `sendall` raises `socket.error`; every
    other attempt gets through. A send is recorded as an `Attempt`, so a run
    of a sender yields the list of its attempts. */
module Retry {
  import opened Seqs
  import opened Text

  const MAX_RETRIES: nat := 3

  /** One call of `sendall`: the bytes it carried and whether it got through. */
  datatype Attempt = Attempt(payload: seq<byte>, delivered: bool)

  /** What the peer reads from one attempt. */
  function Got(a: Attempt): seq<seq<byte>>
  {
    if a.delivered then [a.payload] else []
  }

  /** The payloads that got through, in order: what the peer can read. */
  function Delivered(trace: seq<Attempt>): (r: seq<seq<byte>>)
    ensures |r| <= |trace|
  {
    if trace == [] then [] else Got(trace[0]) + Delivered(trace[1..])
  }

  lemma {:induction false} DeliveredAppend(a: seq<Attempt>, b: seq<Attempt>)
    ensures Delivered(a + b) == Delivered(a) + Delivered(b)
  {
    if a == [] {
      assert a + b == b;
    } else {
      assert (a + b)[0] == a[0];
      assert (a + b)[1..] == a[1..] + b;
      DeliveredAppend(a[1..], b);
    }
  }

  /** The attempts of a sender, and whether it went through all its payloads. */
  datatype Transmission = Transmission(trace: seq<Attempt>, complete: bool)

  /** `t` with the attempts `trace` made before it. */
  function After(trace: seq<Attempt>, t: Transmission): Transmission
  {
    Transmission(trace + t.trace, t.complete)
  }

  lemma AfterNothing(t: Transmission)
    ensures After([], t) == t
  {
    assert [] + t.trace == t.trace;
  }

  /** Payloads sent one after another, each under the retry loop: an attempt
      that gets through moves on to the next payload with a fresh count, a
      failure is retried until MAX_RETRIES failures of the same payload end
      the transmission. `at` is the number of the next attempt on the
      connection, `retries` the failures of the current payload so far. */
  function Transmit(pieces: seq<seq<byte>>, failing: set<nat>, at: nat, retries: nat): Transmission
    requires retries < MAX_RETRIES
    decreases |pieces|, MAX_RETRIES - retries
  {
    if pieces == [] then Transmission([], true)
    else if at !in failing then After([Attempt(pieces[0], true)], Transmit(pieces[1..], failing, at + 1, 0))
    else if retries + 1 == MAX_RETRIES then Transmission([Attempt(pieces[0], false)], false)
    else After([Attempt(pieces[0], false)], Transmit(pieces, failing, at + 1, retries + 1))
  }

  /** One step of a sender's loops, taken by the caller: the attempt at
      `at` of the current payload `p`, which moves on to the next payload if
      it got through and is retried (or ends the transmission) if not. */
  lemma TransmitStep(trace: seq<Attempt>, p: seq<byte>, pieces: seq<seq<byte>>, failing: set<nat>, retries: nat)
    requires retries < MAX_RETRIES
    ensures var at := |trace|;
      var next := trace + [Attempt(p, at !in failing)];
      && (at !in failing ==>
            After(trace, Transmit([p] + pieces, failing, at, retries)) == After(next, Transmit(pieces, failing, at + 1, 0)))
      && (at in failing && retries + 1 < MAX_RETRIES ==>
            After(trace, Transmit([p] + pieces, failing, at, retries)) == After(next, Transmit([p] + pieces, failing, at + 1, retries + 1)))
      && (at in failing && retries + 1 == MAX_RETRIES ==>
            After(trace, Transmit([p] + pieces, failing, at, retries)) == Transmission(next, false))
  {
    assert ([p] + pieces)[1..] == pieces;
  }

  /** What a transmission achieves: the payloads that got through are the
      first ones, in order, each once, and it is complete exactly when all
      of them got through. */
  lemma {:induction false} TransmitDelivers(pieces: seq<seq<byte>>, failing: set<nat>, at: nat, retries: nat)
    requires retries < MAX_RETRIES
    ensures var t := Transmit(pieces, failing, at, retries);
      && |Delivered(t.trace)| <= |pieces|
      && Delivered(t.trace) == pieces[..|Delivered(t.trace)|]
      && (t.complete <==> Delivered(t.trace) == pieces)
    decreases |pieces|, MAX_RETRIES - retries
  {
    var t := Transmit(pieces, failing, at, retries);
    if pieces == [] {
      assert t.trace == [];
    } else if at !in failing {
      var rest := Transmit(pieces[1..], failing, at + 1, 0);
      TransmitDelivers(pieces[1..], failing, at + 1, 0);
      assert t.trace[1..] == rest.trace;
      assert Delivered(t.trace) == [pieces[0]] + Delivered(rest.trace);
      PrefixCons(pieces, Delivered(rest.trace));
    } else if retries + 1 == MAX_RETRIES {
      assert t.trace[1..] == [];
    } else {
      var rest := Transmit(pieces, failing, at + 1, retries + 1);
      TransmitDelivers(pieces, failing, at + 1, retries + 1);
      assert t.trace[1..] == rest.trace;
    }
  }

  /** The last `n` attempts of `trace` all failed, and all carried `payload`. */
  ghost predicate EndsWithFailures(trace: seq<Attempt>, n: nat, payload: seq<byte>)
  {
    n <= |trace| && forall k :: |trace| - n <= k < |trace| ==> !trace[k].delivered && trace[k].payload == payload
  }

  /** The shape of a transmission of `pieces` that was given up, from a
      state with `retries` failures of the first payload: the payloads that
      got through are fewer than all, and the trace ends with failures of
      the first one that did not get through, MAX_RETRIES of them, or only
      the remaining ones (and nothing else) when none got through. */
  ghost predicate Abandoned(pieces: seq<seq<byte>>, t: Transmission, retries: nat)
  {
    var d := |Delivered(t.trace)|;
    && d < |pieces|
    && (d == 0 ==> |t.trace| == MAX_RETRIES - retries)
    && EndsWithFailures(t.trace, if d == 0 then MAX_RETRIES - retries else MAX_RETRIES, pieces[d])
  }

  /** What the first attempt adds to the trace. */
  lemma DeliveredCons(a: Attempt, trace: seq<Attempt>)
    ensures Delivered([a] + trace) == Got(a) + Delivered(trace)
  {
    assert ([a] + trace)[0] == a;
    assert ([a] + trace)[1..] == trace;
  }

  /** A payload that got through, in front of a transmission of the rest
      that was given up. */
  lemma AbandonedAfterSent(p: seq<byte>, pieces: seq<seq<byte>>, rest: Transmission, retries: nat)
    requires retries < MAX_RETRIES
    requires Abandoned(pieces, rest, 0)
    ensures Abandoned([p] + pieces, After([Attempt(p, true)], rest), retries)
  {
    var a := Attempt(p, true);
    var t := [a] + rest.trace;
    DeliveredCons(a, rest.trace);
    var d := |Delivered(rest.trace)|;
    assert ([p] + pieces)[d + 1] == pieces[d];
    forall k | |t| - MAX_RETRIES <= k < |t|
      ensures !t[k].delivered && t[k].payload == pieces[d]
    {
      assert t[k] == rest.trace[k - 1];
    }
  }

  /** A failed attempt of the first payload, in front of a transmission that
      was given up after one more failure. */
  lemma AbandonedAfterFailure(pieces: seq<seq<byte>>, rest: Transmission, retries: nat)
    requires pieces != [] && retries + 1 < MAX_RETRIES
    requires Abandoned(pieces, rest, retries + 1)
    ensures Abandoned(pieces, After([Attempt(pieces[0], false)], rest), retries)
  {
    var a := Attempt(pieces[0], false);
    var t := [a] + rest.trace;
    DeliveredCons(a, rest.trace);
    var d := |Delivered(rest.trace)|;
    var n := if d == 0 then MAX_RETRIES - retries else MAX_RETRIES;
    forall k | |t| - n <= k < |t|
      ensures !t[k].delivered && t[k].payload == pieces[d]
    {
      if k > 0 {
        assert t[k] == rest.trace[k - 1];
      }
    }
  }

  /** An incomplete transmission ends with the failed attempts of the first
      payload that did not get through: MAX_RETRIES of them from a fresh
      start, and nothing after them. */
  lemma {:induction false} TransmitAbandons(pieces: seq<seq<byte>>, failing: set<nat>, at: nat, retries: nat)
    requires retries < MAX_RETRIES
    requires !Transmit(pieces, failing, at, retries).complete
    ensures Abandoned(pieces, Transmit(pieces, failing, at, retries), retries)
    decreases |pieces|, MAX_RETRIES - retries
  {
    if at !in failing {
      TransmitAbandons(pieces[1..], failing, at + 1, 0);
      AbandonedAfterSent(pieces[0], pieces[1..], Transmit(pieces[1..], failing, at + 1, 0), retries);
      assert [pieces[0]] + pieces[1..] == pieces;
    } else if retries + 1 < MAX_RETRIES {
      TransmitAbandons(pieces, failing, at + 1, retries + 1);
      AbandonedAfterFailure(pieces, Transmit(pieces, failing, at + 1, retries + 1), retries);
    } else {
      DeliveredCons(Attempt(pieces[0], false), []);
    }
  }

  /** A complete transmission of at least one payload ends with an attempt
      that got through. */
  lemma {:induction false} TransmitEndsDelivered(pieces: seq<seq<byte>>, failing: set<nat>, at: nat, retries: nat)
    requires retries < MAX_RETRIES
    requires pieces != [] && Transmit(pieces, failing, at, retries).complete
    ensures var t := Transmit(pieces, failing, at, retries); t.trace != [] && t.trace[|t.trace| - 1].delivered
    decreases |pieces|, MAX_RETRIES - retries
  {
    if at !in failing {
      if |pieces| > 1 {
        TransmitEndsDelivered(pieces[1..], failing, at + 1, 0);
      }
    } else if retries + 1 < MAX_RETRIES {
      TransmitEndsDelivered(pieces, failing, at + 1, retries + 1);
    }
  }

  /** When no attempt fails, every payload goes through on its first attempt. */
  lemma {:induction false} TransmitReliable(pieces: seq<seq<byte>>, failing: set<nat>, at: nat)
    requires forall n :: at <= n < at + |pieces| ==> n !in failing
    ensures var t := Transmit(pieces, failing, at, 0);
      && t.complete
      && |t.trace| == |pieces|
      && forall k :: 0 <= k < |pieces| ==> t.trace[k] == Attempt(pieces[k], true)
    decreases |pieces|
  {
    if pieces != [] {
      var t := Transmit(pieces, failing, at, 0);
      var rest := Transmit(pieces[1..], failing, at + 1, 0);
      TransmitReliable(pieces[1..], failing, at + 1);
      assert t.trace == [Attempt(pieces[0], true)] + rest.trace;
    }
  }

  /** `MAX_RETRIES` failed attempts in a row, starting at index `i`. */
  ghost predicate FailureRun(trace: seq<Attempt>, i: int)
  {
    0 <= i && i + MAX_RETRIES <= |trace| && forall k :: i <= k < i + MAX_RETRIES ==> !trace[k].delivered
  }

  /** The first `n` attempts of `trace` all failed. */
  ghost predicate LeadingFailures(trace: seq<Attempt>, n: nat)
  {
    n <= |trace| && forall k :: 0 <= k < n ==> !trace[k].delivered
  }

  /** The retry discipline, read off a trace: a failed attempt that is not
      the last is followed by another attempt of the same payload, and
      MAX_RETRIES failures in a row end the trace. */
  ghost predicate FollowsRetryPolicy(trace: seq<Attempt>)
  {
    && (forall i :: 0 <= i < |trace| - 1 && !trace[i].delivered ==> trace[i + 1].payload == trace[i].payload)
    && (forall i :: FailureRun(trace, i) ==> i + MAX_RETRIES == |trace|)
  }

  /** What the retry discipline promises of a transmission of `pieces` from
      a state with `retries` failures of the first payload: the trace keeps
      the discipline and starts with the first payload; the failures still
      allowed, all at the front, are the whole trace of an incomplete
      transmission; and a complete one has no MAX_RETRIES failures in a row. */
  ghost predicate KeepsPolicy(pieces: seq<seq<byte>>, t: Transmission, retries: nat)
    requires retries < MAX_RETRIES
  {
    && FollowsRetryPolicy(t.trace)
    && (pieces != [] ==> t.trace != [] && t.trace[0].payload == pieces[0])
    && (LeadingFailures(t.trace, MAX_RETRIES - retries) ==> |t.trace| == MAX_RETRIES - retries && !t.complete)
    && (t.complete ==> forall i :: !FailureRun(t.trace, i))
  }

  /** A payload that got through, in front of a transmission of the rest. */
  lemma PolicyAfterSent(p: seq<byte>, pieces: seq<seq<byte>>, rest: Transmission, retries: nat)
    requires retries < MAX_RETRIES
    requires KeepsPolicy(pieces, rest, 0)
    ensures KeepsPolicy([p] + pieces, After([Attempt(p, true)], rest), retries)
  {
    var t := [Attempt(p, true)] + rest.trace;
    assert t[1..] == rest.trace;
    forall i | FailureRun(t, i)
      ensures i + MAX_RETRIES == |t| && !rest.complete
    {
      assert i != 0 by {
        assert t[0].delivered;
      }
      assert FailureRun(rest.trace, i - 1);
    }
    assert !LeadingFailures(t, MAX_RETRIES - retries) by {
      assert t[0].delivered;
    }
  }

  /** A failed attempt of the first payload, in front of a transmission that
      carries on after one more failure. */
  lemma PolicyAfterFailure(pieces: seq<seq<byte>>, rest: Transmission, retries: nat)
    requires pieces != [] && retries + 1 < MAX_RETRIES
    requires KeepsPolicy(pieces, rest, retries + 1)
    ensures KeepsPolicy(pieces, After([Attempt(pieces[0], false)], rest), retries)
  {
    var t := [Attempt(pieces[0], false)] + rest.trace;
    assert t[1..] == rest.trace;
    if LeadingFailures(t, MAX_RETRIES - retries) {
      assert LeadingFailures(rest.trace, MAX_RETRIES - retries - 1);
    }
    forall i | FailureRun(t, i)
      ensures i + MAX_RETRIES == |t| && !rest.complete
    {
      if i == 0 {
        assert LeadingFailures(rest.trace, MAX_RETRIES - retries - 1);
      } else {
        assert FailureRun(rest.trace, i - 1);
      }
    }
  }

  /** Every transmission follows the retry discipline; it gives up only after
      the failures the current payload has left, and a complete one never
      contains MAX_RETRIES failures in a row. */
  lemma {:induction false} TransmitFollowsPolicy(pieces: seq<seq<byte>>, failing: set<nat>, at: nat, retries: nat)
    requires retries < MAX_RETRIES
    ensures KeepsPolicy(pieces, Transmit(pieces, failing, at, retries), retries)
    decreases |pieces|, MAX_RETRIES - retries
  {
    if pieces == [] {
    } else if at !in failing {
      TransmitFollowsPolicy(pieces[1..], failing, at + 1, 0);
      PolicyAfterSent(pieces[0], pieces[1..], Transmit(pieces[1..], failing, at + 1, 0), retries);
      assert [pieces[0]] + pieces[1..] == pieces;
    } else if retries + 1 < MAX_RETRIES {
      TransmitFollowsPolicy(pieces, failing, at + 1, retries + 1);
      PolicyAfterFailure(pieces, Transmit(pieces, failing, at + 1, retries + 1), retries);
    } else {
      var t := Transmit(pieces, failing, at, retries);
      assert |t.trace| == 1;
    }
  }
}
