/**
 * The public hasher: a transcript state that is emptied for good by the
 * first failure, and the digest input, modelled as the append-only sequence
 * of every byte absorbed so far.
 */
module Hashers {

  import opened Results
  import opened Wire
  import opened Events
  import opened StateMachine

  /** `state` is `None` once a call has failed (the hasher is poisoned). */
  datatype Hasher = Hasher(state: Option<State>, transcript: seq<byte>)

  /** A call's effect: the hasher afterwards and what the call returned. */
  datatype Outcome = Outcome(hasher: Hasher, result: Result<()>)

  /** `Hasher::new` / `Default`: a fresh digest with nothing absorbed, and the `Initial` state. */
  function New(): (h: Hasher)
    ensures h.state == Some(Initial)
    ensures h.transcript == []
  {
    Hasher(Some(Initial), [])
  }

  /**
   * `Hasher::hash_event`. The state is taken out before the transition, so
   * a failing transition leaves no state behind; a poisoned hasher answers
   * `Failed` without touching the digest.
   */
  function HashEvent(h: Hasher, e: Event): (o: Outcome)
    ensures h.transcript <= o.hasher.transcript
    ensures o.result.Ok? <==> h.state.Some? && Transition(h.state.value, e).Ok?
    ensures o.result.Err? ==> o.hasher == Hasher(None, h.transcript)
    ensures h.state.None? ==> o.result == Err(Failed)
    ensures h.state.Some? && o.result.Err? ==> o.result == Err(Transition(h.state.value, e).error)
    ensures o.result.Ok? ==>
      var step := Transition(h.state.value, e).value;
      o.hasher.state == Some(step.next) && o.hasher.transcript[|h.transcript|..] == step.absorbed
  {
    match h.state
    case None => Outcome(h, Err(Failed))
    case Some(s) =>
      match Transition(s, e)
      case Err(err) => Outcome(Hasher(None, h.transcript), Err(err))
      case Ok(step) => Outcome(Hasher(Some(step.next), h.transcript + step.absorbed), Ok(()))
  }

  /** The hasher after a sequence of calls, with what each call returned. */
  datatype Trace = Trace(hasher: Hasher, results: seq<Result<()>>)

  /** Calls `hash_event` once per event, in order, whatever the earlier calls returned. */
  function Feed(h: Hasher, es: seq<Event>): (tr: Trace)
    ensures |tr.results| == |es|
    ensures h.transcript <= tr.hasher.transcript
    ensures h.state.None? ==> tr.hasher == h
    decreases |es|
  {
    if |es| == 0 then Trace(h, [])
    else
      var o := HashEvent(h, es[0]);
      var rest := Feed(o.hasher, es[1..]);
      Trace(rest.hasher, [o.result] + rest.results)
  }

  /** Feeding two sequences one after the other is feeding their concatenation. */
  lemma {:induction false} FeedAppend(h: Hasher, a: seq<Event>, b: seq<Event>)
    ensures Feed(h, a + b).hasher == Feed(Feed(h, a).hasher, b).hasher
    ensures Feed(h, a + b).results == Feed(h, a).results + Feed(Feed(h, a).hasher, b).results
    decreases |a|
  {
    if |a| == 0 {
      assert a + b == b;
    } else {
      var o := HashEvent(h, a[0]);
      FeedAppend(o.hasher, a[1..], b);
      assert (a + b)[0] == a[0];
      assert (a + b)[1..] == a[1..] + b;
      FeedFirst(h, a);
      FeedFirst(h, a + b);
      ComposeAppend(Feed(h, a + b), o.result, Feed(o.hasher, a[1..] + b), Feed(h, a),
                    Feed(o.hasher, a[1..]), Feed(Feed(o.hasher, a[1..]).hasher, b));
    }
  }

  /** The bookkeeping of `FeedAppend`, with the traces abstracted. */
  lemma ComposeAppend(whole: Trace, first: Result<()>, wholeRest: Trace, prefix: Trace, prefixRest: Trace, last: Trace)
    requires whole == Trace(wholeRest.hasher, [first] + wholeRest.results)
    requires prefix == Trace(prefixRest.hasher, [first] + prefixRest.results)
    requires wholeRest.hasher == last.hasher && wholeRest.results == prefixRest.results + last.results
    ensures whole.hasher == last.hasher
    ensures whole.results == prefix.results + last.results
  {
    assert [first] + (prefixRest.results + last.results) == ([first] + prefixRest.results) + last.results;
  }

  /** A poisoned hasher answers `Failed` to every event. */
  lemma {:induction false} PoisonedFeedFails(h: Hasher, es: seq<Event>)
    requires h.state.None?
    ensures forall i :: 0 <= i < |es| ==> Feed(h, es).results[i] == Err(Failed)
    decreases |es|
  {
    if |es| > 0 {
      FeedFirst(h, es);
      PoisonedFeedFails(h, es[1..]);
    }
  }

  /** The hasher is poisoned after a sequence whose last call failed. */
  lemma {:induction false} LastFailurePoisons(h: Hasher, es: seq<Event>)
    requires |es| > 0
    requires Feed(h, es).results[|es| - 1].Err?
    ensures Feed(h, es).hasher.state.None?
    decreases |es|
  {
    var o := HashEvent(h, es[0]);
    if |es| == 1 {
      assert es[1..] == [];
    } else {
      assert Feed(o.hasher, es[1..]).results[|es| - 2] == Feed(h, es).results[|es| - 1];
      LastFailurePoisons(o.hasher, es[1..]);
    }
  }

  /**
   * Poisoning: once a call fails, every later call returns `Failed`, and
   * neither the state nor the digest changes again.
   */
  lemma FailureIsFinal(h: Hasher, es: seq<Event>, i: nat)
    requires i < |es|
    requires Feed(h, es).results[i].Err?
    ensures Feed(h, es[..i + 1]).hasher.state.None?
    ensures Feed(h, es).hasher == Feed(h, es[..i + 1]).hasher
    ensures forall j :: i < j < |es| ==> Feed(h, es).results[j] == Err(Failed)
  {
    var a, b := es[..i + 1], es[i + 1..];
    assert a + b == es;
    FeedAppend(h, a, b);
    assert Feed(h, a).results[i] == Feed(h, es).results[i];
    LastFailurePoisons(h, a);
    PoisonedFeedFails(Feed(h, a).hasher, b);
  }

  /** One call on a live hasher whose state accepts the event. */
  lemma HashEventAccepted(s: State, t: seq<byte>, e: Event)
    requires Transition(s, e).Ok?
    ensures HashEvent(Hasher(Some(s), t), e)
         == Outcome(Hasher(Some(Transition(s, e).value.next), t + Transition(s, e).value.absorbed), Ok(()))
  {
  }

  /** The first call of a sequence, and the rest. */
  lemma FeedFirst(h: Hasher, es: seq<Event>)
    requires |es| > 0
    ensures Feed(h, es) == Trace(Feed(HashEvent(h, es[0]).hasher, es[1..]).hasher,
                                 [HashEvent(h, es[0]).result] + Feed(HashEvent(h, es[0]).hasher, es[1..]).results)
  {
  }

  /** The first event of a run, and the rest. */
  lemma RunFirst(s: State, es: seq<Event>)
    requires |es| > 0
    ensures Transition(s, es[0]).Err? ==> Run(s, es).Err?
    ensures Transition(s, es[0]).Ok? ==>
      var step := Transition(s, es[0]).value;
      && (Run(s, es).Ok? <==> Run(step.next, es[1..]).Ok?)
      && (Run(s, es).Ok? ==>
            Run(s, es).value == Step(Run(step.next, es[1..]).value.next, step.absorbed + Run(step.next, es[1..]).value.absorbed))
  {
  }

  /**
   * A hasher that has not failed does exactly what `Run` describes: it
   * stays live exactly when `Run` accepts the events, and then the digest
   * has received exactly the bytes `Run` absorbed.
   */
  lemma {:induction false} FeedAgreesWithRun(s: State, t: seq<byte>, es: seq<Event>)
    ensures Feed(Hasher(Some(s), t), es).hasher.state.Some? <==> Run(s, es).Ok?
    ensures Run(s, es).Ok? ==>
      Feed(Hasher(Some(s), t), es).hasher == Hasher(Some(Run(s, es).value.next), t + Run(s, es).value.absorbed)
    decreases |es|, 1
  {
    if |es| == 0 {
      assert t + [] == t;
    } else if Transition(s, es[0]).Err? {
      FeedFirst(Hasher(Some(s), t), es);
      RunFirst(s, es);
    } else {
      FeedAgreesWithRunAccepted(s, t, es);
    }
  }

  /** The case of `FeedAgreesWithRun` where the first event is accepted. */
  lemma {:induction false} FeedAgreesWithRunAccepted(s: State, t: seq<byte>, es: seq<Event>)
    requires |es| > 0 && Transition(s, es[0]).Ok?
    ensures Feed(Hasher(Some(s), t), es).hasher.state.Some? <==> Run(s, es).Ok?
    ensures Run(s, es).Ok? ==>
      Feed(Hasher(Some(s), t), es).hasher == Hasher(Some(Run(s, es).value.next), t + Run(s, es).value.absorbed)
    decreases |es|, 0
  {
    var step := Transition(s, es[0]).value;
    var t' := t + step.absorbed;
    assert Feed(Hasher(Some(s), t), es).hasher == Feed(Hasher(Some(step.next), t'), es[1..]).hasher by {
      FeedFirst(Hasher(Some(s), t), es);
      HashEventAccepted(s, t, es[0]);
    }
    assert (Run(s, es).Ok? <==> Run(step.next, es[1..]).Ok?)
        && (Run(s, es).Ok? ==>
              Run(s, es).value == Step(Run(step.next, es[1..]).value.next, step.absorbed + Run(step.next, es[1..]).value.absorbed)) by {
      RunFirst(s, es);
    }
    FeedAgreesWithRun(step.next, t', es[1..]);
    ComposeFirstStep(Feed(Hasher(Some(s), t), es).hasher, Run(s, es), Run(step.next, es[1..]), step.absorbed, t);
  }

  /** The bookkeeping of `FeedAgreesWithRunAccepted`, with the runs and hashers abstracted. */
  lemma ComposeFirstStep(f: Hasher, whole: Result<Step>, rest: Result<Step>, first: seq<byte>, t: seq<byte>)
    requires whole.Ok? <==> rest.Ok?
    requires whole.Ok? ==> whole.value == Step(rest.value.next, first + rest.value.absorbed)
    requires f.state.Some? <==> rest.Ok?
    requires rest.Ok? ==> f == Hasher(Some(rest.value.next), t + first + rest.value.absorbed)
    ensures f.state.Some? <==> whole.Ok?
    ensures whole.Ok? ==> f == Hasher(Some(whole.value.next), t + whole.value.absorbed)
  {
    if whole.Ok? {
      assert t + first + rest.value.absorbed == t + (first + rest.value.absorbed);
    }
  }

  /**
   * An event the current state rejects makes that call return the
   * rejection and leaves the hasher poisoned.
   */
  lemma RejectedEventPoisons(h: Hasher, prefix: seq<Event>, e: Event)
    requires Feed(h, prefix).hasher.state.Some?
    requires Transition(Feed(h, prefix).hasher.state.value, e).Err?
    ensures Feed(h, prefix + [e]).results[|prefix|] == Err(Transition(Feed(h, prefix).hasher.state.value, e).error)
    ensures Feed(h, prefix + [e]).hasher == Hasher(None, Feed(h, prefix).hasher.transcript)
  {
    FeedAppend(h, prefix, [e]);
    assert [e][1..] == [];
  }

  /** When `Run` accepts a sequence, every single call on a live hasher succeeds. */
  lemma {:induction false} AcceptedRunSucceedsEachCall(s: State, t: seq<byte>, es: seq<Event>)
    requires Run(s, es).Ok?
    ensures forall i :: 0 <= i < |es| ==> Feed(Hasher(Some(s), t), es).results[i] == Ok(())
    decreases |es|
  {
    if |es| > 0 {
      var step := Transition(s, es[0]).value;
      RunFirst(s, es);
      FeedFirst(Hasher(Some(s), t), es);
      HashEventAccepted(s, t, es[0]);
      AcceptedRunSucceedsEachCall(step.next, t + step.absorbed, es[1..]);
    }
  }
}
