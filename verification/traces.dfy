/**
  Sequences of calls on one extractor, as the single owning thread makes
  them, and the properties that hold of every such run: the registry stays
  duplicate-free, the stored colour is the last one set, and a handle is
  registered exactly when its last add/remove call was an add.
 */
module Traces {
  import opened SysuiColorExtractor

  /** One public call on the media-accent part of the extractor. */
  datatype Call =
    | SetColor(color: Int32, outcome: ListenerId -> Outcome)
    | Add(listener: ListenerId)
    | Remove(listener: ListenerId)
    | Get

  /**
    The state after one call. Callbacks are taken not to call back into the
    extractor, so what they return or throw has no effect on the state.
   */
  function Step(e: Extractor, c: Call): Extractor {
    match c
    case SetColor(color, outcome) => SetMediaBackgroundColor(e, color, outcome).state
    case Add(l) => AddListener(e, l)
    case Remove(l) => RemoveListener(e, l)
    case Get => e
  }

  /** The state after making `calls` in order, starting from `e`. */
  function Run(e: Extractor, calls: seq<Call>): Extractor
    decreases |calls|
  {
    if |calls| == 0 then e else Run(Step(e, calls[0]), calls[1..])
  }

  /** Reference definition: the colour of the last `SetColor` in `calls`, else `initial`. */
  function LastColor(calls: seq<Call>, initial: Int32): Int32
    decreases |calls|
  {
    if |calls| == 0 then initial
    else if calls[|calls| - 1].SetColor? then calls[|calls| - 1].color
    else LastColor(calls[..|calls| - 1], initial)
  }

  /**
    Reference definition: whether `l` is registered after `calls`, judged
    only by the last `Add(l)` or `Remove(l)` among them; `initially` if
    there is none.
   */
  function Registered(calls: seq<Call>, l: ListenerId, initially: bool): bool
    decreases |calls|
  {
    if |calls| == 0 then initially
    else
      var c := calls[|calls| - 1];
      if c.Add? && c.listener == l then true
      else if c.Remove? && c.listener == l then false
      else Registered(calls[..|calls| - 1], l, initially)
  }

  /** Running a trace with one more call is one more step. */
  lemma {:induction false} RunSnoc(e: Extractor, calls: seq<Call>, c: Call)
    ensures Run(e, calls + [c]) == Step(Run(e, calls), c)
    decreases |calls|
  {
    if |calls| == 0 {
      assert [c][1..] == [];
    } else {
      assert (calls + [c])[1..] == calls[1..] + [c];
      RunSnoc(Step(e, calls[0]), calls[1..], c);
    }
  }

  /** Every call keeps the registry duplicate-free. */
  lemma StepValid(e: Extractor, c: Call)
    requires Valid(e)
    ensures Valid(Step(e, c))
  {
  }

  /** Every run keeps the registry duplicate-free; in particular every run from `Init()`. */
  lemma {:induction false} RunValid(e: Extractor, calls: seq<Call>)
    requires Valid(e)
    ensures Valid(Run(e, calls))
    decreases |calls|
  {
    if |calls| > 0 {
      StepValid(e, calls[0]);
      RunValid(Step(e, calls[0]), calls[1..]);
    }
  }

  /** `getMediaBackgroundColor` returns the last colour set, or the initial one if none was set. */
  lemma {:induction false} RunColor(e: Extractor, calls: seq<Call>)
    ensures GetMediaBackgroundColor(Run(e, calls)) == LastColor(calls, e.mediaColor)
    decreases |calls|
  {
    if |calls| > 0 {
      var n := |calls| - 1;
      assert calls == calls[..n] + [calls[n]];
      RunSnoc(e, calls[..n], calls[n]);
      RunColor(e, calls[..n]);
    }
  }

  /**
    On a duplicate-free registry, a handle is registered after a run exactly
    when the last add/remove call naming it was an add (or, if there was
    none, when it was registered before).
   */
  lemma {:induction false} RunMembership(e: Extractor, calls: seq<Call>, l: ListenerId)
    requires Valid(e)
    ensures l in Run(e, calls).listeners <==> Registered(calls, l, l in e.listeners)
    decreases |calls|
  {
    if |calls| > 0 {
      var n := |calls| - 1;
      assert calls == calls[..n] + [calls[n]];
      RunSnoc(e, calls[..n], calls[n]);
      RunMembership(e, calls[..n], l);
      RunValid(e, calls[..n]);
    }
  }

  /**
    `getMediaBackgroundColor` returns the value passed to the most recent
    set call: no add, remove or get after it changes what it reports.
   */
  lemma GetReturnsLastSet(e: Extractor, before: seq<Call>, color: Int32, outcome: ListenerId -> Outcome, after: seq<Call>)
    requires forall i :: 0 <= i < |after| ==> !after[i].SetColor?
    ensures GetMediaBackgroundColor(Run(e, before + [SetColor(color, outcome)] + after)) == color
  {
    var calls := before + [SetColor(color, outcome)] + after;
    RunColor(e, calls);
    LastSetWins(before + [SetColor(color, outcome)], after, e.mediaColor);
  }

  /** Calls without `SetColor` appended to a trace do not change its last colour. */
  lemma {:induction false} LastSetWins(calls: seq<Call>, after: seq<Call>, initial: Int32)
    requires forall i :: 0 <= i < |after| ==> !after[i].SetColor?
    ensures LastColor(calls + after, initial) == LastColor(calls, initial)
    decreases |after|
  {
    if |after| > 0 {
      var n := |after| - 1;
      var all := calls + after;
      assert all[|all| - 1] == after[n] && !after[n].SetColor?;
      assert all[..|all| - 1] == calls + after[..n];
      assert forall i :: 0 <= i < n ==> after[..n][i] == after[i];
      LastSetWins(calls, after[..n], initial);
    } else {
      assert calls + after == calls;
    }
  }

  /** A freshly constructed extractor reports colour 0 until the first `SetColor`. */
  lemma InitialColor(calls: seq<Call>)
    requires forall i :: 0 <= i < |calls| ==> !calls[i].SetColor?
    ensures GetMediaBackgroundColor(Run(Init(), calls)) == 0
  {
    RunColor(Init(), calls);
    NoSetKeepsColor(calls, 0);
  }

  /** A trace without `SetColor` leaves the colour where it started. */
  lemma {:induction false} NoSetKeepsColor(calls: seq<Call>, initial: Int32)
    requires forall i :: 0 <= i < |calls| ==> !calls[i].SetColor?
    ensures LastColor(calls, initial) == initial
    decreases |calls|
  {
    if |calls| > 0 {
      NoSetKeepsColor(calls[..|calls| - 1], initial);
    }
  }

  /** The colour is readable right after it is set, whatever each callback returns or throws. */
  lemma SetThenGet(e: Extractor, color: Int32, outcome: ListenerId -> Outcome)
    ensures GetMediaBackgroundColor(SetMediaBackgroundColor(e, color, outcome).state) == color
  {
  }

  /** Adding a handle that is not registered and removing it again restores the state. */
  lemma AddThenRemove(e: Extractor, l: ListenerId)
    requires l !in e.listeners
    ensures RemoveListener(AddListener(e, l), l) == e
  {
  }

  /** A second add of the same handle changes nothing. */
  lemma AddIdempotent(e: Extractor, l: ListenerId)
    ensures AddListener(AddListener(e, l), l) == AddListener(e, l)
  {
  }

  /** On a duplicate-free registry, a second remove of the same handle changes nothing. */
  lemma RemoveIdempotent(e: Extractor, l: ListenerId)
    requires Valid(e)
    ensures RemoveListener(RemoveListener(e, l), l) == RemoveListener(e, l)
  {
  }

  /**
    Scenario: A and B registered (A twice), colour 0xFF0000 set
    with no failing callback. A and B each receive it exactly once, in
    registration order, and it is then the stored colour.
   */
  lemma TwoListenerScenario(a: ListenerId, b: ListenerId, outcome: ListenerId -> Outcome)
    requires a != b
    requires outcome(a) == Returns && outcome(b) == Returns
    ensures var e := AddListener(AddListener(AddListener(Init(), a), b), a);
      var n := SetMediaBackgroundColor(e, 0xFF0000, outcome);
      && n.deliveries == [Delivery(a, 0xFF0000), Delivery(b, 0xFF0000)]
      && GetMediaBackgroundColor(n.state) == 0xFF0000
  {
  }
}
