/**
  What a `setMediaBackgroundColor` call delivers, described independently of
  `Notify`: the full broadcast the colour would reach if nothing failed, cut
  off just after the first listener whose callback throws.
 */
module Deliveries {
  import opened ListenerList
  import opened SysuiColorExtractor

  /** Reference definition: `color` delivered once to each of `ls`, in order. */
  function Broadcast(ls: seq<ListenerId>, color: Int32): (ds: seq<Delivery>)
    ensures |ds| == |ls|
    ensures forall i :: 0 <= i < |ls| ==> ds[i].listener == ls[i] && ds[i].color == color
  {
    seq(|ls|, i requires 0 <= i < |ls| => Delivery(ls[i], color))
  }

  /** Position of the first listener of `ls` whose callback throws, or `|ls|` if none does. */
  function FirstThrow(ls: seq<ListenerId>, outcome: ListenerId -> Outcome): (k: nat)
    ensures k <= |ls|
    ensures forall i :: 0 <= i < k ==> outcome(ls[i]) == Returns
    ensures k < |ls| ==> outcome(ls[k]) == Throws
  {
    if |ls| == 0 then 0
    else if outcome(ls[0]) == Throws then 0
    else
      var k := FirstThrow(ls[1..], outcome);
      assert forall i :: 0 <= i < 1 + k ==> outcome(ls[i]) == Returns;
      1 + k
  }

  /** How many listeners of `ls` are called: all up to and including the first that throws. */
  function Reached(ls: seq<ListenerId>, outcome: ListenerId -> Outcome): nat {
    var k := FirstThrow(ls, outcome);
    if k < |ls| then k + 1 else |ls|
  }

  /** Number of deliveries in `ds` made to `l`. */
  function CountFor(ds: seq<Delivery>, l: ListenerId): nat {
    if |ds| == 0 then 0
    else (if ds[0].listener == l then 1 else 0) + CountFor(ds[1..], l)
  }

  /**
    Notification is the broadcast to the listeners up to and including the
    first one that throws; nobody after it is called.
   */
  lemma NotifyIsTruncatedBroadcast(ls: seq<ListenerId>, color: Int32, outcome: ListenerId -> Outcome)
    ensures Notify(ls, color, outcome) == Broadcast(ls[..Reached(ls, outcome)], color)
  {
  }

  /** If no callback throws, every registered listener receives the colour, in list order. */
  lemma NotifyAllReturn(ls: seq<ListenerId>, color: Int32, outcome: ListenerId -> Outcome)
    requires forall l :: l in ls ==> outcome(l) == Returns
    ensures Notify(ls, color, outcome) == Broadcast(ls, color)
  {
  }

  /**
    If the `k`-th listener is the first to throw, exactly the listeners
    before it and the failing one are called.
   */
  lemma NotifyStopsAtThrow(ls: seq<ListenerId>, color: Int32, outcome: ListenerId -> Outcome, k: nat)
    requires k < |ls| && outcome(ls[k]) == Throws
    requires forall i :: 0 <= i < k ==> outcome(ls[i]) == Returns
    ensures Notify(ls, color, outcome) == Broadcast(ls[..k + 1], color)
  {
  }

  /** The listener at position `j` is called iff every listener before it returned. */
  lemma NotifyReaches(ls: seq<ListenerId>, color: Int32, outcome: ListenerId -> Outcome, j: nat)
    requires j < |ls|
    ensures j < |Notify(ls, color, outcome)| <==> forall i :: 0 <= i < j ==> outcome(ls[i]) == Returns
  {
  }

  /**
    With a duplicate-free list and no failing callback, each registered
    listener receives exactly one delivery and no other handle receives any.
   */
  lemma {:induction false} DeliveredExactlyOnce(ls: seq<ListenerId>, color: Int32, outcome: ListenerId -> Outcome, l: ListenerId)
    requires NoDup(ls)
    requires forall x :: x in ls ==> outcome(x) == Returns
    ensures CountFor(Notify(ls, color, outcome), l) == (if l in ls then 1 else 0)
  {
    if |ls| > 0 {
      NoDupTail(ls);
      assert ls == [ls[0]] + ls[1..];
      assert outcome(ls[0]) == Returns;
      assert forall x :: x in ls[1..] ==> x in ls;
      var rest := Notify(ls[1..], color, outcome);
      var ds := [Delivery(ls[0], color)] + rest;
      assert Notify(ls, color, outcome) == ds;
      assert ds[1..] == rest;
      DeliveredExactlyOnce(ls[1..], color, outcome, l);
    }
  }
}
