/**
  The media-accent-colour registry of SystemUI's colour extractor: one
  stored colour (a Java `int`) and an ordered, duplicate-free list of
  listener handles, with the four operations that read and change them.

  A listener callback is not code the model can see; each one is reduced
  to its outcome for the call at hand (it returns, or it throws an
  `Exception`). Setting the colour is a pure function of those outcomes
  that yields the new state and the deliveries made, in order.
 */
module SysuiColorExtractor {
  import opened ListenerList

  /** A Java `int`: the colour is stored and passed on, never computed with. */
  newtype Int32 = x: int | -0x8000_0000 <= x < 0x8000_0000

  /** An opaque listener handle; handle equality stands for Java `equals`. */
  datatype ListenerId = ListenerId(handle: nat)

  /** What one `onMediaAccentColorUpdated` call does, as seen by the caller. */
  datatype Outcome = Returns | Throws

  /** One callback invocation: `listener` was called with `color`. */
  datatype Delivery = Delivery(listener: ListenerId, color: Int32)

  /** The extractor's media-accent part: `mMediaBackgroundColor` and `mListeners`. */
  datatype Extractor = Extractor(mediaColor: Int32, listeners: seq<ListenerId>)

  /** The result of setting the colour: the new state and the deliveries made. */
  datatype Notified = Notified(state: Extractor, deliveries: seq<Delivery>)

  /** The registry invariant: no listener is registered twice. */
  predicate Valid(e: Extractor) {
    NoDup(e.listeners)
  }

  /** The state a freshly constructed extractor starts in. */
  function Init(): (e: Extractor)
    ensures e.mediaColor == 0
    ensures |e.listeners| == 0
    ensures Valid(e)
  {
    Extractor(0, [])
  }

  /**
    Calls each listener of `ls` in order with `color`. The whole loop sits in
    one `try`, so the first listener that throws is the last one called; the
    exception is swallowed by the caller of this function.
   */
  function Notify(ls: seq<ListenerId>, color: Int32, outcome: ListenerId -> Outcome): (ds: seq<Delivery>)
    ensures |ds| <= |ls|
    ensures forall i :: 0 <= i < |ds| ==> ds[i] == Delivery(ls[i], color)
    ensures forall i :: 0 <= i < |ds| - 1 ==> outcome(ls[i]) == Returns
    ensures |ds| < |ls| ==> |ds| > 0 && outcome(ls[|ds| - 1]) == Throws
  {
    if |ls| == 0 then []
    else if outcome(ls[0]) == Throws then [Delivery(ls[0], color)]
    else [Delivery(ls[0], color)] + Notify(ls[1..], color, outcome)
  }

  /**
    `setMediaBackgroundColor`: stores the colour first, then notifies the
    live listener list. Exceptions never reach the caller.
   */
  function SetMediaBackgroundColor(e: Extractor, color: Int32, outcome: ListenerId -> Outcome): (n: Notified)
    ensures n.state.mediaColor == color
    ensures n.state.listeners == e.listeners
    ensures |n.deliveries| <= |e.listeners|
    ensures forall i :: 0 <= i < |n.deliveries| ==> n.deliveries[i] == Delivery(e.listeners[i], color)
    ensures forall i :: 0 <= i < |n.deliveries| - 1 ==> outcome(e.listeners[i]) == Returns
    ensures |n.deliveries| < |e.listeners| ==> |n.deliveries| > 0 && outcome(e.listeners[|n.deliveries| - 1]) == Throws
  {
    Notified(e.(mediaColor := color), Notify(e.listeners, color, outcome))
  }

  /** `getMediaBackgroundColor`. */
  function GetMediaBackgroundColor(e: Extractor): Int32 {
    e.mediaColor
  }

  /**
    `addMediaAccentColorListener`: a handle already in the list is rejected
    (only logged); any other handle is appended at the end.
   */
  function AddListener(e: Extractor, l: ListenerId): (r: Extractor)
    ensures r.mediaColor == e.mediaColor
    ensures l in r.listeners
    ensures forall x :: x in r.listeners <==> x in e.listeners || x == l
    ensures l in e.listeners ==> r == e
    ensures l !in e.listeners ==> r.listeners == e.listeners + [l]
    ensures Valid(e) ==> Valid(r)
  {
    if l in e.listeners then e
    else e.(listeners := e.listeners + [l])
  }

  /**
    `removeMediaAccentColorListener`: a handle not in the list is rejected
    (only logged); otherwise its first occurrence is deleted.
   */
  function RemoveListener(e: Extractor, l: ListenerId): (r: Extractor)
    ensures r.mediaColor == e.mediaColor
    ensures l !in e.listeners ==> r == e
    ensures l in e.listeners ==> |r.listeners| == |e.listeners| - 1
    ensures forall x :: x != l ==> (x in r.listeners <==> x in e.listeners)
    ensures Valid(e) ==> Valid(r) && l !in r.listeners
    ensures Valid(e) ==> r.listeners == Without(e.listeners, l)
  {
    if l !in e.listeners then
      WithoutAbsent(e.listeners, l);
      e
    else
      RemoveFirstKeepsOthers(e.listeners, l);
      RemoveFirstNoDup(e.listeners, l);
      e.(listeners := RemoveFirst(e.listeners, l))
  }
}
