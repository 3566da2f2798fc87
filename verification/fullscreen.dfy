/** The fullscreen button: request fullscreen on the player's container
    when nothing is fullscreen, exit it otherwise, each time through the
    first of four historically named browser APIs that is present. */
module Fullscreen {
  import opened Wrappers

  /** The four spellings: the standard one and the Gecko, WebKit and
      Trident prefixed ones. */
  datatype Api = Standard | Moz | Webkit | Ms

  /** The order the component tries them in. */
  const Priority: seq<Api> := [Standard, Moz, Webkit, Ms]

  /** Which spellings an object offers: for the container these are the
      request methods, for the document the exit methods. */
  datatype Caps = Caps(standard: bool, moz: bool, webkit: bool, ms: bool)

  predicate Has(c: Caps, a: Api) {
    match a
    case Standard => c.standard
    case Moz => c.moz
    case Webkit => c.webkit
    case Ms => c.ms
  }

  /** The position of a spelling in the priority order. */
  function Rank(a: Api): (i: nat)
    ensures i < |Priority| && Priority[i] == a
  {
    match a
    case Standard => 0
    case Moz => 1
    case Webkit => 2
    case Ms => 3
  }

  /** `a` is present and every spelling ahead of it is absent. */
  predicate IsFirstPresent(c: Caps, a: Api) {
    Has(c, a) && forall i :: 0 <= i < Rank(a) ==> !Has(c, Priority[i])
  }

  /** The chain of `if … else if …` the source writes out for both
      directions. */
  function Pick(c: Caps): (r: Option<Api>)
    ensures r.Some? ==> IsFirstPresent(c, r.value)
    ensures r.None? <==> forall a :: !Has(c, a)
  {
    if c.standard then assert Has(c, Standard); Some(Standard)
    else if c.moz then assert Has(c, Moz); Some(Moz)
    else if c.webkit then assert Has(c, Webkit); Some(Webkit)
    else if c.ms then assert Has(c, Ms); Some(Ms)
    else None
  }

  /** Reference definition: scan an order from the front for the first
      spelling that is present. */
  function FirstPresent(c: Caps, order: seq<Api>): (r: Option<Api>)
    ensures r.Some? ==> r.value in order && Has(c, r.value)
    ensures r.None? <==> forall i :: 0 <= i < |order| ==> !Has(c, order[i])
    decreases |order|
  {
    if |order| == 0 then None
    else if Has(c, order[0]) then Some(order[0])
    else FirstPresent(c, order[1..])
  }

  /** Everything ahead of the scan's answer is absent. */
  lemma {:induction false} FirstPresentIsFirst(c: Caps, order: seq<Api>, i: nat)
    requires i < |order| && FirstPresent(c, order) == Some(order[i])
    requires forall j, k :: 0 <= j < k < |order| ==> order[j] != order[k]
    ensures forall j :: 0 <= j < i ==> !Has(c, order[j])
    decreases |order|
  {
    if i > 0 {
      assert order[0] != order[i];
      FirstPresentIsFirst(c, order[1..], i - 1);
      forall j | 1 <= j < i
        ensures !Has(c, order[j])
      {
        assert order[j] == order[1..][j - 1];
      }
    }
  }

  /** The written-out chain is exactly the scan of the priority order. */
  lemma PickIsFirstPresent(c: Caps)
    ensures Pick(c) == FirstPresent(c, Priority)
  {
    var r := FirstPresent(c, Priority);
    if r.Some? {
      var i := Rank(r.value);
      FirstPresentIsFirst(c, Priority, i);
    } else {
      assert !Has(c, Priority[0]) && !Has(c, Priority[1]) &&
             !Has(c, Priority[2]) && !Has(c, Priority[3]);
    }
  }

  /** What the button invokes. */
  datatype Call = Request(api: Api) | Exit(api: Api)

  /** What the handler reads: the container element (missing while its ref
      is null) with the request methods it offers, whether the unprefixed
      `document.fullscreenElement` is set, and the exit methods the
      document offers. */
  datatype Env = Env(container: Option<Caps>, fullscreenElement: bool, exit: Caps)

  /** `fullscreen`: the call made, if any. */
  function Fullscreen(e: Env): (r: Option<Call>)
    ensures r.Some? ==> e.container.Some?
    ensures r.Some? && r.value.Request? ==>
              !e.fullscreenElement && IsFirstPresent(e.container.value, r.value.api)
    ensures r.Some? && r.value.Exit? ==>
              e.fullscreenElement && IsFirstPresent(e.exit, r.value.api)
    ensures r.None? <==>
              || e.container.None?
              || (!e.fullscreenElement && forall a :: !Has(e.container.value, a))
              || (e.fullscreenElement && forall a :: !Has(e.exit, a))
  {
    match e.container
    case None => None
    case Some(c) =>
      if !e.fullscreenElement then
        match Pick(c)
        case Some(a) => Some(Request(a))
        case None => None
      else
        match Pick(e.exit)
        case Some(a) => Some(Exit(a))
        case None => None
  }

  /** Request and exit fall back identically: offered the same spellings,
      both directions pick the same one. */
  lemma SameFallbackBothWays(c: Caps)
    ensures var enter := Fullscreen(Env(Some(c), false, c));
            var leave := Fullscreen(Env(Some(c), true, c));
            enter.Some? == leave.Some? &&
            (enter.Some? ==> enter.value.api == leave.value.api)
  {
  }

  /** The invoked spelling is never a lower-priority one when a
      higher-priority spelling of the needed kind is present. */
  lemma NeverSkipsAPresentApi(e: Env, a: Api)
    requires e.container.Some?
    requires Fullscreen(e).Some?
    requires Has(if e.fullscreenElement then e.exit else e.container.value, a)
    ensures Rank(Fullscreen(e).value.api) <= Rank(a)
  {
  }
}
