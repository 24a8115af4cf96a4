/** The product-detail page controller: gallery selection, magnifier flag,
    quantity stepper and the add-to-cart choreography.  The choreography is a
    set of independent boolean flags driven by four fire-and-forget timers; it
    is modelled with a virtual clock `now` and a queue of pending timers that
    fire in time order (timers due at the same instant fire in the order they
    were scheduled).  No timer is ever cancelled. */
module ProductDetail {
  import Gallery

  const ImageCount: nat := Gallery.ProductImageCount

  /** Viewport width from which the magnifier is offered. */
  const MagnifierMinWidth: int := 1024

  /** Offsets, in milliseconds after the click, of the four callbacks. */
  const FlyDelay: int := 50
  const LandDelay: int := 800
  const SettleDelay: int := 2500
  const ToastHideDelay: int := 3500

  /** Where the flying thumbnail is drawn: the initial (0, 0), the centre of
      the main image, or the cart corner at the top right. */
  datatype FlyPosition = Unset | AtImage | AtCart

  /** What a scheduled callback does. */
  datatype Effect =
    | MoveFlying  // 50 ms: the flying thumbnail heads for the cart corner
    | Land        // 800 ms: thumbnail hidden, success and toast shown
    | Settle      // 2500 ms: adding and success cleared
    | HideToast   // 3500 ms: toast hidden

  datatype Timer = Timer(at: int, effect: Effect)

  datatype Page = Page(
    selectedImage: int,
    quantity: int,
    showMagnifier: bool,
    isAddingToCart: bool,
    showSuccess: bool,
    showFlyingImage: bool,
    flyingPosition: FlyPosition,
    showToast: bool,
    now: int,
    timers: seq<Timer>)

  /** The page as mounted: first image, quantity 1, every flag off. */
  const Initial: Page := Page(0, 1, false, false, false, false, Unset, false, 0, [])

  /** The user interactions the page reacts to, plus the passing of time. */
  datatype Input =
    | PrevClick
    | NextClick
    | ThumbnailClick(index: int)
    | MouseEnter(viewportWidth: int)
    | MouseLeave
    | DecrementClick
    | IncrementClick
    | AddToCartClick(refsAttached: bool)  // whether both element refs are set
    | Wait(ms: nat)

  predicate Sorted(q: seq<Timer>) {
    forall i, j :: 0 <= i < j < |q| ==> q[i].at <= q[j].at
  }

  /** The invariant every reachable page state keeps. */
  predicate Wf(p: Page) {
    && 0 <= p.selectedImage < ImageCount
    && p.quantity >= 1
    && Sorted(p.timers)
    && forall i :: 0 <= i < |p.timers| ==> p.timers[i].at >= p.now
  }

  /** A thumbnail exists only for the indices of the product's images. */
  predicate InputOk(input: Input) {
    input.ThumbnailClick? ==> 0 <= input.index < ImageCount
  }

  lemma InitialWf()
    ensures Wf(Initial)
  {
  }

  // ---------------------------------------------------------------- timers

  /** The number of leading timers of `q` due no later than `t`. */
  function DueBy(q: seq<Timer>, t: int): (k: nat)
    requires Sorted(q)
    ensures k <= |q|
    ensures forall i :: 0 <= i < k ==> q[i].at <= t
    ensures forall i :: k <= i < |q| ==> q[i].at > t
  {
    if |q| == 0 || q[0].at > t then 0 else 1 + DueBy(q[1..], t)
  }

  /** `setTimeout`: the new timer goes after every pending timer due no later
      than it, and before the rest. */
  function Schedule(q: seq<Timer>, tm: Timer): (r: seq<Timer>)
    ensures |r| == |q| + 1
  {
    if |q| == 0 || tm.at < q[0].at then [tm] + q else [q[0]] + Schedule(q[1..], tm)
  }

  /** Scheduling adds exactly the new timer. */
  lemma {:induction false} ScheduleMultiset(q: seq<Timer>, tm: Timer)
    ensures multiset(Schedule(q, tm)) == multiset(q) + multiset{tm}
  {
    if |q| > 0 && tm.at >= q[0].at {
      ScheduleMultiset(q[1..], tm);
      assert q == [q[0]] + q[1..];
    }
  }

  /** Every timer the scheduled queue holds is the new one or was pending. */
  lemma ScheduleMember(q: seq<Timer>, tm: Timer, i: int)
    requires 0 <= i < |q| + 1
    ensures Schedule(q, tm)[i] == tm || exists k :: 0 <= k < |q| && q[k] == Schedule(q, tm)[i]
  {
    ScheduleMultiset(q, tm);
    var r := Schedule(q, tm);
    assert r[i] in multiset(r);
    if r[i] != tm {
      assert r[i] in multiset(q);
    }
  }

  /** Scheduling keeps the queue in time order. */
  lemma {:induction false} ScheduleSorted(q: seq<Timer>, tm: Timer)
    requires Sorted(q)
    ensures Sorted(Schedule(q, tm))
  {
    if |q| > 0 && tm.at >= q[0].at {
      var rest := Schedule(q[1..], tm);
      ScheduleSorted(q[1..], tm);
      forall j | 0 <= j < |rest|
        ensures q[0].at <= rest[j].at
      {
        ScheduleMember(q[1..], tm, j);
        if rest[j] != tm {
          var k :| 0 <= k < |q[1..]| && q[1..][k] == rest[j];
          assert q[k + 1] == rest[j];
        }
      }
      assert Schedule(q, tm) == [q[0]] + rest;
    }
  }

  /** Every timer due no later than the new one keeps its place. */
  lemma {:induction false} ScheduleKeepsEarlier(q: seq<Timer>, tm: Timer)
    requires Sorted(q)
    ensures forall i :: 0 <= i < |q| && q[i].at <= tm.at ==> Schedule(q, tm)[i] == q[i]
  {
    if |q| > 0 && tm.at >= q[0].at {
      ScheduleKeepsEarlier(q[1..], tm);
      forall i | 0 <= i < |q| && q[i].at <= tm.at
        ensures Schedule(q, tm)[i] == q[i]
      {
        if i > 0 {
          assert q[1..][i - 1] == q[i];
        }
      }
    }
  }

  /** A timer due after every pending one goes to the back of the queue. */
  lemma {:induction false} ScheduleAtBack(q: seq<Timer>, tm: Timer)
    requires forall i :: 0 <= i < |q| ==> q[i].at <= tm.at
    ensures Schedule(q, tm) == q + [tm]
  {
    if |q| > 0 {
      ScheduleAtBack(q[1..], tm);
      assert q == [q[0]] + q[1..];
    }
  }

  /** A timer due before every pending one goes to the front of the queue. */
  lemma ScheduleAtFront(q: seq<Timer>, tm: Timer)
    requires |q| == 0 || tm.at < q[0].at
    ensures Schedule(q, tm) == [tm] + q
  {
  }

  lemma ScheduleNoneBefore(q: seq<Timer>, tm: Timer, t: int)
    requires Sorted(q) && NoneBefore(q, t) && tm.at >= t
    ensures NoneBefore(Schedule(q, tm), t)
  {
    var r := Schedule(q, tm);
    forall i | 0 <= i < |r|
      ensures r[i].at >= t
    {
      ScheduleMember(q, tm, i);
    }
  }

  /** What a callback does to the flags. */
  function Fire(p: Page, e: Effect): (r: Page)
    ensures r.timers == p.timers && r.now == p.now
    ensures r.selectedImage == p.selectedImage && r.quantity == p.quantity
    ensures r.showMagnifier == p.showMagnifier
    ensures r.isAddingToCart != p.isAddingToCart ==> e == Settle && !r.isAddingToCart
  {
    match e
    case MoveFlying => p.(flyingPosition := AtCart)
    case Land => p.(showFlyingImage := false, showSuccess := true, showToast := true)
    case Settle => p.(isAddingToCart := false, showSuccess := false)
    case HideToast => p.(showToast := false)
  }

  /** Lets the clock run to `t`, firing every timer due by then in queue order. */
  function AdvanceTo(p: Page, t: int): (r: Page)
    requires Wf(p) && t >= p.now
    ensures Wf(r) && r.now == t
    decreases |p.timers|
  {
    if |p.timers| > 0 && p.timers[0].at <= t then
      var tm := p.timers[0];
      var next := Fire(p.(timers := p.timers[1..], now := tm.at), tm.effect);
      assert Wf(next);
      AdvanceTo(next, t)
    else
      p.(now := t)
  }

  /** Waiting fires exactly the timers due by `t`, from the front of the
      queue, and leaves the gallery, quantity and magnifier alone. */
  lemma {:induction false} AdvanceFrame(p: Page, t: int)
    requires Wf(p) && t >= p.now
    ensures AdvanceTo(p, t).timers == p.timers[DueBy(p.timers, t)..]
    ensures AdvanceTo(p, t).selectedImage == p.selectedImage
    ensures AdvanceTo(p, t).quantity == p.quantity
    ensures AdvanceTo(p, t).showMagnifier == p.showMagnifier
    decreases |p.timers|
  {
    if |p.timers| > 0 && p.timers[0].at <= t {
      var tm := p.timers[0];
      var next := Fire(p.(timers := p.timers[1..], now := tm.at), tm.effect);
      assert next.timers == p.timers[1..];
      AdvanceFrame(next, t);
      assert DueBy(p.timers, t) == 1 + DueBy(p.timers[1..], t);
      assert AdvanceTo(p, t) == AdvanceTo(next, t);
      assert p.timers[DueBy(p.timers, t)..] == p.timers[1..][DueBy(p.timers[1..], t)..];
    }
  }

  // ---------------------------------------------------------------- handlers

  /** The four callbacks one click schedules, stamped from click time `t`. */
  function ClickTimers(t: int): multiset<Timer> {
    multiset{Timer(t + FlyDelay, MoveFlying), Timer(t + LandDelay, Land),
             Timer(t + SettleDelay, Settle), Timer(t + ToastHideDelay, HideToast)}
  }

  predicate NoneBefore(q: seq<Timer>, t: int) {
    forall i :: 0 <= i < |q| ==> q[i].at >= t
  }

  /** Schedules the four callbacks of a click at time `t` onto queue `q`. */
  function ScheduleClick(q: seq<Timer>, t: int): (r: seq<Timer>)
    requires Sorted(q) && NoneBefore(q, t)
    ensures Sorted(r) && NoneBefore(r, t)
    ensures multiset(r) == multiset(q) + ClickTimers(t)
  {
    var q1 := Schedule(q, Timer(t + FlyDelay, MoveFlying));
    var q2 := Schedule(q1, Timer(t + LandDelay, Land));
    var q3 := Schedule(q2, Timer(t + SettleDelay, Settle));
    var q4 := Schedule(q3, Timer(t + ToastHideDelay, HideToast));
    ScheduleSorted(q, Timer(t + FlyDelay, MoveFlying));
    ScheduleMultiset(q, Timer(t + FlyDelay, MoveFlying));
    ScheduleSorted(q1, Timer(t + LandDelay, Land));
    ScheduleMultiset(q1, Timer(t + LandDelay, Land));
    ScheduleSorted(q2, Timer(t + SettleDelay, Settle));
    ScheduleMultiset(q2, Timer(t + SettleDelay, Settle));
    ScheduleSorted(q3, Timer(t + ToastHideDelay, HideToast));
    ScheduleMultiset(q3, Timer(t + ToastHideDelay, HideToast));
    ScheduleNoneBefore(q, Timer(t + FlyDelay, MoveFlying), t);
    ScheduleNoneBefore(q1, Timer(t + LandDelay, Land), t);
    ScheduleNoneBefore(q2, Timer(t + SettleDelay, Settle), t);
    ScheduleNoneBefore(q3, Timer(t + ToastHideDelay, HideToast), t);
    q4
  }

  /** `handleAddToCart`: ignored while an add is in progress; otherwise marks
      the add as started and, only when both element refs are attached, shows
      the flying thumbnail and schedules the four callbacks. */
  function HandleAddToCart(p: Page, refsAttached: bool): (r: Page)
    requires Wf(p)
    ensures Wf(r)
    ensures p.isAddingToCart ==> r == p
    ensures !p.isAddingToCart ==> r.isAddingToCart
    ensures !p.isAddingToCart && !refsAttached ==> r == p.(isAddingToCart := true)
    ensures !p.isAddingToCart && refsAttached ==>
      && r.showFlyingImage && r.flyingPosition == AtImage
      && r.showSuccess == p.showSuccess && r.showToast == p.showToast
      && multiset(r.timers) == multiset(p.timers) + ClickTimers(p.now)
    ensures r.selectedImage == p.selectedImage && r.quantity == p.quantity && r.now == p.now
  {
    if p.isAddingToCart then p
    else if !refsAttached then p.(isAddingToCart := true)
    else
      p.(isAddingToCart := true, showFlyingImage := true, flyingPosition := AtImage,
         timers := ScheduleClick(p.timers, p.now))
  }

  /** The add-to-cart button is disabled while adding or showing success. */
  predicate CartButtonDisabled(p: Page) {
    p.isAddingToCart || p.showSuccess
  }

  /** The quantity buttons are disabled while adding. */
  predicate QuantityButtonsDisabled(p: Page) {
    p.isAddingToCart
  }

  /** One interaction.  A click on a disabled button is not delivered. */
  function Step(p: Page, input: Input): (r: Page)
    requires Wf(p) && InputOk(input)
    ensures Wf(r)
    ensures !input.Wait? ==> r.now == p.now
  {
    match input
    case PrevClick => p.(selectedImage := Gallery.PrevIndex(p.selectedImage, ImageCount))
    case NextClick => p.(selectedImage := Gallery.NextIndex(p.selectedImage, ImageCount))
    case ThumbnailClick(i) => p.(selectedImage := i)
    case MouseEnter(w) => if w >= MagnifierMinWidth then p.(showMagnifier := true) else p
    case MouseLeave => p.(showMagnifier := false)
    case DecrementClick =>
      if QuantityButtonsDisabled(p) then p
      else p.(quantity := if p.quantity - 1 > 1 then p.quantity - 1 else 1)
    case IncrementClick =>
      if QuantityButtonsDisabled(p) then p else p.(quantity := p.quantity + 1)
    case AddToCartClick(refs) =>
      if CartButtonDisabled(p) then p else HandleAddToCart(p, refs)
    case Wait(ms) => AdvanceTo(p, p.now + ms)
  }

  predicate AllOk(inputs: seq<Input>) {
    forall i :: 0 <= i < |inputs| ==> InputOk(inputs[i])
  }

  /** A sequence of interactions, in order. */
  function Run(p: Page, inputs: seq<Input>): (r: Page)
    requires Wf(p) && AllOk(inputs)
    ensures Wf(r)
    decreases |inputs|
  {
    if |inputs| == 0 then p else Run(Step(p, inputs[0]), inputs[1..])
  }

  /** Concatenated interactions run one after the other. */
  lemma {:induction false} RunConcat(p: Page, a: seq<Input>, b: seq<Input>)
    requires Wf(p) && AllOk(a) && AllOk(b)
    ensures AllOk(a + b)
    ensures Run(p, a + b) == Run(Run(p, a), b)
    decreases |a|
  {
    assert AllOk(a + b) by {
      forall i | 0 <= i < |a + b|
        ensures InputOk((a + b)[i])
      {
        if i < |a| { assert (a + b)[i] == a[i]; } else { assert (a + b)[i] == b[i - |a|]; }
      }
    }
    if |a| > 0 {
      assert (a + b)[0] == a[0];
      assert (a + b)[1..] == a[1..] + b;
      assert AllOk(a[1..]);
      RunConcat(Step(p, a[0]), a[1..], b);
    } else {
      assert a + b == b;
    }
  }

  // ---------------------------------------------------------------- gallery

  function Repeat(input: Input, k: nat): (r: seq<Input>)
    ensures |r| == k && forall i :: 0 <= i < k ==> r[i] == input
  {
    if k == 0 then [] else Repeat(input, k - 1) + [input]
  }

  /** `k` clicks on the right arrow move the selection `k` steps forward and
      change nothing else. */
  lemma {:induction false} NextClicksShift(p: Page, k: nat)
    requires Wf(p)
    ensures AllOk(Repeat(NextClick, k))
    ensures Run(p, Repeat(NextClick, k))
      == p.(selectedImage := Gallery.NextTimes(p.selectedImage, ImageCount, k))
  {
    if k > 0 {
      NextClicksShift(p, k - 1);
      RunConcat(p, Repeat(NextClick, k - 1), [NextClick]);
      var mid := Run(p, Repeat(NextClick, k - 1));
      assert Run(mid, [NextClick]) == Step(mid, NextClick);
    }
  }

  /** As many right-arrow clicks as there are images return to the start. */
  lemma NextClicksCycle(p: Page)
    requires Wf(p)
    ensures AllOk(Repeat(NextClick, ImageCount))
    ensures Run(p, Repeat(NextClick, ImageCount)) == p
  {
    NextClicksShift(p, ImageCount);
    Gallery.NextCycles(p.selectedImage, ImageCount);
  }

  /** The left arrow undoes the right arrow and vice versa. */
  lemma PrevUndoesNext(p: Page)
    requires Wf(p)
    ensures Step(Step(p, NextClick), PrevClick) == p
    ensures Step(Step(p, PrevClick), NextClick) == p
  {
    Gallery.PrevUndoesNext(p.selectedImage, ImageCount);
  }

  /** The image counter the page shows, "position / count". */
  function Counter(p: Page): (r: (int, int))
    requires Wf(p)
    ensures 1 <= r.0 <= ImageCount && r.1 == ImageCount
  {
    Gallery.CounterText(p.selectedImage, ImageCount)
  }

  /** Clicking thumbnail `i` selects exactly image `i`, and the counter then
      reads `i + 1`; nothing else changes. */
  lemma ThumbnailSelects(p: Page, i: int)
    requires Wf(p) && 0 <= i < ImageCount
    ensures Step(p, ThumbnailClick(i)).selectedImage == i
    ensures Counter(Step(p, ThumbnailClick(i))).0 == i + 1
    ensures Step(p, ThumbnailClick(i)) == p.(selectedImage := i)
  {
  }

  // ---------------------------------------------------------------- magnifier

  /** Mouse-enter turns the magnifier on only on a viewport at least 1024
      wide (and otherwise leaves it as it was); mouse-leave always turns it off. */
  lemma MagnifierGate(p: Page, w: int)
    requires Wf(p)
    ensures Step(p, MouseEnter(w)).showMagnifier <==> (w >= MagnifierMinWidth || p.showMagnifier)
    ensures !Step(p, MouseLeave).showMagnifier
    ensures Step(Step(p, MouseEnter(w)), MouseLeave) == p.(showMagnifier := false)
  {
  }

  // ---------------------------------------------------------------- quantity

  /** The quantity starts at 1 and no sequence of interactions takes it below 1. */
  lemma QuantityAtLeastOne(inputs: seq<Input>)
    requires AllOk(inputs)
    ensures Initial.quantity == 1
    ensures Run(Initial, inputs).quantity >= 1
  {
    InitialWf();
  }

  /** Minus gives max(1, q - 1) and plus gives q + 1 when enabled, so minus
      undoes plus; while adding to the cart both buttons are inert. */
  lemma QuantityStepper(p: Page)
    requires Wf(p)
    ensures !p.isAddingToCart ==> Step(p, IncrementClick).quantity == p.quantity + 1
    ensures !p.isAddingToCart ==> Step(p, DecrementClick).quantity == (if p.quantity > 1 then p.quantity - 1 else 1)
    ensures !p.isAddingToCart ==> Step(Step(p, IncrementClick), DecrementClick) == p
    ensures p.isAddingToCart ==> Step(p, IncrementClick) == p && Step(p, DecrementClick) == p
  {
  }

  // ---------------------------------------------------------------- add to cart

  /** The flags that make up the add-to-cart feedback. */
  datatype CartView = CartView(
    isAddingToCart: bool,
    showSuccess: bool,
    showFlyingImage: bool,
    flyingPosition: FlyPosition,
    showToast: bool)

  function ViewOf(p: Page): CartView {
    CartView(p.isAddingToCart, p.showSuccess, p.showFlyingImage, p.flyingPosition, p.showToast)
  }

  /** The designed feedback `d` ms after a click on a quiet page. */
  function ExpectedView(d: int): CartView {
    if d < FlyDelay then CartView(true, false, true, AtImage, false)
    else if d < LandDelay then CartView(true, false, true, AtCart, false)
    else if d < SettleDelay then CartView(true, true, false, AtCart, true)
    else if d < ToastHideDelay then CartView(false, false, false, AtCart, true)
    else CartView(false, false, false, AtCart, false)
  }

  /** No add in progress, no feedback showing and no timer pending. */
  predicate Quiet(p: Page) {
    Wf(p) && p.timers == [] && !p.isAddingToCart && !p.showSuccess && !p.showToast
  }

  /** On an empty queue the four callbacks line up in delay order. */
  lemma ClickQueueFromEmpty(t: int)
    ensures ScheduleClick([], t) == [Timer(t + FlyDelay, MoveFlying), Timer(t + LandDelay, Land),
                                     Timer(t + SettleDelay, Settle), Timer(t + ToastHideDelay, HideToast)]
  {
    var a, b, c, d := Timer(t + FlyDelay, MoveFlying), Timer(t + LandDelay, Land),
                      Timer(t + SettleDelay, Settle), Timer(t + ToastHideDelay, HideToast);
    ScheduleAtFront([], a);
    assert [a] + [] == [a];
    ScheduleAtBack([a], b);
    assert [a] + [b] == [a, b];
    ScheduleAtBack([a, b], c);
    assert [a, b] + [c] == [a, b, c];
    ScheduleAtBack([a, b, c], d);
    assert [a, b, c] + [d] == [a, b, c, d];
  }

  /** The queue right after a click on a quiet page. */
  lemma QuietClickQueue(p: Page)
    requires Quiet(p)
    ensures HandleAddToCart(p, true).timers ==
      [Timer(p.now + FlyDelay, MoveFlying), Timer(p.now + LandDelay, Land),
       Timer(p.now + SettleDelay, Settle), Timer(p.now + ToastHideDelay, HideToast)]
  {
    ClickQueueFromEmpty(p.now);
  }

  /** The timers a click at time `t` leaves pending after `k` of them fired. */
  function PendingAfter(t: int, k: nat): (q: seq<Timer>)
    requires k <= 4
    ensures |q| == 4 - k && Sorted(q) && NoneBefore(q, t)
  {
    [Timer(t + FlyDelay, MoveFlying), Timer(t + LandDelay, Land),
     Timer(t + SettleDelay, Settle), Timer(t + ToastHideDelay, HideToast)][k..]
  }

  /** The page right after a click on a quiet page (k = 0) and right after
      each of its four callbacks (k = 1..4), written out. */
  function Phase(p: Page, k: nat): (r: Page)
    requires Quiet(p) && k <= 4
    ensures Wf(r)
  {
    var T := p.now;
    var s0 := p.(isAddingToCart := true, showFlyingImage := true, flyingPosition := AtImage,
                 timers := PendingAfter(T, 0));
    if k == 0 then s0
    else
      var s1 := s0.(flyingPosition := AtCart, timers := PendingAfter(T, 1), now := T + FlyDelay);
      if k == 1 then s1
      else
        var s2 := s1.(showFlyingImage := false, showSuccess := true, showToast := true,
                      timers := PendingAfter(T, 2), now := T + LandDelay);
        if k == 2 then s2
        else
          var s3 := s2.(isAddingToCart := false, showSuccess := false,
                        timers := PendingAfter(T, 3), now := T + SettleDelay);
          if k == 3 then s3
          else s3.(showToast := false, timers := PendingAfter(T, 4), now := T + ToastHideDelay)
  }

  lemma PhaseZero(p: Page, t: int)
    requires Quiet(p) && t >= p.now
    ensures HandleAddToCart(p, true) == Phase(p, 0)
    ensures AdvanceTo(HandleAddToCart(p, true), t) == AdvanceTo(Phase(p, 0), t)
  {
    QuietClickQueue(p);
  }

  /** How many of the four callbacks have fired `d` ms after the click. */
  function PhaseIndex(d: int): (k: nat)
    ensures k <= 4
  {
    if d < FlyDelay then 0 else if d < LandDelay then 1
    else if d < SettleDelay then 2 else if d < ToastHideDelay then 3 else 4
  }

  /** Waiting `d` ms after the click lands in the phase reached by then;
      one lemma per phase keeps each proof small. */
  lemma ReachPhase(p: Page, d: int)
    requires Quiet(p) && d >= 0
    ensures AdvanceTo(Phase(p, 0), p.now + d) == Phase(p, PhaseIndex(d)).(now := p.now + d)
  {
    var t := p.now + d;
    if d < FlyDelay {
      PhaseRest(p, 0, t);
    } else if d < LandDelay {
      ReachPhase1(p, t);
    } else if d < SettleDelay {
      ReachPhase2(p, t);
    } else if d < ToastHideDelay {
      ReachPhase3(p, t);
    } else {
      ReachPhase4(p, t);
    }
  }

  lemma ReachPhase1(p: Page, t: int)
    requires Quiet(p) && p.now + FlyDelay <= t < p.now + LandDelay
    ensures AdvanceTo(Phase(p, 0), t) == Phase(p, 1).(now := t)
  {
    PhaseStep(p, 0, t);
    PhaseRest(p, 1, t);
  }

  lemma ReachPhase2(p: Page, t: int)
    requires Quiet(p) && p.now + LandDelay <= t < p.now + SettleDelay
    ensures AdvanceTo(Phase(p, 0), t) == Phase(p, 2).(now := t)
  {
    PhaseStep(p, 0, t);
    PhaseStep(p, 1, t);
    PhaseRest(p, 2, t);
  }

  lemma ReachPhase3(p: Page, t: int)
    requires Quiet(p) && p.now + SettleDelay <= t < p.now + ToastHideDelay
    ensures AdvanceTo(Phase(p, 0), t) == Phase(p, 3).(now := t)
  {
    PhaseStep(p, 0, t);
    PhaseStep(p, 1, t);
    PhaseStep(p, 2, t);
    PhaseRest(p, 3, t);
  }

  lemma ReachPhase4(p: Page, t: int)
    requires Quiet(p) && p.now + ToastHideDelay <= t
    ensures AdvanceTo(Phase(p, 0), t) == Phase(p, 4).(now := t)
  {
    PhaseStep(p, 0, t);
    PhaseStep(p, 1, t);
    PhaseStep(p, 2, t);
    PhaseStep(p, 3, t);
    PhaseRest(p, 4, t);
  }

  /** The flags of the phase reached `d` ms after the click are the
      designed ones. */
  lemma PhaseView(p: Page, d: int)
    requires Quiet(p) && d >= 0
    ensures ViewOf(Phase(p, PhaseIndex(d)).(now := p.now + d)) == ExpectedView(d)
    ensures |Phase(p, PhaseIndex(d)).timers| == 4 - PhaseIndex(d)
    ensures PhaseIndex(d) == 3 ==> Phase(p, 3).timers == [Timer(p.now + ToastHideDelay, HideToast)]
    ensures PhaseIndex(d) == 4 ==> Phase(p, 4).timers == []
  {
  }

  /** Each callback, when its time comes, takes the page to the next phase. */
  lemma PhaseStep(p: Page, k: nat, t: int)
    requires Quiet(p) && k < 4
    requires t >= Phase(p, k + 1).now
    ensures AdvanceTo(Phase(p, k), t) == AdvanceTo(Phase(p, k + 1), t)
  {
    var s := Phase(p, k);
    assert s.timers[0].at == Phase(p, k + 1).now;
    assert s.timers[1..] == PendingAfter(p.now, k + 1);
    assert Fire(s.(timers := s.timers[1..], now := s.timers[0].at), s.timers[0].effect) == Phase(p, k + 1);
  }

  /** Between callbacks, waiting only moves the clock. */
  lemma PhaseRest(p: Page, k: nat, t: int)
    requires Quiet(p) && k <= 4 && t >= Phase(p, k).now
    requires k < 4 ==> t < Phase(p, k + 1).now
    ensures AdvanceTo(Phase(p, k), t) == Phase(p, k).(now := t)
  {
    var s := Phase(p, k);
    assert k < 4 ==> s.timers[0].at == Phase(p, k + 1).now;
    assert k == 4 ==> s.timers == [];
  }

  /** The add-to-cart timeline: after a click with both refs attached on a
      quiet page, the flags at every later instant are those of
      `ExpectedView`; once 3500 ms have passed nothing is pending. */
  lemma ClickTimeline(p: Page, d: int)
    requires Quiet(p) && d >= 0
    ensures ViewOf(AdvanceTo(HandleAddToCart(p, true), p.now + d)) == ExpectedView(d)
    ensures SettleDelay <= d < ToastHideDelay ==>
      AdvanceTo(HandleAddToCart(p, true), p.now + d).timers == [Timer(p.now + ToastHideDelay, HideToast)]
    ensures d >= ToastHideDelay ==> AdvanceTo(HandleAddToCart(p, true), p.now + d).timers == []
    ensures |AdvanceTo(HandleAddToCart(p, true), p.now + d).timers| == 4 - PhaseIndex(d)
  {
    PhaseZero(p, p.now + d);
    ReachPhase(p, d);
    PhaseView(p, d);
  }

  /** A click on the disabled button (adding, or success showing) is not
      delivered, and the handler itself ignores clicks while adding: either
      way nothing changes and no second set of timers is scheduled. */
  lemma ClicksIgnoredWhileBusy(p: Page, refs: bool)
    requires Wf(p)
    ensures CartButtonDisabled(p) <==> (p.isAddingToCart || p.showSuccess)
    ensures CartButtonDisabled(p) ==> Step(p, AddToCartClick(refs)) == p
    ensures p.isAddingToCart ==> HandleAddToCart(p, refs) == p
  {
  }

  /** Any further click during the first 2500 ms after a click on a quiet
      page does nothing. */
  lemma RepeatClicksWithinCycle(p: Page, d: int, refs: bool)
    requires Quiet(p) && 0 <= d < SettleDelay
    ensures var s := AdvanceTo(HandleAddToCart(p, true), p.now + d);
      Step(s, AddToCartClick(refs)) == s
  {
    ClickTimeline(p, d);
  }

  predicate NoSettle(q: seq<Timer>) {
    forall i :: 0 <= i < |q| ==> q[i].effect != Settle
  }

  /** Letting time pass cannot clear the adding flag unless a Settle callback
      is among the timers that fire. */
  lemma {:induction false} AdvanceKeepsAdding(p: Page, t: int)
    requires Wf(p) && t >= p.now && p.isAddingToCart
    requires NoSettle(p.timers[..DueBy(p.timers, t)])
    ensures AdvanceTo(p, t).isAddingToCart
    decreases |p.timers|
  {
    if |p.timers| > 0 && p.timers[0].at <= t {
      var tm := p.timers[0];
      assert tm == p.timers[..DueBy(p.timers, t)][0];
      var next := Fire(p.(timers := p.timers[1..], now := tm.at), tm.effect);
      assert DueBy(p.timers, t) == 1 + DueBy(p.timers[1..], t);
      assert p.timers[1..][..DueBy(p.timers[1..], t)] == p.timers[..DueBy(p.timers, t)][1..];
      AdvanceKeepsAdding(next, t);
    }
  }

  /** With no Settle pending, a wait leaves the page adding and still with no
      Settle pending. */
  lemma WaitKeepsAdding(p: Page, ms: nat)
    requires Wf(p) && p.isAddingToCart && NoSettle(p.timers)
    ensures Step(p, Wait(ms)).isAddingToCart && NoSettle(Step(p, Wait(ms)).timers)
  {
    var k := DueBy(p.timers, p.now + ms);
    assert NoSettle(p.timers[..k]);
    AdvanceKeepsAdding(p, p.now + ms);
    AdvanceFrame(p, p.now + ms);
    assert Step(p, Wait(ms)).timers == p.timers[k..];
  }

  /** The adding flag goes back to false only through a Settle callback: a
      step that clears it is a wait during which a Settle timer fired. */
  lemma OnlySettleClears(p: Page, input: Input)
    requires Wf(p) && InputOk(input) && p.isAddingToCart
    requires !Step(p, input).isAddingToCart
    ensures input.Wait?
    ensures exists i :: 0 <= i < DueBy(p.timers, p.now + input.ms) && p.timers[i].effect == Settle
  {
    if !exists i :: 0 <= i < DueBy(p.timers, p.now + input.ms) && p.timers[i].effect == Settle {
      AdvanceKeepsAdding(p, p.now + input.ms);
      assert false;
    }
  }

  /** While adding with no Settle callback pending, no sequence of
      interactions ever clears the adding flag. */
  lemma {:induction false} StuckWithoutSettle(p: Page, inputs: seq<Input>)
    requires Wf(p) && AllOk(inputs) && p.isAddingToCart && NoSettle(p.timers)
    ensures Run(p, inputs).isAddingToCart
    decreases |inputs|
  {
    if |inputs| > 0 {
      var s := Step(p, inputs[0]);
      if inputs[0].Wait? {
        WaitKeepsAdding(p, inputs[0].ms);
      } else {
        assert s.timers == p.timers;
      }
      assert AllOk(inputs[1..]);
      StuckWithoutSettle(s, inputs[1..]);
    }
  }

  /** A click while an element ref is missing marks the add as started but
      schedules nothing; on a page with no Settle pending the button then
      stays busy forever. */
  lemma MissingRefsNeverRecover(p: Page, inputs: seq<Input>)
    requires Wf(p) && AllOk(inputs) && !CartButtonDisabled(p) && NoSettle(p.timers)
    ensures Step(p, AddToCartClick(false)).timers == p.timers
    ensures Run(Step(p, AddToCartClick(false)), inputs).isAddingToCart
  {
    StuckWithoutSettle(Step(p, AddToCartClick(false)), inputs);
  }

  /** The queue after a second click 2600 ms after the first, while the
      first click's 3500 ms callback is still pending. */
  lemma SecondClickQueue(T: int)
    ensures ScheduleClick([Timer(T + 3500, HideToast)], T + 2600)
      == [Timer(T + 2650, MoveFlying), Timer(T + 3400, Land), Timer(T + 3500, HideToast),
          Timer(T + 5100, Settle), Timer(T + 6100, HideToast)]
  {
    var h := Timer(T + 3500, HideToast);
    var a, b, c, d := Timer(T + 2650, MoveFlying), Timer(T + 3400, Land),
                      Timer(T + 5100, Settle), Timer(T + 6100, HideToast);
    ScheduleAtFront([h], a);
    assert [a] + [h] == [a, h];
    assert Schedule([a, h], b) == [a] + Schedule([a, h][1..], b);
    assert [a, h][1..] == [h];
    ScheduleAtFront([h], b);
    assert [a] + ([b] + [h]) == [a, b, h];
    ScheduleAtBack([a, b, h], c);
    assert [a, b, h] + [c] == [a, b, h, c];
    ScheduleAtBack([a, b, h, c], d);
    assert [a, b, h, c] + [d] == [a, b, h, c, d];
  }

  /** Callbacks are never cancelled, so a click made after the first one's
      2500 ms callback re-enabled the button has its toast hidden early by
      the first click's 3500 ms callback: clicking at T and at T + 2600, the
      second toast appears at T + 3400 and is gone at T + 3500 (instead of
      staying until T + 6100), while that second add is still in progress
      with its success state showing. */
  lemma SecondToastHiddenEarly(p: Page)
    requires Quiet(p)
    ensures var first := AdvanceTo(HandleAddToCart(p, true), p.now + 2600);
      && !CartButtonDisabled(first)
      && var second := Step(first, AddToCartClick(true));
      && AdvanceTo(second, p.now + 3400).showToast
      && !AdvanceTo(second, p.now + 3500).showToast
      && AdvanceTo(second, p.now + 3500).isAddingToCart
      && AdvanceTo(second, p.now + 3500).showSuccess
  {
    var first := AdvanceTo(HandleAddToCart(p, true), p.now + 2600);
    FirstClickSettled(p);
    SecondClick(first, p.now);
  }

  /** 2600 ms after a click on a quiet page the button is enabled again and
      only the 3500 ms callback is pending. */
  lemma FirstClickSettled(p: Page)
    requires Quiet(p)
    ensures var first := AdvanceTo(HandleAddToCart(p, true), p.now + 2600);
      && Wf(first) && first.now == p.now + 2600
      && !first.isAddingToCart && !first.showSuccess
      && first.timers == [Timer(p.now + ToastHideDelay, HideToast)]
  {
    ClickTimeline(p, 2600);
  }

  /** A second click at T + 2600 with the first click's 3500 ms callback
      pending. */
  lemma SecondClick(first: Page, T: int)
    requires Wf(first) && first.now == T + 2600
    requires !first.isAddingToCart && !first.showSuccess
    requires first.timers == [Timer(T + ToastHideDelay, HideToast)]
    ensures !CartButtonDisabled(first)
    ensures var second := Step(first, AddToCartClick(true));
      && AdvanceTo(second, T + 3400).showToast
      && !AdvanceTo(second, T + 3500).showToast
      && AdvanceTo(second, T + 3500).isAddingToCart
      && AdvanceTo(second, T + 3500).showSuccess
  {
    var second := Step(first, AddToCartClick(true));
    assert second == HandleAddToCart(first, true);
    SecondClickQueue(T);
    SecondToastSteps(second, T);
  }

  lemma SecondToastSteps(s: Page, T: int)
    requires Wf(s) && s.now == T + 2600 && s.isAddingToCart
    requires s.timers == [Timer(T + 2650, MoveFlying), Timer(T + 3400, Land), Timer(T + 3500, HideToast),
                          Timer(T + 5100, Settle), Timer(T + 6100, HideToast)]
    ensures AdvanceTo(s, T + 3400).showToast
    ensures var u := AdvanceTo(s, T + 3500);
      !u.showToast && u.isAddingToCart && u.showSuccess
  {
    var s1 := Fire(s.(timers := s.timers[1..], now := T + 2650), MoveFlying);
    var s2 := Fire(s1.(timers := s1.timers[1..], now := T + 3400), Land);
    var s3 := Fire(s2.(timers := s2.timers[1..], now := T + 3500), HideToast);
    assert AdvanceTo(s, T + 3400) == AdvanceTo(s1, T + 3400);
    assert AdvanceTo(s1, T + 3400) == AdvanceTo(s2, T + 3400);
    assert AdvanceTo(s2, T + 3400) == s2;
    assert AdvanceTo(s, T + 3500) == AdvanceTo(s1, T + 3500);
    assert AdvanceTo(s1, T + 3500) == AdvanceTo(s2, T + 3500);
    assert AdvanceTo(s2, T + 3500) == AdvanceTo(s3, T + 3500);
    assert AdvanceTo(s3, T + 3500) == s3.(now := T + 3500);
  }
}
