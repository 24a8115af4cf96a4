/** The horizontal product carousel: the two arrow buttons' enabled flags,
    the offsets the arrows scroll to, and the number of indicator dots.
    Scroll metrics are inputs, as the browser measures them. */
module ProductCarousel {
  import opened Wrappers

  /** What the scroll container reports about itself. */
  datatype Metrics = Metrics(scrollLeft: real, scrollWidth: real, clientWidth: real)

  datatype Flags = Flags(canScrollLeft: bool, canScrollRight: bool)

  datatype Direction = Left | Right

  /** Before the first measurement the left arrow is off and the right one on. */
  const InitialFlags: Flags := Flags(false, true)

  /** The dead zone, in pixels, at either end of the scroll range. */
  const DeadZone: real := 10.0

  /** The fraction of the visible width one arrow click scrolls by. */
  const ScrollFraction: real := 0.85

  /** `checkScroll`: re-measures the container; without a mounted container
      the flags stay as they were. */
  function CheckScroll(flags: Flags, container: Option<Metrics>): (r: Flags)
    ensures container.None? ==> r == flags
    ensures container.Some? ==> (r.canScrollLeft <==> container.value.scrollLeft > DeadZone)
    ensures container.Some? ==>
      (r.canScrollRight <==>
        container.value.scrollLeft < container.value.scrollWidth - container.value.clientWidth - DeadZone)
  {
    match container
    case None => flags
    case Some(m) => Flags(m.scrollLeft > DeadZone, m.scrollLeft < m.scrollWidth - m.clientWidth - DeadZone)
  }

  /** Content that overflows by at most the dead zone never enables the
      right arrow, whatever the (non-negative) offset. */
  lemma NoOverflowNoRight(flags: Flags, m: Metrics)
    requires m.scrollWidth - m.clientWidth <= DeadZone && m.scrollLeft >= 0.0
    ensures !CheckScroll(flags, Some(m)).canScrollRight
  {
  }

  /** Both arrows can be on only when the content overflows by more than
      twice the dead zone. */
  lemma BothOnNeedsOverflow(flags: Flags, m: Metrics)
    requires CheckScroll(flags, Some(m)).canScrollLeft && CheckScroll(flags, Some(m)).canScrollRight
    ensures m.scrollWidth - m.clientWidth > 2.0 * DeadZone
  {
  }

  /** `scroll`: the offset an arrow click asks the container to scroll to;
      nothing happens without a mounted container. */
  function ScrollTarget(container: Option<Metrics>, dir: Direction): (r: Option<real>)
    ensures r.Some? <==> container.Some?
    ensures container.Some? && dir == Left ==> r.value < container.value.scrollLeft || container.value.clientWidth <= 0.0
    ensures container.Some? && dir == Right ==> r.value > container.value.scrollLeft || container.value.clientWidth <= 0.0
  {
    match container
    case None => None
    case Some(m) =>
      var amount := m.clientWidth * ScrollFraction;
      if dir == Left then Some(m.scrollLeft - amount) else Some(m.scrollLeft + amount)
  }

  /** The two targets lie symmetrically about the current offset,
      0.85 of the visible width away on either side. */
  lemma ScrollSymmetric(m: Metrics)
    ensures var l := ScrollTarget(Some(m), Left).value;
      var r := ScrollTarget(Some(m), Right).value;
      && (l + r) / 2.0 == m.scrollLeft
      && r - l == 2.0 * ScrollFraction * m.clientWidth
  {
  }

  /** `Math.ceil(products.length / 3)`: one dot per started group of three. */
  function IndicatorCount(n: nat): (r: nat)
    ensures 3 * r >= n
    ensures r == 0 || 3 * (r - 1) < n
  {
    (n + 2) / 3
  }

  /** The dot count is the least `k` with `3·k ≥ n`. */
  lemma IndicatorCountLeast(n: nat, k: nat)
    requires 3 * k >= n
    ensures IndicatorCount(n) <= k
  {
  }

  /** The `disabled` attributes of the left and right buttons. */
  function NavDisabled(flags: Flags): (r: (bool, bool))
    ensures r.0 <==> !flags.canScrollLeft
    ensures r.1 <==> !flags.canScrollRight
  {
    (!flags.canScrollLeft, !flags.canScrollRight)
  }

  /** Before the first measurement only the right button is usable. */
  lemma InitialButtons()
    ensures NavDisabled(InitialFlags) == (true, false)
  {
  }
}
