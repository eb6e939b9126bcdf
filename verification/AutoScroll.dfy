/** The integer and boolean logic of the mobile auto-scroll hook
    (src/hooks/useAutoScroll.js): mobile detection, the resize handler, the
    bounds-checked jump to a section, the wrap-around step to the next
    section and its gate, and the hover and manual-scroll pauses. The
    container element is reduced to whether it exists and how many children
    it has; clock readings are parameters; the smooth-scroll animation is
    not modelled. */
module AutoScroll {
  import opened Wrappers

  const DefaultMobileBreakpoint: int := 768

  /** Milliseconds of scroll inactivity before auto-scrolling resumes. */
  const ResumeDelay: int := 3000

  /** The options the hook reads, with their defaults applied. */
  datatype Options = Options(enabled: bool, mobileBreakpoint: int, pauseOnHover: bool, pauseOnScroll: bool)

  /** Destructuring the options object: a missing field takes its default. */
  function OptionsOf(enabled: Option<bool>, mobileBreakpoint: Option<int>,
                     pauseOnHover: Option<bool>, pauseOnScroll: Option<bool>): (o: Options)
    ensures enabled.None? ==> o.enabled
    ensures mobileBreakpoint.None? ==> o.mobileBreakpoint == DefaultMobileBreakpoint
    ensures pauseOnHover.None? ==> o.pauseOnHover
    ensures pauseOnScroll.None? ==> o.pauseOnScroll
    ensures enabled.Some? ==> o.enabled == enabled.value
    ensures mobileBreakpoint.Some? ==> o.mobileBreakpoint == mobileBreakpoint.value
    ensures pauseOnHover.Some? ==> o.pauseOnHover == pauseOnHover.value
    ensures pauseOnScroll.Some? ==> o.pauseOnScroll == pauseOnScroll.value
  {
    Options(enabled.GetOr(true), mobileBreakpoint.GetOr(DefaultMobileBreakpoint),
            pauseOnHover.GetOr(true), pauseOnScroll.GetOr(true))
  }

  /** The options the application window passes: enabled for the About
      application only, breakpoint 768, both pauses on. */
  function WindowOptions(appId: string): (o: Options)
    ensures o.enabled <==> appId == "aboutMe"
    ensures o.mobileBreakpoint == DefaultMobileBreakpoint && o.pauseOnHover && o.pauseOnScroll
  {
    OptionsOf(Some(appId == "aboutMe"), Some(768), Some(true), Some(true))
  }

  /** The hook's state; `resumeAt` is the due time of the pending resume
      timer, if any. */
  datatype Scroller = Scroller(
    isMobile: bool,
    isAutoScrolling: bool,
    currentSectionIndex: int,
    isPaused: bool,
    resumeAt: Option<int>)

  /** The scroll container: absent, or present with its child count. */
  datatype Container = NoContainer | Present(childCount: nat)

  /** The mobile test on a viewport width. */
  predicate MobileWidth(o: Options, width: int) {
    width <= o.mobileBreakpoint
  }

  /** The state on the first render. */
  function Init(o: Options, width: int): (s: Scroller)
    ensures s.isMobile <==> width <= o.mobileBreakpoint
    ensures s.isAutoScrolling == o.enabled
    ensures s.currentSectionIndex == 0 && !s.isPaused && s.resumeAt.None?
  {
    Scroller(MobileWidth(o, width), o.enabled, 0, false, None)
  }

  /** The resize handler. */
  function Resize(s: Scroller, o: Options, width: int): (r: Scroller)
    ensures r.isMobile <==> width <= o.mobileBreakpoint
    ensures r.isAutoScrolling <==> r.isMobile && o.enabled
    ensures r.currentSectionIndex == s.currentSectionIndex && r.isPaused == s.isPaused && r.resumeAt == s.resumeAt
  {
    var mobile := MobileWidth(o, width);
    s.(isMobile := mobile, isAutoScrolling := mobile && o.enabled)
  }

  /** The first render and a resize at the same width agree on the advance
      gate, although the first render takes `enabled` alone as the
      auto-scrolling flag: off a mobile width the gate is shut either way. */
  lemma InitResizeAgreeAtGate(o: Options, width: int, sectionCount: nat)
    ensures CanAdvance(Init(o, width), sectionCount) == CanAdvance(Resize(Init(o, width), o, width), sectionCount)
    ensures !MobileWidth(o, width) ==> !CanAdvance(Init(o, width), sectionCount)
  {
  }

  /** `scrollToSection(i)`: ignored without a container or with an index
      outside the section list; otherwise the section becomes current when
      the container has a child at that index. */
  function ScrollToSection(s: Scroller, sectionCount: nat, c: Container, i: int): (r: Scroller)
    ensures r == s.(currentSectionIndex := r.currentSectionIndex)
    ensures r.currentSectionIndex != s.currentSectionIndex ==> r.currentSectionIndex == i
    ensures r.currentSectionIndex == i <==> i == s.currentSectionIndex || InRange(sectionCount, c, i)
  {
    if c.NoContainer? || i < 0 || i >= sectionCount then s
    else if i < c.childCount then s.(currentSectionIndex := i)
    else s
  }

  /** `i` is a section the container can scroll to. */
  predicate InRange(sectionCount: nat, c: Container, i: int) {
    c.Present? && 0 <= i < sectionCount && i < c.childCount
  }

  /** The gate shared by `scrollToNextSection` and the interval effect: it
      needs auto-scrolling, a mobile width, sections and no pause. */
  predicate CanAdvance(s: Scroller, sectionCount: nat)
    ensures CanAdvance(s, sectionCount) <==>
      s.isAutoScrolling && s.isMobile && sectionCount > 0 && !s.isPaused
  {
    s.isAutoScrolling && s.isMobile && sectionCount != 0 && !s.isPaused
  }

  /** The gate never looks at the current section or at a pending resume. */
  lemma GateIgnoresPosition(s: Scroller, sectionCount: nat, i: int, t: Option<int>)
    ensures CanAdvance(s.(currentSectionIndex := i, resumeAt := t), sectionCount) == CanAdvance(s, sectionCount)
  {
  }

  /** JavaScript's `%`, which truncates toward zero. */
  function JsRem(a: int, n: int): (r: int)
    requires n > 0
    ensures a >= 0 ==> r == a % n
    ensures a < 0 ==> -n < r <= 0
    ensures (a - r) % n == 0
  {
    if a >= 0 then
      ModUnique(a - a % n, n, a / n, 0);
      a % n
    else
      var q := (-a) / n;
      ModUnique(a + (-a) % n, n, -q, 0);
      -((-a) % n)
  }

  /** `scrollToNextSection`: one step forward, wrapping to the first section. */
  function ScrollToNext(s: Scroller, sectionCount: nat, c: Container): (r: Scroller)
    ensures !CanAdvance(s, sectionCount) ==> r == s
    ensures r == s.(currentSectionIndex := r.currentSectionIndex)
    ensures CanAdvance(s, sectionCount) && 0 <= s.currentSectionIndex < sectionCount ==>
      0 <= r.currentSectionIndex < sectionCount
    ensures CanAdvance(s, sectionCount) && s.currentSectionIndex == sectionCount - 1 && InRange(sectionCount, c, 0) ==>
      r.currentSectionIndex == 0
    ensures var i := s.currentSectionIndex;
      CanAdvance(s, sectionCount) && 0 <= i < sectionCount - 1 && InRange(sectionCount, c, i + 1) ==>
      r.currentSectionIndex == i + 1
  {
    if !CanAdvance(s, sectionCount) then s
    else
      var next := JsRem(s.currentSectionIndex + 1, sectionCount);
      NextIndex(s.currentSectionIndex, sectionCount);
      ScrollToSection(s, sectionCount, c, next)
  }

  /** The step of `(current + 1) % length` from an index in range. */
  lemma NextIndex(a: int, n: int)
    requires n > 0
    ensures 0 <= a < n ==> JsRem(a + 1, n) == if a + 1 == n then 0 else a + 1
  {
    if 0 <= a < n {
      if a + 1 == n {
        ModUnique(a + 1, n, 1, 0);
      } else {
        ModUnique(a + 1, n, 0, a + 1);
      }
    }
  }

  /** `k` ticks of the auto-scroll interval, with nothing else happening. */
  function Ticks(s: Scroller, sectionCount: nat, c: Container, k: nat): Scroller
    decreases k
  {
    if k == 0 then s else Ticks(ScrollToNext(s, sectionCount, c), sectionCount, c, k - 1)
  }

  /** With the gate open and a child for every section, `k` ticks move the
      current section `k` places forward, modulo the section count. */
  lemma {:induction false} TicksCycle(s: Scroller, sectionCount: nat, c: Container, k: nat)
    requires CanAdvance(s, sectionCount) && 0 <= s.currentSectionIndex < sectionCount
    requires c.Present? && c.childCount >= sectionCount
    ensures Ticks(s, sectionCount, c, k).currentSectionIndex == (s.currentSectionIndex + k) % sectionCount
    ensures Ticks(s, sectionCount, c, k) == s.(currentSectionIndex := (s.currentSectionIndex + k) % sectionCount)
    decreases k
  {
    if k > 0 {
      var n := sectionCount;
      var a := s.currentSectionIndex;
      var t := ScrollToNext(s, n, c);
      assert t.currentSectionIndex == (a + 1) % n;
      TicksCycle(t, n, c, k - 1);
      ModStep(a, k, n);
    }
  }

  /** `((a + 1) % n + (k - 1)) % n == (a + k) % n` for `0 <= a < n`. */
  lemma ModStep(a: int, k: nat, n: nat)
    requires 0 <= a < n && k > 0
    ensures ((a + 1) % n + (k - 1)) % n == (a + k) % n
  {
    if a + 1 == n {
      assert (a + 1) % n == 0;
      ModAddModulus(k - 1, n);
      assert a + k == (k - 1) + n;
    } else {
      assert (a + 1) % n == a + 1;
    }
  }

  /** Adding the modulus does not change a remainder. */
  lemma ModAddModulus(x: int, n: nat)
    requires n > 0
    ensures (x + n) % n == x % n
  {
    var q, r := x / n, x % n;
    assert x == q * n + r;
    assert x + n == (q + 1) * n + r;
    ModUnique(x + n, n, q + 1, r);
  }

  /** The remainder is determined by any quotient-remainder decomposition. */
  lemma ModUnique(x: int, n: nat, q: int, r: int)
    requires n > 0 && 0 <= r < n && x == q * n + r
    ensures x % n == r
  {
    var q2, r2 := x / n, x % n;
    assert x == q2 * n + r2;
    assert (q - q2) * n == r2 - r;
    if q > q2 {
      MulAtLeast(q - q2, n);
    } else if q < q2 {
      MulAtLeast(q2 - q, n);
    }
  }

  lemma MulAtLeast(d: int, n: nat)
    requires d >= 1
    ensures d * n >= n
  {
  }

  /** A full cycle of ticks returns to the starting section. */
  lemma FullCycle(s: Scroller, sectionCount: nat, c: Container)
    requires CanAdvance(s, sectionCount) && 0 <= s.currentSectionIndex < sectionCount
    requires c.Present? && c.childCount >= sectionCount
    ensures Ticks(s, sectionCount, c, sectionCount) == s
  {
    TicksCycle(s, sectionCount, c, sectionCount);
    ModAddModulus(s.currentSectionIndex, sectionCount);
    ModUnique(s.currentSectionIndex, sectionCount, 0, s.currentSectionIndex);
  }

  // ---------------------------------------------------------------------------
  // Pauses
  // ---------------------------------------------------------------------------

  /** `mouseenter`, heard only when hover pausing is on. */
  function MouseEnter(s: Scroller, o: Options): (r: Scroller)
    ensures o.pauseOnHover ==> r.isPaused && forall n :: !CanAdvance(r, n)
    ensures !o.pauseOnHover ==> r == s
    ensures r == s.(isPaused := r.isPaused)
  {
    if o.pauseOnHover then s.(isPaused := true) else s
  }

  /** `mouseleave`, heard only when hover pausing is on. */
  function MouseLeave(s: Scroller, o: Options): (r: Scroller)
    ensures o.pauseOnHover ==> !r.isPaused
    ensures !o.pauseOnHover ==> r == s
    ensures r == s.(isPaused := r.isPaused)
  {
    if o.pauseOnHover then s.(isPaused := false) else s
  }

  /** A manual scroll at time `now`, heard only when scroll pausing is on:
      pause, and replace any pending resume timer with one due
      `ResumeDelay` later. */
  function UserScroll(s: Scroller, o: Options, now: int): (r: Scroller)
    ensures o.pauseOnScroll ==> r.isPaused && r.resumeAt == Some(now + ResumeDelay)
    ensures !o.pauseOnScroll ==> r == s
    ensures r.currentSectionIndex == s.currentSectionIndex && r.isMobile == s.isMobile
    ensures r.isAutoScrolling == s.isAutoScrolling
  {
    if o.pauseOnScroll then s.(isPaused := true, resumeAt := Some(now + ResumeDelay)) else s
  }

  /** The clock reaching `now`: a due resume timer fires and unpauses. */
  function ClockAt(s: Scroller, now: int): (r: Scroller)
    ensures s.resumeAt.Some? && now >= s.resumeAt.value ==> !r.isPaused && r.resumeAt.None?
    ensures !(s.resumeAt.Some? && now >= s.resumeAt.value) ==> r == s
    ensures r.currentSectionIndex == s.currentSectionIndex
  {
    if s.resumeAt.Some? && now >= s.resumeAt.value then s.(isPaused := false, resumeAt := None) else s
  }

  /** A burst of manual scrolls at the given times. */
  function Scrolls(s: Scroller, o: Options, times: seq<int>): Scroller
    decreases |times|
  {
    if |times| == 0 then s else Scrolls(UserScroll(s, o, times[0]), o, times[1..])
  }

  /** However many scrolls there were, one resume timer is pending, due
      `ResumeDelay` after the last of them, and auto-scrolling stays paused
      until then. */
  lemma {:induction false} ScrollsKeepOneDeadline(s: Scroller, o: Options, times: seq<int>)
    requires o.pauseOnScroll && |times| > 0
    ensures Scrolls(s, o, times).isPaused
    ensures Scrolls(s, o, times).resumeAt == Some(times[|times| - 1] + ResumeDelay)
    ensures Scrolls(s, o, times).currentSectionIndex == s.currentSectionIndex
    decreases |times|
  {
    if |times| > 1 {
      ScrollsKeepOneDeadline(UserScroll(s, o, times[0]), o, times[1..]);
    }
  }

  /** Before the deadline the clock does not unpause. */
  lemma PausedUntilDeadline(s: Scroller, o: Options, last: int, now: int)
    requires o.pauseOnScroll && now < last + ResumeDelay
    ensures ClockAt(UserScroll(s, o, last), now).isPaused
    ensures !CanAdvance(ClockAt(UserScroll(s, o, last), now), 1)
  {
  }

  /** Hover and manual scrolling share one pause flag: a resume timer that
      falls due unpauses even while the mouse is still over the container. */
  lemma ResumeIgnoresHover(s: Scroller, o: Options, t: int)
    requires o.pauseOnHover && o.pauseOnScroll
    ensures !ClockAt(UserScroll(MouseEnter(s, o), o, t), t + ResumeDelay).isPaused
  {
  }
}
