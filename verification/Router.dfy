/**
 The page router (internal/ui/pages.go:109-303): automatic rotation with a remaining dwell,
 preempted by critical pages and by remote page commands. Times are in nanoseconds.
 */
module RouterModel {
  import opened Wrappers
  import opened Rotation
  import Arithmetic

  // ----- the rotation clock -----

  // Which page of the order is up, and for how much longer.
  datatype Clock = Clock(index: nat, remaining: int) {
    predicate Ok(dwells: seq<int>) {
      index < |dwells| && remaining > 0
    }
  }

  predicate Positive(dwells: seq<int>) {
    |dwells| > 0 && forall i :: 0 <= i < |dwells| ==> dwells[i] > 0
  }

  // The place after i in an order of n pages.
  function Next(i: nat, n: nat): (j: nat)
    requires i < n
    ensures j == if i + 1 == n then 0 else i + 1
  {
    (i + 1) % n
  }

  function Advance(dwells: seq<int>, c: Clock, elapsed: int): (r: Clock)
    requires Positive(dwells) && c.Ok(dwells)
    ensures r.Ok(dwells)
    decreases elapsed
  {
    if elapsed <= 0 then c
    else if elapsed < c.remaining then c.(remaining := c.remaining - elapsed)
    else
      var next := Next(c.index, |dwells|);
      Advance(dwells, Clock(next, dwells[next]), elapsed - c.remaining)
  }

  // Ticking twice is ticking once for the sum, so the page does not depend on the tick rate.
  lemma {:induction false} AdvanceAdds(dwells: seq<int>, c: Clock, a: int, b: int)
    requires Positive(dwells) && c.Ok(dwells) && 0 <= a && 0 <= b
    ensures Advance(dwells, Advance(dwells, c, a), b) == Advance(dwells, c, a + b)
    decreases a
  {
    if a >= c.remaining {
      var next := Next(c.index, |dwells|);
      AdvanceAdds(dwells, Clock(next, dwells[next]), a - c.remaining, b);
    }
  }

  // The place k pages after i, and the dwells of the k pages on the way, going round the order.
  function Later(i: nat, k: nat, n: nat): (j: nat)
    requires i < n
    ensures j < n
    decreases k
  {
    if k == 0 then i else Later(Next(i, n), k - 1, n)
  }

  function CycleSum(dwells: seq<int>, i: nat, k: nat): int
    requires i < |dwells|
    decreases k
  {
    if k == 0 then 0 else dwells[i] + CycleSum(dwells, Next(i, |dwells|), k - 1)
  }

  lemma {:induction false} CycleSumSplits(dwells: seq<int>, i: nat, k: nat, l: nat)
    requires i < |dwells|
    ensures CycleSum(dwells, i, k + l) == CycleSum(dwells, i, k) + CycleSum(dwells, Later(i, k, |dwells|), l)
    decreases k
  {
    if k > 0 {
      CycleSumSplits(dwells, Next(i, |dwells|), k - 1, l);
    }
  }

  lemma {:induction false} LaterPlace(i: nat, k: nat, n: nat)
    requires i < n && k <= n
    ensures Later(i, k, n) == if i + k < n then i + k else i + k - n
    decreases k
  {
    if k > 0 {
      LaterPlace(Next(i, n), k - 1, n);
    }
  }

  // The whole rotation takes equally long from every page.
  lemma WholeCycleAnywhere(dwells: seq<int>, i: nat)
    requires i < |dwells|
    ensures CycleSum(dwells, i, |dwells|) == CycleSum(dwells, 0, |dwells|)
    ensures Later(i, |dwells|, |dwells|) == i
  {
    var n := |dwells|;
    LaterPlace(i, n - i, n);
    LaterPlace(0, i, n);
    LaterPlace(i, n, n);
    CycleSumSplits(dwells, i, n - i, i);
    CycleSumSplits(dwells, 0, i, n - i);
  }

  lemma {:induction false} CycleSumNonNegative(dwells: seq<int>, i: nat, k: nat)
    requires Positive(dwells) && i < |dwells|
    ensures CycleSum(dwells, i, k) >= 0
    decreases k
  {
    if k > 0 {
      CycleSumNonNegative(dwells, Next(i, |dwells|), k - 1);
    }
  }

  // From a full page, k whole dwells later the router is k pages further with a full page.
  lemma {:induction false} AdvanceWholePages(dwells: seq<int>, i: nat, k: nat)
    requires Positive(dwells) && i < |dwells|
    ensures
      var end := Later(i, k, |dwells|);
      Advance(dwells, Clock(i, dwells[i]), CycleSum(dwells, i, k)) == Clock(end, dwells[end])
    decreases k
  {
    if k > 0 {
      var next := Next(i, |dwells|);
      AdvanceWholePages(dwells, next, k - 1);
      CycleSumNonNegative(dwells, next, k - 1);
    }
  }

  // Once the page has been left, no more than the new page's own dwell remains.
  lemma {:induction false} RemainingBounded(dwells: seq<int>, c: Clock, elapsed: int)
    requires Positive(dwells) && c.Ok(dwells)
    requires elapsed >= c.remaining || c.remaining <= dwells[c.index]
    ensures
      var r := Advance(dwells, c, elapsed);
      r.remaining <= dwells[r.index]
    decreases elapsed
  {
    if elapsed >= c.remaining {
      var next := Next(c.index, |dwells|);
      RemainingBounded(dwells, Clock(next, dwells[next]), elapsed - c.remaining);
    }
  }

  // A whole rotation is the identity exactly when no more than the page's own dwell was left.
  lemma AdvanceWholeCycle(dwells: seq<int>, c: Clock)
    requires Positive(dwells) && c.Ok(dwells)
    ensures Advance(dwells, c, CycleSum(dwells, 0, |dwells|)) == c <==> c.remaining <= dwells[c.index]
  {
    var d, total := dwells[c.index], CycleSum(dwells, 0, |dwells|);
    var full := Clock(c.index, d);
    WholeCycleAnywhere(dwells, c.index);
    AdvanceWholePages(dwells, c.index, |dwells|);
    assert Advance(dwells, full, total) == full;
    CycleSumNonNegative(dwells, Next(c.index, |dwells|), |dwells| - 1);
    if c.remaining <= d {
      assert Advance(dwells, full, d - c.remaining) == c;
      AdvanceAdds(dwells, full, d - c.remaining, total);
      AdvanceAdds(dwells, full, total, d - c.remaining);
    } else if total >= c.remaining {
      RemainingBounded(dwells, c, total);
    }
  }

  // ----- the router state -----

  datatype State = State(
    config: RotationConfig, page: Page, index: nat, remaining: int, last: int, paused: bool,
    remote: Option<Remote>,
    rotationOverride: bool, rotationEnabled: bool, rotationInterval: int, rotationUntil: int,
    displayed: Page, criticalActive: bool)
  {
    ghost predicate Valid() {
      && config.Valid()
      && index < 5 && page == config.order[index] && remaining > 0
      && rotationInterval >= 0
      && displayed in config.order
      && (remote.Some? ==> remote.value.page in config.order)
    }

    function RotationClock(): Clock {
      Clock(index, remaining)
    }
  }

  // remotePage and remoteUntil, which the source always sets and clears together.
  datatype Remote = Remote(page: Page, until: int)

  function DwellOf(s: State, page: Page): int
    requires page in s.config.dwell
  {
    if s.rotationOverride && s.rotationEnabled && s.rotationInterval > 0 then s.rotationInterval
    else s.config.dwell[page]
  }

  function Dwells(s: State): (d: seq<int>)
    requires forall p <- s.config.order :: p in s.config.dwell
    ensures |d| == |s.config.order|
    ensures forall i :: 0 <= i < |d| ==> d[i] == DwellOf(s, s.config.order[i])
  {
    seq(|s.config.order|, i requires 0 <= i < |s.config.order| => DwellOf(s, s.config.order[i]))
  }

  ghost function Advanced(s: State, elapsed: int): (r: State)
    requires s.Valid()
    ensures r.Valid()
  {
    var c := Advance(Dwells(s), s.RotationClock(), elapsed);
    s.(index := c.index, page := s.config.order[c.index], remaining := c.remaining)
  }

  // Rotation runs only while nothing pauses it, and never backwards.
  ghost function Elapsed(s: State, now: int): (r: State)
    requires s.Valid()
    ensures r.Valid()
  {
    (if s.paused then s else Advanced(s, now - s.last)).(last := now)
  }

  function FirstCritical(order: seq<Page>, critical: set<Page>): Option<Page> {
    if order == [] then None
    else if order[0] in critical then Some(order[0])
    else FirstCritical(order[1..], critical)
  }

  lemma FirstCriticalIsFirst(order: seq<Page>, critical: set<Page>)
    ensures FirstCritical(order, critical).None? <==> forall p <- order :: p !in critical
    ensures forall p :: FirstCritical(order, critical) == Some(p) ==>
              exists i :: 0 <= i < |order| && order[i] == p && p in critical && forall j :: 0 <= j < i ==> order[j] !in critical
  {
    if order != [] && order[0] !in critical {
      FirstCriticalIsFirst(order[1..], critical);
      var rest := FirstCritical(order[1..], critical);
      if rest.Some? {
        var i :| 0 <= i < |order[1..]| && order[1..][i] == rest.value && forall j :: 0 <= j < i ==> order[1..][j] !in critical;
        assert order[i + 1] == rest.value;
        forall j | 0 <= j < i + 1
          ensures order[j] !in critical
        {
          if j > 0 {
            assert order[j] == order[1..][j - 1];
          }
        }
      }
    }
  }

  function RemoteExpired(s: State, now: int): State {
    if s.remote.Some? && now >= s.remote.value.until then s.(remote := None) else s
  }

  ghost function OverrideExpired(s: State, now: int): (r: State)
    requires s.Valid()
    ensures r.Valid()
  {
    if s.rotationOverride && now >= s.rotationUntil then
      var dwell := s.config.dwell[s.page];
      s.(rotationOverride := false, rotationEnabled := true, rotationInterval := 0,
         remaining := if s.remaining > dwell then dwell else s.remaining)
    else s
  }

  ghost function Shown(s: State, critical: set<Page>): (r: State)
    requires s.Valid()
    ensures r.Valid()
  {
    FirstCriticalIsFirst(s.config.order, critical);
    match FirstCritical(s.config.order, critical)
    case Some(page) => s.(paused := true, displayed := page, criticalActive := true)
    case None =>
      if s.remote.Some? then s.(paused := true, displayed := s.remote.value.page, criticalActive := false)
      else s.(paused := s.rotationOverride && !s.rotationEnabled, displayed := s.page, criticalActive := false)
  }

  ghost function UpdateSpec(s: State, now: int, critical: set<Page>): (r: State)
    requires s.Valid()
    ensures r.Valid()
  {
    Shown(OverrideExpired(RemoteExpired(Elapsed(s, now), now), now), critical)
  }

  ghost function Frozen(s: State, now: int): (r: State)
    requires s.Valid()
    ensures r.Valid()
  {
    Elapsed(s, now).(paused := true)
  }

  ghost function ShowPageSpec(s: State, page: Page, duration: int, now: int): (r: State)
    requires s.Valid()
    ensures r.Valid()
  {
    FiveDistinctAreAll(s.config.order);
    Frozen(s, now).(remote := Some(Remote(page, now + duration)))
  }

  function IndexOf(order: seq<Page>, page: Page): (i: nat)
    requires page in order
    ensures i < |order| && order[i] == page
  {
    if order[0] == page then 0 else 1 + IndexOf(order[1..], page)
  }

  // The page a step command starts from: the remote page when there is one, else the base page.
  function StepBase(s: State): nat
    requires s.remote.Some? ==> s.remote.value.page in s.config.order
  {
    if s.remote.Some? then IndexOf(s.config.order, s.remote.value.page) else s.index
  }

  function Stepped(base: nat, step: int): (i: nat)
    requires base < 5 && -1 <= step <= 1
    ensures i < 5
    ensures step == 1 ==> i == if base == 4 then 0 else base + 1
    ensures step == -1 ==> i == if base == 0 then 4 else base - 1
  {
    (base + step + 5) % 5
  }

  ghost function StepPageSpec(s: State, step: int, duration: int, now: int): (r: State)
    requires s.Valid() && -1 <= step <= 1
    ensures r.Valid()
  {
    var f := Frozen(s, now);
    f.(remote := Some(Remote(s.config.order[Stepped(StepBase(f), step)], now + duration)))
  }

  ghost function SetRotationSpec(s: State, enabled: bool, interval: int, duration: int, now: int): (r: State)
    requires s.Valid() && interval >= 0
    ensures r.Valid()
  {
    var e := Elapsed(s, now);
    e.(rotationOverride := true, rotationEnabled := enabled, rotationInterval := interval,
       rotationUntil := now + duration,
       remaining := if enabled && interval > 0 then interval else e.remaining,
       paused := e.remote.Some? || !enabled)
  }

  // ----- the class -----

  class Router {
    var config: RotationConfig
    var page: Page
    var index: nat
    var remaining: int
    var last: int
    var paused: bool
    var remotePage: Option<Page>
    var remoteUntil: int
    var rotationOverride: bool
    var rotationEnabled: bool
    var rotationInterval: int
    var rotationUntil: int
    var displayed: Page
    var criticalActive: bool

    ghost function View(): State
      reads this
    {
      State(config, page, index, remaining, last, paused,
            if remotePage.Some? then Some(Remote(remotePage.value, remoteUntil)) else None,
            rotationOverride, rotationEnabled, rotationInterval, rotationUntil, displayed, criticalActive)
    }

    ghost predicate Valid()
      reads this
    {
      View().Valid()
    }

    constructor (config: RotationConfig, now: int)
      requires config.Valid()
      ensures Valid() && this.config == config && page == displayed == Coding && last == now
      ensures remaining == config.dwell[Coding] && !paused && remotePage.None? && !rotationOverride && !criticalActive
    {
      var start := 0;
      FiveDistinctAreAll(config.order);
      for i := 0 to |config.order|
        invariant start == 0 && Coding in config.order[i..]
      {
        if config.order[i] == Coding {
          start := i;
          break;
        }
      }
      assert config.order[start] == Coding;
      this.config, page, index, remaining, last := config, Coding, start, config.dwell[Coding], now;
      paused, remotePage, remoteUntil := false, None, 0;
      rotationOverride, rotationEnabled, rotationInterval, rotationUntil := false, true, 0, 0;
      displayed, criticalActive := Coding, false;
    }

    function DwellLocked(p: Page): (d: int)
      requires p in config.dwell
      reads this
      ensures d == DwellOf(View(), p)
    {
      if rotationOverride && rotationEnabled && rotationInterval > 0 then rotationInterval
      else config.dwell[p]
    }

    method AdvanceBy(elapsed: int)
      requires Valid()
      modifies this`index, this`page, this`remaining
      ensures View() == Advanced(old(View()), elapsed)
    {
      if elapsed <= 0 {
        return;
      }
      var left := elapsed;
      ghost var start := View();
      ghost var dwells := Dwells(start);
      while left >= remaining
        invariant left >= 0 && index < 5 && page == config.order[index] && remaining > 0
        invariant View() == start.(index := index, page := page, remaining := remaining)
        invariant Advance(dwells, Clock(index, remaining), left) == Advance(dwells, start.RotationClock(), elapsed)
        decreases left
      {
        left := left - remaining;
        index := Next(index, |config.order|);
        page := config.order[index];
        remaining := DwellLocked(page);
        assert remaining == DwellOf(start, page) == dwells[index];
      }
      assert Advance(dwells, start.RotationClock(), elapsed) == Clock(index, remaining - left);
      remaining := remaining - left;
    }

    method CatchUp(now: int)
      requires Valid()
      modifies this`index, this`page, this`remaining, this`last
      ensures View() == Elapsed(old(View()), now)
    {
      if now > last && !paused {
        AdvanceBy(now - last);
      }
      last := now;
    }

    method Freeze(now: int)
      requires Valid()
      modifies this`index, this`page, this`remaining, this`last, this`paused
      ensures View() == Frozen(old(View()), now)
    {
      CatchUp(now);
      paused := true;
    }

    method FindCritical(critical: set<Page>) returns (found: Option<Page>)
      ensures found == FirstCritical(config.order, critical)
    {
      for i := 0 to |config.order|
        invariant FirstCritical(config.order[i..], critical) == FirstCritical(config.order, critical)
      {
        assert config.order[i..][1..] == config.order[i + 1..];
        if config.order[i] in critical {
          return Some(config.order[i]);
        }
      }
      return None;
    }

    method Tick(now: int)
      requires Valid()
      modifies this`index, this`page, this`remaining, this`last
      ensures View() == Elapsed(old(View()), now)
    {
      if now < last {
        last := now;
      }
      var elapsed := now - last;
      if !paused {
        AdvanceBy(elapsed);
      }
      last := now;
    }

    method ExpireOverrides(now: int)
      requires Valid()
      modifies this`remotePage, this`remoteUntil, this`remaining
      modifies this`rotationOverride, this`rotationEnabled, this`rotationInterval
      ensures View() == OverrideExpired(RemoteExpired(old(View()), now), now)
    {
      if remotePage.Some? && now >= remoteUntil {
        remotePage, remoteUntil := None, 0;
      }
      if rotationOverride && now >= rotationUntil {
        rotationOverride := false;
        rotationEnabled := true;
        rotationInterval := 0;
        if remaining > config.dwell[page] {
          remaining := config.dwell[page];
        }
      }
    }

    method Choose(critical: set<Page>) returns (shown: Page)
      requires Valid()
      modifies this`paused, this`displayed, this`criticalActive
      ensures View() == Shown(old(View()), critical) && shown == displayed
    {
      var criticalPage := FindCritical(critical);
      if criticalPage.Some? {
        paused := true;
        displayed := criticalPage.value;
        criticalActive := true;
        return criticalPage.value;
      }
      criticalActive := false;
      if remotePage.Some? {
        paused := true;
        displayed := remotePage.value;
        return remotePage.value;
      }
      paused := rotationOverride && !rotationEnabled;
      displayed := page;
      return page;
    }

    method Update(now: int, critical: set<Page>) returns (shown: Page)
      requires Valid()
      modifies this
      ensures Valid() && View() == UpdateSpec(old(View()), now, critical)
      ensures shown == displayed
    {
      Tick(now);
      ExpireOverrides(now);
      shown := Choose(critical);
    }

    method SetRemote(shown: Page, until: int)
      modifies this`remotePage, this`remoteUntil
      ensures View() == old(View()).(remote := Some(Remote(shown, until)))
    {
      remotePage := Some(shown);
      remoteUntil := until;
    }

    method ShowPage(shown: Page, duration: int, now: int)
      requires Valid()
      modifies this
      ensures Valid() && View() == ShowPageSpec(old(View()), shown, duration, now)
    {
      Freeze(now);
      FiveDistinctAreAll(config.order);
      SetRemote(shown, now + duration);
    }

    method FindStepBase() returns (base: nat)
      requires remotePage.Some? ==> remotePage.value in config.order
      ensures base == StepBase(View())
    {
      base := index;
      if remotePage.Some? {
        for i := 0 to |config.order|
          invariant remotePage.value in config.order[i..]
          invariant IndexOf(config.order, remotePage.value) == i + IndexOf(config.order[i..], remotePage.value)
        {
          assert config.order[i..][1..] == config.order[i + 1..];
          if config.order[i] == remotePage.value {
            base := i;
            break;
          }
        }
      }
    }

    method ShowStep(step: int, duration: int, now: int)
      requires Valid() && -1 <= step <= 1
      modifies this
      ensures Valid() && View() == StepPageSpec(old(View()), step, duration, now)
    {
      Freeze(now);
      var base := FindStepBase();
      base := Stepped(base, step);
      SetRemote(config.order[base], now + duration);
    }

    method SetOverride(enabled: bool, interval: int, until: int)
      modifies this`rotationOverride, this`rotationEnabled, this`rotationInterval, this`rotationUntil
      ensures View() == old(View()).(rotationOverride := true, rotationEnabled := enabled, rotationInterval := interval,
                                     rotationUntil := until)
    {
      rotationOverride := true;
      rotationEnabled := enabled;
      rotationInterval := interval;
      rotationUntil := until;
    }

    method SetRotation(enabled: bool, interval: int, duration: int, now: int)
      requires Valid() && interval >= 0
      modifies this
      ensures Valid() && View() == SetRotationSpec(old(View()), enabled, interval, duration, now)
    {
      CatchUp(now);
      SetOverride(enabled, interval, now + duration);
      if enabled && interval > 0 {
        remaining := interval;
      }
      paused := remotePage.Some? || !enabled;
    }

    // The place of the shown page in the order, from 1.
    method Position() returns (position: nat, count: nat)
      requires config.Valid()
      ensures count == 5 && 1 <= position <= count
      ensures displayed in config.order ==> config.order[position - 1] == displayed
      ensures displayed !in config.order ==> position == 1
    {
      for i := 0 to |config.order|
        invariant displayed in config.order ==> displayed in config.order[i..]
      {
        if config.order[i] == displayed {
          return i + 1, |config.order|;
        }
      }
      return 1, |config.order|;
    }
  }

  // ----- what is shown -----

  lemma ShownChoice(s: State, critical: set<Page>)
    requires s.Valid()
    ensures
      var t := Shown(s, critical);
      && t.index == s.index && t.page == s.page
      && (t.criticalActive <==> exists p <- s.config.order :: p in critical)
      && (t.criticalActive ==> t.displayed in critical)
      && (!t.criticalActive ==> t.displayed == if s.remote.Some? then s.remote.value.page else s.page)
  {
    FirstCriticalIsFirst(s.config.order, critical);
  }

  // Critical pages win over a live remote page, which wins over the rotation.
  lemma ShownPriority(s: State, now: int, critical: set<Page>)
    requires s.Valid()
    ensures
      var t, base := UpdateSpec(s, now, critical), Elapsed(s, now);
      && t.index == base.index && t.page == base.page
      && (t.criticalActive <==> exists p <- s.config.order :: p in critical)
      && (t.criticalActive ==> t.displayed in critical)
      && (!t.criticalActive ==>
            t.displayed == if s.remote.Some? && now < s.remote.value.until then s.remote.value.page else base.page)
  {
    var base := Elapsed(s, now);
    assert base.remote == s.remote && base.config == s.config;
    ShownChoice(OverrideExpired(RemoteExpired(base, now), now), critical);
  }

  // ----- the tick rate does not matter -----

  // Nothing but the rotation itself will act up to time `until`.
  ghost predicate Rotating(s: State, until: int) {
    && s.Valid() && !s.paused && s.remote.None? && !s.criticalActive && s.displayed == s.page
    && (s.rotationOverride ==> s.rotationEnabled && until < s.rotationUntil)
  }

  lemma PlainUpdate(s: State, t: int, u: int)
    requires Rotating(s, u) && t <= u
    ensures UpdateSpec(s, t, {}) == Elapsed(s, t).(displayed := Elapsed(s, t).page)
    ensures Rotating(UpdateSpec(s, t, {}), u)
  {
    FirstCriticalIsFirst(s.config.order, {});
  }

  lemma DwellsElapsed(s: State, t: int)
    requires s.Valid()
    ensures Dwells(Elapsed(s, t)) == Dwells(s)
  {
  }

  lemma ElapsedTwice(s: State, t: int, u: int)
    requires s.Valid() && !s.paused && s.last <= t <= u
    ensures Elapsed(Elapsed(s, t), u) == Elapsed(s, u)
  {
    DwellsElapsed(s, t);
    AdvanceAdds(Dwells(s), s.RotationClock(), t - s.last, u - t);
  }

  lemma ElapsedIgnoresDisplayed(s: State, p: Page, u: int)
    requires s.Valid() && s.(displayed := p).Valid()
    ensures Elapsed(s.(displayed := p), u) == Elapsed(s, u).(displayed := p)
  {
    assert Dwells(s.(displayed := p)) == Dwells(s);
  }

  lemma TickTwice(s: State, t: int, u: int)
    requires Rotating(s, u) && s.last <= t <= u
    ensures Rotating(UpdateSpec(s, t, {}), u) && UpdateSpec(s, t, {}).last == t
    ensures UpdateSpec(UpdateSpec(s, t, {}), u, {}) == UpdateSpec(s, u, {})
  {
    PlainUpdate(s, t, u);
    PlainUpdate(s, u, u);
    PlainUpdate(UpdateSpec(s, t, {}), u, u);
    ElapsedTwice(s, t, u);
    var mid := Elapsed(s, t);
    ElapsedIgnoresDisplayed(mid, mid.page, u);
  }

  ghost function Ticks(s: State, times: seq<int>): (r: State)
    requires s.Valid()
    ensures r.Valid()
    decreases |times|
  {
    if times == [] then s else Ticks(UpdateSpec(s, times[0], {}), times[1..])
  }

  ghost predicate Ascending(from: int, times: seq<int>)
    decreases |times|
  {
    times != [] ==> from <= times[0] && Ascending(times[0], times[1..])
  }

  lemma {:induction false} AscendingBelowLast(from: int, times: seq<int>)
    requires Ascending(from, times) && times != []
    ensures from <= times[0] <= times[|times| - 1]
    decreases |times|
  {
    if |times| > 1 {
      AscendingBelowLast(times[0], times[1..]);
    }
  }

  // However often the display ticks, the state depends only on the time of the last tick.
  lemma {:induction false} TickRateIrrelevant(s: State, times: seq<int>)
    requires times != [] && Rotating(s, times[|times| - 1]) && Ascending(s.last, times)
    ensures Ticks(s, times) == UpdateSpec(s, times[|times| - 1], {})
    decreases |times|
  {
    var end := times[|times| - 1];
    AscendingBelowLast(s.last, times);
    TickTwice(s, times[0], end);
    if |times| > 1 {
      assert times[1..][|times[1..]| - 1] == end;
      TickRateIrrelevant(UpdateSpec(s, times[0], {}), times[1..]);
    }
  }

  // ----- freeze and resume -----

  datatype Event =
    | Update(now: int, critical: set<Page>)
    | ShowPage(page: Page, duration: int, now: int)
    | NextPage(duration: int, now: int)
    | PreviousPage(duration: int, now: int)

  ghost function Step(s: State, e: Event): (r: State)
    requires s.Valid()
    ensures r.Valid()
  {
    match e
    case Update(now, critical) => UpdateSpec(s, now, critical)
    case ShowPage(page, duration, now) => ShowPageSpec(s, page, duration, now)
    case NextPage(duration, now) => StepPageSpec(s, 1, duration, now)
    case PreviousPage(duration, now) => StepPageSpec(s, -1, duration, now)
  }

  ghost function Run(s: State, events: seq<Event>): (r: State)
    requires s.Valid()
    ensures r.Valid()
    decreases |events|
  {
    if events == [] then s else Run(Step(s, events[0]), events[1..])
  }

  // The first update at or after the remote page's expiry with no critical page.
  ghost predicate Releases(s: State, e: Event) {
    && e.Update?
    && (forall p <- s.config.order :: p !in e.critical)
    && (s.remote.Some? ==> e.now >= s.remote.value.until)
  }

  ghost predicate NeverReleased(s: State, events: seq<Event>)
    requires s.Valid()
    decreases |events|
  {
    events != [] ==> !Releases(s, events[0]) && NeverReleased(Step(s, events[0]), events[1..])
  }

  // The base page of t is that of s, and its remaining dwell at most clamped to the configured one.
  ghost predicate SameBase(s: State, t: State) {
    && t.config == s.config && t.index == s.index && t.page == s.page && s.page in s.config.dwell
    && (t.remaining == s.remaining
        || (s.rotationOverride && t.remaining == s.config.dwell[s.page] < s.remaining && !t.rotationOverride))
    && (t.rotationOverride ==> s.rotationOverride)
  }

  lemma FrozenUpdate(s: State, now: int, critical: set<Page>)
    requires s.Valid() && s.paused
    ensures SameBase(s, UpdateSpec(s, now, critical))
    ensures !Releases(s, Update(now, critical)) ==> UpdateSpec(s, now, critical).paused
  {
    FirstCriticalIsFirst(s.config.order, critical);
    var r := RemoteExpired(Elapsed(s, now), now);
    assert SameBase(s, r);
    assert SameBase(s, OverrideExpired(r, now));
  }

  lemma FrozenStep(s: State, e: Event)
    requires s.Valid() && s.paused
    ensures SameBase(s, Step(s, e))
    ensures !Releases(s, e) ==> Step(s, e).paused
  {
    if e.Update? {
      FrozenUpdate(s, e.now, e.critical);
    } else {
      assert Frozen(s, e.now) == s.(last := e.now);
    }
  }

  // A paused router keeps its base page until it is released, whatever else happens.
  lemma {:induction false} FrozenRun(s: State, events: seq<Event>)
    requires s.Valid() && s.paused && NeverReleased(s, events)
    ensures SameBase(s, Run(s, events)) && Run(s, events).paused
    decreases |events|
  {
    if events != [] {
      var t := Step(s, events[0]);
      FrozenStep(s, events[0]);
      FrozenRun(t, events[1..]);
    }
  }

  // A page command freezes the rotation where it stood, up to and including the releasing update.
  lemma CommandFreezes(s: State, command: Event, events: seq<Event>, release: Event)
    requires s.Valid() && !command.Update?
    requires NeverReleased(Step(s, command), events)
    ensures
      var end := Run(Step(s, command), events);
      && SameBase(Elapsed(s, command.now), end)
      && SameBase(Elapsed(s, command.now), Step(end, release))
  {
    var t := Step(s, command);
    FrozenRun(t, events);
    var end := Run(t, events);
    FrozenStep(end, release);
  }

  lemma StepSets(s: State, step: int, duration: int, now: int)
    requires s.Valid() && step in {-1, 1}
    ensures
      var f := Frozen(s, now);
      var i := StepBase(f);
      StepPageSpec(s, step, duration, now)
      == f.(remote := Some(Remote(s.config.order[if step == 1 then (i + 1) % 5 else (i + 4) % 5], now + duration)))
  {
  }

  // A step command leaves the remote page at the stepped place, where the next step starts.
  lemma StepLands(s: State, step: int, duration: int, now: int, later: int)
    requires s.Valid() && -1 <= step <= 1
    ensures
      var t := StepPageSpec(s, step, duration, now);
      && t.config == s.config
      && t.remote == Some(Remote(s.config.order[Stepped(StepBase(Frozen(s, now)), step)], now + duration))
      && StepBase(Frozen(t, later)) == Stepped(StepBase(Frozen(s, now)), step)
  {
    var t := StepPageSpec(s, step, duration, now);
    IndexOfDistinct(s.config.order, Stepped(StepBase(Frozen(s, now)), step));
    assert Frozen(t, later) == t.(last := later);
  }

  // Stepping forward and then back shows the page that was shown by the remote, or the base page.
  lemma StepBack(s: State, d1: int, t1: int, d2: int, t2: int)
    requires s.Valid()
    ensures
      var back := StepPageSpec(StepPageSpec(s, 1, d1, t1), -1, d2, t2);
      back.remote == Some(Remote(if s.remote.Some? then s.remote.value.page else Elapsed(s, t1).page, t2 + d2))
  {
    var f := Frozen(s, t1);
    StepLands(s, 1, d1, t1, t2);
    StepLands(StepPageSpec(s, 1, d1, t1), -1, d2, t2, t2);
    assert Stepped(Stepped(StepBase(f), 1), -1) == StepBase(f);
    assert s.config.order[StepBase(f)] == if s.remote.Some? then s.remote.value.page else f.page;
  }

  lemma {:induction false} IndexOfDistinct(order: seq<Page>, i: nat)
    requires i < |order| && forall j, k :: 0 <= j < k < |order| ==> order[j] != order[k]
    ensures IndexOf(order, order[i]) == i
  {
    if i > 0 {
      assert order[1..][i - 1] == order[i];
      IndexOfDistinct(order[1..], i - 1);
    }
  }

  // ----- what SetRotation does to later updates -----

  ghost predicate Uniform(dwells: seq<int>, d: int) {
    |dwells| > 0 && d > 0 && forall i :: 0 <= i < |dwells| ==> dwells[i] == d
  }

  // With one dwell for all pages the clock can be read off the time.
  lemma {:induction false} UniformAdvance(dwells: seq<int>, d: int, i: nat, elapsed: int)
    requires Uniform(dwells, d) && i < |dwells| && elapsed >= 0
    ensures Advance(dwells, Clock(i, d), elapsed) == Clock((i + elapsed / d) % |dwells|, d - elapsed % d)
    decreases elapsed
  {
    var n := |dwells|;
    if elapsed >= d {
      var j := Next(i, n);
      UniformAdvance(dwells, d, j, elapsed - d);
      DwellEarlier(elapsed, d);
      TurnOn(i, (elapsed - d) / d, n);
    } else {
      Arithmetic.DivModUnique(elapsed, 0, elapsed, d);
      Arithmetic.DivModUnique(i, 0, i, n);
    }
  }

  lemma DwellEarlier(elapsed: int, d: int)
    requires elapsed >= d > 0
    ensures (elapsed - d) / d == elapsed / d - 1 >= 0 && (elapsed - d) % d == elapsed % d
  {
    var q, r := elapsed / d, elapsed % d;
    assert elapsed == q * d + r && (q - 1) * d == q * d - d;
    Arithmetic.DivModUnique(elapsed - d, q - 1, r, d);
  }

  lemma TurnOn(i: nat, k: nat, n: nat)
    requires i < n
    ensures (Next(i, n) + k) % n == (i + (k + 1)) % n
  {
    var x := i + k + 1;
    if i + 1 == n {
      var q, r := k / n, k % n;
      assert k == q * n + r && (q + 1) * n == q * n + n;
      Arithmetic.DivModUnique(x, q + 1, r, n);
    }
  }

  // The dwells without an override.
  function ConfiguredDwells(config: RotationConfig): (d: seq<int>)
    requires forall p <- config.order :: p in config.dwell
    ensures |d| == |config.order| && forall i :: 0 <= i < |d| ==> d[i] == config.dwell[config.order[i]]
  {
    seq(|config.order|, i requires 0 <= i < |config.order| => config.dwell[config.order[i]])
  }

  // An update with neither a critical page nor a remote one shows the base page.
  lemma CalmUpdate(s: State, t: int, critical: set<Page>)
    requires s.Valid() && s.remote.None? && forall p <- s.config.order :: p !in critical
    ensures
      var r, e := UpdateSpec(s, t, critical), Elapsed(s, t);
      && r.config == s.config && r.last == t && r.remote.None? && r.displayed == r.page == e.page && r.index == e.index
      && r.remaining == Left(e, t)
      && r.rotationOverride == (s.rotationOverride && t < s.rotationUntil)
      && r.paused == (r.rotationOverride && !s.rotationEnabled)
  {
    var e := Elapsed(s, t);
    assert RemoteExpired(e, t) == e;
    CalmChoice(e, t, critical);
  }

  lemma CalmChoice(e: State, t: int, critical: set<Page>)
    requires e.Valid() && e.remote.None? && forall p <- e.config.order :: p !in critical
    ensures
      var r := Shown(OverrideExpired(e, t), critical);
      && r.config == e.config && r.last == e.last && r.remote.None? && r.displayed == r.page == e.page && r.index == e.index
      && r.remaining == Left(e, t)
      && r.rotationOverride == (e.rotationOverride && t < e.rotationUntil)
      && r.paused == (r.rotationOverride && !e.rotationEnabled)
  {
    FirstCriticalIsFirst(e.config.order, critical);
  }

  // The page at time t under an override that came at time now.
  ghost function OverridePage(s: State, enabled: bool, interval: int, now: int, t: int): Page
    requires s.Valid() && interval >= 0
  {
    var start := Elapsed(s, now);
    if !enabled then start.page
    else if interval > 0 then s.config.order[(start.index + (t - now) / interval) % 5]
    else s.config.order[Advance(ConfiguredDwells(s.config), start.RotationClock(), t - now).index]
  }

  // While the override of SetRotation lasts, no page moves if it disabled the rotation; with an
  // interval every page is up for just that long; and without one for its own dwell.
  lemma OverrideObeyed(s: State, enabled: bool, interval: int, duration: int, now: int, t: int, critical: set<Page>)
    requires s.Valid() && interval >= 0 && s.remote.None? && (forall p <- s.config.order :: p !in critical)
    requires now <= t < now + duration
    ensures
      var r := SetRotationSpec(s, enabled, interval, duration, now);
      UpdateSpec(r, t, critical).displayed == OverridePage(s, enabled, interval, now, t)
  {
    CalmUpdate(SetRotationSpec(s, enabled, interval, duration, now), t, critical);
    OverrideBase(s, enabled, interval, duration, now, t);
  }

  lemma OverrideBase(s: State, enabled: bool, interval: int, duration: int, now: int, t: int)
    requires s.Valid() && interval >= 0 && s.remote.None? && now <= t
    ensures Elapsed(SetRotationSpec(s, enabled, interval, duration, now), t).page == OverridePage(s, enabled, interval, now, t)
  {
    var start, r := Elapsed(s, now), SetRotationSpec(s, enabled, interval, duration, now);
    OverrideClock(s, enabled, interval, duration, now);
    ElapsedPage(r, t);
    if enabled && interval > 0 {
      UniformAdvance(Dwells(r), interval, start.index, t - now);
    }
  }

  lemma OverrideClock(s: State, enabled: bool, interval: int, duration: int, now: int)
    requires s.Valid() && interval >= 0 && s.remote.None?
    ensures
      var start, r := Elapsed(s, now), SetRotationSpec(s, enabled, interval, duration, now);
      && r.config == s.config && r.last == now && r.paused == !enabled && r.page == start.page
      && r.RotationClock() == Clock(start.index, if enabled && interval > 0 then interval else start.remaining)
      && (enabled && interval > 0 ==> Uniform(Dwells(r), interval) && |Dwells(r)| == 5)
      && (enabled && interval == 0 ==> Dwells(r) == ConfiguredDwells(s.config))
  {
  }

  lemma ElapsedPage(r: State, t: int)
    requires r.Valid() && r.last <= t
    ensures Elapsed(r, t).page == if r.paused then r.page
                                  else r.config.order[Advance(Dwells(r), r.RotationClock(), t - r.last).index]
  {
  }

  // The first update at or after its end lifts the override: the rotation runs again, from the page
  // that is up then, with the configured dwells, of which no more than the page's own is left if it
  // had been stretched.
  lemma OverrideEnds(s: State, enabled: bool, interval: int, duration: int, now: int, t: int, critical: set<Page>)
    requires s.Valid() && interval >= 0 && s.remote.None? && (forall p <- s.config.order :: p !in critical)
    requires now <= t && now + duration <= t
    ensures
      var r := SetRotationSpec(s, enabled, interval, duration, now);
      var e, end := Elapsed(r, t), UpdateSpec(r, t, critical);
      && !end.rotationOverride && !end.paused && Dwells(end) == ConfiguredDwells(s.config)
      && end.displayed == end.page == e.page && end.index == e.index
      && end.remaining == (if e.remaining > s.config.dwell[e.page] then s.config.dwell[e.page] else e.remaining)
      && (!enabled ==> e.RotationClock() == Elapsed(s, now).RotationClock())
  {
    var r := SetRotationSpec(s, enabled, interval, duration, now);
    CalmUpdate(r, t, critical);
  }

  // A remote page goes on being shown under a new override, and the base page stays where it is; the
  // override rules from the time the remote page goes, with the interval that it set.
  lemma OverrideWaits(s: State, enabled: bool, interval: int, duration: int, now: int, t: int, critical: set<Page>)
    requires s.Valid() && interval >= 0 && s.remote.Some? && (forall p <- s.config.order :: p !in critical)
    ensures
      var start, end := Elapsed(s, now), UpdateSpec(SetRotationSpec(s, enabled, interval, duration, now), t, critical);
      && end.page == start.page && end.index == start.index && end.last == t
      && end.displayed == (if t < s.remote.value.until then s.remote.value.page else start.page)
      && (t < now + duration ==>
            && end.remaining == (if enabled && interval > 0 then interval else start.remaining)
            && end.rotationOverride && end.rotationEnabled == enabled && end.rotationInterval == interval
            && end.rotationUntil == now + duration)
      && (now + duration <= t ==> !end.rotationOverride)
      && (end.paused <==> t < s.remote.value.until || (t < now + duration && !enabled))
  {
    var r := SetRotationSpec(s, enabled, interval, duration, now);
    BehindRemote(s, enabled, interval, duration, now, t);
    UncriticalChoice(OverrideExpired(RemoteExpired(Elapsed(r, t), t), t), critical);
  }

  lemma UncriticalChoice(s: State, critical: set<Page>)
    requires s.Valid() && forall p <- s.config.order :: p !in critical
    ensures
      Shown(s, critical)
      == if s.remote.Some? then s.(paused := true, displayed := s.remote.value.page, criticalActive := false)
         else s.(paused := s.rotationOverride && !s.rotationEnabled, displayed := s.page, criticalActive := false)
  {
    FirstCriticalIsFirst(s.config.order, critical);
  }

  // What an update makes of the clock and the override before it chooses.
  lemma BehindRemote(s: State, enabled: bool, interval: int, duration: int, now: int, t: int)
    requires s.Valid() && interval >= 0 && s.remote.Some?
    ensures
      var start, r := Elapsed(s, now), SetRotationSpec(s, enabled, interval, duration, now);
      var e := OverrideExpired(RemoteExpired(Elapsed(r, t), t), t);
      && e.config == s.config && e.page == start.page && e.index == start.index && e.last == t
      && e.remote == (if t < s.remote.value.until then s.remote else None)
      && (t < now + duration ==>
            && e.remaining == (if enabled && interval > 0 then interval else start.remaining)
            && e.rotationOverride && e.rotationEnabled == enabled && e.rotationInterval == interval
            && e.rotationUntil == now + duration)
      && (now + duration <= t ==> !e.rotationOverride)
  {
    var r := SetRotationSpec(s, enabled, interval, duration, now);
    assert r.paused && r.remote == s.remote;
    assert Elapsed(r, t) == r.(last := t);
  }

  // ----- SetRotation and a critical pause -----

  // Updates up to time `until`, each with a critical page.
  ghost predicate CriticalUpdates(config: RotationConfig, events: seq<Event>, until: int) {
    forall e <- events :: e.Update? && e.now <= until && exists p <- config.order :: p in e.critical
  }

  // Nothing can move the clock of s up to time `until`: it is paused or already there, and no
  // override will end on a page that has more than its own dwell left.
  ghost predicate Held(s: State, until: int) {
    && s.Valid() && (s.paused || until <= s.last)
    && (s.rotationOverride && s.rotationUntil <= until ==> s.remaining <= s.config.dwell[s.page])
  }

  // What is left of a page when the overrides are looked at.
  function Left(s: State, now: int): int
    requires s.page in s.config.dwell
  {
    var dwell := s.config.dwell[s.page];
    if s.rotationOverride && s.rotationUntil <= now && s.remaining > dwell then dwell else s.remaining
  }

  // t is what became of s at a critical update, once the clock had caught up.
  ghost predicate CriticallyUpdated(s: State, t: State, now: int)
    requires s.Valid()
  {
    && t.Valid() && t.config == s.config && t.last == s.last && t.paused
    && t.RotationClock() == Clock(s.index, Left(s, now))
    && (t.rotationOverride ==> s.rotationOverride && now < s.rotationUntil == t.rotationUntil)
  }

  lemma ExpiryThenCritical(s: State, now: int, critical: set<Page>)
    requires s.Valid() && exists p <- s.config.order :: p in critical
    ensures CriticallyUpdated(s, Shown(OverrideExpired(s, now), critical), now)
  {
    FirstCriticalIsFirst(s.config.order, critical);
  }

  lemma CriticalUpdate(s: State, now: int, critical: set<Page>)
    requires s.Valid() && exists p <- s.config.order :: p in critical
    ensures CriticallyUpdated(Elapsed(s, now), UpdateSpec(s, now, critical), now)
  {
    var e := Elapsed(s, now);
    ExpiryThenCritical(RemoteExpired(e, now), now, critical);
    assert Left(RemoteExpired(e, now), now) == Left(e, now);
  }

  lemma HeldAfter(s: State, until: int, t: State, now: int)
    requires Held(s, until) && now <= until && CriticallyUpdated(s.(last := now), t, now)
    ensures Held(t, until) && t.config == s.config && t.RotationClock() == s.RotationClock()
  {
  }

  lemma HeldStep(s: State, until: int, e: Event)
    requires Held(s, until) && CriticalUpdates(s.config, [e], until)
    ensures
      var t := Step(s, e);
      Held(t, until) && t.config == s.config && t.RotationClock() == s.RotationClock()
  {
    assert e in [e];
    CriticalUpdate(s, e.now, e.critical);
    assert Elapsed(s, e.now) == s.(last := e.now);
    HeldAfter(s, until, Step(s, e), e.now);
  }

  lemma {:induction false} HeldRun(s: State, until: int, events: seq<Event>)
    requires Held(s, until) && CriticalUpdates(s.config, events, until)
    ensures Run(s, events).RotationClock() == s.RotationClock()
    decreases |events|
  {
    if events != [] {
      assert events[0] in events;
      HeldStep(s, until, events[0]);
      HeldRun(Step(s, events[0]), until, events[1..]);
    }
  }

  lemma OneAdvance(dwells: seq<int>, c: Clock)
    requires Positive(dwells) && |dwells| > 1 && c.Ok(dwells)
    ensures
      var r := Advance(dwells, c, 1);
      r.index != c.index || r.remaining < c.remaining
  {
    var next := Next(c.index, |dwells|);
    assert Advance(dwells, Clock(next, dwells[next]), 0) == Clock(next, dwells[next]);
  }

  // One tick moves a clock that is not paused.
  lemma TickMoves(s: State, critical: set<Page>)
    requires s.Valid() && !s.paused && exists p <- s.config.order :: p in critical
    ensures UpdateSpec(s, s.last + 1, critical).RotationClock() != s.RotationClock()
  {
    OneAdvance(Dwells(s), s.RotationClock());
    CriticalUpdate(s, s.last + 1, critical);
    var e := Elapsed(s, s.last + 1);
    assert e.index != s.index || e.remaining < s.remaining;
  }

  // An override that ends on a page with more than its own dwell left cuts the rest.
  lemma EndCuts(s: State, critical: set<Page>, now: int)
    requires s.Valid() && (s.paused || now <= s.last) && exists p <- s.config.order :: p in critical
    requires s.rotationOverride && s.rotationUntil <= now && s.remaining > s.config.dwell[s.page]
    ensures UpdateSpec(s, now, critical).RotationClock() != s.RotationClock()
  {
    CriticalUpdate(s, now, critical);
    assert Elapsed(s, now) == s.(last := now);
  }

  // Whether rotation and its dwell stay frozen up to time `until` when SetRotation is called under a
  // critical page: a remote page is up, rotation is being disabled, or there is no time to move;
  // the call does not replace what is left of the page; and its override does not end in a cut.
  ghost predicate StaysFrozen(s: State, enabled: bool, interval: int, duration: int, now: int, until: int)
    requires s.Valid()
  {
    && (s.remote.Some? || !enabled || until <= now)
    && (enabled && interval > 0 ==> interval == s.remaining)
    && (now + duration <= until ==> s.remaining <= s.config.dwell[s.page])
  }

  // A critical page keeps the base page and its remaining dwell where they are, SetRotation
  // notwithstanding, exactly under that condition: whatever critical updates follow, or against some.
  lemma CriticalPauseKept(s: State, enabled: bool, interval: int, duration: int, now: int, until: int)
    requires s.Valid() && s.paused && s.criticalActive && interval >= 0
    ensures
      var t := SetRotationSpec(s, enabled, interval, duration, now);
      (forall events :: CriticalUpdates(s.config, events, until) ==> Run(t, events).RotationClock() == s.RotationClock())
      <==> StaysFrozen(s, enabled, interval, duration, now, until)
  {
    var t := SetRotationSpec(s, enabled, interval, duration, now);
    if StaysFrozen(s, enabled, interval, duration, now, until) {
      forall events | CriticalUpdates(s.config, events, until)
        ensures Run(t, events).RotationClock() == s.RotationClock()
      {
        HeldRun(t, until, events);
      }
    } else {
      var events := CriticalPauseBroken(s, enabled, interval, duration, now, until);
      assert !(CriticalUpdates(s.config, events, until) ==> Run(t, events).RotationClock() == s.RotationClock());
    }
  }

  lemma CriticalPauseBroken(s: State, enabled: bool, interval: int, duration: int, now: int, until: int)
    returns (events: seq<Event>)
    requires s.Valid() && s.paused && interval >= 0 && !StaysFrozen(s, enabled, interval, duration, now, until)
    ensures CriticalUpdates(s.config, events, until)
    ensures Run(SetRotationSpec(s, enabled, interval, duration, now), events).RotationClock() != s.RotationClock()
  {
    var t := SetRotationSpec(s, enabled, interval, duration, now);
    assert s.page in {s.page};
    if t.remaining != s.remaining {
      return [];
    }
    if !t.paused && now < until {
      TickMoves(t, {s.page});
      RunOne(t, Update(now + 1, {s.page}));
      return [Update(now + 1, {s.page})];
    } else {
      EndCuts(t, {s.page}, until);
      RunOne(t, Update(until, {s.page}));
      return [Update(until, {s.page})];
    }
  }

  lemma RunOne(s: State, e: Event)
    requires s.Valid()
    ensures Run(s, [e]) == Step(s, e)
  {
    assert [e][1..] == [];
  }

  // A concrete run: critical at 0, rotation enabled at 0, still critical 20 seconds later. The
  // base page has moved on although a critical page was up all the time.
  lemma CriticalPauseCanBeLost(config: RotationConfig)
    requires config.Valid() && config.order == ALL_PAGES
    requires forall p: Page :: config.dwell[p] == 15 * SECOND
    ensures
      var s := State(config, Coding, 0, 15 * SECOND, 0, false, None, false, true, 0, 0, Coding, false);
      var critical := UpdateSpec(s, 0, {Api});
      var enabled := SetRotationSpec(critical, true, 0, 60 * SECOND, 0);
      var later := UpdateSpec(enabled, 20 * SECOND, {Api});
      && s.Valid() && critical.criticalActive && later.criticalActive && later.displayed == Api
      && critical.index == 0 && later.index == 1
  {
    var s := State(config, Coding, 0, 15 * SECOND, 0, false, None, false, true, 0, 0, Coding, false);
    FirstCriticalIsFirst(config.order, {Api});
    assert config.order[1] in {Api};
    var enabled := SetRotationSpec(UpdateSpec(s, 0, {Api}), true, 0, 60 * SECOND, 0);
    assert Dwells(enabled)[1] == 15 * SECOND;
    assert Advance(Dwells(enabled), Clock(0, 15 * SECOND), 20 * SECOND) == Clock(1, 10 * SECOND);
  }
}
