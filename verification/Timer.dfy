/** One hardware comparator shared by deferred work, a sleeping process and demands. */
module Timers {
  import opened Words

  const UNSET: u64 := 0xffff_ffff_ffff_ffff

  /** Work that ran: its name, its deadline and when the handler ran it. */
  datatype Ran = Ran(work: nat, deadline: u64, at: u64)

  /** The comparator, the single deferred slot, the sleep of the current process, and the history of
      the work that ran. A deadline of zero means that there is none. */
  datatype Clock = Clock(shadow: u64, deferredAt: u64, work: nat, sleepAt: u64, shouldWake: bool,
                         ran: seq<Ran>)

  /** An earlier deadline of someone else is not pre-empted; unsetting always takes effect. */
  function SetCmp(c: Clock, future: u64): Clock {
    if future != UNSET && c.shadow != UNSET && c.shadow < future then c else c.(shadow := future)
  }

  function Arm(c: Clock, at: u64, work: nat): Clock {
    SetCmp(c.(deferredAt := at, work := work), at)
  }

  /** The handler clears the slot after the callback, which is taken not to arm timers. */
  function RunDeferred(c: Clock, now: u64): Clock {
    if c.deferredAt < now then
      c.(deferredAt := 0, work := 0, ran := c.ran + [Ran(c.work, c.deferredAt, now)])
    else c
  }

  function StartSleep(c: Clock, at: u64): Clock {
    SetCmp(c.(sleepAt := at), at)
  }

  function EndSleep(c: Clock): Clock {
    c.(shouldWake := false, sleepAt := 0)
  }

  function DeferredPart(c: Clock, now: u64): Clock {
    if c.deferredAt == 0 then c
    else if now > c.deferredAt then RunDeferred(c, now)
    else SetCmp(c, c.deferredAt)
  }

  function SleepPart(c: Clock, now: u64): Clock {
    if c.sleepAt == 0 then c
    else if now > c.sleepAt then c.(shouldWake := true)
    else SetCmp(c, c.sleepAt)
  }

  function Interrupt(c: Clock, now: u64): Clock {
    SleepPart(DeferredPart(SetCmp(c, UNSET), now), now)
  }

  /** No pending deadline lies before the comparator. */
  ghost predicate NoMiss(c: Clock) {
    && (c.deferredAt != 0 ==> c.shadow <= c.deferredAt)
    && (c.sleepAt != 0 && !c.shouldWake ==> c.shadow <= c.sleepAt)
  }

  /** The least deadline still waiting after an interrupt at `now`, or the unset value. */
  function LeastPending(c: Clock, now: u64): u64 {
    var d := if c.deferredAt != 0 then c.deferredAt else UNSET;
    var s := if c.sleepAt != 0 && now <= c.sleepAt then c.sleepAt else UNSET;
    Min(d, s)
  }

  /** After an interrupt the comparator is exactly the least remaining deadline, whatever it was
      before, and everything that was due has been retired. */
  lemma InterruptExact(c: Clock, now: u64)
    requires c.deferredAt != UNSET && c.sleepAt != UNSET
    ensures var c' := Interrupt(c, now);
      && c'.shadow == LeastPending(c', now)
      && c'.sleepAt == c.sleepAt
      && (c.deferredAt != 0 && now > c.deferredAt ==>
            c'.deferredAt == 0 && c'.ran == c.ran + [Ran(c.work, c.deferredAt, now)])
      && (c.deferredAt == 0 || now <= c.deferredAt ==>
            c'.deferredAt == c.deferredAt && c'.work == c.work && c'.ran == c.ran)
      && (c'.shouldWake <==> c.shouldWake || (c.sleepAt != 0 && now > c.sleepAt))
  {
  }

  // ----- runs

  datatype Event =
    | ArmAt(now: u64, whence: u64)
    | SleepFor(now: u64, duration: u64)
    | Wake
    | Demand(now: u64, timeout: u64)
    | Tick(now: u64)

  /** A run so far: the clock, the last time seen, the deadline of every piece of work ever armed
      (its name is its place), and the names of those replaced before they ran. */
  datatype History = History(clock: Clock, now: u64, deadlines: seq<u64>, dropped: seq<nat>)

  const Boot := History(Clock(UNSET, 0, 0, 0, false, []), 0, [], [])

  /** Time does not go back, deadlines are neither zero nor the unset value, a process sleeps once
      at a time and goes on only when it has been told to wake. */
  predicate Legal(h: History, e: Event) {
    match e
    case ArmAt(now, whence) => h.now <= now && 0 < Wrap64(now + whence) < UNSET
    case SleepFor(now, duration) =>
      h.now <= now && 0 < Wrap64(now + duration) < UNSET && h.clock.sleepAt == 0
    case Wake => h.clock.shouldWake
    case Demand(now, timeout) => h.now <= now && Wrap64(now + timeout) < UNSET
    case Tick(now) => h.now <= now
  }

  function Next(h: History, e: Event): History {
    match e
    case ArmAt(now, whence) =>
      var at := Wrap64(now + whence);
      History(Arm(h.clock, at, |h.deadlines|), now, h.deadlines + [at],
              if h.clock.deferredAt != 0 then h.dropped + [h.clock.work] else h.dropped)
    case SleepFor(now, duration) =>
      h.(clock := StartSleep(h.clock, Wrap64(now + duration)), now := now)
    case Wake => h.(clock := EndSleep(h.clock))
    case Demand(now, timeout) => h.(clock := SetCmp(h.clock, Wrap64(now + timeout)), now := now)
    case Tick(now) => h.(clock := Interrupt(h.clock, now), now := now)
  }

  ghost predicate LegalRun(h: History, es: seq<Event>)
    decreases |es|
  {
    es == [] || (Legal(h, es[0]) && LegalRun(Next(h, es[0]), es[1..]))
  }

  function After(h: History, es: seq<Event>): History
    decreases |es|
  {
    if es == [] then h else After(Next(h, es[0]), es[1..])
  }

  ghost predicate RanIt(h: History, w: nat) {
    exists i :: 0 <= i < |h.clock.ran| && h.clock.ran[i].work == w
  }

  /** What holds between any two steps. */
  ghost predicate Safe(h: History) {
    var c := h.clock;
    && NoMiss(c)
    && c.deferredAt != UNSET && c.sleepAt != UNSET
    // a sleeper is told to wake only after its deadline
    && (c.shouldWake ==> c.sleepAt != 0 && c.sleepAt < h.now)
    // the pending work is the one armed last
    && (c.deferredAt != 0 ==>
          h.deadlines != [] && c.work == |h.deadlines| - 1 && c.deferredAt == h.deadlines[c.work])
    // work runs in the order of arming, so never twice, and strictly after its own deadline
    && (forall i :: 0 <= i < |c.ran| ==>
          var r := c.ran[i];
          r.work < |h.deadlines| && r.deadline == h.deadlines[r.work] < r.at <= h.now)
    && (forall i, j :: 0 <= i < j < |c.ran| ==> c.ran[i].work < c.ran[j].work)
    // every piece of work is in exactly one place: pending, run or dropped
    && (forall w :: w in h.dropped ==> 0 <= w < |h.deadlines| && !RanIt(h, w))
    && (c.deferredAt != 0 ==> c.work !in h.dropped && !RanIt(h, c.work))
    && |h.deadlines| == |c.ran| + |h.dropped| + (if c.deferredAt != 0 then 1 else 0)
    && (forall i, j :: 0 <= i < j < |h.dropped| ==> h.dropped[i] < h.dropped[j])
  }

  lemma SafeNext(h: History, e: Event)
    requires Safe(h) && Legal(h, e)
    ensures Safe(Next(h, e))
  {
    var h' := Next(h, e);
    match e
    case ArmAt(now, whence) => SafeArm(h, now, whence);
    case SleepFor(_, _) =>
      assert forall w :: RanIt(h', w) == RanIt(h, w);
    case Wake =>
      assert forall w :: RanIt(h', w) == RanIt(h, w);
    case Demand(_, _) =>
      assert forall w :: RanIt(h', w) == RanIt(h, w);
    case Tick(now) => SafeTick(h, now);
  }

  lemma SafeArm(h: History, now: u64, whence: u64)
    requires Safe(h) && Legal(h, ArmAt(now, whence))
    ensures Safe(Next(h, ArmAt(now, whence)))
  {
    var h' := Next(h, ArmAt(now, whence));
    assert h'.clock.ran == h.clock.ran;
    assert forall w :: RanIt(h', w) == RanIt(h, w);
    assert !RanIt(h', |h.deadlines|);
    forall i | 0 <= i < |h.dropped| ensures h.dropped[i] < |h.deadlines| {
      assert h.dropped[i] in h.dropped;
    }
    if h.clock.deferredAt != 0 {
      forall i | 0 <= i < |h.dropped| ensures h.dropped[i] < h.clock.work {
        assert h.dropped[i] in h.dropped;
      }
    }
  }

  lemma SafeTick(h: History, now: u64)
    requires Safe(h) && Legal(h, Tick(now))
    ensures Safe(Next(h, Tick(now)))
  {
    var h' := Next(h, Tick(now));
    InterruptExact(h.clock, now);
    var c, c' := h.clock, h'.clock;
    if c.deferredAt != 0 && now > c.deferredAt {
      var last := Ran(c.work, c.deferredAt, now);
      forall w | w in h.dropped ensures !RanIt(h', w) {
        assert !RanIt(h, w) && c.work != w;
        assert forall i :: 0 <= i < |c'.ran| ==> c'.ran[i] == if i < |c.ran| then c.ran[i] else last;
      }
      forall i | 0 <= i < |c.ran| ensures c.ran[i].work < last.work {
        assert RanIt(h, c.ran[i].work);
      }
    } else {
      assert forall w :: RanIt(h', w) == RanIt(h, w);
    }
  }

  /** Over every legal run: no deadline is missed, work runs at most once and only after
      its deadline, it is lost only by being replaced, and nobody is woken early. */
  lemma {:induction false} RunSafe(h: History, es: seq<Event>)
    requires Safe(h) && LegalRun(h, es)
    ensures Safe(After(h, es))
    decreases |es|
  {
    hide Safe, Legal, Next;
    if es != [] {
      SafeNext(h, es[0]);
      RunSafe(Next(h, es[0]), es[1..]);
    }
  }

  lemma RunFromBootSafe(es: seq<Event>)
    requires LegalRun(Boot, es)
    ensures Safe(After(Boot, es))
  {
    assert Safe(Boot);
    RunSafe(Boot, es);
  }

  /** Pending work is run by the first interrupt after its deadline, unless it is replaced before. */
  lemma {:induction false} FirstDueTickRuns(h: History, es: seq<Event>, k: nat)
    requires Safe(h) && LegalRun(h, es) && h.clock.deferredAt != 0 && k < |es|
    requires forall j :: 0 <= j <= k ==> !es[j].ArmAt?
    requires es[k].Tick? && es[k].now > h.clock.deferredAt
    requires forall j :: 0 <= j < k && es[j].Tick? ==> es[j].now <= h.clock.deferredAt
    ensures After(h, es[..k]).clock.ran == h.clock.ran
    ensures var c := After(h, es[..k + 1]).clock;
      && c.ran == h.clock.ran + [Ran(h.clock.work, h.clock.deferredAt, es[k].now)]
      && c.deferredAt == 0
    decreases k
  {
    hide Safe, Next, Legal;
    var h' := Next(h, es[0]);
    SafeNext(h, es[0]);
    if k == 0 {
      DueRuns(h, es[0]);
      assert es[..1] == [es[0]];
      RunOne(h, es[0]);
    } else {
      StaysPending(h, es[0]);
      assert es[1..][k - 1] == es[k];
      FirstDueTickRuns(h', es[1..], k - 1);
      assert es[..k][0] == es[0] && es[..k][1..] == es[1..][..k - 1];
      assert es[..k + 1][0] == es[0] && es[..k + 1][1..] == es[1..][..k];
    }
  }

  lemma DueRuns(h: History, e: Event)
    requires Safe(h) && h.clock.deferredAt != 0 && e.Tick? && e.now > h.clock.deferredAt
    ensures var c := Next(h, e).clock;
      && c.ran == h.clock.ran + [Ran(h.clock.work, h.clock.deferredAt, e.now)] && c.deferredAt == 0
  {
    InterruptExact(h.clock, e.now);
  }

  lemma StaysPending(h: History, e: Event)
    requires Safe(h) && h.clock.deferredAt != 0 && !e.ArmAt?
    requires e.Tick? ==> e.now <= h.clock.deferredAt
    ensures var c := Next(h, e).clock;
      c.deferredAt == h.clock.deferredAt && c.work == h.clock.work && c.ran == h.clock.ran
  {
    InterruptKeeps(h.clock, e);
  }

  /** Steps that neither arm nor find the work due leave it pending. */
  lemma InterruptKeeps(c: Clock, e: Event)
    requires c.deferredAt != 0 && c.deferredAt != UNSET && c.sleepAt != UNSET
    requires e.Tick? ==> e.now <= c.deferredAt
    ensures e.Tick? ==> var c' := Interrupt(c, e.now);
      c'.deferredAt == c.deferredAt && c'.work == c.work && c'.ran == c.ran
  {
  }

  /** Somebody else's deadline that still lies ahead at `now` and is no later than `timeout`. */
  predicate AnotherInTime(c: Clock, timeout: u64, now: u64) {
    || (c.deferredAt != 0 && now <= c.deferredAt <= timeout)
    || (c.sleepAt != 0 && now <= c.sleepAt <= timeout)
  }

  /** A demand leaves no record but the comparator: an interrupt proceeds as if it had never been
      made. So the demand is kept over an interrupt that comes in time exactly when somebody else's
      deadline still lies ahead and is no later. */
  lemma DemandForgotten(c: Clock, timeout: u64, now: u64)
    requires c.deferredAt != UNSET && c.sleepAt != UNSET && now <= timeout < UNSET
    ensures Interrupt(SetCmp(c, timeout), now) == Interrupt(c, now)
    ensures Interrupt(SetCmp(c, timeout), now).shadow <= timeout <==> AnotherInTime(c, timeout, now)
  {
    InterruptExact(c, now);
  }

  /** A step that is no interrupt never moves the comparator back. */
  lemma OnlyTickForgets(h: History, e: Event)
    requires !e.Tick? && Legal(h, e)
    ensures Next(h, e).clock.shadow <= h.clock.shadow
  {
  }

  lemma {:induction false} KeptUntilTick(h: History, es: seq<Event>)
    requires LegalRun(h, es) && forall e :: e in es ==> !e.Tick?
    ensures After(h, es).clock.shadow <= h.clock.shadow
    decreases |es|
  {
    hide Legal, Next;
    if es != [] {
      assert es[0] in es;
      OnlyTickForgets(h, es[0]);
      KeptUntilTick(Next(h, es[0]), es[1..]);
    }
  }

  /** Setting the comparator for a deadline makes it the earlier of the two, and the value with all
      bits set clears it; arming work and going to sleep set it so and change nothing else besides
      their own deadline. */
  lemma ComparatorExact(c: Clock, at: u64, work: nat)
    requires at < 0xffff_ffff_ffff_ffff
    ensures SetCmp(c, at) == c.(shadow := Min(c.shadow, at))
    ensures SetCmp(c, 0xffff_ffff_ffff_ffff) == c.(shadow := 0xffff_ffff_ffff_ffff)
    ensures Arm(c, at, work) == c.(deferredAt := at, work := work, shadow := Min(c.shadow, at))
    ensures StartSleep(c, at) == c.(sleepAt := at, shadow := Min(c.shadow, at))
  {
  }

  /** The deadline that a step asks to be interrupted at, if it asks for one. */
  function Asked(e: Event): Option<u64> {
    match e
    case ArmAt(now, whence) => Some((now + whence) % 0x1_0000_0000_0000_0000)
    case SleepFor(now, duration) => Some((now + duration) % 0x1_0000_0000_0000_0000)
    case Demand(now, timeout) => Some((now + timeout) % 0x1_0000_0000_0000_0000)
    case Wake => None
    case Tick(_) => None
  }

  lemma AskedExact(h: History, e: Event)
    requires Legal(h, e) && !e.Tick?
    ensures Next(h, e).clock.shadow
         == if Asked(e).Some? then Min(h.clock.shadow, Asked(e).value) else h.clock.shadow
  {
  }

  /** Between interrupts the comparator is exactly the least of what it was and of all deadlines asked
      for since. */
  lemma {:induction false} LeastAsked(h: History, es: seq<Event>)
    requires LegalRun(h, es) && forall e :: e in es ==> !e.Tick?
    ensures var at := After(h, es).clock.shadow;
      && at <= h.clock.shadow && (forall e :: e in es && Asked(e).Some? ==> at <= Asked(e).value)
      && (at == h.clock.shadow || exists e :: e in es && Asked(e) == Some(at))
    decreases |es|
  {
    hide Legal, Next, Asked;
    if es != [] {
      var first, rest := es[0], es[1..];
      assert first in es && es == [first] + rest;
      AskedExact(h, first);
      LeastAsked(Next(h, first), rest);
      assert forall e :: e in es <==> e == first || e in rest;
    }
  }

  lemma {:induction false} RunAppend(h: History, es: seq<Event>, fs: seq<Event>)
    ensures LegalRun(h, es + fs) <==> LegalRun(h, es) && LegalRun(After(h, es), fs)
    ensures After(h, es + fs) == After(After(h, es), fs)
    decreases |es|
  {
    hide Legal, Next;
    if es == [] {
      assert es + fs == fs;
    } else {
      assert (es + fs)[0] == es[0] && (es + fs)[1..] == es[1..] + fs;
      RunAppend(Next(h, es[0]), es[1..], fs);
    }
  }

  lemma DemandSets(h: History, now: u64, timeout: u64)
    requires Legal(h, Demand(now, timeout))
    ensures Next(h, Demand(now, timeout)).clock.shadow <= Wrap64(now + timeout) < UNSET
  {
  }

  lemma KeptOverTick(h: History, at: u64, tick: u64)
    requires Safe(h) && tick <= at < UNSET && h.clock.shadow <= at
    ensures Next(h, Tick(tick)).clock.shadow <= at <==> AnotherInTime(h.clock, at, tick)
  {
    hide Interrupt;
    DemandForgotten(h.clock, at, tick);
  }

  lemma RunOne(h: History, e: Event)
    ensures LegalRun(h, [e]) <==> Legal(h, e)
    ensures After(h, [e]) == Next(h, e)
  {
    hide Legal, Next;
    assert [e][1..] == [] && After(h, [e]) == After(Next(h, e), []) && LegalRun(Next(h, e), []);
  }

  /** The life of a demand in a run: the comparator stays at or before its timeout until the first
      interrupt, whatever else is armed; over that interrupt, if it comes in time, it does so
      exactly when somebody else's deadline still lies ahead and is no later. */
  lemma DemandKept(h: History, now: u64, timeout: u64, es: seq<Event>, tick: u64)
    requires Safe(h) && LegalRun(h, [Demand(now, timeout)] + es + [Tick(tick)])
    requires forall e :: e in es ==> !e.Tick?
    requires tick <= Wrap64(now + timeout)
    ensures var at := Wrap64(now + timeout);
      var before := After(h, [Demand(now, timeout)] + es);
      && before.clock.shadow <= at
      && (After(h, [Demand(now, timeout)] + es + [Tick(tick)]).clock.shadow <= at
          <==> AnotherInTime(before.clock, at, tick))
  {
    hide Safe, Legal, Next, After, LegalRun, AnotherInTime, Wrap64;
    var d, t := Demand(now, timeout), Tick(tick);
    RunAppend(h, [d] + es, [t]);
    RunAppend(h, [d], es);
    RunOne(h, d);
    DemandSets(h, now, timeout);
    KeptUntilTick(Next(h, d), es);
    RunSafe(h, [d] + es);
    var before := After(h, [d] + es);
    RunOne(before, t);
    KeptOverTick(before, Wrap64(now + timeout), tick);
  }

  /** Work at 50, a demand at 100, an interrupt at 51: the comparator is unset and nothing will
      interrupt at 100. */
  lemma DemandForgottenExample()
    ensures var es := [ArmAt(0, 50), Demand(0, 100), Tick(51)];
      LegalRun(Boot, es) && After(Boot, es).clock.shadow == UNSET
  {
    var e1, e2, e3 := ArmAt(0, 50), Demand(0, 100), Tick(51);
    var h1 := Next(Boot, e1);
    var h2 := Next(h1, e2);
    var h3 := Next(h2, e3);
    assert [e1, e2, e3][1..] == [e2, e3] && [e2, e3][1..] == [e3] && [e3][1..] == [];
    assert LegalRun(h2, [e3]) && After(h2, [e3]) == h3;
    assert LegalRun(h1, [e2, e3]) && After(h1, [e2, e3]) == h3;
  }

  /** A run that goes on by one more step stays legal and safe. */
  lemma RunStep(h: History, es: seq<Event>, e: Event)
    requires Safe(h) && LegalRun(h, es) && Legal(After(h, es), e)
    ensures LegalRun(h, es + [e]) && Safe(After(h, es + [e]))
    ensures After(h, es + [e]) == Next(After(h, es), e)
  {
    hide Safe, Legal, Next, After, LegalRun;
    RunAppend(h, es, [e]);
    RunOne(After(h, es), e);
    RunSafe(h, es + [e]);
  }

  /** A sleep: it starts, interrupts come, and the sleeper goes on. */
  ghost predicate SleepRun(es: seq<Event>, now: u64, duration: u64) {
    && |es| >= 2 && es[0] == SleepFor(now, duration) && es[|es| - 1] == Wake
    && forall i :: 1 <= i < |es| - 1 ==> es[i].Tick?
  }

  /** A sleep that has not ended yet. */
  ghost predicate Asleep(h: History, es: seq<Event>, now: u64, duration: u64) {
    && es != [] && es[0] == SleepFor(now, duration) && (forall i :: 1 <= i < |es| ==> es[i].Tick?)
    && Safe(h) && LegalRun(h, es) && Safe(After(h, es))
    && After(h, es).clock.sleepAt == Wrap64(now + duration) != 0
  }

  lemma SleepStarts(h: History, now: u64, duration: u64)
    requires Safe(h) && Legal(h, SleepFor(now, duration))
    ensures Asleep(h, [SleepFor(now, duration)], now, duration)
    ensures After(h, [SleepFor(now, duration)]) == Next(h, SleepFor(now, duration))
  {
    hide Safe;
    var e := SleepFor(now, duration);
    assert LegalRun(h, []) && After(h, []) == h && [] + [e] == [e];
    RunStep(h, [], e);
  }

  /** An interrupt during a sleep; one after the deadline tells the sleeper to wake. */
  lemma SleepTick(h: History, es: seq<Event>, now: u64, duration: u64, time: u64)
    requires Asleep(h, es, now, duration) && After(h, es).now <= time
    ensures Asleep(h, es + [Tick(time)], now, duration)
    ensures After(h, es + [Tick(time)]) == Next(After(h, es), Tick(time))
    ensures time > Wrap64(now + duration) ==> After(h, es + [Tick(time)]).clock.shouldWake
  {
    hide LegalRun, After;
    RunStep(h, es, Tick(time));
    InterruptExact(After(h, es).clock, time);
    hide Safe;
  }

  /** The deadline of a sleeper is not missed, and it is over when he is told to wake. */
  lemma SleeperSafe(h: History)
    requires Safe(h) && h.clock.sleepAt != 0
    ensures !h.clock.shouldWake ==> h.clock.shadow <= h.clock.sleepAt
    ensures h.clock.shouldWake ==> h.clock.sleepAt < h.now
  {
  }

  // ----- the kernel's fields

  /** The fields that the kernel updates in place. */
  class Kernel {
    var shadowStime: u64
    var stimecmp: u64
    var deferredAt: u64
    var work: nat
    var sleepAt: u64
    var shouldWake: bool
    ghost var ran: seq<Ran>

    /** The hardware register follows its shadow. */
    ghost predicate Valid()
      reads this
    {
      stimecmp == shadowStime
    }

    ghost function View(): Clock
      reads this
    {
      Clock(shadowStime, deferredAt, work, sleepAt, shouldWake, ran)
    }

    constructor ()
      ensures Valid() && View() == Boot.clock && stimecmp == 0xffff_ffff_ffff_ffff
      ensures deferredAt == 0 && sleepAt == 0 && !shouldWake && ran == []
    {
      shadowStime, stimecmp := UNSET, UNSET;
      deferredAt, work, sleepAt, shouldWake, ran := 0, 0, 0, false, [];
    }

    method SetStimecmp(future: u64)
      requires Valid()
      modifies this`shadowStime, this`stimecmp
      ensures Valid() && View() == SetCmp(old(View()), future)
      ensures stimecmp == if future == 0xffff_ffff_ffff_ffff then future else Min(old(stimecmp), future)
    {
      if future != UNSET && shadowStime != UNSET && shadowStime < future {
        return;
      }
      shadowStime := future;
      stimecmp := future;
    }

    method UnsetStimecmp()
      requires Valid()
      modifies this`shadowStime, this`stimecmp
      ensures Valid() && View() == old(View()).(shadow := UNSET)
    {
      SetStimecmp(UNSET);
    }

    method SetDeferred(now: u64, whence: u64, item: nat)
      requires Valid()
      modifies this
      ensures Valid() && View() == Arm(old(View()), Wrap64(now + whence), item)
      ensures deferredAt == (now + whence) % 0x1_0000_0000_0000_0000 && work == item
    {
      deferredAt := Wrap64(now + whence);
      work := item;
      SetStimecmp(deferredAt);
    }

    method DoTimerDeferreds(now: u64)
      requires Valid()
      modifies this
      ensures Valid() && View() == RunDeferred(old(View()), now)
    {
      if deferredAt < now {
        ran := ran + [Ran(work, deferredAt, now)];
        work := 0;
        deferredAt := 0;
      }
    }

    method TimerInterruptHandler(stime: u64)
      requires Valid()
      modifies this
      ensures Valid() && View() == Interrupt(old(View()), stime)
    {
      UnsetStimecmp();
      if deferredAt != 0 {
        if stime > deferredAt {
          DoTimerDeferreds(stime);
        } else {
          SetStimecmp(deferredAt);
        }
      }
      if sleepAt != 0 {
        if stime > sleepAt {
          shouldWake := true;
        } else {
          SetStimecmp(sleepAt);
        }
      }
    }

    /** The hardware interrupts at `time`, which it does only when the register is not later. */
    method TakeInterrupt(time: u64, ghost h: History, ghost es: seq<Event>, ghost now: u64,
                         ghost duration: u64) returns (ghost es': seq<Event>)
      requires Valid() && stimecmp <= time
      requires Asleep(h, es, now, duration) && View() == After(h, es).clock
      requires After(h, es).now <= time
      modifies this
      ensures Valid() && Asleep(h, es', now, duration) && View() == After(h, es').clock
      ensures After(h, es').now == time
      ensures time > Wrap64(now + duration) ==> shouldWake
    {
      hide Interrupt, Asleep, LegalRun, After;
      es' := es + [Tick(time)];
      SleepTick(h, es, now, duration, time);
      TimerInterruptHandler(time);
    }

    /** Sleeps for a while. At every yield some time passes, and an interrupt may arrive if the
        register is not later than the time. Once the deadline is over that is so, because a pending
        deadline is never before the register, and an interrupt arrives in the end. The whole is a
        legal run `es` of a sleep, interrupts and a wake-up from the history `h`, so what is safe
        stays safe. */
    method NanosleepS(now: u64, duration: u64, ghost h: History) returns (woken: u64, ghost es: seq<Event>)
      requires Valid() && View() == h.clock && Safe(h)
      requires Legal(h, SleepFor(now, duration))
      modifies this
      ensures Valid() && woken > Wrap64(now + duration)
      ensures sleepAt == 0 && !shouldWake
      ensures SleepRun(es, now, duration) && LegalRun(h, es)
      ensures View() == After(h, es).clock && After(h, es).now <= woken && Safe(After(h, es))
    {
      hide Safe, LegalRun, After;
      es := [SleepFor(now, duration)];
      SleepStarts(h, now, duration);
      sleepAt := Wrap64(now + duration);
      SetStimecmp(sleepAt);
      woken := now;
      var patience: nat := *;
      while !shouldWake
        invariant Valid() && sleepAt == Wrap64(now + duration) && woken >= now
        invariant Asleep(h, es, now, duration) && View() == After(h, es).clock
        invariant After(h, es).now <= woken
        decreases patience + if shouldWake then 0 else 1
      {
        var later: u64, delivered: bool := *, *;
        if patience == 0 {
          woken := if woken > sleepAt then woken else sleepAt + 1;
          assert stimecmp <= woken by { SleeperSafe(After(h, es)); }
          es := TakeInterrupt(woken, h, es, now, duration);
        } else {
          patience := patience - 1;
          woken := if woken < later then later else woken;
          if stimecmp <= woken && delivered {
            es := TakeInterrupt(woken, h, es, now, duration);
          }
        }
      }
      SleeperSafe(After(h, es));
      RunStep(h, es, Wake);
      es := es + [Wake];
      shouldWake := false;
      sleepAt := 0;
    }
  }
}
