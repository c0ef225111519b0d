/** One alarm over the 32-bit tick counter, and the unbounded deadline it stands for. */
module AlarmTime {
  import opened Words

  /** The two fields of an alarm that the tick handler consults. */
  datatype Setting = Setting(time: Word, rollover: bool)

  /** What starting an alarm of `delay` ticks stores when the counter shows `nticks`. */
  function Arm(nticks: Word, delay: Word): Setting {
    var time := Wrap(delay + nticks + 1);
    Setting(time, time < nticks)
  }

  /** The rollover flag is dropped on the tick that takes the counter to zero. */
  function AtTick(a: Setting, nticks: Word): Setting {
    if a.rollover && nticks == 0 then a.(rollover := false) else a
  }

  predicate Expired(a: Setting, nticks: Word) {
    a.time <= nticks && !a.rollover
  }

  /** After the callback asked to be called again `again` ticks later. */
  function Rearm(a: Setting, nticks: Word, again: Word): Setting {
    var time := Wrap(a.time + again);
    Setting(time, time < nticks || a.rollover)
  }

  function TickAlarm(a: Setting, nticks: Word, again: Word): Setting {
    var b := AtTick(a, nticks);
    if Expired(b, nticks) then Rearm(b, nticks, again) else b
  }

  predicate Fires(a: Setting, nticks: Word) {
    Expired(AtTick(a, nticks), nticks)
  }

  /**
   `a` stands for the deadline `due` at tick `now`.  A deadline lies ahead by
   less than a full turn of the counter; the two other cases are what becomes
   of a delay of a full turn.
   */
  predicate StandsFor(a: Setting, due: nat, now: nat) {
    && a.time == Wrap(due)
    && if now < due < now + M then a.rollover == (due / M != now / M)
       else !a.rollover && due == if Wrap(now) == M - 1 then now + M else now
  }

  /** The deadline of an alarm whose handler asks, at tick `now`, to be called again. */
  function NextDue(due: nat, now: nat, again: Word): nat {
    if due + again == now && Wrap(now) == M - 1 then now + M else due + again
  }

  /** The deadline after the tick that made the time `now`. */
  function MovedDue(due: nat, now: nat, again: Word): nat {
    if due <= now then NextDue(due, now, again) else due
  }

  /** The deadline a new alarm gets. */
  function FirstDue(now: nat, delay: Word): nat {
    if delay == M - 1 && Wrap(now) != M - 1 then now else now + delay + 1
  }

  lemma Divide(n: nat)
    ensures n == M * (n / M) + Wrap(n) && 0 <= n / M
  {
  }

  lemma Reduce(n: nat, q: nat, r: Word)
    requires n == M * q + r
    ensures Wrap(n) == r && n / M == q
  {
  }

  lemma AddWrapped(n: nat, k: nat)
    ensures Wrap(Wrap(n) + k) == Wrap(n + k)
  {
    Divide(n);
    Divide(Wrap(n) + k);
    Reduce(n + k, n / M + (Wrap(n) + k) / M, Wrap(Wrap(n) + k));
  }

  /** Less than a turn ahead, the reduced time is behind the counter exactly if the epoch changes. */
  lemma AheadByLessThanATurn(due: nat, now: nat)
    requires now <= due < now + M
    ensures Wrap(due) < Wrap(now) <==> due / M != now / M
    ensures due / M == now / M ==> Wrap(due) - Wrap(now) == due - now
    ensures due / M != now / M ==> due / M == now / M + 1
  {
    Divide(due);
    Divide(now);
  }

  lemma NextTick(now: nat)
    ensures Wrap(now + 1) == if Wrap(now) == M - 1 then 0 else Wrap(now) + 1
    ensures (now + 1) / M == if Wrap(now) == M - 1 then now / M + 1 else now / M
  {
    Divide(now);
    if Wrap(now) == M - 1 {
      Reduce(now + 1, now / M + 1, 0);
    } else {
      Reduce(now + 1, now / M, Wrap(now) + 1);
    }
  }

  lemma ArmStandsFor(now: nat, delay: Word)
    ensures StandsFor(Arm(Wrap(now), delay), FirstDue(now, delay), now)
  {
    AddWrapped(now, delay + 1);
    var due := now + delay + 1;
    if delay < M - 1 {
      AheadByLessThanATurn(due, now);
    } else {
      Divide(now);
      Reduce(due, now / M + 1, Wrap(now));
    }
  }

  /** A tick fires an alarm exactly when its deadline is reached, and keeps the correspondence. */
  lemma TickStandsFor(a: Setting, due: nat, now: nat, again: Word)
    requires StandsFor(a, due, now)
    ensures var n := Wrap(now + 1);
            && (Fires(a, n) <==> due <= now + 1)
            && (!Fires(a, n) ==> StandsFor(AtTick(a, n), due, now + 1))
            && (Fires(a, n) && again > 0 ==> StandsFor(TickAlarm(a, n, again), NextDue(due, now + 1, again), now + 1))
  {
    TickFires(a, due, now);
    if Fires(a, Wrap(now + 1)) && again > 0 {
      RearmStandsFor(a, due, now, again);
    }
  }

  lemma TickFires(a: Setting, due: nat, now: nat)
    requires StandsFor(a, due, now)
    ensures var n := Wrap(now + 1);
            && (Fires(a, n) <==> due <= now + 1)
            && (!Fires(a, n) ==> StandsFor(AtTick(a, n), due, now + 1))
  {
    NextTick(now);
    Divide(now);
    Divide(due);
    if now < due < now + M {
      AheadByLessThanATurn(due, now);
      AheadByLessThanATurn(due, now + 1);
    } else if due == now + M {
      AheadByLessThanATurn(due, now + 1);
    }
  }

  lemma RearmStandsFor(a: Setting, due: nat, now: nat, again: Word)
    requires StandsFor(a, due, now) && due <= now + 1 && again > 0 && Fires(a, Wrap(now + 1))
    ensures StandsFor(TickAlarm(a, Wrap(now + 1), again), NextDue(due, now + 1, again), now + 1)
  {
    AddWrapped(due, again);
    AheadByLessThanATurn(due + again, now + 1);
    if due + again == now + 1 {
      NextTick(now);
      Divide(now + 1);
      Reduce(now + 1 + M, (now + 1) / M + 1, Wrap(now + 1));
    }
  }

  /**
   The ticks at which an alarm's callback runs.  `answers[i]` is what the
   callback would return on the i-th tick from `now`; zero ends the alarm.
   */
  function Firings(a: Setting, now: nat, answers: seq<Word>): seq<nat>
    decreases |answers|
  {
    if answers == [] then []
    else
      var n := Wrap(now + 1);
      if !Fires(a, n) then Firings(AtTick(a, n), now + 1, answers[1..])
      else if answers[0] == 0 then [now + 1]
      else [now + 1] + Firings(TickAlarm(a, n, answers[0]), now + 1, answers[1..])
  }

  /** The same for a deadline that never wraps: it fires when reached, and moves on by what was asked. */
  function IdealFirings(due: nat, now: nat, answers: seq<Word>): seq<nat>
    decreases |answers|
  {
    if answers == [] then []
    else if due != now + 1 then IdealFirings(due, now + 1, answers[1..])
    else if answers[0] == 0 then [now + 1]
    else [now + 1] + IdealFirings(due + answers[0], now + 1, answers[1..])
  }

  lemma {:induction false} FiringsAreIdeal(a: Setting, due: nat, now: nat, answers: seq<Word>)
    requires StandsFor(a, due, now) && due > now
    ensures Firings(a, now, answers) == IdealFirings(due, now, answers)
    decreases |answers|
  {
    if answers != [] {
      var n, c := Wrap(now + 1), answers[0];
      TickStandsFor(a, due, now, c);
      if !Fires(a, n) {
        FiringsAreIdeal(AtTick(a, n), due, now + 1, answers[1..]);
      } else if c > 0 {
        FiringsAreIdeal(TickAlarm(a, n, c), due + c, now + 1, answers[1..]);
      }
    }
  }

  /** An alarm started with `delay` at tick `now` behaves on every run as the deadline `now + delay + 1` does. */
  ghost predicate Exact(now: nat, delay: Word) {
    forall answers: seq<Word> ::
      Firings(Arm(Wrap(now), delay), now, answers) == IdealFirings(now + delay + 1, now, answers)
  }

  /**
   An alarm fires first on the tick `delay + 1` ticks after it was started,
   and from then on exactly as many ticks apart as its callback asks, across
   every wrap of the counter; except that the longest delay fires on the very
   next tick, unless the counter is about to wrap.
   */
  lemma ExactUnlessLongest(now: nat, delay: Word)
    ensures Exact(now, delay) <==> delay != M - 1 || Wrap(now) == M - 1
  {
    ArmStandsFor(now, delay);
    var a := Arm(Wrap(now), delay);
    if delay != M - 1 || Wrap(now) == M - 1 {
      forall answers: seq<Word> ensures Firings(a, now, answers) == IdealFirings(now + delay + 1, now, answers) {
        FiringsAreIdeal(a, now + delay + 1, now, answers);
      }
    } else {
      TickFires(a, now, now);
      assert Firings(a, now, [0]) == [now + 1];
      assert IdealFirings(now + delay + 1, now, [0]) == [];
    }
  }

  /** The i-th firing comes as long after the one before as the callback asked there. */
  predicate Spaced(f: seq<nat>, i: nat, now: nat, answers: seq<Word>)
    requires 0 < i < |f|
  {
    && now < f[i - 1] < f[i] && f[i - 1] - now - 1 < |answers|
    && f[i] - f[i - 1] == answers[f[i - 1] - now - 1]
  }

  /** When the first firing comes and how far apart later ones are. */
  lemma {:induction false} IdealSpacing(due: nat, now: nat, answers: seq<Word>)
    requires now < due
    ensures IdealFirings(due, now, answers) != [] <==> due <= now + |answers|
    ensures IdealFirings(due, now, answers) != [] ==> IdealFirings(due, now, answers)[0] == due
    ensures forall i: nat | 0 < i < |IdealFirings(due, now, answers)| :: Spaced(IdealFirings(due, now, answers), i, now, answers)
    decreases |answers|
  {
    if answers == [] {
    } else if due != now + 1 {
      IdealSpacing(due, now + 1, answers[1..]);
      forall i: nat | 0 < i < |IdealFirings(due, now, answers)|
        ensures Spaced(IdealFirings(due, now, answers), i, now, answers)
      {
        assert Spaced(IdealFirings(due, now + 1, answers[1..]), i, now + 1, answers[1..]);
      }
    } else if answers[0] > 0 {
      IdealSpacing(due + answers[0], now + 1, answers[1..]);
      var g := IdealFirings(due + answers[0], now + 1, answers[1..]);
      forall i: nat | 0 < i < |IdealFirings(due, now, answers)|
        ensures Spaced(IdealFirings(due, now, answers), i, now, answers)
      {
        if i > 1 {
          assert Spaced(g, i - 1, now + 1, answers[1..]);
        }
      }
    }
  }
}

/** The tick counter and the list of registered alarms. */
module Alarms {
  import opened Words
  import opened Lists
  import opened AlarmTime

  datatype Status = Started | NoSystemClock | NoAlarm

  /** The members of `xs` that are in `keep`, in order. */
  function Select<T(==)>(xs: seq<T>, keep: set<T>): seq<T> {
    if xs == [] then []
    else Select(xs[..|xs| - 1], keep) + if xs[|xs| - 1] in keep then [xs[|xs| - 1]] else []
  }

  lemma {:induction false} SelectMembers<T>(xs: seq<T>, keep: set<T>)
    ensures forall i :: 0 <= i < |Select(xs, keep)| ==> Select(xs, keep)[i] in xs && Select(xs, keep)[i] in keep
    ensures forall i :: 0 <= i < |xs| && xs[i] in keep ==> xs[i] in Select(xs, keep)
    ensures NoRepeats(xs) ==> NoRepeats(Select(xs, keep))
  {
    if xs != [] {
      SelectMembers(xs[..|xs| - 1], keep);
      assert xs == xs[..|xs| - 1] + [xs[|xs| - 1]];
    }
  }

  class Alarm {
    var time: Word
    var rollover: bool

    function Read(): Setting
      reads this
    {
      Setting(time, rollover)
    }

    /** One alarm's turn in the tick handler: whether it fired, its callback having returned `again` if so. */
    method Service(nticks: Word, again: Word) returns (fired: bool)
      modifies this
      ensures fired <==> Fires(old(Read()), nticks)
      ensures Read() == if fired && again == 0 then AtTick(old(Read()), nticks) else TickAlarm(old(Read()), nticks, again)
    {
      if rollover && nticks == 0 {
        rollover := false;
      }
      fired := time <= nticks && !rollover;
      if fired && again != 0 {
        time := Wrap(time + again);
        if time < nticks {
          rollover := true;
        }
      }
    }

    /** The same turn seen through the deadline the alarm stands for. */
    method ServiceDue(nticks: Word, again: Word, ghost due: nat, ghost now: nat) returns (fired: bool)
      requires StandsFor(Read(), due, now) && nticks == Wrap(now + 1)
      modifies this
      ensures fired <==> due <= now + 1
      ensures !fired || again > 0 ==> StandsFor(Read(), MovedDue(due, now + 1, again), now + 1)
    {
      TickStandsFor(Read(), due, now, again);
      hide StandsFor, Fires, TickAlarm, Wrap, NextDue;
      fired := Service(nticks, again);
    }

    /** The same turn among the alarms already served and those still to come. */
    method ServiceAmong(nticks: Word, again: Word, ghost kept: seq<Alarm>, ghost rest: seq<Alarm>,
                        ghost due: map<Alarm, nat>, ghost due': map<Alarm, nat>, ghost now: nat)
      returns (fired: bool)
      requires this !in kept && this !in rest && nticks == Wrap(now + 1)
      requires AllStand(kept, due', now + 1) && AllStand(rest, due, now)
      requires this in due && StandsFor(Read(), due[this], now)
      requires this in due' && due'[this] == MovedDue(due[this], now + 1, again)
      modifies this
      ensures fired <==> due[this] <= now + 1
      ensures AllStand(rest, due, now)
      ensures AllStand(kept + if fired && again == 0 then [] else [this], due', now + 1)
    {
      hide StandsFor, Wrap, MovedDue;
      fired := ServiceDue(nticks, again, due[this], now);
    }
  }

  /** Every alarm of `xs` stands for its deadline in `due`. */
  ghost predicate AllStand(xs: seq<Alarm>, due: map<Alarm, nat>, now: nat)
    reads xs
  {
    forall a :: a in xs ==> a in due && StandsFor(a.Read(), due[a], now)
  }

  /** What the alarms' callbacks will return if they are called on the coming tick. */
  type Answers = map<Alarm, Word>

  /** The alarms whose deadline has come by tick `now`. */
  ghost function DueBy(alarms: seq<Alarm>, due: map<Alarm, nat>, now: nat): set<Alarm>
    requires forall a :: a in alarms ==> a in due
  {
    set a | a in alarms && due[a] <= now
  }

  /** The alarms that stay registered over that tick. */
  ghost function Staying(alarms: seq<Alarm>, due: map<Alarm, nat>, now: nat, answers: Answers): set<Alarm>
    requires forall a :: a in alarms ==> a in due && a in answers
  {
    set a | a in alarms && (due[a] <= now ==> answers[a] > 0)
  }

  class AlarmList {
    var tickRate: Word
    var nticks: Word
    var alarms: seq<Alarm>

    ghost var now: nat                // ticks since reset, never wrapping
    ghost var due: map<Alarm, nat>    // the deadline each registered alarm stands for

    ghost predicate Valid()
      reads this, alarms
    {
      nticks == Wrap(now) && NoRepeats(alarms) && AllStand(alarms, due, now)
    }

    constructor (rate: Word)
      ensures Valid() && tickRate == rate && now == 0 && alarms == []
    {
      tickRate, nticks, alarms := rate, 0, [];
      now, due := 0, map[];
    }

    /** Register `alarm` to run `delay` ticks from now, counting only whole ones. */
    method Start(alarm: Alarm?, delay: Word) returns (status: Status)
      requires Valid() && alarm !in alarms
      modifies `alarms, `due, alarm
      ensures Valid()
      ensures status == if tickRate == 0 then NoSystemClock else if alarm == null then NoAlarm else Started
      ensures status.Started? ==> alarms == [alarm] + old(alarms) && due == old(due)[alarm := FirstDue(now, delay)]
      ensures !status.Started? ==> alarms == old(alarms) && due == old(due)
      ensures alarm != null ==> alarm.Read() == if status.Started? then Arm(nticks, delay) else old(alarm.Read())
    {
      if tickRate != 0 {
        if alarm != null {
          ArmStandsFor(now, delay);
          alarm.time := Wrap(delay + nticks + 1);
          alarm.rollover := alarm.time < nticks;
          alarms := [alarm] + alarms;
          due := due[alarm := FirstDue(now, delay)];
          return Started;
        }
        return NoAlarm;
      }
      return NoSystemClock;
    }

    /**
     Take `alarm` off the list; harmless if it has left the list already.  The
     links of an alarm that was never started point nowhere, and stopping one is
     not covered: here it would change nothing.
     */
    method Stop(alarm: Alarm)
      requires Valid()
      modifies `alarms
      ensures Valid() && alarms == Select(old(alarms), (set a | a in old(alarms)) - {alarm})
    {
      ghost var keep := (set a | a in alarms) - {alarm};
      SelectMembers(alarms, keep);
      var i := 0;
      while i < |alarms| && alarms[i] != alarm
        invariant i <= |alarms| && alarm !in alarms[..i]
      {
        i := i + 1;
      }
      SelectRest(alarms, i, keep);
      if i < |alarms| {
        alarms := alarms[..i] + alarms[i + 1..];
      }
    }

    /**
     Count a tick and run, in list order, the callback of every alarm whose
     deadline has come.  An alarm whose callback returns zero is dropped.
     */
    method Tick(answers: Answers) returns (ran: seq<Alarm>)
      requires Valid() && forall a :: a in alarms ==> a in answers
      modifies this, alarms
      ensures Valid() && now == old(now) + 1 && tickRate == old(tickRate)
      ensures ran == Select(old(alarms), DueBy(old(alarms), old(due), old(now) + 1))
      ensures alarms == Select(old(alarms), Staying(old(alarms), old(due), old(now) + 1, answers))
      ensures due == MovedDues(old(alarms), old(due), now, answers)
    {
      hide Wrap, NoRepeats, Select, MovedDues, DueBy, Staying;
      AddWrapped(now, 1);
      nticks := Wrap(nticks + 1);
      ghost var due' := MovedDues(alarms, due, now + 1, answers);
      ran := RunCallbacks(answers);
      now := now + 1;
      due := due';
    }

    /** Walk the list with the counter already advanced. */
    method RunCallbacks(answers: Answers) returns (ran: seq<Alarm>)
      requires NoRepeats(alarms) && nticks == Wrap(now + 1)
      requires AllStand(alarms, due, now) && forall a :: a in alarms ==> a in answers && a in due
      modifies `alarms, alarms
      ensures ran == Select(old(alarms), DueBy(old(alarms), due, now + 1))
      ensures alarms == Select(old(alarms), Staying(old(alarms), due, now + 1, answers))
      ensures NoRepeats(alarms) && AllStand(alarms, MovedDues(old(alarms), due, now + 1, answers), now + 1)
    {
      hide StandsFor, Wrap, NextDue, MovedDue, MovedDues, Select, NoRepeats, Staying, DueBy, AllStand, Rest, SelectFirst;
      ghost var walk, stay, first := alarms, Staying(alarms, due, now + 1, answers), DueBy(alarms, due, now + 1);
      ghost var due' := MovedDues(alarms, due, now + 1, answers);
      ran := [];
      var i := 0;
      ghost var k, kept := 0, [];
      NothingYet(walk, stay, first, due', now + 1);
      while i < |alarms|
        invariant k <= |walk| && i == |kept| && alarms == kept + Rest(walk, k) && NoRepeats(alarms)
        invariant kept == SelectFirst(walk, k, stay) && ran == SelectFirst(walk, k, first)
        invariant AllStand(kept, due', now + 1) && AllStand(Rest(walk, k), due, now)
        decreases |walk| - k
      {
        RestIsShorter(walk, k);
        SelectStep(walk, k, stay);
        SelectStep(walk, k, first);
        Turn(alarms, kept, walk[k], Rest(walk, k + 1));
        OneOf(walk, k, due, now, answers);
        var alarm := alarms[i];
        var fired := alarm.ServiceAmong(nticks, answers[alarm], kept, Rest(walk, k + 1), due, due', now);
        if fired {
          ran := ran + [alarm];
        }
        if fired && answers[alarm] == 0 {
          alarms := alarms[..i] + alarms[i + 1..];
        } else {
          kept := kept + [alarm];
          i := i + 1;
        }
        k := k + 1;
      }
      RestIsShorter(walk, k);
    }
  }

  /** The deadlines after a tick. */
  ghost function MovedDues(alarms: seq<Alarm>, due: map<Alarm, nat>, now: nat, answers: Answers): map<Alarm, nat>
    requires forall a :: a in alarms ==> a in due && a in answers
  {
    map a | a in alarms :: MovedDue(due[a], now, answers[a])
  }

  /** What the walk has still to visit after `k` alarms. */
  ghost function Rest<T>(walk: seq<T>, k: nat): seq<T>
    requires k <= |walk|
  {
    walk[k..]
  }

  ghost function SelectFirst<T>(walk: seq<T>, k: nat, keep: set<T>): seq<T>
    requires k <= |walk|
  {
    Select(walk[..k], keep)
  }

  lemma NothingYet(walk: seq<Alarm>, stay: set<Alarm>, first: set<Alarm>, due: map<Alarm, nat>, now: nat)
    ensures SelectFirst(walk, 0, stay) == [] && SelectFirst(walk, 0, first) == []
    ensures Rest(walk, 0) == walk == [] + Rest(walk, 0) && AllStand([], due, now)
  {
  }

  lemma RestIsShorter<T>(walk: seq<T>, k: nat)
    requires k <= |walk|
    ensures |Rest(walk, k)| == |walk| - k
    ensures k == |walk| ==> Rest(walk, k) == [] && forall keep :: SelectFirst(walk, k, keep) == Select(walk, keep)
  {
    if k == |walk| {
      assert walk[..k] == walk;
    }
  }

  lemma OneOf(walk: seq<Alarm>, k: nat, due: map<Alarm, nat>, now: nat, answers: Answers)
    requires k < |walk| && AllStand(Rest(walk, k), due, now)
    requires forall a :: a in walk ==> a in due && a in answers
    ensures var a := walk[k];
            && StandsFor(a.Read(), due[a], now) && AllStand(Rest(walk, k + 1), due, now)
            && (a in DueBy(walk, due, now + 1) <==> due[a] <= now + 1)
            && (a in Staying(walk, due, now + 1, answers) <==> due[a] > now + 1 || answers[a] > 0)
            && a in MovedDues(walk, due, now + 1, answers)
            && MovedDues(walk, due, now + 1, answers)[a] == MovedDue(due[a], now + 1, answers[a])
  {
    hide StandsFor, MovedDue;
    assert walk[k] in walk[k..];
    assert walk[k..][1..] == walk[k + 1..];
  }

  lemma SelectStep<T>(xs: seq<T>, k: nat, keep: set<T>)
    requires k < |xs|
    ensures SelectFirst(xs, k + 1, keep) == SelectFirst(xs, k, keep) + if xs[k] in keep then [xs[k]] else []
    ensures Rest(xs, k) == [xs[k]] + Rest(xs, k + 1)
  {
    assert xs[..k + 1][..k] == xs[..k];
  }

  lemma Turn<T>(xs: seq<T>, before: seq<T>, x: T, after: seq<T>)
    requires xs == before + ([x] + after) && NoRepeats(xs)
    ensures |before| < |xs| && xs[|before|] == x && xs == before + [x] + after
    ensures NoRepeats(before + after) && x !in before && x !in after
    ensures xs[..|before|] + xs[|before| + 1..] == before + after
  {
    var n := |before|;
    forall i, j | 0 <= i < j < |before + after| ensures (before + after)[i] != (before + after)[j] {
      assert xs[if i < n then i else i + 1] != xs[if j < n then j else j + 1];
    }
    forall i | 0 <= i < n ensures before[i] != x {
      assert xs[i] != xs[n];
    }
    forall i | 0 <= i < |after| ensures after[i] != x {
      assert xs[n] != xs[n + 1 + i];
    }
  }

  lemma SelectRest<T>(xs: seq<T>, i: nat, keep: set<T>)
    requires i <= |xs| && NoRepeats(xs) && forall x :: x in xs[..i] ==> x in keep
    requires forall j :: i < j < |xs| ==> xs[j] in keep
    requires i < |xs| ==> xs[i] !in keep
    ensures Select(xs, keep) == if i < |xs| then xs[..i] + xs[i + 1..] else xs
  {
    if i < |xs| {
      SelectAfter(xs, i, |xs|, keep);
      assert xs[..|xs|] == xs;
    } else {
      SelectAll(xs, keep);
    }
  }

  lemma {:induction false} SelectAll<T>(xs: seq<T>, keep: set<T>)
    requires forall x :: x in xs ==> x in keep
    ensures Select(xs, keep) == xs
  {
    if xs != [] {
      SelectAll(xs[..|xs| - 1], keep);
      assert xs == xs[..|xs| - 1] + [xs[|xs| - 1]];
    }
  }

  lemma {:induction false} SelectAfter<T>(xs: seq<T>, i: nat, n: nat, keep: set<T>)
    requires i < n <= |xs| && (forall x :: x in xs[..i] ==> x in keep) && xs[i] !in keep
    requires forall j :: i < j < n ==> xs[j] in keep
    ensures Select(xs[..n], keep) == xs[..i] + xs[i + 1..n]
    decreases n
  {
    assert xs[..n][..n - 1] == xs[..n - 1];
    if n == i + 1 {
      SelectAll(xs[..i], keep);
    } else {
      SelectAfter(xs, i, n - 1, keep);
      assert xs[i + 1..n] == xs[i + 1..n - 1] + [xs[n - 1]];
    }
  }
}
