/** The power state against the commands themselves: which of them a device hears in a run, and
    what its sleeps have to do with their times. */
module Listening {
  import opened Standby
  import opened Words

  // ---------------------------------------------------------------------------------
  // What is heard
  // ---------------------------------------------------------------------------------

  /** The commands heard in one turn, by the power state it begins in: an awake device takes the
      second poll unless it decides to sleep; one going to sleep takes none; one that probes
      takes the first, and the second too if it heard something. */
  function HeardIn(power: Power, sleeps: bool, t: Turn): seq<nat> {
    match power
    case Awake => if sleeps then [] else t.second
    case EnteringStandby => []
    case StandbyProbe => if t.first == [] then [] else t.first + t.second
  }

  function PowerAfter(time: nat, turns: seq<Turn>): Power {
    Run(Start(time), turns).power
  }

  /** The time of the start and of every command heard since. */
  function Heard(time: nat, turns: seq<Turn>): (times: seq<nat>)
    ensures times != []
  {
    if turns == [] then [time]
    else
      var front, t := turns[..|turns| - 1], turns[|turns| - 1];
      Heard(time, front) + HeardIn(PowerAfter(time, front), PowerAfter(time, turns) == EnteringStandby, t)
  }

  function LastHeard(time: nat, turns: seq<Turn>): nat {
    Heard(time, turns)[|Heard(time, turns)| - 1]
  }

  /** The end of the last sleep, if there was one. */
  function LastWoke(time: nat, turns: seq<Turn>): nat {
    if turns == [] then 0
    else
      var front, t := turns[..|turns| - 1], turns[|turns| - 1];
      if PowerAfter(time, front) == EnteringStandby then t.check else LastWoke(time, front)
  }

  // ---------------------------------------------------------------------------------
  // The timer follows it
  // ---------------------------------------------------------------------------------

  function LastOr(times: seq<nat>, other: nat): nat {
    if times == [] then other else times[|times| - 1]
  }

  lemma {:induction false} NoteAllIs(m: Machine, times: seq<nat>)
    ensures NoteAll(m, times).lastActivity == LastOr(times, m.lastActivity)
    ensures NoteAll(m, times).power == if times == [] then m.power else Awake
    ensures NoteAll(m, times).sleeps == m.sleeps && NoteAll(m, times).prepares == m.prepares
  {
    NoteAllLast(m, times);
  }

  /** One turn moves the last activity to the last command heard in it. */
  lemma {:induction false} TurnHears(m: Machine, t: Turn)
    ensures var n := Loop(m, t);
      n.lastActivity == LastOr(HeardIn(m.power, n.power == EnteringStandby, t), m.lastActivity)
  {
    hide NoteAll, Sub, Millis;
    NoteAllIs(Prepare(m), t.first);
    NoteAllIs(Handle(m, t), t.second);
  }

  lemma {:induction false} FrontIsTimely(m: Machine, turns: seq<Turn>)
    requires TimelyRun(m, turns) && turns != []
    ensures var n := |turns| - 1; TimelyRun(m, turns[..n]) && Timely(Run(m, turns[..n]), turns[n])
  {
    hide Timely;
    var front := turns[..|turns| - 1];
    assert forall i :: 0 <= i < |front| ==> front[..i] == turns[..i] && front[i] == turns[i];
  }

  predicate Latest(times: seq<nat>, latest: nat) {
    latest in times && forall i :: 0 <= i < |times| ==> times[i] <= latest
  }

  lemma {:induction false} LatestGrows(times: seq<nat>, latest: nat, more: seq<nat>, bound: nat)
    requires Latest(times, latest) && Ordered(more) && latest <= bound
    requires forall i :: 0 <= i < |more| ==> bound <= more[i]
    ensures Latest(times + more, LastOr(more, latest))
  {}

  lemma {:induction false} HeardInOrder(m: Machine, sleeps: bool, t: Turn)
    requires Timely(m, t)
    ensures var more := HeardIn(m.power, sleeps, t);
      Ordered(more) && forall i :: 0 <= i < |more| ==> m.now <= more[i]
  {}

  /** In every timely run the time in `lastRemoteActivityMs` is that of the last command heard,
      which is the latest of all. */
  lemma {:induction false} ActivityIsHeard(time: nat, turns: seq<Turn>)
    requires TimelyRun(Start(time), turns)
    ensures var m := Run(Start(time), turns);
      && m.lastActivity == LastHeard(time, turns) && m.lastActivityMs == Millis(LastHeard(time, turns))
      && Latest(Heard(time, turns), LastHeard(time, turns))
  {
    hide Loop, Timely, Inv, Millis, HeardIn, Latest, Ordered;
    RunKeepsInv(time, turns);
    InvActivity(Run(Start(time), turns));
    if turns == [] {
      LatestOne(time);
    } else {
      var front, t := turns[..|turns| - 1], turns[|turns| - 1];
      FrontIsTimely(Start(time), turns);
      ActivityIsHeard(time, front);
      var m, n := Run(Start(time), front), Run(Start(time), turns);
      TurnHears(m, t);
      RunKeepsInv(time, front);
      InvActivity(m);
      var more := HeardIn(m.power, n.power == EnteringStandby, t);
      HeardInOrder(m, n.power == EnteringStandby, t);
      LatestGrows(Heard(time, front), m.lastActivity, more, m.now);
      assert Heard(time, turns) == Heard(time, front) + more;
    }
  }

  lemma {:induction false} LatestOne(time: nat)
    ensures Latest([time], time)
  {}

  lemma {:induction false} InvActivity(m: Machine)
    requires Inv(m)
    ensures m.lastActivityMs == Millis(m.lastActivity) && m.lastActivity <= m.now
  {}

  // ---------------------------------------------------------------------------------
  // What it means for the sleeps
  // ---------------------------------------------------------------------------------

  /** When a turn that decides to sleep does so. */
  function DecidedAt(power: Power, t: Turn): nat {
    if power == Awake then t.start else t.check
  }

  lemma {:induction false} DecisionIsRested(m: Machine, t: Turn)
    requires Inv(m) && Timely(m, t) && Loop(m, t).power == EnteringStandby
    ensures m.power != EnteringStandby
    ensures m.lastActivity == Loop(m, t).lastActivity && m.lastActivity + 60000 <= DecidedAt(m.power, t)
  {
    hide NoteAll, Sub, Millis, Justified;
    NoteAllIs(Prepare(m), t.first);
    NoteAllIs(Handle(m, t), t.second);
    LoopKeepsInv(m, t);
    ClockDifference(m.lastActivity, t.start);
  }

  /** Whenever a turn of a timely run decides to sleep, every command heard before was at least a
      minute ago, however long the turns are and however often the clock wrapped. */
  lemma {:induction false} SleepIsRested(time: nat, turns: seq<Turn>, i: nat)
    requires TimelyRun(Start(time), turns) && turns != [] && PowerAfter(time, turns) == EnteringStandby
    requires i < |Heard(time, turns)|
    ensures var n := |turns| - 1;
      Heard(time, turns)[i] + 60000 <= DecidedAt(PowerAfter(time, turns[..n]), turns[n])
  {
    hide Loop, Timely, Inv, HeardIn, Heard;
    var n := |turns| - 1;
    FrontIsTimely(Start(time), turns);
    RunKeepsInv(time, turns[..n]);
    DecisionIsRested(Run(Start(time), turns[..n]), turns[n]);
    ActivityIsHeard(time, turns);
  }

  // ---------------------------------------------------------------------------------
  // Deadlines
  // ---------------------------------------------------------------------------------

  lemma {:induction false} TurnWakes(m: Machine, t: Turn)
    ensures m.power == EnteringStandby ==>
      Loop(m, t).sleeps != [] && Loop(m, t).sleeps[|Loop(m, t).sleeps| - 1].woke == t.check
    ensures m.power != EnteringStandby ==> Loop(m, t).sleeps == m.sleeps
    ensures Loop(m, t).power == StandbyProbe ==> m.power != Awake
  {
    hide NoteAll, Sub, Millis;
    NoteAllIs(Prepare(m), t.first);
    NoteAllIs(Handle(m, t), t.second);
  }

  lemma {:induction false} SleepsEndWhen(time: nat, turns: seq<Turn>)
    ensures var m := Run(Start(time), turns);
      && LastWoke(time, turns) == (if m.sleeps == [] then 0 else m.sleeps[|m.sleeps| - 1].woke)
      && (m.power == StandbyProbe ==> m.sleeps != [])
  {
    hide Loop;
    if turns != [] {
      var n := |turns| - 1;
      SleepsEndWhen(time, turns[..n]);
      TurnWakes(Run(Start(time), turns[..n]), turns[n]);
    }
  }

  /** What a turn does, from the commands heard and the sleeps before it. */
  ghost predicate MeetsDeadlines(power: Power, heard: nat, woke: nat, t: Turn, after: Power) {
    match power
    case Awake => after == if t.start - heard >= 60000 then EnteringStandby else Awake
    case EnteringStandby => after == StandbyProbe
    case StandbyProbe =>
      after == if t.first != [] then Awake else if t.check - woke >= 7000 then EnteringStandby else StandbyProbe
  }

  lemma {:induction false} OnTimeMeans(m: Machine, t: Turn, n: Machine)
    requires OnTime(m, t, n)
    ensures var woke := if m.sleeps == [] then 0 else m.sleeps[|m.sleeps| - 1].woke;
      MeetsDeadlines(m.power, m.lastActivity, woke, t, n.power)
  {}

  lemma {:induction false} BriskIsTimely(m: Machine, turns: seq<Turn>)
    requires BriskRun(m, turns)
    ensures TimelyRun(m, turns)
  {
    hide Timely;
  }

  lemma {:induction false} FrontIsBrisk(m: Machine, turns: seq<Turn>, i: nat)
    requires BriskRun(m, turns) && i <= |turns|
    ensures BriskRun(m, turns[..i])
  {
    hide Brisk;
    var front := turns[..i];
    assert forall j :: 0 <= j < |front| ==> front[..j] == turns[..j] && front[j] == turns[j];
  }

  /** When turns are brisk: an awake device goes to sleep at the first turn that starts a minute
      or more after the last command it heard, and one that probes is woken by any command, or
      goes back to sleep 7000 ms after it woke. */
  lemma {:induction false} TurnsMeetDeadlines(time: nat, turns: seq<Turn>, i: nat)
    requires BriskRun(Start(time), turns) && i < |turns|
    ensures var before := turns[..i];
      MeetsDeadlines(PowerAfter(time, before), LastHeard(time, before), LastWoke(time, before), turns[i],
                     PowerAfter(time, turns[..i + 1]))
  {
    hide Loop, Brisk, OnTime, MeetsDeadlines, Heard, Latest;
    EveryTurnIsOnTime(time, turns, i);
    FrontIsBrisk(Start(time), turns, i);
    BriskIsTimely(Start(time), turns[..i]);
    ActivityIsHeard(time, turns[..i]);
    SleepsEndWhen(time, turns[..i]);
    OnTimeMeans(Run(Start(time), turns[..i]), turns[i], Run(Start(time), turns[..i + 1]));
  }

  // ---------------------------------------------------------------------------------
  // Preparing the networks
  // ---------------------------------------------------------------------------------

  /** Each sleep is followed by exactly one preparation of the networks, in the first turn that
      probes: there is none before that turn, and one ever after, until the next sleep. */
  lemma {:induction false} ProbePreparesOnce(time: nat, turns: seq<Turn>)
    requires TimelyRun(Start(time), turns) && turns != []
    ensures var m, n := Run(Start(time), turns[..|turns| - 1]), Run(Start(time), turns);
      match m.power
      case Awake => n.prepares == m.prepares
      case EnteringStandby => n.prepares == 0
      case StandbyProbe => n.prepares == 1
  {
    hide Timely, NoteAll, Sub, Millis, Justified;
    FrontIsTimely(Start(time), turns);
    var n := |turns| - 1;
    var m := Run(Start(time), turns[..n]);
    RunKeepsInv(time, turns[..n]);
    NoteAllIs(Prepare(m), turns[n].first);
    NoteAllIs(Handle(m, turns[n]), turns[n].second);
  }
}
