/** The power state of the device: awake, going to sleep, or probing for commands after a timed
    sleep, driven by a millisecond clock of 32 bits. */
module Standby {
  import opened Words

  const STANDBY_AFTER_MS: nat := 60000
  const PROBE_WINDOW_MS: nat := 7000

  datatype Power = Awake | EnteringStandby | StandbyProbe

  /** A sleep, in real time: when it was decided, the last activity before that, and when the
      device woke. */
  datatype Sleep = Sleep(decided: nat, lastActivity: nat, woke: nat)

  /** The globals of the state machine, and its history in real time: the end of the last turn,
      the last activity, the last decision to sleep, the sleeps, and how often the networks were
      prepared since the last one. */
  datatype Machine = Machine(
    power: Power, lastActivityMs: Word, probeStartMs: Word, prepared: bool,
    now: nat, lastActivity: nat, decided: nat, sleeps: seq<Sleep>, prepares: nat)

  /** One turn of `loop`: when it starts, when commands arrive in its first and its second
      poll, when the timers are read again in between, and when it ends. */
  datatype Turn = Turn(start: nat, first: seq<nat>, check: nat, second: seq<nat>, end: nat)

  predicate Within(times: seq<nat>, low: nat, high: nat) {
    low <= high && forall i :: 0 <= i < |times| ==> low <= times[i] <= high
  }

  predicate Ordered(times: seq<nat>) {
    forall i, j :: 0 <= i < j < |times| ==> times[i] <= times[j]
  }

  predicate Timely(m: Machine, t: Turn) {
    && m.now <= t.start && Within(t.first, t.start, t.check) && Within(t.second, t.check, t.end)
    && Ordered(t.first) && Ordered(t.second)
  }

  function Millis(time: nat): Word {
    time % MODULUS
  }

  function Start(time: nat): Machine {
    Machine(Awake, Millis(time), 0, false, time, time, 0, [], 0)
  }

  // ---------------------------------------------------------------------------------
  // Steps
  // ---------------------------------------------------------------------------------

  /** `noteRemoteActivity` */
  function Note(m: Machine, at: nat): Machine {
    var n := m.(lastActivityMs := Millis(at), lastActivity := at);
    if m.power != Awake then n.(power := Awake, prepared := false) else n
  }

  function NoteAll(m: Machine, times: seq<nat>): Machine {
    if times == [] then m else Note(NoteAll(m, times[..|times| - 1]), times[|times| - 1])
  }

  /** `prepareNetworksForStandbyProbe` */
  function Prepare(m: Machine): Machine {
    if m.prepared then m else m.(prepared := true, prepares := m.prepares + 1)
  }

  /** `enterTimedStandby` */
  function Enter(m: Machine, woke: nat): Machine {
    m.(power := StandbyProbe, probeStartMs := Millis(woke), prepared := false,
       sleeps := m.sleeps + [Sleep(m.decided, m.lastActivity, woke)], prepares := 0)
  }

  function Decide(m: Machine, at: nat): Machine {
    m.(power := EnteringStandby, decided := at)
  }

  /** `handleRemotePowerState` */
  function Handle(m: Machine, t: Turn): Machine {
    match m.power
    case Awake => if Sub(Millis(t.start), m.lastActivityMs) >= STANDBY_AFTER_MS then Decide(m, t.start) else m
    case EnteringStandby => Enter(m, t.check)
    case StandbyProbe =>
      var p := NoteAll(Prepare(m), t.first);
      if p.power == Awake then p
      else if Sub(Millis(t.check), p.probeStartMs) >= PROBE_WINDOW_MS then Decide(p, t.check)
      else p
  }

  /** `loop` */
  function Loop(m: Machine, t: Turn): Machine {
    var h := Handle(m, t);
    (if h.power == Awake then NoteAll(h, t.second) else h).(now := t.end)
  }

  function Run(m: Machine, turns: seq<Turn>): Machine {
    if turns == [] then m else Loop(Run(m, turns[..|turns| - 1]), turns[|turns| - 1])
  }

  predicate TimelyRun(m: Machine, turns: seq<Turn>) {
    forall i :: 0 <= i < |turns| ==> Timely(Run(m, turns[..i]), turns[i])
  }

  class PowerMachine {
    var power: Power
    var lastActivityMs: Word
    var probeStartMs: Word
    var prepared: bool
    ghost var now: nat
    ghost var lastActivity: nat
    ghost var decided: nat
    ghost var sleeps: seq<Sleep>
    ghost var prepares: nat

    constructor (time: nat)
      ensures State() == Start(time)
    {
      power, lastActivityMs, probeStartMs, prepared := Awake, Millis(time), 0, false;
      now, lastActivity, decided, sleeps, prepares := time, time, 0, [], 0;
    }

    ghost function State(): Machine
      reads this
    {
      Machine(power, lastActivityMs, probeStartMs, prepared, now, lastActivity, decided, sleeps, prepares)
    }

    method NoteRemoteActivity(at: nat)
      modifies this
      ensures State() == Note(old(State()), at)
    {
      lastActivityMs, lastActivity := Millis(at), at;
      if power != Awake {
        power := Awake;
        prepared := false;
      }
    }

    /** `pollMqtt`, when the commands that arrive are authentic. */
    method PollMqtt(times: seq<nat>)
      modifies this
      ensures State() == NoteAll(old(State()), times)
    {
      for i := 0 to |times|
        invariant State() == NoteAll(old(State()), times[..i])
      {
        NoteRemoteActivity(times[i]);
        assert times[..i + 1][..i] == times[..i];
      }
      assert times[..|times|] == times;
    }

    method PrepareNetworksForStandbyProbe()
      modifies this
      ensures State() == Prepare(old(State()))
    {
      if prepared {
        return;
      }
      prepared, prepares := true, prepares + 1;
    }

    method EnterTimedStandby(woke: nat)
      modifies this
      ensures State() == Enter(old(State()), woke)
    {
      sleeps, prepares := sleeps + [Sleep(decided, lastActivity, woke)], 0;
      probeStartMs := Millis(woke);
      prepared := false;
      power := StandbyProbe;
    }

    method HandleRemotePowerState(t: Turn)
      modifies this
      ensures State() == Handle(old(State()), t)
    {
      hide NoteAll;
      var start := Millis(t.start);
      if power == Awake {
        if Sub(start, lastActivityMs) >= STANDBY_AFTER_MS {
          power, decided := EnteringStandby, t.start;
        }
        return;
      }
      if power == EnteringStandby {
        EnterTimedStandby(t.check);
        return;
      }
      PrepareNetworksForStandbyProbe();
      PollMqtt(t.first);
      if power == Awake {
        return;
      }
      if Sub(Millis(t.check), probeStartMs) >= PROBE_WINDOW_MS {
        power, decided := EnteringStandby, t.check;
      }
    }

    method RunLoop(t: Turn)
      modifies this
      ensures State() == Loop(old(State()), t)
    {
      hide NoteAll, Handle;
      HandleRemotePowerState(t);
      if power != Awake {
        now := t.end;
        return;
      }
      PollMqtt(t.second);
      now := t.end;
    }
  }

  // ---------------------------------------------------------------------------------
  // Whole runs
  // ---------------------------------------------------------------------------------

  /** A sleep decided at least a full timeout after the last activity. */
  predicate Rested(s: Sleep) {
    s.lastActivity + STANDBY_AFTER_MS <= s.decided <= s.woke
  }

  /** What lies between two sleeps: a whole probe window without activity, or activity that
      woke the device. */
  predicate Follows(s: Sleep, decided: nat, lastActivity: nat) {
    || (lastActivity == s.lastActivity && s.woke + PROBE_WINDOW_MS <= decided)
    || (s.woke <= lastActivity)
  }

  predicate Justified(sleeps: seq<Sleep>) {
    && (forall i :: 0 <= i < |sleeps| ==> Rested(sleeps[i]))
    && (forall i :: 0 < i < |sleeps| ==> Follows(sleeps[i - 1], sleeps[i].decided, sleeps[i].lastActivity))
  }

  predicate FollowsLast(sleeps: seq<Sleep>, decided: nat, lastActivity: nat) {
    sleeps == [] || Follows(sleeps[|sleeps| - 1], decided, lastActivity)
  }

  predicate Inv(m: Machine) {
    && m.lastActivityMs == Millis(m.lastActivity) && m.lastActivity <= m.now
    && Justified(m.sleeps) && m.prepares <= 1
    && match m.power
       case Awake => !m.prepared && (m.sleeps == [] || m.sleeps[|m.sleeps| - 1].woke <= m.lastActivity)
       case EnteringStandby =>
         m.lastActivity + STANDBY_AFTER_MS <= m.decided <= m.now && FollowsLast(m.sleeps, m.decided, m.lastActivity)
       case StandbyProbe =>
         && m.sleeps != []
         && (var s := m.sleeps[|m.sleeps| - 1];
             m.probeStartMs == Millis(s.woke) && s.woke <= m.now && s.lastActivity == m.lastActivity)
         && m.prepares == if m.prepared then 1 else 0
  }

  /** The 32-bit difference never exceeds the real one, and is exact below 2^32. */
  lemma {:induction false} ClockDifference(early: nat, late: nat)
    requires early <= late
    ensures Sub(Millis(late), Millis(early)) == (late - early) % MODULUS <= late - early
    ensures late - early < MODULUS ==> Sub(Millis(late), Millis(early)) == late - early
  {
    var d := late - early;
    var p, q := late / MODULUS, early / MODULUS;
    assert Millis(late) - Millis(early) == d - (p - q) * MODULUS;
    SameRemainder(d, p - q);
  }

  lemma {:induction false} SameRemainder(d: int, t: int)
    ensures (d - t * MODULUS) % MODULUS == d % MODULUS
  {
    var y := d - t * MODULUS;
    var k := y / MODULUS + t - d / MODULUS;
    assert y % MODULUS - d % MODULUS == -k * MODULUS;
  }

  lemma {:induction false} NoteAllLast(m: Machine, times: seq<nat>)
    ensures NoteAll(m, times) == if times == [] then m else Note(m, times[|times| - 1])
  {
    if |times| > 1 {
      NoteAllLast(m, times[..|times| - 1]);
    }
  }

  lemma {:induction false} LogGrows(sleeps: seq<Sleep>, s: Sleep)
    requires Justified(sleeps) && Rested(s) && FollowsLast(sleeps, s.decided, s.lastActivity)
    ensures Justified(sleeps + [s])
  {}

  /** Handling the power state, between the start of a turn and its second reading of the
      clock. */
  lemma {:induction false} HandleKeepsInv(m: Machine, t: Turn)
    requires Inv(m) && Timely(m, t)
    ensures Inv(Handle(m, t).(now := t.check))
  {
    hide Justified, NoteAll, Sub, Millis;
    NoteAllLast(Prepare(m), t.first);
    match m.power {
      case Awake => ClockDifference(m.lastActivity, t.start);
      case EnteringStandby => LogGrows(m.sleeps, Sleep(m.decided, m.lastActivity, t.check));
      case StandbyProbe =>
        ProbeLast(m);
        ClockDifference(m.sleeps[|m.sleeps| - 1].woke, t.check);
    }
  }

  lemma {:induction false} ProbeLast(m: Machine)
    requires Inv(m) && m.power == StandbyProbe
    ensures m.sleeps != [] && Rested(m.sleeps[|m.sleeps| - 1])
  {}

  lemma {:induction false} LoopKeepsInv(m: Machine, t: Turn)
    requires Inv(m) && Timely(m, t)
    ensures Inv(Loop(m, t))
  {
    hide Justified, NoteAll, Handle, Millis;
    HandleKeepsInv(m, t);
    NoteAllLast(Handle(m, t), t.second);
  }

  /** Over every run, with a clock that wraps and turns of any length: an awake device has no
      networks prepared for probing; they are prepared at most once between two sleeps; every
      sleep is decided a full minute or more after the last activity; and between two sleeps
      there was either activity that woke the device or a whole probe window without any. */
  lemma {:induction false} RunKeepsInv(time: nat, turns: seq<Turn>)
    requires TimelyRun(Start(time), turns)
    ensures Inv(Run(Start(time), turns))
  {
    hide Inv, Loop, Timely;
    if turns == [] {
      StartInv(time);
    } else {
      var n := |turns| - 1;
      var front := turns[..n];
      assert forall i :: 0 <= i < n ==> front[..i] == turns[..i] && front[i] == turns[i];
      RunKeepsInv(time, front);
      LoopKeepsInv(Run(Start(time), front), turns[n]);
    }
  }

  lemma {:induction false} StartInv(time: nat)
    ensures Inv(Start(time))
  {}

  // ---------------------------------------------------------------------------------
  // Deadlines are met
  // ---------------------------------------------------------------------------------

  /** The decision from the awake state, for gaps of any length: it goes by the idle time
      modulo 2^32. */
  lemma {:induction false} SleepDecisionIff(m: Machine, t: Turn)
    requires Inv(m) && Timely(m, t) && m.power == Awake
    ensures Loop(m, t).power == EnteringStandby <==> (t.start - m.lastActivity) % MODULUS >= STANDBY_AFTER_MS
  {
    hide Justified, NoteAll, Millis, Sub;
    ClockDifference(m.lastActivity, t.start);
    NoteAllLast(Handle(m, t), t.second);
  }

  const TURN_LIMIT_MS: nat := 0x4000_0000

  /** Turns, with the pause before them, shorter than twelve days. */
  predicate Brisk(m: Machine, t: Turn) {
    Timely(m, t) && t.end - m.now <= TURN_LIMIT_MS
  }

  predicate BriskRun(m: Machine, turns: seq<Turn>) {
    forall i :: 0 <= i < |turns| ==> Brisk(Run(m, turns[..i]), turns[i])
  }

  /** The timers are still far from wrapping. */
  predicate Fresh(m: Machine) {
    && Inv(m)
    && (m.power == Awake ==> m.now < m.lastActivity + STANDBY_AFTER_MS + TURN_LIMIT_MS)
    && (m.power == StandbyProbe ==> m.now < m.sleeps[|m.sleeps| - 1].woke + PROBE_WINDOW_MS + TURN_LIMIT_MS)
  }

  /** What a turn decides, in real time. */
  ghost predicate OnTime(m: Machine, t: Turn, n: Machine) {
    && (m.power == Awake ==>
          (n.power == EnteringStandby <==> t.start - m.lastActivity >= STANDBY_AFTER_MS) && n.power != StandbyProbe)
    && (m.power == EnteringStandby ==> n.power == StandbyProbe)
    && (m.power == StandbyProbe ==>
          m.sleeps != [] && (n.power == Awake <==> t.first != [])
          && (n.power == EnteringStandby
              <==> t.first == [] && t.check - m.sleeps[|m.sleeps| - 1].woke >= PROBE_WINDOW_MS))
  }

  lemma {:induction false} LoopIsOnTime(m: Machine, t: Turn)
    requires Fresh(m) && Brisk(m, t)
    ensures Fresh(Loop(m, t)) && OnTime(m, t, Loop(m, t))
  {
    hide Justified, NoteAll, Sub, Millis;
    LoopKeepsInv(m, t);
    NoteAllLast(Prepare(m), t.first);
    NoteAllLast(Handle(m, t), t.second);
    ClockDifference(m.lastActivity, t.start);
    if m.power == StandbyProbe {
      ClockDifference(m.sleeps[|m.sleeps| - 1].woke, t.check);
    }
  }

  /** When turns are brisk the 32-bit timers decide as real time would, at every turn of every
      run: sleep after a minute without activity, and back to sleep after a probe window in
      which nothing arrived. */
  lemma {:induction false} EveryTurnIsOnTime(time: nat, turns: seq<Turn>, i: nat)
    requires BriskRun(Start(time), turns) && i < |turns|
    ensures OnTime(Run(Start(time), turns[..i]), turns[i], Run(Start(time), turns[..i + 1]))
  {
    hide Fresh, Loop, Brisk, OnTime;
    StaysFresh(time, turns, i);
    LoopIsOnTime(Run(Start(time), turns[..i]), turns[i]);
    assert turns[..i + 1][..i] == turns[..i];
  }

  lemma {:induction false} StaysFresh(time: nat, turns: seq<Turn>, n: nat)
    requires BriskRun(Start(time), turns) && n <= |turns|
    ensures Fresh(Run(Start(time), turns[..n]))
  {
    hide Fresh, Loop, Brisk, OnTime;
    if n == 0 {
      StartFresh(time);
    } else {
      StaysFresh(time, turns, n - 1);
      LoopIsOnTime(Run(Start(time), turns[..n - 1]), turns[n - 1]);
      assert turns[..n][..n - 1] == turns[..n - 1];
    }
  }

  lemma {:induction false} StartFresh(time: nat)
    ensures Fresh(Start(time))
  {}

  /** Without brisk turns a device idle for 2^32 ms believes it was active just now. */
  lemma {:induction false} LongPauseKeepsAwake(time: nat)
    ensures var t := Turn(time + MODULUS, [], time + MODULUS, [], time + MODULUS);
      Timely(Start(time), t) && Loop(Start(time), t).power == Awake
  {
    var t := Turn(time + MODULUS, [], time + MODULUS, [], time + MODULUS);
    StartInv(time);
    SleepDecisionIff(Start(time), t);
  }
}
