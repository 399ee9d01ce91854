/** The scheduler is fair: live processes are resumed in turn, in the cyclic order of
    their slots. */
module RoundRobin {
  import opened Processes
  import opened KernelInv
  import opened KernelSteps
  import opened KernelRuns

  /** The live slots from `i` on, in order. */
  function LiveFrom(procs: seq<PCB>, i: nat := 0): (slots: seq<nat>)
    decreases |procs| - i
  {
    if i >= |procs| then [] else if Alive(procs[i]) then [i] + LiveFrom(procs, i + 1) else LiveFrom(procs, i + 1)
  }

  lemma {:induction false} LiveFromIs(procs: seq<PCB>, i: nat)
    ensures forall m :: 0 <= m < |LiveFrom(procs, i)| ==>
              i <= LiveFrom(procs, i)[m] < |procs| && Alive(procs[LiveFrom(procs, i)[m]])
    ensures forall m, n :: 0 <= m < n < |LiveFrom(procs, i)| ==> LiveFrom(procs, i)[m] < LiveFrom(procs, i)[n]
    decreases |procs| - i
  {
    if i < |procs| {
      LiveFromIs(procs, i + 1);
    }
  }

  lemma {:induction false} LiveFromHas(procs: seq<PCB>, i: nat, s: nat) returns (m: nat)
    requires i <= s < |procs| && Alive(procs[s])
    ensures m < |LiveFrom(procs, i)| && LiveFrom(procs, i)[m] == s
    decreases s - i
  {
    if i == s {
      m := 0;
    } else {
      m := LiveFromHas(procs, i + 1, s);
      if Alive(procs[i]) { m := m + 1; }
    }
  }

  lemma {:induction false} LiveFromSame(procs: seq<PCB>, others: seq<PCB>, i: nat)
    requires |procs| == |others|
    requires forall j :: i <= j < |procs| ==> (Alive(procs[j]) <==> Alive(others[j]))
    ensures LiveFrom(procs, i) == LiveFrom(others, i)
    decreases |procs| - i
  {
    if i < |procs| {
      LiveFromSame(procs, others, i + 1);
    }
  }

  /** The turn after turn `m` of `n`. */
  function NextTurn(m: nat, n: nat): (r: nat)
    requires m < n
    ensures r < n
  {
    if m + 1 < n then m + 1 else 0
  }

  /** The turn `i` turns after the next one. */
  function TurnAfter(m: nat, i: nat, n: nat): (r: nat)
    requires m < n
    ensures r < n
    decreases i
  {
    if i == 0 then NextTurn(m, n) else TurnAfter(NextTurn(m, n), i - 1, n)
  }

  lemma {:induction false} TurnAfterIs(m: nat, i: nat, n: nat)
    requires m < n && i < n
    ensures TurnAfter(m, i, n) == if m + 1 + i < n then m + 1 + i else m + 1 + i - n
    decreases i
  {
    if i > 0 {
      TurnAfterIs(NextTurn(m, n), i - 1, n);
    }
  }

  /** The search passes over slots that are not ready. */
  lemma {:induction false} SearchPasses(procs: seq<PCB>, i: nat, j: nat, start: nat)
    requires |procs| == PROCESS_COUNT_MAX && i <= j < |procs| && start < |procs|
    requires !(i <= start < j) && forall x :: i <= x < j ==> !procs[x].state.Ready?
    ensures NextReady(procs, i, start) == NextReady(procs, j, start)
    decreases j - i
  {
    if i < j {
      SearchPasses(procs, i + 1, j, start);
    }
  }

  lemma SearchWraps(procs: seq<PCB>, i: nat, start: nat)
    requires |procs| == PROCESS_COUNT_MAX && i < |procs| && start < |procs|
    requires start < i && forall x :: i <= x < |procs| ==> !procs[x].state.Ready?
    ensures NextReady(procs, i, start) == NextReady(procs, 0, start)
  {
    SearchPasses(procs, i, |procs| - 1, start);
  }

  /** From the slot after `start`, with every other live process ready, the search finds
      the cyclic successor of `start` among the live slots. */
  lemma SearchFindsSuccessor(procs: seq<PCB>, start: nat, m: nat)
    requires |procs| == PROCESS_COUNT_MAX && start < |procs|
    requires m < |LiveFrom(procs)| && LiveFrom(procs)[m] == start
    requires forall x :: 0 <= x < |procs| && x != start ==> (Alive(procs[x]) <==> procs[x].state.Ready?)
    ensures var slots := LiveFrom(procs);
            NextReady(procs, After(start), start) == slots[NextTurn(m, |slots|)]
  {
    hide LiveFrom, NextReady;
    var slots := LiveFrom(procs);
    LiveFromIs(procs, 0);
    if m + 1 < |slots| {
      var s := slots[m + 1];
      forall x | start < x < s ensures !procs[x].state.Ready? { NoneBetween(procs, m, x); }
      SearchPasses(procs, start + 1, s, start);
      SearchStops(procs, s, start);
    } else {
      forall x | start < x < |procs| ensures !procs[x].state.Ready? { NoneAfter(procs, m, x); }
      if start + 1 < |procs| { SearchWraps(procs, start + 1, start); }
      var s := slots[0];
      forall x | 0 <= x < s ensures !procs[x].state.Ready? && !Alive(procs[x]) { NoneBefore(procs, x); }
      SearchPasses(procs, 0, s, start);
      SearchStops(procs, s, start);
    }
  }

  lemma SearchStops(procs: seq<PCB>, s: nat, start: nat)
    requires |procs| == PROCESS_COUNT_MAX && s < |procs| && start < |procs| && (procs[s].state.Ready? || s == start)
    ensures NextReady(procs, s, start) == s
  {
  }

  lemma NoneBetween(procs: seq<PCB>, m: nat, x: nat)
    requires m + 1 < |LiveFrom(procs)| && LiveFrom(procs)[m] < x < LiveFrom(procs)[m + 1] && x < |procs|
    ensures !Alive(procs[x])
  {
    hide LiveFrom;
    LiveFromIs(procs, 0);
    if Alive(procs[x]) { var n := LiveFromHas(procs, 0, x); }
  }

  lemma NoneAfter(procs: seq<PCB>, m: nat, x: nat)
    requires m + 1 == |LiveFrom(procs)| && LiveFrom(procs)[m] < x < |procs|
    ensures !Alive(procs[x])
  {
    hide LiveFrom;
    LiveFromIs(procs, 0);
    if Alive(procs[x]) { var n := LiveFromHas(procs, 0, x); }
  }

  lemma NoneBefore(procs: seq<PCB>, x: nat)
    requires 0 < |LiveFrom(procs)| && x < LiveFrom(procs)[0] && x < |procs|
    ensures !Alive(procs[x])
  {
    hide LiveFrom;
    LiveFromIs(procs, 0);
    if Alive(procs[x]) { var n := LiveFromHas(procs, 0, x); }
  }

  // -- Turns --

  /** One tick hands over from the running process to its successor among the live slots. */
  lemma TickTakesTurn(k: Sys, t: Event, m: nat)
    requires Sound(k) && t.Timer? && m < |LiveFrom(k.procs)|
    requires LiveFrom(k.procs)[m] < PROCESS_COUNT_MAX && k.procs[LiveFrom(k.procs)[m]].state.Running?
    ensures var r, slots := Step(k, t), LiveFrom(k.procs);
            && Sound(r) && LiveFrom(r.procs) == slots
            && slots[NextTurn(m, |slots|)] < PROCESS_COUNT_MAX && r.procs[slots[NextTurn(m, |slots|)]].state.Running?
  {
    hide PagingInv, CountFalse, LiveCount, LiveFrom, NextReady, SlotOk;
    StepKeeps(k, t);
    var own :| KInv(k, own);
    var saved := Save(k, Interrupted(k, t.cpu, t.eip, t.eflags));
    SaveKeeps(k, own, t.cpu, t.eip, t.eflags);
    SwitchKeeps(saved, own);
    ChosenAlive(saved);
    LiveFromSame(k.procs, saved.procs, 0);
    LiveFromSame(k.procs, Step(k, t).procs, 0);
    var start := LiveFrom(k.procs)[m];
    LiveFromIs(saved.procs, 0);
    ReadyOrRunning(saved, own, start);
    SearchFindsSuccessor(saved.procs, start, m);
    assert SetTo(saved.procs, start, Running) == saved.procs;
  }

  lemma ReadyOrRunning(k: Sys, own: map<nat, Mapping>, start: nat)
    requires KInv(k, own) && start < PROCESS_COUNT_MAX && k.procs[start].state.Running?
    ensures forall x :: 0 <= x < |k.procs| && x != start ==> (Alive(k.procs[x]) <==> k.procs[x].state.Ready?)
    ensures Leaving(k.procs) == start
  {
    hide PagingInv, LiveCount;
    forall x | 0 <= x < |k.procs| && x != start ensures Alive(k.procs[x]) <==> k.procs[x].state.Ready? {
      SlotAt(k, x);
    }
    LeavesRunning(k.procs);
  }

  predicate AllTimers(ts: seq<Event>) {
    forall i :: 0 <= i < |ts| ==> ts[i].Timer?
  }

  /** The slots resumed by a run of ticks, in order. */
  ghost function Turns(k: Sys, ts: seq<Event>): (slots: seq<nat>)
    requires k.Shaped() && AllTimers(ts)
    ensures |slots| == |ts|
    decreases |ts|
  {
    if ts == [] then [] else [FirstRunning(Step(k, ts[0]).procs)] + Turns(Step(k, ts[0]), ts[1..])
  }

  lemma {:induction false} TurnsInOrder(k: Sys, ts: seq<Event>, m: nat)
    requires Sound(k) && AllTimers(ts) && m < |LiveFrom(k.procs)|
    requires LiveFrom(k.procs)[m] < PROCESS_COUNT_MAX && k.procs[LiveFrom(k.procs)[m]].state.Running?
    ensures k.Shaped()
    ensures forall i :: 0 <= i < |ts| ==> Turns(k, ts)[i] == LiveFrom(k.procs)[TurnAfter(m, i, |LiveFrom(k.procs)|)]
    decreases |ts|
  {
    hide LiveFrom, Sound, Step;
    SoundShaped(k);
    if ts != [] {
      TickTakesTurn(k, ts[0], m);
      var k', slots, m' := Step(k, ts[0]), LiveFrom(k.procs), NextTurn(m, |LiveFrom(k.procs)|);
      SoundShaped(k');
      OneRunning(k', slots[m']);
      TurnsInOrder(k', ts[1..], m');
      forall i | 0 <= i < |ts| ensures Turns(k, ts)[i] == slots[TurnAfter(m, i, |slots|)] {
        if i > 0 {
          assert Turns(k, ts)[i] == Turns(k', ts[1..])[i - 1];
        }
      }
    }
  }

  lemma OneRunning(k: Sys, s: nat)
    requires Sound(k) && k.Shaped() && s < PROCESS_COUNT_MAX && k.procs[s].state.Running?
    ensures FirstRunning(k.procs) == s
  {
    hide PagingInv, LiveCount, SlotOk;
    var own :| KInv(k, own);
  }

  /** `turns` goes once round `slots`, beginning after place `m`. */
  predicate OnceRound(slots: seq<nat>, turns: seq<nat>, m: nat) {
    && m < |slots| == |turns|
    && forall i :: 0 <= i < |turns| ==> turns[i] == slots[Place(m, i, |slots|)]
  }

  function Place(m: nat, i: nat, n: nat): (r: nat)
    requires m < n && i < n
    ensures r < n
  {
    if m + 1 + i < n then m + 1 + i else m + 1 + i - n
  }

  lemma OnceRoundMeets(slots: seq<nat>, turns: seq<nat>, m: nat, x: nat)
    requires OnceRound(slots, turns, m) && x < |slots|
    ensures slots[x] in turns
  {
    var n := |slots|;
    var i := if x > m then x - m - 1 else x + n - m - 1;
    assert Place(m, i, n) == x && turns[i] == slots[x];
  }

  lemma OnceRoundDistinct(slots: seq<nat>, turns: seq<nat>, m: nat)
    requires OnceRound(slots, turns, m) && forall i, j :: 0 <= i < j < |slots| ==> slots[i] < slots[j]
    ensures forall i, j :: 0 <= i < j < |turns| ==> turns[i] != turns[j]
    ensures turns[|turns| - 1] == slots[m]
  {
    forall i, j | 0 <= i < j < |turns| ensures turns[i] != turns[j] {
      assert Place(m, i, |slots|) != Place(m, j, |slots|);
    }
  }

  lemma TurnsGoRound(k: Sys, ts: seq<Event>, m: nat)
    requires Sound(k) && AllTimers(ts) && m < |LiveFrom(k.procs)| == |ts|
    requires LiveFrom(k.procs)[m] < PROCESS_COUNT_MAX && k.procs[LiveFrom(k.procs)[m]].state.Running?
    ensures k.Shaped() && OnceRound(LiveFrom(k.procs), Turns(k, ts), m)
  {
    hide LiveFrom, Sound, Turns, TurnAfter;
    TurnsInOrder(k, ts, m);
    forall i | 0 <= i < |ts| ensures TurnAfter(m, i, |ts|) == Place(m, i, |ts|) { TurnAfterIs(m, i, |ts|); }
  }

  /** Round robin is fair: with `n` live processes and none created or killed, any `n`
      ticks in a row resume each of them exactly once and end at the one they began with. */
  lemma EachOnce(k: Sys, ts: seq<Event>, run: nat)
    requires Sound(k) && AllTimers(ts) && |ts| == |LiveFrom(k.procs)|
    requires k.Shaped() && run < PROCESS_COUNT_MAX && k.procs[run].state.Running?
    ensures forall s :: 0 <= s < PROCESS_COUNT_MAX && Alive(k.procs[s]) ==> s in Turns(k, ts)
    ensures forall i, j :: 0 <= i < j < |ts| ==> Turns(k, ts)[i] != Turns(k, ts)[j]
    ensures |ts| > 0 && Turns(k, ts)[|ts| - 1] == run
  {
    hide LiveFrom, Sound, Turns, OnceRound;
    var m := LiveFromHas(k.procs, 0, run);
    LiveFromIs(k.procs, 0);
    TurnsGoRound(k, ts, m);
    OnceRoundDistinct(LiveFrom(k.procs), Turns(k, ts), m);
    forall s | 0 <= s < PROCESS_COUNT_MAX && Alive(k.procs[s]) ensures s in Turns(k, ts) {
      var x := LiveFromHas(k.procs, 0, s);
      OnceRoundMeets(LiveFrom(k.procs), Turns(k, ts), m, x);
    }
  }
}
