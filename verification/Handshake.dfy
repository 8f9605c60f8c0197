/** The parse-deadline handshake: two threads, two channels, and at most one answer. */
module Handshake {

  /** How the worker's run ended. `Quiet` is giving up without a word. */
  datatype Outcome = Answered | ParseError | ClassifyError | Panicked | Quiet

  /** Parsing, then the callback (report, wait for the go-ahead), then classifying and printing. */
  datatype Worker = Parsing | Reporting | Awaiting | Classifying | Printed | Finished(outcome: Outcome)

  /** Waiting for the report, then the go-ahead and the join, or the empty answer and the exit. */
  datatype Main = Waiting | Sending | Joining | Cutting | CutShown | Returned(outcome: Outcome) | IoError

  /** `parsed` and `go` are the messages in flight. A receiver sees a hang-up once its sender is gone. */
  datatype State = State(
    worker: Worker,
    main: Main,
    parsed: nat,
    go: nat,
    workerEnds: bool,   // the worker still holds its ends of both channels
    mainEnds: bool,     // the main thread still holds its ends
    goSent: bool,
    workerPrinted: bool,
    cutPrinted: bool,
    exited: bool)

  const INIT := State(Parsing, Waiting, 0, 0, true, true, false, false, false, false)

  datatype Action =
    | ParseOk | ParseFails | ParsePanics
    | Report | ReportRefused | GoReceived | GoHungUp
    | Print | ClassifyFails | ClassifyPanics | Finish | ExitNoVerdict
    | ReportReceived | ReportHungUp | Deadline
    | SendGo | Join
    | PrintCut | CutFails | ExitCut | FlushFails

  ghost predicate Enabled(s: State, a: Action) {
    !s.exited &&
    match a
    case ParseOk => s.worker.Parsing?
    case ParseFails => s.worker.Parsing?
    case ParsePanics => s.worker.Parsing?
    case Report => s.worker.Reporting? && s.mainEnds
    case ReportRefused => s.worker.Reporting? && !s.mainEnds
    case GoReceived => s.worker.Awaiting? && s.go > 0
    case GoHungUp => s.worker.Awaiting? && s.go == 0 && !s.mainEnds
    case Print => s.worker.Classifying?
    case ClassifyFails => s.worker.Classifying?
    case ClassifyPanics => s.worker.Classifying?
    case Finish => s.worker.Printed?
    case ExitNoVerdict => s.worker.Printed?
    case ReportReceived => s.main.Waiting? && s.parsed > 0
    case ReportHungUp => s.main.Waiting? && s.parsed == 0 && !s.workerEnds
    case Deadline => s.main.Waiting?
    case SendGo => s.main.Sending?
    case Join => s.main.Joining? && s.worker.Finished?
    case PrintCut => s.main.Cutting?
    case CutFails => s.main.Cutting?
    case ExitCut => s.main.CutShown?
    case FlushFails => s.main.CutShown?
  }

  function WorkerEnds(s: State, o: Outcome): State {
    s.(worker := Finished(o), workerEnds := false)
  }

  function Next(s: State, a: Action): State {
    match a
    case ParseOk => s.(worker := Reporting)
    case ParseFails => WorkerEnds(s, ParseError)
    case ParsePanics => WorkerEnds(s, Panicked)
    case Report => s.(worker := Awaiting, parsed := s.parsed + 1)
    case ReportRefused => WorkerEnds(s, Quiet)
    case GoReceived => s.(worker := Classifying, go := if s.go > 0 then s.go - 1 else 0, workerEnds := false)
    case GoHungUp => WorkerEnds(s, Quiet)
    case Print => s.(worker := Printed, workerPrinted := true)
    case ClassifyFails => WorkerEnds(s, ClassifyError)
    case ClassifyPanics => WorkerEnds(s, Panicked)
    case Finish => WorkerEnds(s, Answered)
    case ExitNoVerdict => s.(exited := true)
    case ReportReceived => s.(main := Sending, parsed := if s.parsed > 0 then s.parsed - 1 else 0)
    case ReportHungUp => s.(main := Joining)
    case Deadline => s.(main := Cutting)
    case SendGo => s.(main := Joining, go := if s.workerEnds then s.go + 1 else s.go, goSent := true)
    case Join => s.(main := if s.worker.Finished? then Returned(s.worker.outcome) else s.main, mainEnds := false)
    case PrintCut => s.(main := CutShown, cutPrinted := true)
    case CutFails => s.(main := IoError, mainEnds := false)
    case ExitCut => s.(exited := true)
    case FlushFails => s.(main := IoError, mainEnds := false)
  }

  /** A run from the start, one enabled action at a time. */
  ghost predicate IsRun(run: seq<State>, actions: seq<Action>) {
    && |run| == |actions| + 1 && run[0] == INIT
    && forall k :: 0 <= k < |actions| ==> Enabled(run[k], actions[k]) && run[k + 1] == Next(run[k], actions[k])
  }

  /** The process is over: it exited, or the main thread came back. */
  predicate Over(s: State) {
    s.exited || s.main.Returned? || s.main.IoError?
  }

  /** The cut answer is on the way or out. */
  predicate CutChosen(s: State) {
    s.main.Cutting? || s.main.CutShown? || s.main.IoError?
  }

  /** What every reachable state keeps. */
  ghost predicate Inv(s: State) {
    && (s.goSent ==> !CutChosen(s) && !s.cutPrinted)
    && (s.go > 0 || s.worker.Classifying? || s.worker.Printed? || s.workerPrinted ==> s.goSent)
    && (s.worker == Finished(Answered) || s.worker == Finished(ClassifyError) ==> s.goSent)
    && (s.worker.Printed? || s.worker == Finished(Answered) ==> s.workerPrinted)
    && (s.worker == Finished(ParseError) || s.worker == Finished(ClassifyError) ==> !s.workerPrinted)
    && (s.workerPrinted ==> s.worker.Printed? || s.worker.Finished?)
    && (s.main.Waiting? || s.main.Sending? ==> !s.goSent)
    && (s.main.CutShown? ==> s.cutPrinted)
    && (s.cutPrinted ==> CutChosen(s))
    && (s.mainEnds <==> !(s.main.Returned? || s.main.IoError?))
    && (s.worker == Finished(Quiet) ==> s.main.IoError? )
    && (s.main.Returned? ==> s.worker == Finished(s.main.outcome))
    && (s.workerEnds <==> s.worker.Parsing? || s.worker.Reporting? || s.worker.Awaiting?)
    && (s.exited ==> s.main.CutShown? || s.worker.Printed?)
    && (s.worker.Awaiting? ==> s.parsed + s.go > 0 || s.main.Sending? || CutChosen(s))
    && (s.worker.Awaiting? && s.main.Waiting? ==> s.parsed > 0)
    && (s.worker.Awaiting? && s.main.Joining? ==> s.go > 0)
    && s.parsed <= 1 && (s.parsed > 0 ==> s.worker.Awaiting? || s.main.IoError?)
    && (s.goSent ==> s.parsed == 0 && !s.worker.Parsing? && !s.worker.Reporting? && s.worker != Finished(ParseError))
    && (s.main.Sending? ==> s.worker.Awaiting? && s.parsed == 0)
    && (s.main.Joining? && !s.goSent ==> s.worker.Finished?)
  }

  lemma InvStep(s: State, a: Action)
    requires Inv(s) && Enabled(s, a)
    ensures Inv(Next(s, a))
  {
  }

  lemma {:induction false} InvRun(run: seq<State>, actions: seq<Action>, k: nat)
    requires IsRun(run, actions) && k < |run|
    ensures Inv(run[k])
  {
    if k > 0 {
      InvRun(run, actions, k - 1);
      assert Enabled(run[k - 1], actions[k - 1]) && run[k - 1 + 1] == Next(run[k - 1], actions[k - 1]);
      InvStep(run[k - 1], actions[k - 1]);
    }
  }

  /** In no run are both answers printed. */
  lemma NeverBoth(run: seq<State>, actions: seq<Action>, k: nat)
    requires IsRun(run, actions) && k < |run|
    ensures !(run[k].workerPrinted && run[k].cutPrinted)
  {
    InvRun(run, actions, k);
  }

  /** The worker classifies only after the go-ahead was sent. */
  lemma ClassifiesAfterGo(run: seq<State>, actions: seq<Action>, k: nat)
    requires IsRun(run, actions) && k < |run| && run[k].worker.Classifying?
    ensures exists j: nat :: j < k && j < |actions| && actions[j] == SendGo
  {
    InvRun(run, actions, k);
    GoWasSent(run, actions, k);
  }

  lemma {:induction false} GoWasSent(run: seq<State>, actions: seq<Action>, k: nat)
    requires IsRun(run, actions) && k < |run| && run[k].goSent
    ensures exists j: nat :: j < k && j < |actions| && actions[j] == SendGo
  {
    if k > 0 {
      assert run[k - 1 + 1] == Next(run[k - 1], actions[k - 1]);
      if actions[k - 1] != SendGo { GoWasSent(run, actions, k - 1); }
    }
  }

  /** An action other than the deadline that some thread can take. */
  ghost predicate CanMove(s: State) {
    exists a :: a != Deadline && Enabled(s, a)
  }

  /** No deadlock: until the process is over some thread can move, deadline or not. */
  lemma NoDeadlock(run: seq<State>, actions: seq<Action>, k: nat)
    requires IsRun(run, actions) && k < |run| && !Over(run[k])
    ensures CanMove(run[k])
  {
    InvRun(run, actions, k);
    var s := run[k];
    if s.main.Sending? {
      assert Enabled(s, SendGo);
    } else if s.main.Cutting? {
      assert Enabled(s, PrintCut);
    } else if s.main.CutShown? {
      assert Enabled(s, ExitCut);
    } else {
      WorkerMoves(s);
    }
  }

  lemma WorkerMoves(s: State)
    requires Inv(s) && !s.exited && (s.main.Waiting? || s.main.Joining?)
    ensures CanMove(s)
  {
    match s.worker
    case Parsing => assert Enabled(s, ParseOk);
    case Reporting => assert Enabled(s, Report);
    case Awaiting => assert Enabled(s, if s.main.Waiting? then ReportReceived else GoReceived);
    case Classifying => assert Enabled(s, Print);
    case Printed => assert Enabled(s, Finish);
    case Finished(_) => assert Enabled(s, if s.main.Waiting? then ReportHungUp else Join);
  }

  /** How far the run can still go. */
  function Rank(s: State): nat {
    WorkerRank(s.worker) + MainRank(s.main) + if s.exited then 0 else 1
  }

  function WorkerRank(w: Worker): nat {
    match w
    case Parsing => 5
    case Reporting => 4
    case Awaiting => 3
    case Classifying => 2
    case Printed => 1
    case Finished(_) => 0
  }

  function MainRank(m: Main): nat {
    match m
    case Waiting => 3
    case Sending => 2
    case Joining => 1
    case Cutting => 2
    case CutShown => 1
    case _ => 0
  }

  /** Every run is over within nine actions. */
  lemma {:induction false} RunsEnd(run: seq<State>, actions: seq<Action>)
    requires IsRun(run, actions)
    ensures Rank(run[|actions|]) + |actions| <= 9
    decreases |actions|
  {
    if actions != [] {
      var k := |actions| - 1;
      assert Enabled(run[k], actions[k]) && run[k + 1] == Next(run[k], actions[k]);
      RunsEnd(run[..k + 1], actions[..k]);
    }
  }

  /** How a run ends: the worker's own result is handed back, with its answer out exactly when it is
      an answer; or the process exits on exactly one of the two answers, the worker's only after the
      go-ahead; or writing the cut answer failed. The worker's silence is never the result. */
  lemma RunOutcome(run: seq<State>, actions: seq<Action>, k: nat)
    requires IsRun(run, actions) && k < |run| && Over(run[k])
    ensures var s := run[k];
      || (s.main.Returned? && s.worker == Finished(s.main.outcome) && s.main.outcome != Quiet && !s.cutPrinted &&
          (s.main.outcome == Answered ==> s.workerPrinted) &&
          (s.main.outcome == ParseError || s.main.outcome == ClassifyError ==> !s.workerPrinted))
      || (s.exited && s.cutPrinted && !s.workerPrinted && !s.goSent)
      || (s.exited && s.workerPrinted && s.goSent && !s.cutPrinted)
      || (s.main.IoError? && !s.workerPrinted && !s.goSent)
  {
    InvRun(run, actions, k);
  }

  // ----- what led to an ending -----

  /** Which way the main thread went, told from the actions taken so far. */
  ghost predicate MainHistory(s: State, past: set<Action>) {
    && (Deadline in past <==> CutChosen(s))
    && (ReportReceived in past <==> s.main.Sending? || s.goSent)
    && (SendGo in past <==> s.goSent)
    && (ReportHungUp in past <==> (s.main.Joining? || s.main.Returned?) && !s.goSent)
    && (PrintCut in past <==> s.cutPrinted)
  }

  /** What the worker did. */
  ghost predicate WorkerHistory(s: State, past: set<Action>) {
    && (Print in past <==> s.workerPrinted)
    && (ParseFails in past <==> s.worker == Finished(ParseError))
    && (ClassifyFails in past <==> s.worker == Finished(ClassifyError))
    && (ParsePanics in past || ClassifyPanics in past <==> s.worker == Finished(Panicked))
    && (Finish in past <==> s.worker == Finished(Answered))
  }

  ghost predicate History(s: State, past: set<Action>) {
    MainHistory(s, past) && WorkerHistory(s, past)
  }

  lemma MainStep(s: State, past: set<Action>, a: Action)
    requires Inv(s) && MainHistory(s, past) && Enabled(s, a)
    ensures MainHistory(Next(s, a), past + {a})
  {
  }

  lemma WorkerStep(s: State, past: set<Action>, a: Action)
    requires Inv(s) && WorkerHistory(s, past) && Enabled(s, a)
    ensures WorkerHistory(Next(s, a), past + {a})
  {
  }

  ghost function Taken(actions: seq<Action>): set<Action> {
    set a | a in actions
  }

  lemma {:induction false} HistoryRun(run: seq<State>, actions: seq<Action>, k: nat)
    requires IsRun(run, actions) && k < |run|
    ensures Inv(run[k]) && History(run[k], Taken(actions[..k]))
  {
    if k > 0 {
      HistoryRun(run, actions, k - 1);
      RunStep(run, actions, k - 1);
      InvStep(run[k - 1], actions[k - 1]);
      MainStep(run[k - 1], Taken(actions[..k - 1]), actions[k - 1]);
      WorkerStep(run[k - 1], Taken(actions[..k - 1]), actions[k - 1]);
    }
  }

  lemma RunStep(run: seq<State>, actions: seq<Action>, k: nat)
    requires IsRun(run, actions) && k < |actions|
    ensures Enabled(run[k], actions[k]) && run[k + 1] == Next(run[k], actions[k])
    ensures Taken(actions[..k + 1]) == Taken(actions[..k]) + {actions[k]}
  {
    assert actions[..k + 1] == actions[..k] + [actions[k]];
  }

  /** The empty answer, or a failure to write it, needs the deadline. */
  lemma CutNeedsDeadline(run: seq<State>, actions: seq<Action>, k: nat)
    requires IsRun(run, actions) && k < |run| && (run[k].cutPrinted || run[k].main.IoError?)
    ensures Deadline in actions[..k]
  {
    HistoryRun(run, actions, k);
  }

  /** After the deadline the go-ahead is never sent and the worker prints nothing. */
  lemma DeadlineStopsGo(run: seq<State>, actions: seq<Action>, k: nat)
    requires IsRun(run, actions) && k < |run| && Deadline in actions[..k]
    ensures SendGo !in actions[..k] && Print !in actions[..k] && !run[k].goSent && !run[k].workerPrinted
  {
    HistoryRun(run, actions, k);
  }

  /** Without the deadline a run that is over ends in the worker's own result, or exits after the
      worker's answer and without the empty one. */
  lemma InTimeOutcome(run: seq<State>, actions: seq<Action>, k: nat)
    requires IsRun(run, actions) && k < |run| && Over(run[k]) && Deadline !in actions[..k]
    ensures !run[k].cutPrinted
    ensures var s := run[k];
      (s.main.Returned? && s.worker == Finished(s.main.outcome) && s.main.outcome != Quiet) || (s.exited && s.workerPrinted)
  {
    HistoryRun(run, actions, k);
  }

  /** A report received in time leads to the go-ahead, and to the worker's classification or its exit. */
  lemma ReportedOutcome(run: seq<State>, actions: seq<Action>, k: nat)
    requires IsRun(run, actions) && k < |run| && Over(run[k]) && ReportReceived in actions[..k]
    ensures SendGo in actions[..k] && !run[k].cutPrinted
    ensures var s := run[k];
      ((s.main.Returned? && s.worker == Finished(s.main.outcome) && (s.main.outcome.Answered? || s.main.outcome.ClassifyError? || s.main.outcome.Panicked?)) ||
       (s.exited && s.workerPrinted))
  {
    HistoryRun(run, actions, k);
  }

  /** After the deadline a run that is over exits with the empty answer alone, or failed to write it. */
  lemma LateOutcome(run: seq<State>, actions: seq<Action>, k: nat)
    requires IsRun(run, actions) && k < |run| && Over(run[k]) && Deadline in actions[..k]
    ensures var s := run[k]; !s.workerPrinted && ((s.exited && s.cutPrinted) || s.main.IoError?)
  {
    HistoryRun(run, actions, k);
  }

  /** A result handed back is what the worker last did: its answer, its parse error, its
      classification error or its panic. */
  lemma HandedBack(run: seq<State>, actions: seq<Action>, k: nat)
    requires IsRun(run, actions) && k < |run| && run[k].main.Returned?
    ensures match run[k].main.outcome
      case Answered => Print in actions[..k] && Finish in actions[..k]
      case ParseError => ParseFails in actions[..k] && ReportHungUp in actions[..k]
      case ClassifyError => ClassifyFails in actions[..k] && ReportReceived in actions[..k]
      case Panicked => ParsePanics in actions[..k] || ClassifyPanics in actions[..k]
      case Quiet => false
  {
    HistoryRun(run, actions, k);
  }

  // ----- every ending happens -----

  /** Some run comes to this state. */
  ghost predicate Reached(s: State) {
    exists run, actions :: IsRun(run, actions) && run[|actions|] == s
  }

  lemma StartReached()
    ensures Reached(INIT)
  {
    var none: seq<Action> := [];
    assert IsRun([INIT], none) && [INIT][|none|] == INIT;
  }

  lemma ReachStep(s: State, a: Action)
    requires Reached(s) && Enabled(s, a)
    ensures Reached(Next(s, a))
  {
    var run, actions :| IsRun(run, actions) && run[|actions|] == s;
    var run', actions' := run + [Next(s, a)], actions + [a];
    forall k | 0 <= k < |actions'| ensures Enabled(run'[k], actions'[k]) && run'[k + 1] == Next(run'[k], actions'[k]) {
      if k < |actions| { assert Enabled(run[k], actions[k]) && run[k + 1] == Next(run[k], actions[k]); }
    }
    assert IsRun(run', actions') && run'[|actions'|] == Next(s, a);
  }

  /** Up to the go-ahead, and up to the worker's answer. */
  lemma InTime() returns (s: State, t: State)
    ensures Reached(s) && s.worker.Classifying? && s.main.Joining? && !s.exited && s.goSent
    ensures Reached(t) && t.worker.Printed? && t.main.Joining? && !t.exited && t.goSent && t.workerPrinted
  {
    StartReached();
    s := INIT;
    ReachStep(s, ParseOk); s := Next(s, ParseOk);
    ReachStep(s, Report); s := Next(s, Report);
    ReachStep(s, ReportReceived); s := Next(s, ReportReceived);
    ReachStep(s, SendGo); s := Next(s, SendGo);
    ReachStep(s, GoReceived); s := Next(s, GoReceived);
    ReachStep(s, Print); t := Next(s, Print);
  }

  ghost predicate HandsBack(o: Outcome) {
    exists s :: Reached(s) && s.main == Returned(o)
  }

  lemma JoinHandsBack(s: State)
    requires Reached(s) && !s.exited && s.worker.Finished? && (s.main.Joining? || (s.main.Waiting? && s.parsed == 0 && !s.workerEnds))
    ensures HandsBack(s.worker.outcome)
  {
    var t := s;
    if s.main.Waiting? { ReachStep(s, ReportHungUp); t := Next(s, ReportHungUp); }
    ReachStep(t, Join);
    assert Next(t, Join).main == Returned(s.worker.outcome);
  }

  /** Each result is handed back by some run, but the worker's silence. */
  lemma ResultsHappen(o: Outcome)
    ensures HandsBack(o) <==> o != Quiet
  {
    var s, t := InTime();
    StartReached();
    match o
    case Answered => ReachStep(t, Finish); JoinHandsBack(Next(t, Finish));
    case ClassifyError => ReachStep(s, ClassifyFails); JoinHandsBack(Next(s, ClassifyFails));
    case Panicked => ReachStep(s, ClassifyPanics); JoinHandsBack(Next(s, ClassifyPanics));
    case ParseError => ReachStep(INIT, ParseFails); JoinHandsBack(Next(INIT, ParseFails));
    case Quiet =>
      if HandsBack(Quiet) {
        var r :| Reached(r) && r.main == Returned(Quiet);
        var run, actions :| IsRun(run, actions) && run[|actions|] == r;
        InvRun(run, actions, |actions|);
      }
  }

  /** Some run exits on the worker's answer, some on the empty one, and some fails to write it. */
  lemma ExitsHappen()
    ensures exists s :: Reached(s) && s.exited && s.workerPrinted
    ensures exists s :: Reached(s) && s.exited && s.cutPrinted
    ensures exists s :: Reached(s) && s.main.IoError? && !s.cutPrinted
  {
    var s, t := InTime();
    ReachStep(t, ExitNoVerdict);
    StartReached();
    ReachStep(INIT, Deadline);
    var late := Next(INIT, Deadline);
    ReachStep(late, CutFails);
    ReachStep(late, PrintCut);
    ReachStep(Next(late, PrintCut), ExitCut);
    assert Reached(Next(t, ExitNoVerdict)) && Reached(Next(Next(late, PrintCut), ExitCut)) && Reached(Next(late, CutFails));
  }

  /** The deadline may pass at any time before the report is received, also after it was sent. */
  lemma DeadlineAnyTime(s: State)
    requires Reached(s) && !s.exited && s.main.Waiting?
    ensures Reached(Next(s, Deadline)) && CutChosen(Next(s, Deadline))
  {
    ReachStep(s, Deadline);
  }
}
