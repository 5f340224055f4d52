/** The quiz state machine of pages/GameMode.tsx: a setup screen with the
    time per question, then one question at a time with a countdown, a
    reveal, and a "next" that either advances or finishes. The one-second
    interval is a discrete `Tick`. */
module Game {

  datatype State = State(
    setup: bool,
    configTime: int,
    index: nat,
    revealed: bool,
    timeLeft: int,
    finished: bool,
    active: bool)

  const DefaultTime := 30
  const MinTime := 5
  const TimeStep := 5

  /** The state when the page opens. */
  const Initial := State(true, DefaultTime, 0, false, DefaultTime, false, false)

  // ---------------------------------------------------------------------
  // transitions

  /** One run of the timer effect: a second passes while the clock runs;
      at zero the answer is revealed. */
  function Tick(s: State): (r: State)
    ensures s.timeLeft >= 0 ==> r.timeLeft >= 0
    ensures r.timeLeft <= s.timeLeft
    ensures s.active && !s.revealed && s.timeLeft > 0 ==> r == s.(timeLeft := s.timeLeft - 1)
    ensures !s.active || s.revealed ==> r == s
  {
    if s.active && s.timeLeft > 0 && !s.revealed then s.(timeLeft := s.timeLeft - 1)
    else if s.timeLeft == 0 && !s.revealed && s.active then s.(revealed := true)
    else s
  }

  /** `startGame` */
  function Start(s: State): (r: State)
    ensures r.active && !r.setup && r.timeLeft == s.configTime
    ensures r.configTime == s.configTime && r.index == s.index && r.revealed == s.revealed && r.finished == s.finished
  {
    s.(timeLeft := s.configTime, setup := false, active := true)
  }

  /** `handleNext` with `count` exercises. */
  function Next(s: State, count: nat): (r: State)
    ensures s.index + 1 < count ==>
      r.index == s.index + 1 && !r.revealed && r.timeLeft == s.configTime && r.finished == s.finished && r.active == s.active
    ensures s.index + 1 >= count ==> r.finished && !r.active && r.index == s.index && r.revealed == s.revealed
    ensures r.configTime == s.configTime && r.setup == s.setup
  {
    if s.index < count - 1 then s.(index := s.index + 1, revealed := false, timeLeft := s.configTime)
    else s.(finished := true, active := false)
  }

  /** `handleReveal` */
  function Reveal(s: State): (r: State)
    ensures r.revealed && Tick(r) == r
    ensures r.index == s.index && r.timeLeft == s.timeLeft && r.active == s.active && r.finished == s.finished
  {
    s.(revealed := true)
  }

  /** The "−" button of the setup screen. */
  function Shorter(s: State): (r: State)
    ensures r.configTime >= MinTime
    ensures s.configTime >= MinTime ==> r.configTime <= s.configTime
    ensures r == s.(configTime := r.configTime)
  {
    s.(configTime := if s.configTime - TimeStep >= MinTime then s.configTime - TimeStep else MinTime)
  }

  /** The "+" button of the setup screen. */
  function Longer(s: State): (r: State)
    ensures r.configTime == s.configTime + TimeStep
    ensures s.configTime >= MinTime ==> Shorter(r) == s
  {
    s.(configTime := s.configTime + TimeStep)
  }

  /** "Jugar de Nuevo" as written: back to the setup screen, first
      question, inactive; `revealed` and `timeLeft` are left alone. */
  function PlayAgainAsWritten(s: State): (r: State)
    ensures r.setup && !r.finished && !r.active && r.index == 0
    ensures r.revealed == s.revealed && r.timeLeft == s.timeLeft && r.configTime == s.configTime
  {
    s.(finished := false, setup := true, index := 0, active := false)
  }

  /** "Jugar de Nuevo" with the answer hidden again. */
  function PlayAgain(s: State): (r: State)
    ensures r == PlayAgainAsWritten(s).(revealed := false)
    ensures r.setup && !r.revealed && r.configTime == s.configTime
  {
    s.(finished := false, setup := true, index := 0, active := false, revealed := false)
  }

  // ---------------------------------------------------------------------
  // what the screen offers

  datatype Event = TickEvent | StartEvent | NextEvent | RevealEvent | ShorterEvent | LongerEvent | PlayAgainEvent

  /** The events the page can raise in a state: the setup screen has the
      two time buttons and "start", the finished screen "play again", the
      question screen "reveal" while the answer is hidden and "next" while
      it is shown. The timer runs on every screen. */
  predicate Enabled(s: State, e: Event, count: nat) {
    match e
    case TickEvent => true
    case StartEvent => count > 0 && s.setup
    case ShorterEvent => count > 0 && s.setup
    case LongerEvent => count > 0 && s.setup
    case PlayAgainEvent => count > 0 && !s.setup && s.finished
    case RevealEvent => count > 0 && !s.setup && !s.finished && !s.revealed
    case NextEvent => count > 0 && !s.setup && !s.finished && s.revealed
  }

  /** One event; a disabled one changes nothing. `fixed` selects the
      corrected "play again". */
  function Step(s: State, e: Event, count: nat, fixed: bool): (r: State)
    ensures !Enabled(s, e, count) ==> r == s
    ensures e != ShorterEvent && e != LongerEvent ==> r.configTime == s.configTime
    ensures r.setup != s.setup ==> e == StartEvent || e == PlayAgainEvent
  {
    if !Enabled(s, e, count) then s
    else
      match e
      case TickEvent => Tick(s)
      case StartEvent => Start(s)
      case NextEvent => Next(s, count)
      case RevealEvent => Reveal(s)
      case ShorterEvent => Shorter(s)
      case LongerEvent => Longer(s)
      case PlayAgainEvent => if fixed then PlayAgain(s) else PlayAgainAsWritten(s)
  }

  function Run(s: State, events: seq<Event>, count: nat, fixed: bool): State
    decreases |events|
  {
    if |events| == 0 then s else Run(Step(s, events[0], count, fixed), events[1..], count, fixed)
  }

  // ---------------------------------------------------------------------
  // invariants

  /** What holds in every state the page can reach:
      - the time per question is at least 5 and a multiple of 5;
      - the clock is never negative;
      - the question index stays inside the list;
      - a finished game has its last answer shown. */
  predicate Inv(s: State, count: nat) {
    && s.configTime >= MinTime && s.configTime % TimeStep == 0
    && s.timeLeft >= 0
    && (count > 0 ==> s.index < count)
    && (s.finished ==> s.revealed)
  }

  lemma InitialInv(count: nat)
    ensures Inv(Initial, count)
  {
  }

  lemma StepInv(s: State, e: Event, count: nat, fixed: bool)
    requires Inv(s, count)
    ensures Inv(Step(s, e, count, fixed), count)
  {
  }

  lemma {:induction false} RunInv(s: State, events: seq<Event>, count: nat, fixed: bool)
    requires Inv(s, count)
    ensures Inv(Run(s, events, count, fixed), count)
    decreases |events|
  {
    if |events| > 0 {
      StepInv(s, events[0], count, fixed);
      RunInv(Step(s, events[0], count, fixed), events[1..], count, fixed);
    }
  }

  /** Every state reached from the opening state satisfies the invariant. */
  lemma ReachableInv(events: seq<Event>, count: nat, fixed: bool)
    ensures Inv(Run(Initial, events, count, fixed), count)
  {
    InitialInv(count);
    RunInv(Initial, events, count, fixed);
  }

  // ---------------------------------------------------------------------
  // the clock

  function Ticks(s: State, n: nat): State
    decreases n
  {
    if n == 0 then s else Ticks(Tick(s), n - 1)
  }

  /** A running, unrevealed question shows its answer after `timeLeft + 1`
      timer runs, with the clock at zero, and not a run earlier. */
  lemma {:induction false} CountdownReveals(s: State)
    requires s.active && !s.revealed && s.timeLeft >= 0
    ensures Ticks(s, s.timeLeft + 1).revealed
    ensures Ticks(s, s.timeLeft + 1) == s.(revealed := true, timeLeft := 0)
    ensures forall k: nat :: k <= s.timeLeft ==> !Ticks(s, k).revealed
    decreases s.timeLeft
  {
    if s.timeLeft > 0 {
      CountdownReveals(Tick(s));
    }
    forall k: nat | k <= s.timeLeft
      ensures !Ticks(s, k).revealed
    {
      CountdownSteps(s, k);
    }
  }

  /** Each timer run on a running, unrevealed question takes off exactly
      one second, down to zero. */
  lemma {:induction false} CountdownSteps(s: State, k: nat)
    requires s.active && !s.revealed && k <= s.timeLeft
    ensures Ticks(s, k) == s.(timeLeft := s.timeLeft - k)
    decreases k
  {
    if k > 0 {
      CountdownSteps(Tick(s), k - 1);
    }
  }

  /** Outside a running game (the setup screen, a finished game) the clock
      never moves. */
  lemma {:induction false} IdleClock(s: State, n: nat)
    requires !s.active
    ensures Ticks(s, n) == s
    decreases n
  {
    if n > 0 {
      IdleClock(Tick(s), n - 1);
    }
  }

  /** While the answer is shown, the clock stands still. */
  lemma {:induction false} FrozenWhileRevealed(s: State, n: nat)
    requires s.revealed
    ensures Ticks(s, n) == s
    decreases n
  {
    if n > 0 {
      FrozenWhileRevealed(Tick(s), n - 1);
    }
  }

  /** The time per question moves in steps of 5 and never below 5. */
  lemma TimeButtons(s: State)
    requires s.configTime >= MinTime && s.configTime % TimeStep == 0
    ensures Shorter(s).configTime >= MinTime && Shorter(s).configTime % TimeStep == 0
    ensures Longer(s).configTime > s.configTime && Longer(s).configTime % TimeStep == 0
    ensures s.configTime > MinTime ==> Shorter(s).configTime == s.configTime - TimeStep
  {
  }

  // ---------------------------------------------------------------------
  // playing through

  /** `n` rounds of "reveal" then "next". */
  function Rounds(n: nat): seq<Event> {
    if n == 0 then [] else [RevealEvent, NextEvent] + Rounds(n - 1)
  }

  /** From any question of a running game, one round per remaining
      question finishes the game on the last question, with its answer
      shown; every earlier round moves to the next question. */
  lemma {:induction false} PlayThrough(s: State, count: nat, fixed: bool)
    requires Inv(s, count) && count > 0 && !s.setup && !s.finished
    ensures var r := Run(s, Rounds(count - s.index), count, fixed);
            r.finished && r.revealed && !r.active && r.index == count - 1
    decreases count - s.index
  {
    var rs := Rounds(count - s.index);
    assert rs[1..] == [NextEvent] + Rounds(count - s.index - 1);
    assert rs[1..][1..] == Rounds(count - s.index - 1);
    var shown := Step(s, RevealEvent, count, fixed);
    assert shown == s.(revealed := true);
    var after := Step(shown, NextEvent, count, fixed);
    assert Run(s, rs, count, fixed) == Run(shown, rs[1..], count, fixed);
    assert Run(shown, rs[1..], count, fixed) == Run(after, Rounds(count - s.index - 1), count, fixed);
    if s.index + 1 < count {
      assert after == shown.(index := s.index + 1, revealed := false, timeLeft := s.configTime);
      StepInv(s, RevealEvent, count, fixed);
      StepInv(shown, NextEvent, count, fixed);
      PlayThrough(after, count, fixed);
    } else {
      assert after == shown.(finished := true, active := false);
      assert Rounds(0) == [];
    }
  }

  // ---------------------------------------------------------------------
  // replaying

  /** As written, every replay starts with the previous answer on screen
      and the clock stopped: a finished game always has `revealed` set,
      "play again" keeps it, and "start" does not clear it. */
  lemma ReplayStartsRevealed(s: State, count: nat, n: nat)
    requires Inv(s, count) && s.finished && !s.setup && count > 0
    ensures var replay := Start(PlayAgainAsWritten(s));
            replay.active && replay.revealed && Ticks(replay, n) == replay
  {
    FrozenWhileRevealed(Start(PlayAgainAsWritten(s)), n);
  }

  /** With the corrected "play again" a replay starts exactly like a first
      game with the same time per question: first question, answer hidden,
      full clock, and the countdown runs. */
  lemma ReplayStartsFresh(s: State, count: nat)
    requires Inv(s, count) && s.finished
    ensures Start(PlayAgain(s)) == Start(Initial.(configTime := s.configTime))
    ensures var replay := Start(PlayAgain(s));
            !replay.revealed && Ticks(replay, replay.timeLeft + 1).revealed
  {
    CountdownReveals(Start(PlayAgain(s)));
  }
}
