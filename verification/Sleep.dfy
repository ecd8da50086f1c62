/** millisleep against the timer interrupt: every interleaving of the two. */
module Sleep {

  /** Where the sleeping code is: about to read the countdown, past a read that was not zero
      and about to execute hlt, halted, or returned. */
  datatype Place = Checking | Halting | Halted | Returned

  /** ticks counts the timer interrupts from the setting of the countdown to the return. */
  datatype State = State(place: Place, countdown: nat, ticks: nat)

  // Main: one step of millisleep. Tick: the timer interrupt. Other: any other interrupt.
  datatype Event = Main | Tick | Other

  function Start(millis: nat): State { State(Checking, millis, 0) }

  function Wake(p: Place): Place { if p == Halted then Checking else p }

  /** A halted processor takes no step of its own; every interrupt wakes it. */
  predicate Possible(s: State, e: Event) {
    e == Main ==> s.place == Checking || s.place == Halting
  }

  function Step(s: State, e: Event): State
    requires Possible(s, e)
  {
    match e
    case Main =>
      if s.place == Checking then s.(place := if s.countdown > 0 then Halting else Returned)
      else s.(place := Halted)
    case Tick =>
      State(Wake(s.place), if s.countdown > 0 then s.countdown - 1 else 0,
            if s.place == Returned then s.ticks else s.ticks + 1)
    case Other => s.(place := Wake(s.place))
  }

  predicate Possibly(s: State, run: seq<Event>)
    decreases |run|
  {
    run == [] || (Possible(s, run[0]) && Possibly(Step(s, run[0]), run[1..]))
  }

  function After(s: State, run: seq<Event>): State
    requires Possibly(s, run)
    decreases |run|
  {
    if run == [] then s else After(Step(s, run[0]), run[1..])
  }

  // ----- not too early -----

  /** Until the return, every tick has been taken from the countdown as long as it lasted. */
  predicate Counted(millis: nat, s: State) {
    if s.place == Returned then s.ticks >= millis
    else s.countdown == if s.ticks < millis then millis - s.ticks else 0
  }

  lemma {:induction false} RunCounted(millis: nat, s: State, run: seq<Event>)
    requires Counted(millis, s) && Possibly(s, run)
    ensures Counted(millis, After(s, run))
    decreases |run|
  {
    if run != [] {
      RunCounted(millis, Step(s, run[0]), run[1..]);
    }
  }

  /** millisleep(m) has seen at least m ticks when it returns, in every interleaving. */
  lemma NeverEarly(millis: nat, run: seq<Event>)
    requires Possibly(Start(millis), run)
    ensures After(Start(millis), run).place == Returned ==> After(Start(millis), run).ticks >= millis
  {
    RunCounted(millis, Start(millis), run);
  }

  // ----- not too late -----

  /** Between two ticks the sleeping code takes a step unless it is halted or has returned.
      stepped: it has done so since the last tick. */
  predicate Fair(s: State, stepped: bool, run: seq<Event>)
    requires Possibly(s, run)
    decreases |run|
  {
    run == [] ||
    match run[0]
    case Main => Fair(Step(s, Main), true, run[1..])
    case Tick => (stepped || s.place == Halted || s.place == Returned) && Fair(Step(s, Tick), false, run[1..])
    case Other => Fair(Step(s, Other), stepped, run[1..])
  }

  /** How late the sleeper can be, by where it is. The countdown can only reach zero in the
      gap between check and hlt if the tick came right after the check. */
  predicate Prompt(millis: nat, s: State, stepped: bool) {
    if s.place == Returned then s.ticks <= millis + 1
    else if s.countdown > 0 then s.ticks < millis && s.countdown == millis - s.ticks
    else
      match s.place
      case Checking => s.ticks <= if stepped then millis else millis + 1
      case Halting => s.ticks <= millis && !stepped
      case Halted => s.ticks <= millis
      case Returned => true
  }

  lemma {:induction false} FairPrompt(millis: nat, s: State, stepped: bool, run: seq<Event>)
    requires Prompt(millis, s, stepped) && Possibly(s, run) && Fair(s, stepped, run)
    ensures After(s, run).ticks <= millis + 1
    decreases |run|
  {
    if run != [] {
      var e := run[0];
      FairPrompt(millis, Step(s, e), if e == Main then true else if e == Tick then false else stepped, run[1..]);
    }
  }

  function Ticks(run: seq<Event>): nat {
    if run == [] then 0 else (if run[0] == Tick then 1 else 0) + Ticks(run[1..])
  }

  lemma {:induction false} TicksSeen(s: State, run: seq<Event>)
    requires Possibly(s, run)
    ensures After(s, run).place != Returned ==> After(s, run).ticks == s.ticks + Ticks(run)
    ensures s.place == Returned ==> After(s, run).place == Returned
    decreases |run|
  {
    if run != [] {
      TicksSeen(Step(s, run[0]), run[1..]);
    }
  }

  /** In a fair interleaving millisleep(m) returns after at most m + 1 ticks, and it does
      return: no fair run gets past m + 1 ticks without it. */
  lemma NeverLate(millis: nat, run: seq<Event>)
    requires Possibly(Start(millis), run) && Fair(Start(millis), true, run)
    ensures After(Start(millis), run).ticks <= millis + 1
    ensures Ticks(run) >= millis + 2 ==> After(Start(millis), run).place == Returned
  {
    FairPrompt(millis, Start(millis), true, run);
    TicksSeen(Start(millis), run);
  }

  /** Without that, the sleep has no bound: ticks that keep coming before the sleeper has
      taken a step. */
  lemma {:induction false} Starved(s: State, n: nat) returns (run: seq<Event>)
    requires s.place == Checking
    ensures Possibly(s, run) && After(s, run).place == Checking && After(s, run).ticks == s.ticks + n
    decreases n
  {
    if n == 0 {
      run := [];
    } else {
      var rest := Starved(Step(s, Tick), n - 1);
      run := [Tick] + rest;
      assert run[1..] == rest;
    }
  }

  // ----- both bounds are reached -----

  /** A sleep in which every tick finds the processor halted, until the countdown is at the
      given value. */
  function Halts(rounds: nat): seq<Event> {
    if rounds == 0 then [] else [Main, Main, Tick] + Halts(rounds - 1)
  }

  lemma FirstEvent(s: State, e: Event, rest: seq<Event>)
    requires Possible(s, e) && Possibly(Step(s, e), rest)
    ensures Possibly(s, [e] + rest) && After(s, [e] + rest) == After(Step(s, e), rest)
    ensures e == Main && Fair(Step(s, e), true, rest) ==> Fair(s, true, [e] + rest) && Fair(s, false, [e] + rest)
    ensures e == Tick && s.place == Halted && Fair(Step(s, e), false, rest) ==> Fair(s, true, [e] + rest)
  {
    assert ([e] + rest)[1..] == rest;
  }

  lemma OneRound(s: State, rest: seq<Event>)
    requires s.place == Checking && s.countdown > 0
    requires Possibly(State(Checking, s.countdown - 1, s.ticks + 1), rest)
    requires Fair(State(Checking, s.countdown - 1, s.ticks + 1), false, rest)
    ensures var run := [Main] + ([Main] + ([Tick] + rest));
            && Possibly(s, run) && Fair(s, true, run) && Fair(s, false, run)
            && After(s, run) == After(State(Checking, s.countdown - 1, s.ticks + 1), rest)
  {
    LastOfRound(State(Halted, s.countdown, s.ticks), rest);
    FirstEvent(State(Halting, s.countdown, s.ticks), Main, [Tick] + rest);
    FirstEvent(s, Main, [Main] + ([Tick] + rest));
  }

  lemma LastOfRound(s: State, rest: seq<Event>)
    requires s.place == Halted && s.countdown > 0
    requires Possibly(State(Checking, s.countdown - 1, s.ticks + 1), rest)
    requires Fair(State(Checking, s.countdown - 1, s.ticks + 1), false, rest)
    ensures Possibly(s, [Tick] + rest) && Fair(s, true, [Tick] + rest)
    ensures After(s, [Tick] + rest) == After(State(Checking, s.countdown - 1, s.ticks + 1), rest)
  {
    FirstEvent(s, Tick, rest);
  }

  lemma {:induction false} Rounds(s: State, rounds: nat, rest: seq<Event>)
    requires s.place == Checking && s.countdown >= rounds
    requires var t := State(Checking, s.countdown - rounds, s.ticks + rounds);
             Possibly(t, rest) && Fair(t, false, rest) && Fair(t, true, rest)
    ensures var run := Halts(rounds) + rest;
            && Possibly(s, run) && Fair(s, true, run) && Fair(s, false, run)
            && After(s, run) == After(State(Checking, s.countdown - rounds, s.ticks + rounds), rest)
    decreases rounds
  {
    if rounds == 0 {
      assert Halts(0) + rest == rest;
    } else {
      var t := State(Checking, s.countdown - 1, s.ticks + 1);
      Rounds(t, rounds - 1, rest);
      OneRound(s, Halts(rounds - 1) + rest);
      assert Halts(rounds) + rest == [Main] + ([Main] + ([Tick] + (Halts(rounds - 1) + rest)));
    }
  }

  /** Some fair interleaving returns after exactly m ticks. */
  lemma ExactlyOnTime(millis: nat) returns (run: seq<Event>)
    ensures Possibly(Start(millis), run) && Fair(Start(millis), true, run)
    ensures After(Start(millis), run) == State(Returned, 0, millis)
  {
    run := Halts(millis) + [Main];
    var t := State(Checking, 0, millis);
    assert [Main][1..] == [];
    assert After(Step(t, Main), []) == State(Returned, 0, millis);
    Rounds(Start(millis), millis, [Main]);
  }

  /** Some fair interleaving returns one tick later: the last tick of the countdown lands
      between the check and hlt. */
  lemma OneTickLate(millis: nat) returns (run: seq<Event>)
    requires millis >= 1
    ensures Possibly(Start(millis), run) && Fair(Start(millis), true, run)
    ensures After(Start(millis), run) == State(Returned, 0, millis + 1)
  {
    var tail := [Main, Tick, Main, Tick, Main];
    run := Halts(millis - 1) + tail;
    var t := State(Checking, 1, millis - 1);
    LateTail(t);
    Rounds(Start(millis), millis - 1, tail);
  }

  lemma LateTail(t: State)
    requires t.place == Checking && t.countdown == 1
    ensures var tail := [Main, Tick, Main, Tick, Main];
            && Possibly(t, tail) && Fair(t, false, tail) && Fair(t, true, tail)
            && After(t, tail) == State(Returned, 0, t.ticks + 2)
  {
    var r0 := [Main, Tick, Main, Tick, Main];
    var r1 := [Tick, Main, Tick, Main];
    var r2 := [Main, Tick, Main];
    var r3 := [Tick, Main];
    var r4 := [Main];
    assert r0[1..] == r1 && r1[1..] == r2 && r2[1..] == r3 && r3[1..] == r4 && r4[1..] == [];
    var a := Step(t, Main);
    var b := Step(a, Tick);
    var c := Step(b, Main);
    var d := Step(c, Tick);
    assert Possibly(d, r4) && Fair(d, false, r4) && After(d, r4) == Step(d, Main);
    assert Possibly(c, r3) && Fair(c, true, r3) && After(c, r3) == After(d, r4);
    assert Possibly(b, r2) && Fair(b, false, r2) && After(b, r2) == After(c, r3);
    assert Possibly(a, r1) && Fair(a, true, r1) && After(a, r1) == After(b, r2);
  }

  // ----- halting -----

  /** A halted processor does nothing until an interrupt comes, and any interrupt will do: when
      the only tick came too early, another interrupt ends the sleep. */
  lemma OtherWakes()
    ensures !Possibly(Start(1), [Main, Main, Main])
    ensures Possibly(Start(1), [Main, Tick, Main, Other, Main])
    ensures After(Start(1), [Main, Tick, Main, Other, Main]) == State(Returned, 0, 1)
    ensures !Possibly(Start(1), [Main, Tick, Main, Main])
  {
    var t := Step(Step(Step(Start(1), Main), Tick), Main);
    assert t == State(Halted, 0, 1);
    HaltedFor(t);
    var r := [Main, Tick, Main, Other, Main];
    assert r[1..] == [Tick, Main, Other, Main] && r[1..][1..] == [Main, Other, Main];
    assert r[1..][1..][1..] == [Other, Main] && [Other, Main][1..] == [Main] && [Main][1..] == [];
    var q := [Main, Tick, Main, Main];
    assert q[1..] == [Tick, Main, Main] && q[1..][1..] == [Main, Main] && [Main, Main][1..] == [Main];
    assert [Main, Main, Main][1..] == [Main, Main];
  }

  // no step of the program, and back to the check with any interrupt
  lemma HaltedFor(s: State)
    requires s.place == Halted
    ensures !Possible(s, Main)
    ensures Possible(s, Other) && Step(s, Other) == s.(place := Checking)
    ensures Possible(s, Tick) && Step(s, Tick).place == Checking
  {
  }

  // ----- the interrupt handler -----

  class Timer {
    var countdown: nat
    var timerTicks: nat

    constructor ()
      ensures countdown == 0 && timerTicks == 0
    {
      countdown, timerTicks := 0, 0;
    }

    /** timer_handler does to the countdown what the Tick event does; the 64-bit tick counter
        wraps. */
    method TimerHandler(ghost s: State)
      requires s.countdown == countdown
      modifies this
      ensures countdown == Step(s, Tick).countdown
      ensures countdown == if old(countdown) > 0 then old(countdown) - 1 else 0
      ensures timerTicks == (old(timerTicks) + 1) % 0x1_0000_0000_0000_0000
    {
      if countdown > 0 {
        countdown := countdown - 1;
      }
      timerTicks := (timerTicks + 1) % 0x1_0000_0000_0000_0000;
    }
  }
}
