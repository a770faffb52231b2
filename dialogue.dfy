/** `ChatAI.start_dialogue`: the session loop between a wake-up and going back to
    sleep, over a finite sequence of per-iteration inputs.

    Each iteration reads the clock for the timeout test, obtains one
    transcription, and on a valid input reads the clock again and produces a
    reply. The clock readings, the transcription and the `strftime` text of
    every iteration are the fields of an `Event`; running out of events stands
    for the `KeyboardInterrupt` that ends the loop from outside. */
module Dialogue {
  import opened Config
  import opened TextRules

  datatype Role = User | Ai

  /** One entry of `conversation_history`: `{"role": ..., "content": ...}`. */
  datatype Turn = Turn(role: Role, content: string)

  /** The inputs of one iteration: `now` is the clock at the timeout test,
      `text` the transcription, `heardAt` the clock read after a valid input,
      `clock` the `%H:%M` text the time reply would show. */
  datatype Event = Event(now: int, text: string, heardAt: int, clock: string)

  /** Why the loop stopped. */
  datatype StopReason = Timeout | TooManyInvalid | ExitIntent | Interrupted

  /** The loop's state: `last_input_time`, `invalid_input_count`, `conversation_history`. */
  datatype Session = Session(lastInputTime: int, invalidInputs: nat, history: seq<Turn>)

  /** The result of one iteration: carry on from a new state, or stop. */
  datatype Step = Next(next: Session) | Stop(history: seq<Turn>, why: StopReason)

  /** What `start_dialogue` returns, together with the branch that ended it. */
  datatype Outcome = Outcome(history: seq<Turn>, why: StopReason)

  /** The two history entries one answered input adds. */
  function Exchange(text: string, clock: string): seq<Turn>
  {
    [Turn(User, text), Turn(Ai, ProcessResponse(text, clock))]
  }

  /** One iteration of the loop body: the timeout test against the last valid
      input, then the empty-input count, then the exit test, then the reply. */
  function Iteration(s: Session, e: Event): Step
  {
    if e.now - s.lastInputTime > TimeoutSeconds then Stop(s.history, Timeout)
    else if e.text == "" then
      if s.invalidInputs + 1 >= MaxInvalidInputs then Stop(s.history, TooManyInvalid)
      else Next(Session(s.lastInputTime, s.invalidInputs + 1, s.history))
    else if CheckExitIntent(e.text) then Stop(s.history, ExitIntent)
    else Next(Session(e.heardAt, 0, s.history + Exchange(e.text, e.clock)))
  }

  /** The loop run from state `s` over the remaining events. */
  function Run(s: Session, events: seq<Event>): Outcome
    decreases |events|
  {
    if events == [] then Outcome(s.history, Interrupted)
    else match Iteration(s, events[0])
      case Stop(h, why) => Outcome(h, why)
      case Next(s') => Run(s', events[1..])
  }

  /** The state before the first iteration; `start` is the clock when the dialogue begins. */
  function Initial(start: int): Session
  {
    Session(start, 0, [])
  }

  /** What a whole dialogue returns. */
  function Dialogue(start: int, events: seq<Event>): Outcome
  {
    Run(Initial(start), events)
  }

  // ---------------------------------------------------------------------------
  // The loop

  /** The run from position `i` is one iteration on event `i`, then the run from `i + 1`. */
  lemma RunUnfold(s: Session, events: seq<Event>, i: nat)
    requires i < |events|
    ensures Run(s, events[i..]) == match Iteration(s, events[i])
      case Stop(h, why) => Outcome(h, why)
      case Next(s') => Run(s', events[i + 1..])
  {
    assert events[i..][0] == events[i] && events[i..][1..] == events[i + 1..];
  }

  /** The session loop, proved to return what `Dialogue` describes. */
  method StartDialogue(start: int, events: seq<Event>) returns (history: seq<Turn>, why: StopReason)
    ensures Outcome(history, why) == Dialogue(start, events)
  {
    history := [];
    var lastInputTime := start;
    var invalidInputCount: nat := 0;
    var i := 0;
    while i < |events|
      invariant 0 <= i <= |events|
      invariant invalidInputCount < MaxInvalidInputs
      invariant Run(Session(lastInputTime, invalidInputCount, history), events[i..]) == Dialogue(start, events)
    {
      ghost var s := Session(lastInputTime, invalidInputCount, history);
      RunUnfold(s, events, i);
      var e := events[i];
      if e.now - lastInputTime > TimeoutSeconds {
        why := Timeout;
        return;
      }
      var textInput := e.text;
      if textInput == "" {
        invalidInputCount := invalidInputCount + 1;
        if invalidInputCount >= MaxInvalidInputs {
          why := TooManyInvalid;
          return;
        }
        i := i + 1;
        continue;
      }
      lastInputTime := e.heardAt;
      invalidInputCount := 0;
      if CheckExitIntent(textInput) {
        why := ExitIntent;
        return;
      }
      var aiResponse := ProcessResponse(textInput, e.clock);
      history := history + [Turn(User, textInput)];
      history := history + [Turn(Ai, aiResponse)];
      assert history == s.history + Exchange(textInput, e.clock);
      i := i + 1;
    }
    why := Interrupted;
  }

  // ---------------------------------------------------------------------------
  // The history

  /** Entries `2k` and `2k + 1` are a non-empty, non-exit user input and the
      reply `_process_response` gives to it at some clock reading. */
  ghost predicate ExchangeAt(h: seq<Turn>, k: nat)
    requires 2 * k + 1 < |h|
  {
    h[2 * k].role == User && h[2 * k + 1].role == Ai &&
    h[2 * k].content != "" && !CheckExitIntent(h[2 * k].content) &&
    exists clock :: h[2 * k + 1].content == ProcessResponse(h[2 * k].content, clock)
  }

  /** A history made of whole exchanges, user first. */
  ghost predicate WellFormed(h: seq<Turn>)
  {
    |h| % 2 == 0 && forall k: nat :: k < |h| / 2 ==> ExchangeAt(h, k)
  }

  /** Appending one answered input keeps the history made of whole exchanges. */
  lemma ExchangeKeepsWellFormed(h: seq<Turn>, e: Event)
    requires WellFormed(h) && e.text != "" && !CheckExitIntent(e.text)
    ensures WellFormed(h + Exchange(e.text, e.clock))
  {
    var h' := h + Exchange(e.text, e.clock);
    forall k: nat | k < |h'| / 2 ensures ExchangeAt(h', k) {
      if k < |h| / 2 {
        assert ExchangeAt(h, k);
        assert h'[2 * k] == h[2 * k] && h'[2 * k + 1] == h[2 * k + 1];
      } else {
        assert h'[2 * k] == Turn(User, e.text);
        assert h'[2 * k + 1].content == ProcessResponse(e.text, e.clock);
      }
    }
  }

  /** Running the loop only appends to the history, and only whole exchanges. */
  lemma {:induction false} RunKeepsWellFormed(s: Session, events: seq<Event>)
    requires WellFormed(s.history)
    ensures s.history <= Run(s, events).history
    ensures WellFormed(Run(s, events).history)
    decreases |events|
  {
    if events != [] {
      var e := events[0];
      match Iteration(s, e)
      case Stop(h, why) =>
      case Next(s') =>
        if s'.history != s.history {
          ExchangeKeepsWellFormed(s.history, e);
        }
        RunKeepsWellFormed(s', events[1..]);
    }
  }

  /** Every dialogue returns a history of whole exchanges: user then "ai", the
      user entry a non-empty input without exit intent, the "ai" entry the reply
      to it. */
  lemma DialogueHistoryWellFormed(start: int, events: seq<Event>)
    ensures WellFormed(Dialogue(start, events).history)
    ensures |Dialogue(start, events).history| % 2 == 0
  {
    RunKeepsWellFormed(Initial(start), events);
  }

  /** The history entries one iteration adds when it does not stop: an
      exchange for a non-empty transcription, nothing for an empty one. */
  function Answer(e: Event): seq<Turn>
  {
    if e.text != "" then Exchange(e.text, e.clock) else []
  }

  /** The history entries a run of iterations adds when none of them stops:
      one exchange per non-empty transcription, in event order. */
  function Answered(events: seq<Event>): seq<Turn>
    decreases |events|
  {
    if events == [] then [] else Answer(events[0]) + Answered(events[1..])
  }

  /** A non-empty prefix's answers are its first event's, then the rest's. */
  lemma AnsweredPrefix(events: seq<Event>, n: nat)
    requires 0 < n <= |events|
    ensures Answered(events[..n]) == Answer(events[0]) + Answered(events[1..][..n - 1])
  {
    assert events[..n][0] == events[0] && events[..n][1..] == events[1..][..n - 1];
  }

  /** How many events the run gets through without stopping: the position of
      the event it stops on, or `|events|` when it runs out of events. */
  function StopIndex(s: Session, events: seq<Event>): (n: nat)
    ensures n <= |events|
    decreases |events|
  {
    if events == [] then 0
    else match Iteration(s, events[0])
      case Stop(_, _) => 0
      case Next(s') => 1 + StopIndex(s', events[1..])
  }

  /** A non-stopping first iteration hands the run, and its stopping
      position, on to the rest of the events. */
  lemma RunNext(s: Session, events: seq<Event>, s': Session)
    requires events != [] && Iteration(s, events[0]) == Next(s')
    ensures Run(s, events) == Run(s', events[1..])
    ensures StopIndex(s, events) == 1 + StopIndex(s', events[1..])
    ensures s'.history == s.history + Answer(events[0])
  {
  }

  /** The returned history is exactly the start history followed by one
      exchange per non-empty transcription before the stopping event, in order. */
  lemma {:induction false} RunHistory(s: Session, events: seq<Event>)
    ensures Run(s, events).history == s.history + Answered(events[..StopIndex(s, events)])
    decreases |events|
  {
    if events == [] || Iteration(s, events[0]).Stop? {
      assert Answered(events[..0]) == [];
    } else {
      var s' := Iteration(s, events[0]).next;
      var n' := StopIndex(s', events[1..]);
      RunNext(s, events, s');
      RunHistory(s', events[1..]);
      AnsweredPrefix(events, n' + 1);
      var rest := Answered(events[1..][..n']);
      assert (s.history + Answer(events[0])) + rest == s.history + (Answer(events[0]) + rest);
    }
  }

  /** The run runs out of events exactly when it ends `Interrupted`; otherwise
      the event it stops on fits the reason: an exit stop is on an input with an
      exit keyword, a too-many-invalid stop on an empty transcription. */
  lemma {:induction false} RunStopEvent(s: Session, events: seq<Event>)
    ensures StopIndex(s, events) == |events| <==> Run(s, events).why == Interrupted
    ensures Run(s, events).why == ExitIntent ==>
              StopIndex(s, events) < |events| && CheckExitIntent(events[StopIndex(s, events)].text)
    ensures Run(s, events).why == TooManyInvalid ==>
              StopIndex(s, events) < |events| && events[StopIndex(s, events)].text == ""
    decreases |events|
  {
    if events != [] {
      var step := Iteration(s, events[0]);
      if step.Next? {
        var s' := step.next;
        RunStopEvent(s', events[1..]);
        var n' := StopIndex(s', events[1..]);
        if n' < |events[1..]| {
          assert events[n' + 1] == events[1..][n'];
        }
      }
    }
  }

  /** A dialogue interrupted from outside returns one exchange per non-empty
      transcription, in order, and nothing else. */
  lemma InterruptedHistory(start: int, events: seq<Event>)
    requires Dialogue(start, events).why == Interrupted
    ensures Dialogue(start, events).history == Answered(events)
  {
    RunHistory(Initial(start), events);
    RunStopEvent(Initial(start), events);
    assert events[..|events|] == events;
  }

  // ---------------------------------------------------------------------------
  // Why it stopped

  /** The events from `k - 2` to `k` that exist are all empty transcriptions. */
  ghost predicate EmptyUpTo(events: seq<Event>, k: nat)
    requires k < |events|
  {
    forall m :: 0 <= m <= k && k <= m + 2 ==> events[m].text == ""
  }

  /** A too-many-invalid stop is on an empty transcription that brings the
      count, started at `s.invalidInputs`, to `MaxInvalidInputs`: the stopping
      event and the up to two events before it are all empty. */
  lemma {:induction false} RunTooManyInvalid(s: Session, events: seq<Event>)
    requires s.invalidInputs < MaxInvalidInputs
    ensures Run(s, events).why == TooManyInvalid ==>
              StopIndex(s, events) < |events| &&
              StopIndex(s, events) + 1 + s.invalidInputs >= MaxInvalidInputs &&
              EmptyUpTo(events, StopIndex(s, events))
    decreases |events|
  {
    if events != [] && Iteration(s, events[0]).Next? && Run(s, events).why == TooManyInvalid {
      var s' := Iteration(s, events[0]).next;
      var k' := StopIndex(s', events[1..]);
      RunNext(s, events, s');
      RunTooManyInvalid(s', events[1..]);
      forall m | 0 <= m <= k' + 1 && k' + 1 <= m + 2 ensures events[m].text == "" {
        if m > 0 {
          assert events[m] == events[1..][m - 1];
        }
      }
    }
  }

  /** The converse: once the loop reaches event `k` in time, with `k` empty
      transcriptions enough to bring the count to `MaxInvalidInputs`, it stops
      there for too many invalid inputs. */
  lemma {:induction false} TooManyInvalidStop(s: Session, events: seq<Event>, k: nat)
    requires k < |events| && k <= StopIndex(s, events)
    requires k + 1 + s.invalidInputs >= MaxInvalidInputs && EmptyUpTo(events, k)
    requires events[k].now - LastValid(s.lastInputTime, events, k) <= TimeoutSeconds
    ensures StopIndex(s, events) == k && Run(s, events).why == TooManyInvalid
    decreases k
  {
    if k > 0 {
      var s' := Iteration(s, events[0]).next;
      RunNext(s, events, s');
      LastValidShift(s.lastInputTime, events, k - 1);
      assert events[1..][k - 1] == events[k];
      forall m | 0 <= m <= k - 1 && k - 1 <= m + 2 ensures events[1..][m].text == "" {
        assert events[1..][m] == events[m + 1];
      }
      TooManyInvalidStop(s', events[1..], k - 1);
    }
  }

  /** A dialogue ends for too many invalid inputs exactly on the third of three
      consecutive empty transcriptions. */
  lemma TooManyInvalidMeansThreeEmpty(start: int, events: seq<Event>)
    requires Dialogue(start, events).why == TooManyInvalid
    ensures var k := StopIndex(Initial(start), events);
              2 <= k < |events| &&
              events[k - 2].text == "" && events[k - 1].text == "" && events[k].text == ""
  {
    RunTooManyInvalid(Initial(start), events);
  }

  /** The converse of the exit-intent stop: once the loop reaches event `k` in
      time and its transcription contains an exit keyword, it stops there. */
  lemma {:induction false} ExitIntentStop(s: Session, events: seq<Event>, k: nat)
    requires k < |events| && k <= StopIndex(s, events) && CheckExitIntent(events[k].text)
    requires events[k].now - LastValid(s.lastInputTime, events, k) <= TimeoutSeconds
    ensures StopIndex(s, events) == k && Run(s, events).why == ExitIntent
    decreases k
  {
    if k > 0 {
      var s' := Iteration(s, events[0]).next;
      RunNext(s, events, s');
      LastValidShift(s.lastInputTime, events, k - 1);
      assert events[1..][k - 1] == events[k];
      ExitIntentStop(s', events[1..], k - 1);
    } else {
      ExitIntentFalseOnEmpty();
    }
  }

  /** The converse of the timeout rule: once the loop reaches event `k` and it
      is read more than `TimeoutSeconds` after the last valid input, it stops
      there by timeout. */
  lemma {:induction false} TimeoutStop(s: Session, events: seq<Event>, k: nat)
    requires k < |events| && k <= StopIndex(s, events)
    requires events[k].now - LastValid(s.lastInputTime, events, k) > TimeoutSeconds
    ensures StopIndex(s, events) == k && Run(s, events).why == Timeout
    decreases k
  {
    if k > 0 {
      var s' := Iteration(s, events[0]).next;
      RunNext(s, events, s');
      LastValidShift(s.lastInputTime, events, k - 1);
      assert events[1..][k - 1] == events[k];
      TimeoutStop(s', events[1..], k - 1);
    }
  }

  /** The clock `last_input_time` holds when event `j` is reached: the
      `heardAt` of the last non-empty transcription before `j`, or `start` when
      there is none. */
  function LastValid(start: int, events: seq<Event>, j: nat): int
    requires j <= |events|
    decreases j
  {
    if j == 0 then start
    else if events[j - 1].text != "" then events[j - 1].heardAt
    else LastValid(start, events, j - 1)
  }

  /** Dropping the first event moves the reference clock to it when its
      transcription is non-empty. */
  lemma {:induction false} LastValidShift(start: int, events: seq<Event>, j: nat)
    requires 0 < |events| && j < |events|
    ensures LastValid(start, events, j + 1) ==
              LastValid(if events[0].text != "" then events[0].heardAt else start, events[1..], j)
    decreases j
  {
    if j > 0 {
      assert events[1..][j - 1] == events[j];
      LastValidShift(start, events, j - 1);
    }
  }

  /** Every event the run gets through was read within `TimeoutSeconds` of the
      last valid input before it (or of the start), and a timeout stop is on the
      first event read later than that. */
  lemma {:induction false} RunTimeout(s: Session, events: seq<Event>)
    ensures forall m :: 0 <= m < StopIndex(s, events) ==>
              events[m].now - LastValid(s.lastInputTime, events, m) <= TimeoutSeconds
    ensures Run(s, events).why == Timeout ==>
              StopIndex(s, events) < |events| &&
              events[StopIndex(s, events)].now -
                LastValid(s.lastInputTime, events, StopIndex(s, events)) > TimeoutSeconds
    decreases |events|
  {
    if events != [] && Iteration(s, events[0]).Next? {
      var s' := Iteration(s, events[0]).next;
      var n' := StopIndex(s', events[1..]);
      RunNext(s, events, s');
      RunTimeout(s', events[1..]);
      assert s'.lastInputTime == if events[0].text != "" then events[0].heardAt else s.lastInputTime;
      forall m | 0 <= m < StopIndex(s, events)
        ensures events[m].now - LastValid(s.lastInputTime, events, m) <= TimeoutSeconds
      {
        if m > 0 {
          LastValidShift(s.lastInputTime, events, m - 1);
          assert events[1..][m - 1] == events[m];
        }
      }
      if Run(s, events).why == Timeout {
        LastValidShift(s.lastInputTime, events, n');
        assert events[1..][n'] == events[n' + 1];
      }
    }
  }

  /** The converse: while every clock reading is within `TimeoutSeconds` of the
      last valid input before it (or of the start), the dialogue does not time
      out. A valid input restarts the window; an empty one does not. */
  lemma {:induction false} NoTimeoutWithinWindow(s: Session, events: seq<Event>)
    requires forall j :: 0 <= j < |events| ==>
               events[j].now - LastValid(s.lastInputTime, events, j) <= TimeoutSeconds
    ensures Run(s, events).why != Timeout
    decreases |events|
  {
    if events != [] {
      assert events[0].now - LastValid(s.lastInputTime, events, 0) <= TimeoutSeconds;
      match Iteration(s, events[0])
      case Stop(h, why) =>
      case Next(s') =>
        forall j | 0 <= j < |events[1..]|
          ensures events[1..][j].now - LastValid(s'.lastInputTime, events[1..], j) <= TimeoutSeconds
        {
          LastValidShift(s.lastInputTime, events, j);
          assert events[1..][j] == events[j + 1];
        }
        NoTimeoutWithinWindow(s', events[1..]);
    }
  }

  // ---------------------------------------------------------------------------
  // Scenarios

  /** Three empty transcriptions in a row, in time: the dialogue ends for too
      many invalid inputs with an empty history. */
  lemma ThreeEmptyInputsEnd(start: int, events: seq<Event>)
    requires |events| >= 3
    requires forall j :: 0 <= j < 3 ==> events[j].text == "" && events[j].now - start <= TimeoutSeconds
    ensures Dialogue(start, events) == Outcome([], TooManyInvalid)
  {
    var s1 := Session(start, 1, []);
    var s2 := Session(start, 2, []);
    assert events[2..][0] == events[2];
    assert Run(s2, events[2..]) == Outcome([], TooManyInvalid);
    assert events[1..][0] == events[1] && events[1..][1..] == events[2..];
    assert Run(s1, events[1..]) == Run(s2, events[2..]);
    assert Run(Initial(start), events) == Run(s1, events[1..]);
  }

  /** An empty transcription does not reset the timer: after one at second 5,
      a reading at second 21 times out a dialogue that began at second 0. */
  lemma EmptyInputDoesNotResetTimer(events: seq<Event>)
    requires |events| >= 2 && events[0].now == 5 && events[0].text == "" && events[1].now == 21
    ensures Dialogue(0, events) == Outcome([], Timeout)
  {
    var s1 := Session(0, 1, []);
    assert events[1..][0] == events[1];
    assert Run(s1, events[1..]) == Outcome([], Timeout);
    assert Run(Initial(0), events) == Run(s1, events[1..]);
  }

  /** A greeting is not an exit intent. */
  lemma GreetingIsNoExit()
    ensures !CheckExitIntent("你好")
  {
    var l := Lower("你好");
    assert l == "你好";
    forall k, i | 0 <= k < |ExitKeywords| ensures !OccursAt(l, ExitKeywords[k], i) {
      var kw := ExitKeywords[k];
      if 0 <= i && i + |kw| <= |l| {
        assert l[i..i + |kw|][0] == l[i];
      }
    }
  }

  /** A greeting gets the greeting reply, whatever the clock. */
  lemma GreetingGetsGreetingReply(clock: string)
    ensures ProcessResponse("你好", clock) == GreetingReply
  {
    assert OccursAt("你好", "你好", 0);
  }

  /** A greeting heard in time is answered with the greeting reply. */
  lemma GreetingAnswered(s: Session, e: Event)
    requires e.text == "你好" && e.now - s.lastInputTime <= TimeoutSeconds
    ensures Iteration(s, e) ==
              Next(Session(e.heardAt, 0, s.history + [Turn(User, "你好"), Turn(Ai, GreetingReply)]))
  {
    GreetingIsNoExit();
    GreetingGetsGreetingReply(e.clock);
  }

  /** A farewell heard in time ends the dialogue and is not recorded. */
  lemma FarewellEnds(s: Session, e: Event)
    requires e.text == "谢谢，再见" && e.now - s.lastInputTime <= TimeoutSeconds
    ensures Iteration(s, e) == Stop(s.history, ExitIntent)
  {
    ExitIntentExamples();
  }

  /** A greeting then a farewell: one exchange with the greeting reply, then the
      farewell ends the dialogue without being recorded. */
  lemma GreetingThenFarewell(start: int, e1: Event, e2: Event, rest: seq<Event>)
    requires e1.text == "你好" && e1.now - start <= TimeoutSeconds
    requires e2.text == "谢谢，再见" && e2.now - e1.heardAt <= TimeoutSeconds
    ensures Dialogue(start, [e1, e2] + rest) ==
              Outcome([Turn(User, "你好"), Turn(Ai, GreetingReply)], ExitIntent)
  {
    var events := [e1, e2] + rest;
    var h := [Turn(User, "你好"), Turn(Ai, GreetingReply)];
    var s1 := Session(e1.heardAt, 0, h);
    GreetingAnswered(Initial(start), e1);
    FarewellEnds(s1, e2);
    assert events[0] == e1 && events[1..][0] == e2;
    assert Run(s1, events[1..]) == Outcome(h, ExitIntent);
    assert Run(Initial(start), events) == Run(s1, events[1..]);
  }
}
