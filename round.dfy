/** The rules of one level as values: frame time, question score, the
    win/lose check after every frame and the pause between questions. */
module Round {
  import opened Common

  /** Longest frame the simulation advances by, in seconds. */
  const MaxFrame: real := 0.05
  /** Pause after an even-numbered solved question (with praise) and after an odd one. */
  const PraisePause: real := 2.2
  const PlainPause: real := 1.2
  /** Number of entries of `PRAISE_MESSAGES`. */
  const PraiseCount: nat := 10

  /** The frame time of `gameLoop`: milliseconds to seconds, capped above. */
  function FrameTime(timestamp: real, last: real): (dt: real)
    ensures dt <= MaxFrame
    ensures dt == (timestamp - last) / 1000.0 || dt == MaxFrame
    ensures (timestamp - last) / 1000.0 <= MaxFrame ==> dt == (timestamp - last) / 1000.0
  {
    var raw := (timestamp - last) / 1000.0;
    if raw < MaxFrame then raw else MaxFrame
  }

  /** There is no lower cap: a timestamp earlier than the last one gives a
      negative frame time. */
  lemma FrameTimeNotClampedBelow(timestamp: real, last: real)
    requires timestamp < last
    ensures FrameTime(timestamp, last) < 0.0
  {
  }

  /** `calcScore`: 100 points plus a bonus of 5 per second under 20 s of
      level time, rounded down. */
  function CalcScore(elapsed: real): (s: int)
    ensures s >= 100
    ensures elapsed >= 0.0 ==> s <= 200
  {
    100 + Max(0, ((20.0 - elapsed) * 5.0).Floor)
  }

  /** The later the answer, the smaller the score. */
  lemma CalcScoreAntitone(early: real, late: real)
    requires early <= late
    ensures CalcScore(late) <= CalcScore(early)
  {
    FloorMonotone((20.0 - late) * 5.0, (20.0 - early) * 5.0);
  }

  lemma FloorMonotone(a: real, b: real)
    requires a <= b
    ensures a.Floor <= b.Floor
  {
  }

  /** Past 19.8 s of level time only the base 100 points remain. */
  lemma CalcScoreBaseOnly(elapsed: real)
    requires elapsed > 19.8
    ensures CalcScore(elapsed) == 100
  {
    assert (20.0 - elapsed) * 5.0 < 1.0;
  }

  /** The water radius: 18 plus twice the sensitivity, where a stored 0
      falls back to 5. */
  function Radius(sensitivity: nat): (r: real)
    ensures r >= 20.0
    ensures sensitivity == 0 ==> r == 28.0
    ensures sensitivity > 0 ==> r == 18.0 + 2.0 * sensitivity as real
  {
    var s := if sensitivity == 0 then 5 else sensitivity;
    18.0 + (s * 2) as real
  }

  datatype Outcome = Playing | Lost | Won

  /** The per-level fields of `Game`. */
  datatype RoundState = RoundState(questionsCompleted: nat, score: int, elapsedTime: real,
                                   questionTransition: bool, transitionTimer: real,
                                   gameEnded: bool, praise: Option<nat>, outcome: Outcome)

  /** The state `startLevel` resets to. */
  function Fresh(): RoundState {
    RoundState(0, 0, 0.0, false, 0.0, false, None, Playing)
  }

  /** `checkConditions`: the correct answer washed loses the level at once;
      otherwise both wrong answers washed solves the question, which either
      completes the level or starts the pause before the next question.  The
      draw `u` picks the praise message and is used only when praise is shown.
      The score never drops, the count grows by at most one and an ended
      level stays ended. */
  function Check(r: RoundState, correctWashed: bool, wrongsWashed: nat, questions: nat, u: real): (e: RoundState)
    requires 0.0 <= u < 1.0
    ensures e.score >= r.score && e.elapsedTime == r.elapsedTime
    ensures r.questionsCompleted <= e.questionsCompleted <= r.questionsCompleted + 1
    ensures correctWashed ==> e.gameEnded && e.outcome == Lost
    ensures r.gameEnded ==> e.gameEnded
  {
    if correctWashed then
      r.(gameEnded := true, outcome := Lost)
    else if wrongsWashed == 2 then
      var solved := r.(questionsCompleted := r.questionsCompleted + 1,
                       score := r.score + CalcScore(r.elapsedTime));
      if solved.questionsCompleted >= questions then
        solved.(gameEnded := true, outcome := Won)
      else if solved.questionsCompleted % 2 == 0 && solved.questionsCompleted > 0 then
        solved.(questionTransition := true, praise := Some(Draw(u, PraiseCount)), transitionTimer := PraisePause)
      else
        solved.(questionTransition := true, praise := None, transitionTimer := PlainPause)
    else
      r
  }

  /** Whether `Check` consumes a draw. */
  predicate PraiseDrawn(r: RoundState, correctWashed: bool, wrongsWashed: nat, questions: nat) {
    !correctWashed && wrongsWashed == 2 && r.questionsCompleted + 1 < questions
    && (r.questionsCompleted + 1) % 2 == 0
  }

  /** Washing the correct answer ends the level as lost, whatever else was
      washed in the same frame, and keeps score and progress. */
  lemma CheckLossFirst(r: RoundState, wrongsWashed: nat, questions: nat, u: real)
    requires 0.0 <= u < 1.0
    ensures var e := Check(r, true, wrongsWashed, questions, u);
      e.gameEnded && e.outcome == Lost && e.score == r.score
      && e.questionsCompleted == r.questionsCompleted && e.questionTransition == r.questionTransition
  {
  }

  /** Nothing changes unless the correct answer or both wrong ones are washed. */
  lemma CheckIdle(r: RoundState, wrongsWashed: nat, questions: nat, u: real)
    requires 0.0 <= u < 1.0 && wrongsWashed != 2
    ensures Check(r, false, wrongsWashed, questions, u) == r
  {
  }

  /** Solving a question adds one to the count and 100 to 200 points
      (at least 100 whatever the clock says); the level is won exactly when
      the count reaches the level's number of questions, and otherwise the
      pause is 2.2 s with praise after an even count and 1.2 s without. */
  lemma CheckSolved(r: RoundState, questions: nat, u: real)
    requires 0.0 <= u < 1.0
    ensures var e := Check(r, false, 2, questions, u);
      && e.questionsCompleted == r.questionsCompleted + 1
      && e.score - r.score == CalcScore(r.elapsedTime)
      && e.score >= r.score + 100
      && (r.elapsedTime >= 0.0 ==> e.score <= r.score + 200)
      && (e.gameEnded <==> (r.gameEnded || e.questionsCompleted >= questions))
      && (e.questionsCompleted >= questions ==> e.outcome == Won)
      && (e.questionsCompleted < questions ==>
            e.questionTransition
            && (e.praise.Some? <==> e.questionsCompleted % 2 == 0)
            && (e.praise.Some? ==> e.praise.value < PraiseCount && e.transitionTimer == PraisePause)
            && (e.praise.None? ==> e.transitionTimer == PlainPause))
      && (PraiseDrawn(r, false, 2, questions) <==> e.questionsCompleted < questions && e.praise.Some?)
  {
  }

  /** A level in progress stays within its number of questions, and reaching
      that number is a win. */
  lemma CheckKeepsCount(r: RoundState, correctWashed: bool, wrongsWashed: nat, questions: nat, u: real)
    requires 0.0 <= u < 1.0 && r.questionsCompleted < questions
    ensures var e := Check(r, correctWashed, wrongsWashed, questions, u);
      && e.questionsCompleted <= questions
      && (e.questionsCompleted == questions ==> e.gameEnded && e.outcome == Won)
  {
  }

  /** The opening of `update`: advance the clock and, during the pause
      between questions, the pause timer; the pause ends once the timer has
      run out, so a pause goes on exactly while time is left.  Nothing else
      moves. */
  function Elapse(r: RoundState, dt: real): (e: RoundState)
    ensures e.elapsedTime == r.elapsedTime + dt
    ensures e.questionTransition ==> r.questionTransition && e.transitionTimer > 0.0
    ensures !r.questionTransition ==> e.transitionTimer == r.transitionTimer
    ensures r.questionTransition ==>
      e.transitionTimer == r.transitionTimer - dt && (e.questionTransition <==> r.transitionTimer - dt > 0.0)
    ensures e.(elapsedTime := r.elapsedTime, questionTransition := r.questionTransition,
               transitionTimer := r.transitionTimer) == r
  {
    var t := r.(elapsedTime := r.elapsedTime + dt);
    if t.questionTransition then
      var left := t.transitionTimer - dt;
      t.(transitionTimer := left, questionTransition := if left <= 0.0 then false else true)
    else
      t
  }

  function Sum(dts: seq<real>): real {
    if dts == [] then 0.0 else dts[0] + Sum(dts[1..])
  }

  /** Frames spent in the pause: each frame elapses; the frames after the
      pause has ended are not part of it. */
  function Pause(r: RoundState, dts: seq<real>): RoundState
    decreases |dts|
  {
    if dts == [] || !r.questionTransition then r else Pause(Elapse(r, dts[0]), dts[1..])
  }

  /** The pause between questions always ends: once the frame times add up
      to the remaining pause, the next question is due; the score, the
      count and the level's end are untouched meanwhile. */
  lemma {:induction false} PauseEnds(r: RoundState, dts: seq<real>)
    requires r.questionTransition && r.transitionTimer > 0.0 && Sum(dts) >= r.transitionTimer
    ensures var e := Pause(r, dts);
      && !e.questionTransition
      && e.score == r.score && e.questionsCompleted == r.questionsCompleted
      && e.gameEnded == r.gameEnded && e.outcome == r.outcome
    decreases |dts|
  {
    var next := Elapse(r, dts[0]);
    if next.questionTransition {
      PauseEnds(next, dts[1..]);
    }
  }

  /** The pause lasts its whole timer: while the frame times have not yet
      added up to it, the pause goes on, with the timer down by exactly the
      time spent. */
  lemma {:induction false} PauseLasts(r: RoundState, dts: seq<real>)
    requires r.questionTransition
    requires forall n :: 0 < n <= |dts| ==> Sum(dts[..n]) < r.transitionTimer
    ensures var e := Pause(r, dts);
      && e.questionTransition
      && e.transitionTimer == r.transitionTimer - Sum(dts)
      && e.elapsedTime == r.elapsedTime + Sum(dts)
      && e.score == r.score && e.questionsCompleted == r.questionsCompleted
    decreases |dts|
  {
    if dts != [] {
      assert dts[..1] == [dts[0]];
      assert Sum(dts[..1]) == dts[0] + Sum([]);
      var next := Elapse(r, dts[0]);
      forall n | 0 < n <= |dts[1..]|
        ensures Sum(dts[1..][..n]) < next.transitionTimer
      {
        assert dts[..n + 1][1..] == dts[1..][..n];
        assert Sum(dts[..n + 1]) == dts[0] + Sum(dts[1..][..n]);
      }
      PauseLasts(next, dts[1..]);
    }
  }
}
