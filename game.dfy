/** `Game`: the gameplay state machine.  One object holds the current level,
    the posed question, its three answer tiles, the round counters and the
    progress manager; each animation frame sprays the tiles under the aim
    point and then checks whether the level is lost, the question solved or
    the level won. */
module GameCore {
  import opened Common
  import opened Erosion
  import opened Graffiti
  import opened Facts
  import opened Progress
  import opened Round

  /** `LEVEL_DATA.find(l => l.id === levelId)`: the first level with that id. */
  function FindLevel(levels: seq<LevelData>, id: int): (r: Option<LevelData>)
    ensures r.Some? ==> r.value in levels && r.value.id == id
    ensures r.Some? ==> exists i :: 0 <= i < |levels| && levels[i] == r.value
                                   && forall j :: 0 <= j < i ==> levels[j].id != id
    ensures r.None? <==> forall i :: 0 <= i < |levels| ==> levels[i].id != id
  {
    if levels == [] then None
    else if levels[0].id == id then Some(levels[0])
    else
      var r := FindLevel(levels[1..], id);
      assert forall i :: 1 <= i < |levels| ==> levels[i] == levels[1..][i - 1];
      FirstPastHead(levels, id, r);
      r
  }

  /** A first match in the tail, behind a head that does not match, is a
      first match of the whole sequence. */
  lemma FirstPastHead(levels: seq<LevelData>, id: int, r: Option<LevelData>)
    requires levels != [] && levels[0].id != id
    requires r.Some? ==> exists i :: 0 <= i < |levels| - 1 && levels[1..][i] == r.value
                                     && forall j :: 0 <= j < i ==> levels[1..][j].id != id
    ensures r.Some? ==> exists i :: 0 <= i < |levels| && levels[i] == r.value
                                   && forall j :: 0 <= j < i ==> levels[j].id != id
  {
    if r.Some? {
      var i :| 0 <= i < |levels| - 1 && levels[1..][i] == r.value
               && forall j :: 0 <= j < i ==> levels[1..][j].id != id;
      assert forall j :: 0 <= j < i + 1 ==> levels[j].id != id by {
        forall j | 0 <= j < i + 1 ensures levels[j].id != id {
          if j > 0 { assert levels[j] == levels[1..][j - 1]; }
        }
      }
      assert levels[i + 1] == r.value;
    }
  }

  /** Every catalogue level has a non-negative table, so a question can be
      posed for any level found. */
  lemma CatalogTables()
    ensures forall l :: l in LevelCatalog ==> l.table >= 0 && l.questions >= 5
  {
  }

  /** Looking up an id in levels numbered consecutively from `base`. */
  lemma {:induction false} FindConsecutive(levels: seq<LevelData>, base: int, id: int)
    requires forall j :: 0 <= j < |levels| ==> levels[j].id == base + j
    ensures base <= id < base + |levels| ==> FindLevel(levels, id) == Some(levels[id - base])
    ensures FindLevel(levels, id).None? <==> !(base <= id < base + |levels|)
    decreases |levels|
  {
    if levels != [] && levels[0].id != id {
      FindConsecutive(levels[1..], base + 1, id);
    }
  }

  /** Levels 1 to 10 are exactly the catalogue's entries, in order; every
      other id is missing. */
  lemma CatalogIds(id: int)
    ensures 1 <= id <= 10 ==> FindLevel(LevelCatalog, id) == Some(LevelCatalog[id - 1])
    ensures FindLevel(LevelCatalog, id).None? <==> !(1 <= id <= 10)
  {
    assert forall j :: 0 <= j < |LevelCatalog| ==> LevelCatalog[j].id == 1 + j;
    FindConsecutive(LevelCatalog, 1, id);
  }

  /** The tile state a spray at the aim point produces: a washed tile, or
      one whose box does not contain the point, is skipped. */
  function Strike(t: GraffitiAnswer, s: Surface, aimX: real, aimY: real, radius: real): (r: Surface)
    requires |t.alpha| == Cells && |s.mask| == Cells
    ensures |r.mask| == Cells
    ensures r == s || (!s.isWashed && t.ContainsPoint(aimX, aimY))
  {
    if !s.isWashed && t.ContainsPoint(aimX, aimY) then
      Erosion.ApplyWater(t.alpha, t.x, t.y, s, aimX, aimY, radius).after
    else
      s
  }

  /** A spray keeps the tile consistent, never adds paint, never lowers the
      ratio and never clears the latch; with the game's radius every tile
      that is sprayed is hit, and one whose glyph has no ink is never washed. */
  lemma StrikeStep(t: GraffitiAnswer, s: Surface, aimX: real, aimY: real, radius: real)
    requires Consistent(t.alpha, s) && radius >= HitTolerance
    ensures var e := Strike(t, s, aimX, aimY, radius);
      && Consistent(t.alpha, e)
      && WornDown(s.mask, e.mask)
      && s.washProgress <= e.washProgress
      && (s.isWashed ==> e == s)
      && (!s.isWashed && t.ContainsPoint(aimX, aimY) ==>
            Erosion.ApplyWater(t.alpha, t.x, t.y, s, aimX, aimY, radius).hit)
      && (InkCount(t.alpha) == 0 ==> !e.isWashed)
  {
    assert WornDown(s.mask, s.mask);
    ApplyWaterStep(t.alpha, t.x, t.y, s, aimX, aimY, radius);
    if t.ContainsPoint(aimX, aimY) {
      HitImpliesInRange(t, aimX, aimY, radius);
    }
    if InkCount(t.alpha) == 0 {
      var e := Strike(t, s, aimX, aimY, radius);
      ErasedWithoutInk(t.alpha, e.mask);
    }
  }

  /** Some tile showing the correct answer is washed. */
  predicate CorrectWashed(ts: seq<GraffitiAnswer>)
    reads ts
  {
    exists i :: 0 <= i < |ts| && ts[i].isWashed && ts[i].isCorrect
  }

  /** `graffitiAnswers.filter(a => a.isWashed && !a.isCorrect).length`. */
  function WrongsWashed(ts: seq<GraffitiAnswer>): (n: nat)
    reads ts
    ensures n <= |ts|
  {
    if ts == [] then 0
    else WrongsWashed(ts[..|ts| - 1]) + (if ts[|ts| - 1].isWashed && !ts[|ts| - 1].isCorrect then 1 else 0)
  }

  /** Two wrong answers are washed exactly when, among three tiles with
      one correct, both wrong tiles are washed. */
  lemma WrongsWashedOfThree(ts: seq<GraffitiAnswer>, c: nat)
    requires |ts| == 3 && c < 3 && ts[c].isCorrect
    requires forall i :: 0 <= i < 3 && i != c ==> !ts[i].isCorrect
    ensures WrongsWashed(ts) == 2 <==> forall i :: 0 <= i < 3 && i != c ==> ts[i].isWashed
  {
    assert ts[..|ts| - 1] == ts[..2];
    assert ts[..2][..1] == ts[..1];
    assert ts[..1][..0] == [];
    assert WrongsWashed(ts[..1]) == (if ts[0].isWashed && !ts[0].isCorrect then 1 else 0);
  }

  /** A well-formed question has exactly one correct answer, and its
      answers have pairwise different texts. */
  lemma OneCorrect(q: Question)
    requires WellFormed(q)
    ensures exists c :: 0 <= c < 3 && q.answers[c].isCorrect && q.answers[c].value == q.a * q.b
                        && forall i :: 0 <= i < 3 && i != c ==> !q.answers[i].isCorrect
    ensures forall i, j :: 0 <= i < j < 3 ==>
      IntToString(q.answers[i].value) != IntToString(q.answers[j].value)
  {
    var c :| 0 <= c < 3 && q.answers[c].isCorrect;
    assert forall i :: 0 <= i < 3 && i != c ==> q.answers[i].value != q.answers[c].value;
    forall i, j | 0 <= i < j < 3
      ensures IntToString(q.answers[i].value) != IntToString(q.answers[j].value)
    {
      if IntToString(q.answers[i].value) == IntToString(q.answers[j].value) {
        NatToStringInjective(q.answers[i].value, q.answers[j].value);
      }
    }
  }

  /** Three unwashed tiles showing the answers of a well-formed question. */
  lemma ShownTiles(ts: seq<GraffitiAnswer>, q: Question)
    requires WellFormed(q) && |ts| == 3
    requires forall i :: 0 <= i < 3 ==>
      ts[i].text == IntToString(q.answers[i].value) && ts[i].isCorrect == q.answers[i].isCorrect
      && !ts[i].isWashed
    ensures exists c :: 0 <= c < 3 && ts[c].isCorrect && ts[c].text == IntToString(q.a * q.b)
                        && forall i :: 0 <= i < 3 && i != c ==> !ts[i].isCorrect
    ensures forall i, j :: 0 <= i < j < 3 ==> ts[i].text != ts[j].text
    ensures !CorrectWashed(ts) && WrongsWashed(ts) == 0
  {
    OneCorrect(q);
    var c :| 0 <= c < 3 && q.answers[c].isCorrect && q.answers[c].value == q.a * q.b
             && forall i :: 0 <= i < 3 && i != c ==> !q.answers[i].isCorrect;
    assert ts[c].isCorrect && ts[c].text == IntToString(q.a * q.b);
    NoneWashed(ts);
  }

  /** No tile of a fresh question is washed. */
  lemma NoneWashed(ts: seq<GraffitiAnswer>)
    requires |ts| == 3 && forall i :: 0 <= i < 3 ==> !ts[i].isWashed
    ensures !CorrectWashed(ts) && WrongsWashed(ts) == 0
  {
    assert ts[..|ts| - 1] == ts[..2];
    assert ts[..2][..1] == ts[..1];
    assert ts[..1][..0] == [];
    assert WrongsWashed(ts[..1]) == 0;
    assert WrongsWashed(ts[..2]) == 0;
  }

  /** Whether the frame's check solves the last question of the level. */
  predicate Completes(r: RoundState, correctWashed: bool, wrongsWashed: nat, questions: nat) {
    !correctWashed && wrongsWashed == 2 && r.questionsCompleted + 1 >= questions
  }

  class Game {
    /** The host's `Math.random`, as the stream of values the core draws. */
    const rand: Random
    /** The rendered RGBA picture of a text, as the tile constructor's canvas draws it. */
    const glyph: string -> seq<Byte>
    const canvasW: real
    const canvasH: real
    const progress: ProgressManager
    var currentLevelId: int
    var currentLevel: Option<LevelData>
    var question: Option<Question>
    var answers: seq<GraffitiAnswer>
    /** `questionsCompleted`, `score`, `elapsedTime`, `questionTransition`,
        `transitionTimer`, `gameEnded` and `praiseMessage`, plus the screen
        the level ends on. */
    var round: RoundState
    var isPaused: bool
    var lastTimestamp: real
    /** `_loopStarted`: the animation loop has been scheduled. */
    var loopStarted: bool
    /** `state === 'gameplay'`. */
    var inGameplay: bool
    /** Index of the next draw of `rand`. */
    var cursor: nat

    /** The tiles and their masks. */
    ghost function Tiles(): set<object>
      reads this
    {
      (set i | 0 <= i < |answers| :: answers[i] as object) + (set i | 0 <= i < |answers| :: answers[i].mask as object)
    }

    ghost predicate Valid()
      reads this, Tiles()
    {
      && IsRandom(rand)
      && (forall text :: |glyph(text)| == ImageBytes)
      && (forall i :: 0 <= i < |answers| ==> answers[i].Valid())
      && (forall i, j :: 0 <= i < j < |answers| ==>
            answers[i] != answers[j] && answers[i].mask != answers[j].mask)
      && (currentLevel.Some? ==> currentLevel.value.table >= 0)
      && (round.questionTransition ==> round.transitionTimer > 0.0)
    }

    /** The question posed for `level` from draw `k` on and its three tiles,
        each in its initial state. */
    ghost predicate Posed(level: LevelData, k: nat)
      reads this, Tiles()
    {
      && IsRandom(rand) && level.table >= 0
      && PosedAs(QuestionFor(level, rand, k).0, QuestionFor(level, rand, k).1)
    }

    /** Question `q` is posed and its tiles were placed with draws from `n` on. */
    ghost predicate PosedAs(q: Question, n: nat)
      reads this, Tiles()
    {
      && IsRandom(rand)
      && question == Some(q)
      && |q.answers| == 3 && |answers| == 3
      && cursor == n + 13
      && AllPlaced(answers, q.answers, Shuffled(Zones(canvasW, canvasH), rand, n),
                   Shuffled(GraffitiColors, rand, n + 2), rand, n + 4, glyph)
    }

    /** A posed question shows three unwashed tiles with different texts,
        exactly one of them correct and showing the product. */
    lemma PosedTiles(level: LevelData, k: nat)
      requires Posed(level, k)
      ensures question.Some? && |answers| == 3
      ensures exists c :: 0 <= c < 3 && answers[c].isCorrect
                          && answers[c].text == IntToString(question.value.a * question.value.b)
                          && forall i :: 0 <= i < 3 && i != c ==> !answers[i].isCorrect
      ensures forall i, j :: 0 <= i < j < 3 ==> answers[i].text != answers[j].text
      ensures forall i :: 0 <= i < 3 ==> !answers[i].isWashed && answers[i].washProgress == 0.0
      ensures !CorrectWashed(answers) && WrongsWashed(answers) == 0
    {
      QuestionForShape(level, rand, k);
      var posed := QuestionFor(level, rand, k);
      ShownQuestion(posed.0, posed.1);
    }

    /** The tiles placed for a well-formed question show its answers. */
    lemma ShownQuestion(q: Question, n: nat)
      requires PosedAs(q, n) && WellFormed(q)
      ensures exists c :: 0 <= c < 3 && answers[c].isCorrect && answers[c].text == IntToString(q.a * q.b)
                          && forall i :: 0 <= i < 3 && i != c ==> !answers[i].isCorrect
      ensures forall i, j :: 0 <= i < j < 3 ==> answers[i].text != answers[j].text
      ensures forall i :: 0 <= i < 3 ==> !answers[i].isWashed && answers[i].washProgress == 0.0
      ensures !CorrectWashed(answers) && WrongsWashed(answers) == 0
    {
      var zones := Shuffled(Zones(canvasW, canvasH), rand, n);
      var colors := Shuffled(GraffitiColors, rand, n + 2);
      AllPlacedEach(answers, q.answers, zones, colors, rand, n + 4, glyph);
      forall i | 0 <= i < 3
        ensures answers[i].text == IntToString(q.answers[i].value) && answers[i].isCorrect == q.answers[i].isCorrect
        ensures !answers[i].isWashed && answers[i].washProgress == 0.0
      {
        assert Placed(answers[i], q.answers[i], zones[i], colors[i], rand, n + 4 + 3 * i, glyph);
        assert answers[i].State() == Initial();
      }
      ShownTiles(answers, q);
    }

    /** The game with its progress loaded from `stored`, before any level starts. */
    constructor (rand: Random, glyph: string -> seq<Byte>, canvasW: real, canvasH: real,
                 stored: Option<ProgressData>)
      requires IsRandom(rand) && forall text :: |glyph(text)| == ImageBytes
      ensures Valid() && fresh(progress)
      ensures progress.data == (if stored.Some? then stored.value else Defaults())
      ensures this.rand == rand && this.canvasW == canvasW && this.canvasH == canvasH
      ensures currentLevelId == 1 && currentLevel.None? && question.None? && answers == []
      ensures round == Fresh() && !isPaused && !inGameplay && !loopStarted && cursor == 0
    {
      this.rand := rand;
      this.glyph := glyph;
      this.canvasW := canvasW;
      this.canvasH := canvasH;
      progress := new ProgressManager(stored);
      currentLevelId := 1;
      currentLevel := None;
      question := None;
      answers := [];
      round := Fresh();
      isPaused := false;
      lastTimestamp := 0.0;
      loopStarted := false;
      inGameplay := false;
      cursor := 0;
    }

    /** `startLevel`: look the level up, reset the level's counters, enter
        gameplay and pose the first question.  The pause timer and the
        last praise are not reset; the frame clock starts at `now` only on
        the first entry into gameplay. */
    method StartLevel(levelId: int, now: real)
      requires Valid()
      modifies this
      ensures Valid()
      ensures currentLevelId == levelId && currentLevel == FindLevel(LevelCatalog, levelId)
      ensures round == old(round).(questionsCompleted := 0, score := 0, elapsedTime := 0.0,
                                   gameEnded := false, questionTransition := false, outcome := Playing)
      ensures inGameplay && loopStarted && isPaused == old(isPaused)
      ensures lastTimestamp == (if old(loopStarted) then old(lastTimestamp) else now)
      ensures currentLevel.Some? ==> Posed(currentLevel.value, old(cursor))
      ensures currentLevel.Some? ==> forall i :: 0 <= i < |answers| ==> fresh(answers[i]) && fresh(answers[i].mask)
      ensures currentLevel.None? ==> question == old(question) && answers == old(answers) && cursor == old(cursor)
    {
      currentLevelId := levelId;
      currentLevel := FindLevel(LevelCatalog, levelId);
      CatalogTables();
      round := round.(questionsCompleted := 0, score := 0, elapsedTime := 0.0,
                      gameEnded := false, questionTransition := false, outcome := Playing);
      EnterGameplay(now);
      NextQuestion();
    }

    /** `setState('gameplay')` with `onEnterGameplay`: the first entry starts
        the loop and its frame clock at `now`; later entries keep the clock. */
    method EnterGameplay(now: real)
      requires Valid()
      modifies this
      ensures Valid()
      ensures inGameplay && loopStarted
      ensures lastTimestamp == (if old(loopStarted) then old(lastTimestamp) else now)
      ensures currentLevelId == old(currentLevelId) && currentLevel == old(currentLevel)
      ensures question == old(question) && answers == old(answers) && round == old(round)
      ensures cursor == old(cursor) && isPaused == old(isPaused)
    {
      inGameplay := true;
      if !loopStarted {
        loopStarted := true;
        lastTimestamp := now;
      }
    }

    /** `setState` with any other screen (menu, level select, game over,
        victory): frames no longer run. */
    method LeaveGameplay()
      requires Valid()
      modifies this
      ensures Valid()
      ensures !inGameplay
      ensures lastTimestamp == old(lastTimestamp) && loopStarted == old(loopStarted)
      ensures currentLevelId == old(currentLevelId) && currentLevel == old(currentLevel)
      ensures question == old(question) && answers == old(answers) && round == old(round)
      ensures cursor == old(cursor) && isPaused == old(isPaused)
    {
      inGameplay := false;
    }

    /** `hidePause`: the pause is lifted without touching the frame clock. */
    method HidePause()
      requires Valid()
      modifies this
      ensures Valid()
      ensures !isPaused
      ensures lastTimestamp == old(lastTimestamp) && loopStarted == old(loopStarted) && inGameplay == old(inGameplay)
      ensures currentLevelId == old(currentLevelId) && currentLevel == old(currentLevel)
      ensures question == old(question) && answers == old(answers) && round == old(round)
      ensures cursor == old(cursor)
    {
      isPaused := false;
    }

    /** The pause menu's restart button: lift the pause and start the
        current level again. */
    method Restart(now: real)
      requires Valid()
      modifies this
      ensures Valid()
      ensures !isPaused && inGameplay && loopStarted
      ensures lastTimestamp == (if old(loopStarted) then old(lastTimestamp) else now)
      ensures currentLevelId == old(currentLevelId) && currentLevel == FindLevel(LevelCatalog, old(currentLevelId))
      ensures round == old(round).(questionsCompleted := 0, score := 0, elapsedTime := 0.0,
                                   gameEnded := false, questionTransition := false, outcome := Playing)
      ensures currentLevel.Some? ==> Posed(currentLevel.value, old(cursor))
      ensures currentLevel.Some? ==> forall i :: 0 <= i < |answers| ==> fresh(answers[i]) && fresh(answers[i].mask)
      ensures currentLevel.None? ==> question == old(question) && answers == old(answers) && cursor == old(cursor)
    {
      HidePause();
      StartLevel(currentLevelId, now);
    }

    /** The victory screen's next-level button: the following level, or the
        menu after the last one. */
    method NextLevel(now: real)
      requires Valid()
      modifies this
      ensures Valid()
      ensures old(currentLevelId) < LastLevel ==>
        && currentLevelId == old(currentLevelId) + 1
        && currentLevel == FindLevel(LevelCatalog, currentLevelId)
        && inGameplay && loopStarted && isPaused == old(isPaused)
        && lastTimestamp == (if old(loopStarted) then old(lastTimestamp) else now)
        && round == old(round).(questionsCompleted := 0, score := 0, elapsedTime := 0.0,
                                gameEnded := false, questionTransition := false, outcome := Playing)
        && (currentLevel.Some? ==> Posed(currentLevel.value, old(cursor)))
        && (currentLevel.Some? ==> forall i :: 0 <= i < |answers| ==> fresh(answers[i]) && fresh(answers[i].mask))
        && (currentLevel.None? ==> question == old(question) && answers == old(answers) && cursor == old(cursor))
      ensures old(currentLevelId) >= LastLevel ==>
        && !inGameplay && currentLevelId == old(currentLevelId) && currentLevel == old(currentLevel)
        && round == old(round) && question == old(question) && answers == old(answers) && cursor == old(cursor)
        && lastTimestamp == old(lastTimestamp) && loopStarted == old(loopStarted) && isPaused == old(isPaused)
    {
      if currentLevelId < LastLevel {
        currentLevelId := currentLevelId + 1;
        StartLevel(currentLevelId, now);
      } else {
        LeaveGameplay();
      }
    }

    /** The pause menu's quit button: lift the pause and leave for the menu. */
    method Quit()
      requires Valid()
      modifies this
      ensures Valid()
      ensures !isPaused && !inGameplay
      ensures lastTimestamp == old(lastTimestamp) && loopStarted == old(loopStarted)
      ensures currentLevelId == old(currentLevelId) && currentLevel == old(currentLevel)
      ensures question == old(question) && answers == old(answers) && round == old(round)
      ensures cursor == old(cursor)
    {
      HidePause();
      LeaveGameplay();
    }

    /** `nextQuestion`: with level data, pose a question and place its tiles;
        without, do nothing. */
    method NextQuestion()
      requires Valid()
      modifies this
      ensures Valid()
      ensures currentLevelId == old(currentLevelId) && currentLevel == old(currentLevel)
      ensures round == old(round) && isPaused == old(isPaused)
      ensures lastTimestamp == old(lastTimestamp) && inGameplay == old(inGameplay) && loopStarted == old(loopStarted)
      ensures currentLevel.Some? ==> Posed(currentLevel.value, old(cursor))
      ensures currentLevel.Some? ==> forall i :: 0 <= i < |answers| ==> fresh(answers[i]) && fresh(answers[i].mask)
      ensures currentLevel.None? ==> question == old(question) && answers == old(answers) && cursor == old(cursor)
    {
      if currentLevel.None? {
        return;
      }
      var q, n, tiles, next := Pose(currentLevel.value, cursor);
      Install(q, n, tiles, next);
      PosedFrom(currentLevel.value, old(cursor), q, n);
    }

    /** The assignments of `nextQuestion`: the posed question and its tiles
        replace the previous ones. */
    method Install(q: Question, n: nat, tiles: seq<GraffitiAnswer>, next: nat)
      requires Valid() && |q.answers| == 3 && |tiles| == 3 && next == n + 13
      requires forall i :: 0 <= i < 3 ==> tiles[i].Valid()
      requires forall i, j :: 0 <= i < j < 3 ==> tiles[i] != tiles[j] && tiles[i].mask != tiles[j].mask
      requires AllPlaced(tiles, q.answers, Shuffled(Zones(canvasW, canvasH), rand, n),
                         Shuffled(GraffitiColors, rand, n + 2), rand, n + 4, glyph)
      modifies this
      ensures Valid() && PosedAs(q, n) && answers == tiles
      ensures currentLevelId == old(currentLevelId) && currentLevel == old(currentLevel)
      ensures round == old(round) && isPaused == old(isPaused)
      ensures lastTimestamp == old(lastTimestamp) && inGameplay == old(inGameplay) && loopStarted == old(loopStarted)
    {
      question := Some(q);
      answers := tiles;
      cursor := next;
    }

    lemma PosedFrom(level: LevelData, k: nat, q: Question, n: nat)
      requires IsRandom(rand) && level.table >= 0 && (q, n) == QuestionFor(level, rand, k) && PosedAs(q, n)
      ensures Posed(level, k)
    {
    }

    /** The calls of `nextQuestion`: the question from draw `k` on, then its tiles. */
    method Pose(level: LevelData, k: nat) returns (q: Question, n: nat, tiles: seq<GraffitiAnswer>, next: nat)
      requires IsRandom(rand) && level.table >= 0 && forall text :: |glyph(text)| == ImageBytes
      ensures (q, n) == QuestionFor(level, rand, k) && |q.answers| == 3 && |tiles| == 3 && next == n + 13
      ensures forall i :: 0 <= i < 3 ==> fresh(tiles[i]) && fresh(tiles[i].mask)
      ensures forall i :: 0 <= i < 3 ==> tiles[i].Valid()
      ensures forall i, j :: 0 <= i < j < 3 ==> tiles[i] != tiles[j] && tiles[i].mask != tiles[j].mask
      ensures AllPlaced(tiles, q.answers, Shuffled(Zones(canvasW, canvasH), rand, n),
                        Shuffled(GraffitiColors, rand, n + 2), rand, n + 4, glyph)
    {
      q, n := GenerateQuestion(level, rand, k);
      QuestionForShape(level, rand, k);
      tiles, next := PlaceTiles(q, n);
    }

    /** `placeAnswers` with the game's canvas, draws and glyphs. */
    method PlaceTiles(q: Question, n: nat) returns (tiles: seq<GraffitiAnswer>, next: nat)
      requires IsRandom(rand) && |q.answers| == 3 && forall text :: |glyph(text)| == ImageBytes
      ensures |tiles| == 3 && next == n + 13
      ensures forall i :: 0 <= i < 3 ==> fresh(tiles[i]) && fresh(tiles[i].mask)
      ensures forall i :: 0 <= i < 3 ==> tiles[i].Valid()
      ensures forall i, j :: 0 <= i < j < 3 ==> tiles[i] != tiles[j] && tiles[i].mask != tiles[j].mask
      ensures AllPlaced(tiles, q.answers, Shuffled(Zones(canvasW, canvasH), rand, n),
                        Shuffled(GraffitiColors, rand, n + 2), rand, n + 4, glyph)
    {
      tiles, next := PlaceAnswers(q.answers, canvasW, canvasH, rand, n, glyph);
      AllPlacedValid(tiles, q.answers, Shuffled(Zones(canvasW, canvasH), rand, n),
                     Shuffled(GraffitiColors, rand, n + 2), rand, n + 4, glyph);
    }

    /** The hit loop of `update`: every unwashed tile whose box contains the
        aim point takes the water. */
    method Spray(aimX: real, aimY: real, radius: real)
      requires Valid() && radius > 0.0
      modifies Tiles()
      ensures Valid()
      ensures forall i :: 0 <= i < |answers| ==>
        answers[i].State() == Strike(answers[i], old(answers[i].State()), aimX, aimY, radius)
    {
      var i := 0;
      while i < |answers|
        invariant 0 <= i <= |answers|
        invariant Valid()
        invariant forall n :: 0 <= n < i ==>
          answers[n].State() == Strike(answers[n], old(answers[n].State()), aimX, aimY, radius)
        invariant forall n :: i <= n < |answers| ==> answers[n].State() == old(answers[n].State())
      {
        SprayOne(i, aimX, aimY, radius);
        i := i + 1;
      }
    }

    /** One tile of the hit loop; the others stay as they are. */
    method SprayOne(i: nat, aimX: real, aimY: real, radius: real)
      requires Valid() && radius > 0.0 && i < |answers|
      modifies answers[i], answers[i].mask
      ensures Valid()
      ensures answers[i].State() == Strike(answers[i], old(answers[i].State()), aimX, aimY, radius)
      ensures forall n :: 0 <= n < |answers| && n != i ==> answers[n].State() == old(answers[n].State())
    {
      var t := answers[i];
      assert t.Valid();
      if !t.isWashed && t.ContainsPoint(aimX, aimY) {
        var hit := t.ApplyWater(aimX, aimY, radius);
      }
      forall n | 0 <= n < |answers| && n != i
        ensures answers[n].Valid() && answers[n].State() == old(answers[n].State())
      {
        assert answers[n] != t && answers[n].mask != t.mask;
      }
    }

    /** `checkConditions`: the correct tile washed loses the level; otherwise
        two wrong tiles washed solves the question, and solving the last one
        records the level in the progress. */
    method CheckConditions()
      requires Valid() && currentLevel.Some?
      modifies this, progress
      ensures Valid()
      ensures currentLevelId == old(currentLevelId) && currentLevel == old(currentLevel)
      ensures question == old(question) && answers == old(answers)
      ensures isPaused == old(isPaused) && lastTimestamp == old(lastTimestamp) && inGameplay == old(inGameplay)
      ensures loopStarted == old(loopStarted)
      ensures round == Check(old(round), CorrectWashed(answers), WrongsWashed(answers),
                             currentLevel.value.questions, rand(old(cursor)))
      ensures cursor == old(cursor) + (if PraiseDrawn(old(round), CorrectWashed(answers), WrongsWashed(answers),
                                                      currentLevel.value.questions) then 1 else 0)
      ensures progress.data == (if Completes(old(round), CorrectWashed(answers), WrongsWashed(answers),
                                              currentLevel.value.questions)
                                then Complete(old(progress.data), currentLevelId, round.score, round.elapsedTime)
                                else old(progress.data))
    {
      var lost := AnyCorrectWashed();
      var wrongs := CountWrongsWashed();
      Resolve(lost, wrongs);
      assert lost == CorrectWashed(answers) && wrongs == WrongsWashed(answers);
    }

    /** The branches of `checkConditions`, once the washed tiles are counted. */
    method Resolve(lost: bool, wrongs: nat)
      requires Valid() && currentLevel.Some?
      modifies this, progress
      ensures Valid()
      ensures currentLevelId == old(currentLevelId) && currentLevel == old(currentLevel)
      ensures question == old(question) && answers == old(answers)
      ensures isPaused == old(isPaused) && lastTimestamp == old(lastTimestamp) && inGameplay == old(inGameplay)
      ensures loopStarted == old(loopStarted)
      ensures round == Check(old(round), lost, wrongs, currentLevel.value.questions, rand(old(cursor)))
      ensures cursor == old(cursor) + (if PraiseDrawn(old(round), lost, wrongs, currentLevel.value.questions) then 1 else 0)
      ensures progress.data == (if Completes(old(round), lost, wrongs, currentLevel.value.questions)
                                then Complete(old(progress.data), currentLevelId, round.score, round.elapsedTime)
                                else old(progress.data))
    {
      var questions := currentLevel.value.questions;
      if lost {
        round := round.(gameEnded := true, outcome := Lost);
        return;
      }
      if wrongs == 2 {
        round := round.(questionsCompleted := round.questionsCompleted + 1,
                        score := round.score + CalcScore(round.elapsedTime));
        if round.questionsCompleted >= questions {
          round := round.(gameEnded := true, outcome := Won);
          var stars := progress.CompleteLevel(currentLevelId, round.score, round.elapsedTime);
        } else if round.questionsCompleted % 2 == 0 && round.questionsCompleted > 0 {
          var pick := Draw(rand(cursor), PraiseCount);
          cursor := cursor + 1;
          round := round.(questionTransition := true, praise := Some(pick), transitionTimer := PraisePause);
        } else {
          round := round.(questionTransition := true, praise := None, transitionTimer := PlainPause);
        }
      }
    }

    /** The first loop of `checkConditions`. */
    method AnyCorrectWashed() returns (lost: bool)
      ensures lost == CorrectWashed(answers)
    {
      lost := false;
      var i := 0;
      while i < |answers|
        invariant 0 <= i <= |answers|
        invariant !lost
        invariant forall n :: 0 <= n < i ==> !(answers[n].isWashed && answers[n].isCorrect)
      {
        if answers[i].isWashed && answers[i].isCorrect {
          return true;
        }
        i := i + 1;
      }
    }

    /** The `filter(...).length` of `checkConditions`. */
    method CountWrongsWashed() returns (count: nat)
      ensures count == WrongsWashed(answers)
    {
      count := 0;
      var i := 0;
      while i < |answers|
        invariant 0 <= i <= |answers|
        invariant count == WrongsWashed(answers[..i])
      {
        assert answers[..i + 1][..i] == answers[..i];
        if answers[i].isWashed && !answers[i].isCorrect {
          count := count + 1;
        }
        i := i + 1;
      }
      assert answers[..|answers|] == answers;
    }

    /** `update(dt)`: advance the clocks; during the pause between questions
        only the pause runs and, once it is over, the next question is posed;
        otherwise spray when shooting, then check the level. */
    method Update(dt: real, aimX: real, aimY: real, shooting: bool)
      requires Valid() && currentLevel.Some?
      modifies this, Tiles(), progress
      ensures Valid()
      ensures currentLevelId == old(currentLevelId) && currentLevel == old(currentLevel)
      ensures isPaused == old(isPaused) && lastTimestamp == old(lastTimestamp) && inGameplay == old(inGameplay)
      ensures loopStarted == old(loopStarted)
      ensures old(round).questionTransition ==>
        && round == Elapse(old(round), dt)
        && progress.data == old(progress.data)
        && (round.questionTransition ==> question == old(question) && answers == old(answers) && cursor == old(cursor))
        && (round.questionTransition ==>
              forall i :: 0 <= i < |answers| ==> answers[i].State() == old(answers[i].State()))
        && (!round.questionTransition ==> Posed(currentLevel.value, old(cursor)))
      ensures !old(round).questionTransition ==>
        && question == old(question) && answers == old(answers)
        && (forall i :: 0 <= i < |answers| ==>
              answers[i].State() == (if shooting
                                     then Strike(answers[i], old(answers[i].State()), aimX, aimY,
                                                 Radius(old(progress.data).settings.sensitivity))
                                     else old(answers[i].State())))
        && round == Check(Elapse(old(round), dt), CorrectWashed(answers), WrongsWashed(answers),
                          currentLevel.value.questions, rand(old(cursor)))
        && cursor == old(cursor) + (if PraiseDrawn(Elapse(old(round), dt), CorrectWashed(answers),
                                                   WrongsWashed(answers), currentLevel.value.questions) then 1 else 0)
        && progress.data == (if Completes(Elapse(old(round), dt), CorrectWashed(answers), WrongsWashed(answers),
                                          currentLevel.value.questions)
                             then Complete(old(progress.data), currentLevelId, round.score, round.elapsedTime)
                             else old(progress.data))
    {
      var pausing := round.questionTransition;
      round := Elapse(round, dt);
      if pausing {
        EndPause();
      } else {
        Play(aimX, aimY, shooting);
      }
    }

    /** The pausing branch of `update`: once the pause is over, the next question. */
    method EndPause()
      requires Valid() && currentLevel.Some?
      modifies this
      ensures Valid()
      ensures currentLevelId == old(currentLevelId) && currentLevel == old(currentLevel)
      ensures isPaused == old(isPaused) && lastTimestamp == old(lastTimestamp) && inGameplay == old(inGameplay)
      ensures loopStarted == old(loopStarted)
      ensures round == old(round)
      ensures round.questionTransition ==> question == old(question) && answers == old(answers) && cursor == old(cursor)
      ensures !round.questionTransition ==> Posed(currentLevel.value, old(cursor))
    {
      if !round.questionTransition {
        NextQuestion();
      }
    }

    /** The playing branch of `update`: spray when shooting, then check the level. */
    method Play(aimX: real, aimY: real, shooting: bool)
      requires Valid() && currentLevel.Some?
      modifies this, Tiles(), progress
      ensures Valid()
      ensures currentLevelId == old(currentLevelId) && currentLevel == old(currentLevel)
      ensures isPaused == old(isPaused) && lastTimestamp == old(lastTimestamp) && inGameplay == old(inGameplay)
      ensures loopStarted == old(loopStarted)
      ensures question == old(question) && answers == old(answers)
      ensures forall i :: 0 <= i < |answers| ==>
        answers[i].State() == (if shooting
                               then Strike(answers[i], old(answers[i].State()), aimX, aimY,
                                           Radius(old(progress.data).settings.sensitivity))
                               else old(answers[i].State()))
      ensures round == Check(old(round), CorrectWashed(answers), WrongsWashed(answers),
                             currentLevel.value.questions, rand(old(cursor)))
      ensures cursor == old(cursor) + (if PraiseDrawn(old(round), CorrectWashed(answers),
                                                      WrongsWashed(answers), currentLevel.value.questions) then 1 else 0)
      ensures progress.data == (if Completes(old(round), CorrectWashed(answers), WrongsWashed(answers),
                                             currentLevel.value.questions)
                                then Complete(old(progress.data), currentLevelId, round.score, round.elapsedTime)
                                else old(progress.data))
    {
      if shooting {
        var radius := Radius(progress.data.settings.sensitivity);
        Spray(aimX, aimY, radius);
      }
      CheckConditions();
    }

    /** `togglePause`: resuming restarts the frame clock at `now`, so the
        pause itself is not counted as a frame. */
    method TogglePause(now: real)
      modifies this
      ensures isPaused == !old(isPaused)
      ensures lastTimestamp == (if isPaused then old(lastTimestamp) else now)
      ensures round == old(round) && answers == old(answers) && question == old(question)
      ensures cursor == old(cursor) && inGameplay == old(inGameplay) && currentLevel == old(currentLevel)
      ensures currentLevelId == old(currentLevelId) && loopStarted == old(loopStarted)
    {
      isPaused := !isPaused;
      if !isPaused {
        lastTimestamp := now;
      }
    }

    /** `gameLoop(timestamp)`: the frame time is the time since the last
        frame, capped at 0.05 s; the frame runs only in gameplay, unpaused and
        before the level has ended. */
    method GameLoop(timestamp: real, aimX: real, aimY: real, shooting: bool) returns (dt: real, ran: bool)
      requires Valid() && (inGameplay ==> currentLevel.Some?)
      modifies this, Tiles(), progress
      ensures Valid()
      ensures dt == FrameTime(timestamp, old(lastTimestamp)) && lastTimestamp == timestamp
      ensures ran == (old(inGameplay) && !old(isPaused) && !old(round).gameEnded)
      ensures ran ==> round.elapsedTime == old(round).elapsedTime + dt
      ensures isPaused == old(isPaused) && inGameplay == old(inGameplay) && loopStarted == old(loopStarted)
      ensures currentLevel == old(currentLevel) && currentLevelId == old(currentLevelId)
      ensures !ran ==> round == old(round) && question == old(question) && answers == old(answers)
                       && cursor == old(cursor) && progress.data == old(progress.data)
      ensures !ran ==> forall i :: 0 <= i < |answers| ==> answers[i].State() == old(answers[i].State())
    {
      dt := FrameTime(timestamp, lastTimestamp);
      lastTimestamp := timestamp;
      ran := inGameplay && !isPaused && !round.gameEnded;
      if ran {
        Update(dt, aimX, aimY, shooting);
      }
    }
  }
}
