/** `ProgressManager`: per-level records, the unlock frontier and the total
    score.  Storage is reduced to the value handed over at start-up. */
module Progress {
  import opened Common

  /** The last level; completing it unlocks nothing further. */
  const LastLevel: int := 10

  datatype LevelInfo = LevelInfo(completed: bool, stars: int, bestScore: int, bestTime: real)

  datatype Settings = Settings(sfxVolume: real, musicVolume: real, sensitivity: nat)

  datatype ProgressData = ProgressData(highestUnlocked: int, levels: map<int, LevelInfo>,
                                       totalScore: int, settings: Settings)

  /** `defaults()`. */
  function Defaults(): (d: ProgressData)
    ensures d.highestUnlocked == 1 && d.levels == map[] && d.totalScore == 0
    ensures d.settings.sensitivity == 5
  {
    ProgressData(1, map[], 0, Settings(0.8, 0.5, 5))
  }

  /** The record shown for a level that was never completed. */
  function NoRecord(): LevelInfo { LevelInfo(false, 0, 0, 0.0) }

  /** The record stored for a level, or the zero record. */
  function RecordIn(m: map<int, LevelInfo>, id: int): LevelInfo {
    if id in m then m[id] else NoRecord()
  }

  /** `getLevelInfo` on a progress value. */
  function InfoOf(d: ProgressData, id: int): (info: LevelInfo)
    ensures id in d.levels ==> info == d.levels[id]
    ensures id !in d.levels ==> !info.completed && info.stars == 0 && info.bestScore == 0 && info.bestTime == 0.0
  {
    RecordIn(d.levels, id)
  }

  /** Three stars for a fast, high-scoring run, two for a good score, one otherwise. */
  function Stars(score: int, timeSec: real): (s: int)
    ensures 1 <= s <= 3
    ensures s == 3 <==> timeSec < 30.0 && score >= 800
    ensures s >= 2 <==> (timeSec < 30.0 && score >= 800) || score >= 400
  {
    if timeSec < 30.0 && score >= 800 then 3 else if score >= 400 then 2 else 1
  }

  /** A better score never earns fewer stars. */
  lemma StarsMonotoneInScore(lo: int, hi: int, timeSec: real)
    requires lo <= hi
    ensures Stars(lo, timeSec) <= Stars(hi, timeSec)
  {
  }

  /** A faster run never earns fewer stars. */
  lemma StarsAntitoneInTime(score: int, fast: real, slow: real)
    requires fast <= slow
    ensures Stars(score, slow) <= Stars(score, fast)
  {
  }

  /** A JavaScript number is truthy unless it is zero. */
  predicate Truthy(v: real) { v != 0.0 }

  /** The stored record after a completion: best of old and new.  A best
      time of 0 means none was recorded, so the new time is taken. */
  function Merge(prev: LevelInfo, stars: int, score: int, timeSec: real): (r: LevelInfo)
    ensures r.completed
    ensures r.stars >= stars && r.stars >= prev.stars && (r.stars == stars || r.stars == prev.stars)
    ensures r.bestScore >= score && r.bestScore >= prev.bestScore
    ensures r.bestScore == score || r.bestScore == prev.bestScore
    ensures prev.bestTime == 0.0 ==> r.bestTime == timeSec
    ensures prev.bestTime != 0.0 ==> r.bestTime <= timeSec && r.bestTime <= prev.bestTime
    ensures r.bestTime == timeSec || r.bestTime == prev.bestTime
  {
    LevelInfo(true, Max(stars, prev.stars), Max(score, prev.bestScore),
              if Truthy(prev.bestTime) then (if timeSec < prev.bestTime then timeSec else prev.bestTime) else timeSec)
  }

  /** `Object.values(levels).reduce((s, l) => s + l.bestScore, 0)`: no
      records sum to 0, and with no negative best score the sum is not
      negative either. */
  ghost function SumBest(m: map<int, LevelInfo>): (total: int)
    ensures m == map[] ==> total == 0
    ensures (forall id :: id in m ==> m[id].bestScore >= 0) ==> total >= 0
    decreases |m|
  {
    if m.Keys == {} then 0
    else
      HasKey(m);
      var id :| id in m.Keys;
      m[id].bestScore + SumBest(m - {id})
  }

  lemma EmptyOrMember(s: set<int>)
    ensures s == {} || exists id :: id in s
  {
    if forall id :: id !in s {
      assert s == {};
    }
  }

  lemma HasKey(m: map<int, LevelInfo>)
    requires m.Keys != {}
    ensures exists id :: id in m.Keys
  {
    EmptyOrMember(m.Keys);
  }

  /** The sum does not depend on the order the records are visited in. */
  lemma {:induction false} SumBestRemove(m: map<int, LevelInfo>, x: int)
    requires x in m
    ensures SumBest(m) == m[x].bestScore + SumBest(m - {x})
    decreases |m|
  {
    var y :| y in m && SumBest(m) == m[y].bestScore + SumBest(m - {y});
    if y != x {
      assert x in m - {y};
      SumBestRemove(m - {y}, x);
      assert y in m - {x};
      SumBestRemove(m - {x}, y);
      assert m - {y} - {x} == m - {x} - {y};
    }
  }

  /** Replacing one record changes the sum by the difference of the scores. */
  lemma SumBestUpdate(m: map<int, LevelInfo>, id: int, v: LevelInfo)
    ensures SumBest(m[id := v]) == SumBest(m) - RecordIn(m, id).bestScore + v.bestScore
  {
    var n := m[id := v];
    SumBestRemove(n, id);
    assert n - {id} == m - {id};
    if id in m {
      SumBestRemove(m, id);
    } else {
      assert m - {id} == m;
    }
  }

  /** `completeLevel` as a value: the new progress.  It holds a record for
      exactly the levels recorded before and the completed one. */
  ghost function Complete(d: ProgressData, id: int, score: int, timeSec: real): (e: ProgressData)
    ensures e.levels.Keys == d.levels.Keys + {id}
    ensures e.settings == d.settings
  {
    var levels := d.levels[id := Merge(InfoOf(d, id), Stars(score, timeSec), score, timeSec)];
    var unlocked := if id >= d.highestUnlocked && id < LastLevel then id + 1 else d.highestUnlocked;
    ProgressData(unlocked, levels, SumBest(levels), d.settings)
  }

  /** The completed level keeps the best of its old and new results; no
      other level's record and no setting changes. */
  lemma CompleteRecords(d: ProgressData, id: int, score: int, timeSec: real)
    ensures var e := Complete(d, id, score, timeSec);
      var before := InfoOf(d, id);
      var after := InfoOf(e, id);
      && after.completed
      && after.stars == Max(Stars(score, timeSec), before.stars)
      && after.bestScore >= score && after.bestScore >= before.bestScore
      && (after.bestScore == score || after.bestScore == before.bestScore)
      && (before.bestTime == 0.0 ==> after.bestTime == timeSec)
      && (before.bestTime != 0.0 ==> after.bestTime <= timeSec && after.bestTime <= before.bestTime
                                     && (after.bestTime == timeSec || after.bestTime == before.bestTime))
      && (forall j :: j != id ==> InfoOf(e, j) == InfoOf(d, j))
      && e.settings == d.settings
  {
  }

  /** The unlock frontier never moves back, never passes the last level,
      and completing an unlocked level before the last unlocks the next. */
  lemma CompleteUnlocks(d: ProgressData, id: int, score: int, timeSec: real)
    ensures var e := Complete(d, id, score, timeSec);
      && e.highestUnlocked >= d.highestUnlocked
      && (d.highestUnlocked <= LastLevel ==> e.highestUnlocked <= LastLevel)
      && (id <= d.highestUnlocked && id < LastLevel ==> id + 1 <= e.highestUnlocked)
      && (e.highestUnlocked != d.highestUnlocked ==> e.highestUnlocked == id + 1)
  {
  }

  /** The total is the sum of the best scores; it never drops when the old
      total was that sum, and it is not negative when no best score is. */
  lemma CompleteTotal(d: ProgressData, id: int, score: int, timeSec: real)
    ensures var e := Complete(d, id, score, timeSec);
      && e.totalScore == SumBest(d.levels) - InfoOf(d, id).bestScore + InfoOf(e, id).bestScore
      && (d.totalScore == SumBest(d.levels) ==> e.totalScore >= d.totalScore)
      && ((forall j :: j in d.levels ==> d.levels[j].bestScore >= 0) && score >= 0 ==> e.totalScore >= 0)
  {
    var e := Complete(d, id, score, timeSec);
    var v := Merge(InfoOf(d, id), Stars(score, timeSec), score, timeSec);
    SumBestUpdate(d.levels, id, v);
  }

  class ProgressManager {
    var data: ProgressData

    /** `load()`: the stored progress if there is any, otherwise the defaults. */
    constructor (stored: Option<ProgressData>)
      ensures data == (if stored.Some? then stored.value else Defaults())
    {
      if stored.Some? {
        data := stored.value;
      } else {
        data := Defaults();
      }
    }

    method CompleteLevel(id: int, score: int, timeSec: real) returns (stars: int)
      modifies this
      ensures data == Complete(old(data), id, score, timeSec)
      ensures stars == Stars(score, timeSec)
    {
      stars := Stars(score, timeSec);
      var prev := GetLevelInfo(id);
      data := data.(levels := data.levels[id := Merge(prev, stars, score, timeSec)]);
      if id >= data.highestUnlocked && id < LastLevel {
        data := data.(highestUnlocked := id + 1);
      }
      var total := TotalBest(data.levels);
      data := data.(totalScore := total);
    }

    function GetLevelInfo(id: int): (info: LevelInfo)
      reads this
      ensures info == InfoOf(data, id)
    {
      if id in data.levels then data.levels[id] else NoRecord()
    }

    /** `isUnlocked`: the ids up to the frontier are playable, so level 1
        is whenever the frontier has not fallen below 1. */
    predicate IsUnlocked(id: int)
      reads this
      ensures id <= 1 && data.highestUnlocked >= 1 ==> IsUnlocked(id)
    {
      id <= data.highestUnlocked
    }

    /** The unlocked levels form a prefix of the ids: every level below an
        unlocked one is unlocked too. */
    lemma UnlockedPrefix(lower: int, upper: int)
      requires lower <= upper && IsUnlocked(upper)
      ensures IsUnlocked(lower)
    {
    }
  }

  /** The reduce over the stored records. */
  method TotalBest(levels: map<int, LevelInfo>) returns (total: int)
    ensures total == SumBest(levels)
  {
    total := 0;
    var rest := levels;
    while rest.Keys != {}
      invariant total + SumBest(rest) == SumBest(levels)
      decreases |rest|
    {
      var id :| id in rest;
      SumBestRemove(rest, id);
      total := total + rest[id].bestScore;
      rest := rest - {id};
    }
  }

  /** Completing level `id` leaves it and its successor unlocked. */
  lemma CompleteThenUnlocked(d: ProgressData, id: int, score: int, timeSec: real)
    requires 1 <= id <= d.highestUnlocked && id < LastLevel
    ensures var e := Complete(d, id, score, timeSec);
      id <= e.highestUnlocked && id + 1 <= e.highestUnlocked
  {
    CompleteUnlocks(d, id, score, timeSec);
  }
}
