/**
 * A player's running statistics and the transition that records one completed
 * puzzle (the stats update of GameService.submitGame), with the report that
 * getUserStats returns.
 *
 * Calendar dates are day numbers, so "yesterday" of day d is d - 1; puzzle
 * identifiers are only compared for equality.
 *
 * The record is a class whose fields Submit updates in place. A ghost history
 * of every recorded completion is kept beside the fields, and Valid() ties
 * each field to a summary of that history defined independently of the
 * update code: the play and win counts, the distribution of winning attempt
 * counts, the trailing streak (the longest run of wins on contiguous days at
 * the end of the history) and the best streak reached so far.
 */
module PlayerStats {
  import opened Wrappers
  import WinPercentage

  type PuzzleId = string

  /** The attempt counts the submission DTO admits. */
  const MinAttempts: int := 1
  const MaxAttempts: int := 6

  /** One recorded outcome: which puzzle, on which day, won or lost, after how many attempts. */
  datatype Completion = Completion(puzzle: PuzzleId, day: int, won: bool, attempts: int)

  datatype SubmitError = AlreadyCompleted

  /** The statistics as submitGame and getUserStats report them. */
  datatype StatsReport = StatsReport(
    gamesPlayed: nat,
    gamesWon: nat,
    winPercentage: nat,
    currentStreak: nat,
    maxStreak: nat,
    guessDistribution: map<int, nat>)

  // ---------------------------------------------------------------------------
  // Summaries of a history of completions
  // ---------------------------------------------------------------------------

  function Last(h: seq<Completion>): Completion
    requires h != []
  {
    h[|h| - 1]
  }

  function Init(h: seq<Completion>): seq<Completion>
    requires h != []
  {
    h[..|h| - 1]
  }

  function Ids(h: seq<Completion>): seq<PuzzleId>
  {
    if h == [] then [] else Ids(Init(h)) + [Last(h).puzzle]
  }

  function Wins(h: seq<Completion>): nat
  {
    if h == [] then 0 else Wins(Init(h)) + (if Last(h).won then 1 else 0)
  }

  /** Number of games won after exactly k attempts. */
  function WinsWith(h: seq<Completion>, k: int): nat
  {
    if h == [] then 0 else WinsWith(Init(h), k) + (if Last(h).won && Last(h).attempts == k then 1 else 0)
  }

  function LastDay(h: seq<Completion>): Option<int>
  {
    if h == [] then None else Some(Last(h).day)
  }

  /** A game on `day` continues a streak last played on `previous`: the day before, or the same day. */
  predicate Contiguous(previous: int, day: int)
  {
    previous == day - 1 || previous == day
  }

  /** The current streak after a history, one completion at a time. */
  function Streak(h: seq<Completion>): nat
  {
    if h == [] || !Last(h).won then 0
    else if |h| == 1 then 1
    else if Contiguous(h[|h| - 2].day, Last(h).day) then Streak(Init(h)) + 1
    else 1
  }

  /** The longest streak reached at any point of a history. */
  function Best(h: seq<Completion>): nat
  {
    if h == [] then 0 else Max(Best(Init(h)), Streak(h))
  }

  function Max(a: nat, b: nat): nat
  {
    if a < b then b else a
  }

  /** The last k completions are all wins, each on a day contiguous with the one before it. */
  ghost predicate WinningRun(h: seq<Completion>, k: nat)
  {
    && k <= |h|
    && (forall j :: |h| - k <= j < |h| ==> h[j].won)
    && (forall j :: |h| - k < j < |h| ==> Contiguous(h[j - 1].day, h[j].day))
  }

  predicate Distinct(ids: seq<PuzzleId>)
  {
    forall i, j :: 0 <= i < j < |ids| ==> ids[i] != ids[j]
  }

  /** A Map<number, number> lookup that defaults to 0. */
  function Count(m: map<int, nat>, k: int): nat
  {
    if k in m then m[k] else 0
  }

  /** The sum of a guess distribution over the admitted attempt counts. */
  function Total(m: map<int, nat>): nat
  {
    Count(m, 1) + Count(m, 2) + Count(m, 3) + Count(m, 4) + Count(m, 5) + Count(m, 6)
  }

  // ---------------------------------------------------------------------------
  // Properties of the summaries
  // ---------------------------------------------------------------------------

  /** The current streak is the length of the longest winning run at the end of the history. */
  lemma {:induction false} StreakIsLongestWinningRun(h: seq<Completion>, k: nat)
    requires k <= |h|
    ensures WinningRun(h, k) <==> k <= Streak(h)
  {
    if k > 0 {
      StreakIsLongestWinningRun(Init(h), k - 1);
      WinningRunExtends(h, k);
    }
  }

  lemma WinningRunExtends(h: seq<Completion>, k: nat)
    requires 0 < k <= |h|
    ensures WinningRun(h, k) <==>
              Last(h).won && WinningRun(Init(h), k - 1) && (k >= 2 ==> Contiguous(h[|h| - 2].day, Last(h).day))
  {
    var p := Init(h);
    assert forall j :: 0 <= j < |p| ==> p[j] == h[j];
  }

  /** The best streak is the largest current streak over all prefixes of the history. */
  lemma {:induction false} BestIsLargestStreak(h: seq<Completion>)
    ensures forall i :: 0 <= i <= |h| ==> Streak(h[..i]) <= Best(h)
    ensures exists i :: 0 <= i <= |h| && Streak(h[..i]) == Best(h)
  {
    assert h[..|h|] == h;
    if h == [] {
      assert Streak(h[..0]) == Best(h);
    } else {
      var p := Init(h);
      BestIsLargestStreak(p);
      forall i | 0 <= i < |h|
        ensures h[..i] == p[..i]
      {
      }
      if Best(p) < Streak(h) {
        assert Streak(h[..|h|]) == Best(h);
      } else {
        var i :| 0 <= i <= |p| && Streak(p[..i]) == Best(p);
        assert Streak(h[..i]) == Best(h);
      }
    }
  }

  /** Wins never outnumber games, and no streak outnumbers the wins. */
  lemma {:induction false} HistoryBounds(h: seq<Completion>)
    ensures Wins(h) <= |h|
    ensures Streak(h) <= Best(h) <= Wins(h)
  {
    if h != [] {
      HistoryBounds(Init(h));
    }
  }

  /**
   * With every attempt count in 1..6, the distribution has no other key and
   * its counts add up to the number of wins.
   */
  lemma {:induction false} DistributionAddsUp(h: seq<Completion>)
    requires forall j :: 0 <= j < |h| ==> MinAttempts <= h[j].attempts <= MaxAttempts
    ensures forall k :: WinsWith(h, k) > 0 ==> MinAttempts <= k <= MaxAttempts
    ensures WinsWith(h, 1) + WinsWith(h, 2) + WinsWith(h, 3) + WinsWith(h, 4) + WinsWith(h, 5) + WinsWith(h, 6) == Wins(h)
  {
    if h != [] {
      DistributionAddsUp(Init(h));
    }
  }

  /** Appending a completion: what every summary becomes. */
  lemma AppendCompletion(h: seq<Completion>, e: Completion)
    ensures Init(h + [e]) == h && Last(h + [e]) == e
    ensures Ids(h + [e]) == Ids(h) + [e.puzzle]
    ensures h != [] ==> (h + [e])[|h| - 1] == Last(h)
  {
  }

  /** A loss ends the streak and leaves the best streak as it was. */
  lemma LossResetsStreak(h: seq<Completion>, e: Completion)
    requires !e.won
    ensures Streak(h + [e]) == 0
    ensures Best(h + [e]) == Best(h)
  {
    AppendCompletion(h, e);
  }

  /**
   * A win extends the streak when the previous game was the day before or
   * the same day, and otherwise starts a new streak of one.
   */
  lemma {:induction false} WinContinuesOrRestartsStreak(h: seq<Completion>, e: Completion)
    requires e.won
    ensures Streak(h + [e]) == (if h != [] && Contiguous(Last(h).day, e.day) then Streak(h) + 1 else 1)
    ensures Best(h + [e]) >= Streak(h + [e]) && Best(h + [e]) >= Best(h)
  {
    AppendCompletion(h, e);
  }

  /** The record's fields are the summaries of history h. */
  ghost predicate Summarizes(h: seq<Completion>, played: nat, won: nat, streak: nat, best: nat,
                             dist: map<int, nat>, last: Option<int>, ids: seq<PuzzleId>)
  {
    && (forall j :: 0 <= j < |h| ==> MinAttempts <= h[j].attempts <= MaxAttempts)
    && played == |h|
    && ids == Ids(h)
    && Distinct(ids)
    && won == Wins(h)
    && (forall k :: k in dist <==> WinsWith(h, k) > 0)
    && (forall k :: k in dist ==> dist[k] == WinsWith(h, k))
    && streak == Streak(h)
    && best == Best(h)
    && last == LastDay(h)
  }

  /** The bounds a statistics record keeps. */
  ghost predicate Bounded(played: nat, won: nat, streak: nat, best: nat, dist: map<int, nat>)
  {
    && won <= played
    && streak <= best <= won
    && (forall k :: k in dist ==> MinAttempts <= k <= MaxAttempts && dist[k] > 0)
    && Total(dist) == won
  }

  /** Fields that summarize a history keep the bounds. */
  lemma SummaryIsBounded(h: seq<Completion>, played: nat, won: nat, streak: nat, best: nat,
                         dist: map<int, nat>, last: Option<int>, ids: seq<PuzzleId>)
    requires Summarizes(h, played, won, streak, best, dist, last, ids)
    ensures Bounded(played, won, streak, best, dist)
  {
    HistoryBounds(h);
    DistributionAddsUp(h);
    forall k ensures Count(dist, k) == WinsWith(h, k) {
    }
  }

  /** Counting one more win after `attempts` attempts keeps the distribution in step with the history. */
  lemma DistributionStep(h: seq<Completion>, e: Completion, dist: map<int, nat>)
    requires forall k :: k in dist <==> WinsWith(h, k) > 0
    requires forall k :: k in dist ==> dist[k] == WinsWith(h, k)
    ensures var dist' := if e.won then dist[e.attempts := Count(dist, e.attempts) + 1] else dist;
            && (forall k :: k in dist' <==> WinsWith(h + [e], k) > 0)
            && (forall k :: k in dist' ==> dist'[k] == WinsWith(h + [e], k))
  {
    AppendCompletion(h, e);
  }

  /** Recording a completion of a puzzle not yet completed keeps the fields in step with the history. */
  lemma RecordStep(h: seq<Completion>, e: Completion,
                   played: nat, won: nat, streak: nat, best: nat,
                   dist: map<int, nat>, last: Option<int>, ids: seq<PuzzleId>,
                   played': nat, won': nat, streak': nat, best': nat,
                   dist': map<int, nat>, last': Option<int>, ids': seq<PuzzleId>)
    requires Summarizes(h, played, won, streak, best, dist, last, ids)
    requires MinAttempts <= e.attempts <= MaxAttempts
    requires e.puzzle !in ids
    requires played' == played + 1 && ids' == ids + [e.puzzle] && last' == Some(e.day)
    requires won' == won + (if e.won then 1 else 0)
    requires dist' == if e.won then dist[e.attempts := Count(dist, e.attempts) + 1] else dist
    requires streak' == if !e.won then 0 else if last.Some? && Contiguous(last.value, e.day) then streak + 1 else 1
    requires best' == if e.won then Max(best, streak') else best
    ensures Summarizes(h + [e], played', won', streak', best', dist', last', ids')
    ensures Bounded(played', won', streak', best', dist')
  {
    AppendCompletion(h, e);
    DistributionStep(h, e, dist);
    if e.won {
      WinContinuesOrRestartsStreak(h, e);
    } else {
      LossResetsStreak(h, e);
    }
    var h' := h + [e];
    assert forall j :: 0 <= j < |h| ==> h'[j] == h[j];
    SummaryIsBounded(h', played', won', streak', best', dist', last', ids');
  }

  /**
   * The streak update submitGame makes on a win: the streak continues when
   * the last game was the day before or the same day, and otherwise restarts
   * at 1; the best streak rises to meet it.
   */
  method WinStreaks(last: Option<int>, day: int, streak: nat, best: nat) returns (streak': nat, best': nat)
    ensures streak' == if last.Some? && Contiguous(last.value, day) then streak + 1 else 1
    ensures best' == Max(best, streak')
  {
    match last {
      case None =>
        streak' := 1;
      case Some(previous) =>
        if previous == day - 1 || previous == day {
          streak' := streak + 1;
        } else {
          streak' := 1;
        }
    }
    best' := best;
    if streak' > best' {
      best' := streak';
    }
  }

  // ---------------------------------------------------------------------------
  // The record
  // ---------------------------------------------------------------------------

  class UserStats {
    var gamesPlayed: nat
    var gamesWon: nat
    var currentStreak: nat
    var maxStreak: nat
    var guessDistribution: map<int, nat>
    var lastPlayedDate: Option<int>
    var completedPuzzles: seq<PuzzleId>

    /** Every completion recorded so far, in order. */
    ghost var history: seq<Completion>

    /**
     * Each field is the summary of the history it stands for; from that
     * follow the bounds the record keeps: gamesWon <= gamesPlayed,
     * currentStreak <= maxStreak <= gamesWon, distribution keys in 1..6 and
     * distribution counts adding up to gamesWon.
     */
    ghost predicate Valid()
      reads this
    {
      && Summarizes(history, gamesPlayed, gamesWon, currentStreak, maxStreak,
                    guessDistribution, lastPlayedDate, completedPuzzles)
      && Bounded(gamesPlayed, gamesWon, currentStreak, maxStreak, guessDistribution)
    }

    /** The record created on a player's first submission: all counters zero, nothing completed. */
    constructor ()
      ensures Valid() && history == []
      ensures gamesPlayed == 0 && gamesWon == 0 && currentStreak == 0 && maxStreak == 0
      ensures guessDistribution == map[] && lastPlayedDate == None && completedPuzzles == []
    {
      gamesPlayed, gamesWon, currentStreak, maxStreak := 0, 0, 0, 0;
      guessDistribution := map[];
      lastPlayedDate := None;
      completedPuzzles := [];
      history := [];
    }

    /** The statistics as getUserStats reports them for an existing record. */
    function Report(): (r: StatsReport)
      reads this
      requires Valid()
      ensures r.gamesPlayed == gamesPlayed && r.gamesWon == gamesWon
      ensures r.currentStreak == currentStreak && r.maxStreak == maxStreak
      ensures r.guessDistribution == guessDistribution
      ensures r.winPercentage <= 100
      ensures gamesPlayed == 0 ==> r.winPercentage == 0
      ensures gamesPlayed > 0 ==>
                2 * gamesPlayed * r.winPercentage <= 200 * gamesWon + gamesPlayed < 2 * gamesPlayed * (r.winPercentage + 1)
    {
      StatsReport(gamesPlayed, gamesWon, WinPercentage.Percentage(gamesWon, gamesPlayed),
                  currentStreak, maxStreak, guessDistribution)
    }

    /**
     * Records the outcome of one puzzle. A puzzle already completed is
     * rejected before anything changes; otherwise the completion is appended
     * to the history and every field moves with it.
     */
    method Submit(puzzle: PuzzleId, day: int, won: bool, attempts: int) returns (r: Result<StatsReport, SubmitError>)
      requires Valid()
      requires MinAttempts <= attempts <= MaxAttempts
      modifies this
      ensures Valid()
      ensures r.Err? <==> puzzle in old(completedPuzzles)
      ensures r.Err? ==> r.error == AlreadyCompleted && unchanged(this)
      ensures r.Ok? ==>
                && history == old(history) + [Completion(puzzle, day, won, attempts)]
                && gamesPlayed == old(gamesPlayed) + 1
                && completedPuzzles == old(completedPuzzles) + [puzzle]
                && gamesWon == old(gamesWon) + (if won then 1 else 0)
                && guessDistribution == (if won then old(guessDistribution)[attempts := Count(old(guessDistribution), attempts) + 1]
                                         else old(guessDistribution))
                && currentStreak == (if !won then 0
                                     else if old(lastPlayedDate).Some? && Contiguous(old(lastPlayedDate).value, day)
                                     then old(currentStreak) + 1
                                     else 1)
                && maxStreak == (if won then Max(old(maxStreak), currentStreak) else old(maxStreak))
                && lastPlayedDate == Some(day)
                && r.value == Report()
    {
      if puzzle in completedPuzzles {
        return Err(AlreadyCompleted);
      }
      var e := Completion(puzzle, day, won, attempts);
      ghost var h, played0, won0, streak0, best0, dist0, last0, ids0 :=
        history, gamesPlayed, gamesWon, currentStreak, maxStreak, guessDistribution, lastPlayedDate, completedPuzzles;

      gamesPlayed := gamesPlayed + 1;
      completedPuzzles := completedPuzzles + [puzzle];
      if won {
        gamesWon := gamesWon + 1;
        var currentCount := Count(guessDistribution, attempts);
        guessDistribution := guessDistribution[attempts := currentCount + 1];
        currentStreak, maxStreak := WinStreaks(lastPlayedDate, day, currentStreak, maxStreak);
      } else {
        currentStreak := 0;
      }
      lastPlayedDate := Some(day);
      history := h + [e];

      RecordStep(h, e, played0, won0, streak0, best0, dist0, last0, ids0,
                 gamesPlayed, gamesWon, currentStreak, maxStreak, guessDistribution, lastPlayedDate, completedPuzzles);
      r := Ok(StatsReport(gamesPlayed, gamesWon, WinPercentage.RoundedPercent(gamesWon, gamesPlayed),
                          currentStreak, maxStreak, guessDistribution));
    }
  }

  /** getUserStats: the report of a stored record, or all zeros for a player without one. */
  function UserStatsReport(stored: UserStats?): (r: StatsReport)
    reads stored
    requires stored != null ==> stored.Valid()
    ensures stored == null ==> r == StatsReport(0, 0, 0, 0, 0, map[])
    ensures stored != null ==> r == stored.Report()
    ensures r.winPercentage <= 100
    ensures r.currentStreak <= r.maxStreak <= r.gamesWon <= r.gamesPlayed
    ensures forall k :: k in r.guessDistribution ==> MinAttempts <= k <= MaxAttempts && r.guessDistribution[k] > 0
  {
    if stored == null then StatsReport(0, 0, 0, 0, 0, map[]) else stored.Report()
  }

  /** Submitting the same puzzle twice: the second submission is rejected and the play count stays at one. */
  method RepeatedSubmissionIsRejected(puzzle: PuzzleId, day: int) returns (first: Result<StatsReport, SubmitError>,
                                                                           second: Result<StatsReport, SubmitError>,
                                                                           played: nat)
    ensures first.Ok? && first.value.gamesPlayed == 1
    ensures second == Err(AlreadyCompleted)
    ensures played == 1
  {
    var stats := new UserStats();
    first := stats.Submit(puzzle, day, true, 3);
    second := stats.Submit(puzzle, day, false, 6);
    played := stats.gamesPlayed;
  }
}
