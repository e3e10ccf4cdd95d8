/** The learning-path page (enliven-frontend/src/components/pages/LearningPath.jsx):
    per-topic statistics inferred from the saved progress, overall totals,
    and the simple lock rule for the module cards. */
module LearningPathView {

  import opened Wrappers
  import opened Text
  import opened Rounding
  import opened Roadmap
  import opened Progress
  import opened LearningPathOverview

  /** `pct(done, total)`: the rounded percentage, 0 when the total is not positive. */
  function Pct(done: nat, total: int): (r: nat)
    ensures total <= 0 ==> r == 0
    ensures done <= total ==> r <= 100
    ensures 0 < total && done == total ==> r == 100
    ensures done == 0 ==> r == 0
  {
    if total > 0 then RoundPercent(done, total) else 0
  }

  /** `countDone`: 0 without a progress object, otherwise the number of true values. */
  function CountDone(vp: Option<map<int, bool>>): (r: nat)
    ensures vp.None? ==> r == 0
    ensures vp.Some? ==> r == DoneCount(vp.value) && r <= |vp.value.Keys|
  {
    match vp
    case None => 0
    case Some(m) => DoneAtMostTracked(m); DoneCount(m)
  }

  datatype Stat = Stat(videosDone: nat, videosTotal: nat, percent: nat)

  /** The statistics of one saved row (lines 93-103): the total is at least
      the done count, since the real number of videos is not known here. */
  function StatFor(row: TopicProgress): (s: Stat)
    ensures s.videosDone == DoneCount(row.videoProgress)
    ensures s.videosTotal == if s.videosDone < |row.videoProgress.Keys| then |row.videoProgress.Keys| else s.videosDone
    ensures s.percent == Pct(s.videosDone, s.videosTotal)
  {
    var done := CountDone(Some(row.videoProgress));
    var total := if done < |row.videoProgress.Keys| then |row.videoProgress.Keys| else done;
    Stat(done, total, Pct(done, total))
  }

  predicate Bounded(s: Stat) {
    s.videosDone <= s.videosTotal && s.percent <= 100
  }

  /** The object filled by the loop at lines 92-104: a later row for the same
      topic id overwrites an earlier one. */
  function StatsOf(rows: seq<TopicProgress>): map<string, Stat>
  {
    if rows == [] then map[]
    else StatsOf(rows[..|rows| - 1])[rows[|rows| - 1].topicId := StatFor(rows[|rows| - 1])]
  }

  /** Every statistic has `videosTotal >= videosDone`, hence a percent of at most 100. */
  lemma {:induction false} StatsBounded(rows: seq<TopicProgress>)
    ensures forall id :: id in StatsOf(rows) ==> Bounded(StatsOf(rows)[id])
  {
    if rows != [] {
      StatsBounded(rows[..|rows| - 1]);
    }
  }

  /** A topic id has statistics iff a saved row carries it, and they are the
      last such row's. */
  lemma {:induction false} StatsLastWins(rows: seq<TopicProgress>, id: string, i: nat)
    requires i < |rows| && rows[i].topicId == id
    requires forall j :: i < j < |rows| ==> rows[j].topicId != id
    ensures id in StatsOf(rows) && StatsOf(rows)[id] == StatFor(rows[i])
  {
    var n := |rows| - 1;
    if i < n {
      assert rows[..n][i] == rows[i];
      assert forall j :: i < j < n ==> rows[..n][j] == rows[j];
      StatsLastWins(rows[..n], id, i);
    }
  }

  /** The loop at lines 92-104. */
  method BuildTopicStats(rows: seq<TopicProgress>) returns (stats: map<string, Stat>)
    ensures stats == StatsOf(rows)
    ensures forall id :: id in stats ==> Bounded(stats[id])
  {
    stats := map[];
    for i := 0 to |rows|
      invariant stats == StatsOf(rows[..i])
    {
      assert rows[..i + 1][..i] == rows[..i];
      stats := stats[rows[i].topicId := StatFor(rows[i])];
    }
    assert rows[..|rows|] == rows;
    StatsBounded(rows);
  }

  /** `perTopic[String(t.sequenceNumber)] || {0, 0, 0}`. */
  function StatOf(stats: map<string, Stat>, t: Topic): Stat {
    var id := IntToString(t.sequenceNumber);
    if id in stats then stats[id] else Stat(0, 0, 0)
  }

  function SumDoneOf(topics: seq<Topic>, stats: map<string, Stat>): nat {
    if topics == [] then 0 else SumDoneOf(topics[..|topics| - 1], stats) + StatOf(stats, topics[|topics| - 1]).videosDone
  }

  function SumTotalOf(topics: seq<Topic>, stats: map<string, Stat>): nat {
    if topics == [] then 0 else SumTotalOf(topics[..|topics| - 1], stats) + StatOf(stats, topics[|topics| - 1]).videosTotal
  }

  /** With bounded statistics, the done sum never exceeds the total sum. */
  lemma {:induction false} SumsBounded(topics: seq<Topic>, stats: map<string, Stat>)
    requires forall id :: id in stats ==> Bounded(stats[id])
    ensures SumDoneOf(topics, stats) <= SumTotalOf(topics, stats)
  {
    if topics != [] {
      SumsBounded(topics[..|topics| - 1], stats);
    }
  }

  /** The `reduce` at lines 142-151 and the overall percent of line 152. */
  method ComputeTotals(topics: seq<Topic>, stats: map<string, Stat>) returns (done: nat, total: nat, overall: nat)
    requires forall id :: id in stats ==> Bounded(stats[id])
    ensures done == SumDoneOf(topics, stats) && total == SumTotalOf(topics, stats)
    ensures overall == Pct(done, total) && done <= total && overall <= 100
  {
    done, total := 0, 0;
    for i := 0 to |topics|
      invariant done == SumDoneOf(topics[..i], stats) && total == SumTotalOf(topics[..i], stats)
    {
      assert topics[..i + 1][..i] == topics[..i];
      var s := StatOf(stats, topics[i]);
      done := done + s.videosDone;
      total := total + s.videosTotal;
    }
    assert topics[..|topics|] == topics;
    SumsBounded(topics, stats);
    overall := Pct(done, total);
  }

  // ---------------------------------------------------------------------------
  // Lock rule and card status
  // ---------------------------------------------------------------------------

  datatype Status = Unlocked | Locked | Completed

  /** `statusFor(index)`: the first module is open; any other is open iff the
      previous topic in the roadmap's own order is at exactly 100%. */
  function StatusFor(topics: seq<Topic>, stats: map<string, Stat>, index: nat): (r: Status)
    requires index < |topics|
    ensures r != Completed
    ensures index == 0 ==> r == Unlocked
    ensures index > 0 ==> (r == Unlocked <==> StatOf(stats, topics[index - 1]).percent == 100)
  {
    if index == 0 then Unlocked
    else
      var prev := IntToString(topics[index - 1].sequenceNumber);
      if prev in stats && stats[prev].percent == 100 then Unlocked else Locked
  }

  /** Line 239-240: a card at 100% is completed whatever the lock rule says. */
  function CardStatus(topics: seq<Topic>, stats: map<string, Stat>, index: nat): (r: Status)
    requires index < |topics|
    ensures StatOf(stats, SortBySeq(topics)[index]).percent == 100 ==> r == Completed
    ensures StatOf(stats, SortBySeq(topics)[index]).percent != 100 ==> r == StatusFor(topics, stats, index)
  {
    var t := SortBySeq(topics)[index];
    if StatOf(stats, t).percent == 100 then Completed else StatusFor(topics, stats, index)
  }

  /** `statusFor` is handed the index in the SORTED list but reads the previous
      topic from the roadmap's own order; the roadmaps the generator stores
      are already sorted, so for them the previous card is the previous
      topic: a card is open iff the card before it is complete. */
  lemma CardLockFollowsPreviousCard(topics: seq<Topic>, stats: map<string, Stat>, index: nat)
    requires SortedBySeq(topics) && 0 < index < |topics|
    requires StatOf(stats, SortBySeq(topics)[index]).percent != 100
    ensures CardStatus(topics, stats, index) == Unlocked <==>
      StatOf(stats, SortBySeq(topics)[index - 1]).percent == 100
  {
    SortSortedIsIdentity(topics);
  }
}
