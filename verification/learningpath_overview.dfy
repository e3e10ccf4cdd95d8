/** The learning-path overview (enliven-backend/controllers/learningpathController.js):
    per roadmap topic, how many saved videos are done out of how many are
    tracked, the rounded percentage, where to resume, and the totals. */
module LearningPathOverview {

  import opened Wrappers
  import opened Text
  import opened Naming
  import opened Rounding
  import opened Roadmap
  import opened Progress

  /** The course id the progress documents are saved under: the `slug` of the
      domain and the lower-cased level, joined by a hyphen. */
  function CourseId(domain: string, skillLevel: string): string {
    SlugNoTrim(domain) + "-" + Lower(skillLevel)
  }

  /** `Object.values(videoProgress).filter(Boolean).length`. */
  function DoneCount(vp: map<int, bool>): nat {
    |set k | k in vp && vp[k]|
  }

  /** `Object.keys(videoProgress).length`. */
  function Tracked(vp: map<int, bool>): nat {
    |vp.Keys|
  }

  /** Done videos are among the tracked ones. */
  lemma DoneAtMostTracked(vp: map<int, bool>)
    ensures DoneCount(vp) <= Tracked(vp)
  {
    var done := set k | k in vp && vp[k];
    var rest := set k | k in vp && !vp[k];
    assert vp.Keys == done + rest;
    assert done * rest == {};
  }

  /** `totalSeen ? Math.round(doneCount / totalSeen * 100) : 0`. */
  function Percent(done: nat, seen: nat): (r: nat)
    ensures seen == 0 ==> r == 0
    ensures done <= seen ==> r <= 100
    ensures 0 < seen && done == seen ==> r == 100
    ensures done == 0 ==> r == 0
  {
    if seen == 0 then 0 else RoundPercent(done, seen)
  }

  // ---------------------------------------------------------------------------
  // Rows and totals
  // ---------------------------------------------------------------------------

  datatype NextStep = NextStep(topicId: string, currentIndex: int)

  datatype TopicRow = TopicRow(sequenceNumber: int, title: string, description: string,
                               percent: nat, videosDone: nat, videosTracked: nat, next: Option<NextStep>)

  /** The row for one topic (lines 51-71); its progress is looked up under
      `String(sequenceNumber)`. */
  function RowFor(t: Topic, pm: map<string, TopicProgress>): (row: TopicRow)
    ensures row.sequenceNumber == t.sequenceNumber && row.title == t.title && row.description == t.description
    ensures row.videosDone <= row.videosTracked && row.percent <= 100
    ensures row.videosTracked == 0 ==> row.percent == 0
    ensures row.next.None? <==> IntToString(t.sequenceNumber) !in pm
    ensures IntToString(t.sequenceNumber) !in pm ==> row.videosDone == 0 && row.videosTracked == 0
    ensures row.next.Some? ==> row.next.value == NextStep(IntToString(t.sequenceNumber), pm[IntToString(t.sequenceNumber)].currentIndex)
  {
    var id := IntToString(t.sequenceNumber);
    if id in pm then
      var vp := pm[id].videoProgress;
      DoneAtMostTracked(vp);
      TopicRow(t.sequenceNumber, t.title, t.description,
               Percent(DoneCount(vp), Tracked(vp)), DoneCount(vp), Tracked(vp),
               Some(NextStep(id, pm[id].currentIndex)))
    else TopicRow(t.sequenceNumber, t.title, t.description, 0, 0, 0, None)
  }

  function SumDone(rows: seq<TopicRow>): nat {
    if rows == [] then 0 else SumDone(rows[..|rows| - 1]) + rows[|rows| - 1].videosDone
  }

  function SumTracked(rows: seq<TopicRow>): nat {
    if rows == [] then 0 else SumTracked(rows[..|rows| - 1]) + rows[|rows| - 1].videosTracked
  }

  /** Summed over rows each of which has no more done than tracked videos,
      the done total is at most the tracked total. */
  lemma {:induction false} SumDoneAtMostTracked(rows: seq<TopicRow>)
    requires forall k :: 0 <= k < |rows| ==> rows[k].videosDone <= rows[k].videosTracked
    ensures SumDone(rows) <= SumTracked(rows)
  {
    if rows != [] {
      SumDoneAtMostTracked(rows[..|rows| - 1]);
    }
  }

  lemma SumsSnoc(rows: seq<TopicRow>, row: TopicRow)
    ensures SumDone(rows + [row]) == SumDone(rows) + row.videosDone
    ensures SumTracked(rows + [row]) == SumTracked(rows) + row.videosTracked
  {
    assert (rows + [row])[..|rows|] == rows;
  }

  datatype Totals = Totals(videosDone: nat, videosTotal: nat, percent: nat)

  datatype ContinuePath = ContinuePath(url: string, domainSlug: string, levelSlug: string)

  datatype Overview = Overview(message: Option<string>, domain: Option<string>, skillLevel: Option<string>,
                               totals: Totals, topics: seq<TopicRow>, continuePath: Option<ContinuePath>)

  /** The `map` over the sorted topics with its two accumulators (lines 47-72). */
  method BuildRows(sorted: seq<Topic>, pm: map<string, TopicProgress>)
    returns (rows: seq<TopicRow>, aggDone: nat, aggTotal: nat)
    ensures |rows| == |sorted|
    ensures forall k :: 0 <= k < |sorted| ==> rows[k] == RowFor(sorted[k], pm)
    ensures aggDone == SumDone(rows) && aggTotal == SumTracked(rows)
    ensures aggDone <= aggTotal
  {
    aggDone, aggTotal := 0, 0;
    rows := [];
    for i := 0 to |sorted|
      invariant |rows| == i
      invariant forall k :: 0 <= k < i ==> rows[k] == RowFor(sorted[k], pm)
      invariant aggDone == SumDone(rows) && aggTotal == SumTracked(rows)
    {
      var row := RowFor(sorted[i], pm);
      aggDone := aggDone + row.videosDone;
      aggTotal := aggTotal + row.videosTracked;
      SumsSnoc(rows, row);
      rows := rows + [row];
    }
    SumDoneAtMostTracked(rows);
  }

  /** Rows built from topics in sequence order are in sequence order. */
  lemma RowsFollowSorted(sorted: seq<Topic>, pm: map<string, TopicProgress>, rows: seq<TopicRow>)
    requires SortedBySeq(sorted)
    requires |rows| == |sorted| && forall k :: 0 <= k < |sorted| ==> rows[k] == RowFor(sorted[k], pm)
    ensures forall i, j :: 0 <= i < j < |rows| ==> rows[i].sequenceNumber <= rows[j].sequenceNumber
  {
    assert forall k :: 0 <= k < |rows| ==> rows[k].sequenceNumber == sorted[k].sequenceNumber;
  }

  /** `getLearningPathOverview` for the learner's single roadmap and the
      progress collection. */
  method GetLearningPathOverview(roadmaps: map<string, RoadmapDoc>, progress: map<(string, string), seq<TopicProgress>>,
                                 userId: string)
    returns (r: Overview)
    ensures userId !in roadmaps ==>
      r == Overview(Some("No roadmap yet"), None, None, Totals(0, 0, 0), [], None)
    ensures userId in roadmaps ==>
      var rm := roadmaps[userId];
      var d, l := SlugNoTrim(rm.domain), Lower(rm.skillLevel);
      var id := CourseId(rm.domain, rm.skillLevel);
      var entries := if (userId, id) in progress then progress[(userId, id)] else [];
      var sorted := SortBySeq(rm.topics);
      r.message.None? && r.domain == Some(d) && r.skillLevel == Some(l) &&
      r.continuePath == Some(ContinuePath("/courses/" + d + "/" + l, d, l)) &&
      |r.topics| == |sorted| &&
      (forall k :: 0 <= k < |sorted| ==> r.topics[k] == RowFor(sorted[k], ProgressMapOf(entries))) &&
      r.totals.videosDone == SumDone(r.topics) && r.totals.videosTotal == SumTracked(r.topics) &&
      r.totals.percent == Percent(SumDone(r.topics), SumTracked(r.topics))
    ensures r.totals.videosDone <= r.totals.videosTotal && r.totals.percent <= 100
    ensures forall i, j :: 0 <= i < j < |r.topics| ==> r.topics[i].sequenceNumber <= r.topics[j].sequenceNumber
  {
    if userId !in roadmaps {
      return Overview(Some("No roadmap yet"), None, None, Totals(0, 0, 0), [], None);
    }
    var rm := roadmaps[userId];
    var domainSlug := SlugNoTrim(rm.domain);
    var levelSlug := Lower(rm.skillLevel);
    var courseId := CourseId(rm.domain, rm.skillLevel);
    var entries := if (userId, courseId) in progress then progress[(userId, courseId)] else [];
    var pm := BuildProgressMap(entries);
    var sorted := SortBySeq(rm.topics);
    var rows, aggDone, aggTotal := BuildRows(sorted, pm);
    RowsFollowSorted(sorted, pm, rows);
    r := Overview(None, Some(domainSlug), Some(levelSlug), Totals(aggDone, aggTotal, Percent(aggDone, aggTotal)), rows,
                  Some(ContinuePath("/courses/" + domainSlug + "/" + levelSlug, domainSlug, levelSlug)));
  }
}
