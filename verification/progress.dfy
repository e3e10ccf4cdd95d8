/** Saved video progress (enliven-backend/controllers/progressController.js
    over enliven-backend/models/Progress.js): one document per learner and
    course, holding one entry per roadmap topic. */
module Progress {

  import opened Wrappers

  /** One topic's saved state: which video indices are done, and the index the
      learner should resume at. */
  datatype TopicProgress = TopicProgress(topicId: string, videoProgress: map<int, bool>, currentIndex: int)

  predicate UniqueTopicIds(entries: seq<TopicProgress>) {
    forall i, j :: 0 <= i < j < |entries| ==> entries[i].topicId != entries[j].topicId
  }

  /** The position `progress.find(t => t.topicId === topicId)` lands on. */
  function FindTopic(entries: seq<TopicProgress>, topicId: string): (r: Option<nat>)
    ensures r.Some? ==> r.value < |entries| && entries[r.value].topicId == topicId
    ensures r.Some? ==> forall j :: 0 <= j < r.value ==> entries[j].topicId != topicId
    ensures r.None? <==> forall j :: 0 <= j < |entries| ==> entries[j].topicId != topicId
  {
    if entries == [] then None
    else if entries[0].topicId == topicId then Some(0)
    else match FindTopic(entries[1..], topicId)
      case None => None
      case Some(k) => Some(k + 1)
  }

  /** The topic update of `saveProgress` (lines 29-42): the first entry with
      the topic id has its two fields replaced; without one, a new entry is
      pushed. */
  function Upsert(entries: seq<TopicProgress>, topicId: string, videoProgress: map<int, bool>, currentIndex: int): (r: seq<TopicProgress>)
  {
    match FindTopic(entries, topicId)
    case Some(i) => entries[i := entries[i].(videoProgress := videoProgress, currentIndex := currentIndex)]
    case None => entries + [TopicProgress(topicId, videoProgress, currentIndex)]
  }

  /** An existing entry is updated in place: the list keeps its length, the
      entry keeps its id and position and takes the new fields, and every
      other entry is unchanged. */
  lemma UpsertExisting(entries: seq<TopicProgress>, topicId: string, vp: map<int, bool>, ci: int, i: nat)
    requires UniqueTopicIds(entries)
    requires i < |entries| && entries[i].topicId == topicId
    ensures var r := Upsert(entries, topicId, vp, ci);
      |r| == |entries| && r[i] == TopicProgress(topicId, vp, ci) &&
      forall j :: 0 <= j < |entries| && j != i ==> r[j] == entries[j]
  {
    var f := FindTopic(entries, topicId);
    assert f.Some? && f.value == i;
  }

  /** A new topic id is appended as exactly one entry at the end. */
  lemma UpsertNew(entries: seq<TopicProgress>, topicId: string, vp: map<int, bool>, ci: int)
    requires forall j :: 0 <= j < |entries| ==> entries[j].topicId != topicId
    ensures Upsert(entries, topicId, vp, ci) == entries + [TopicProgress(topicId, vp, ci)]
  {
  }

  /** Topic ids stay unique, and afterwards the topic's entry holds the saved
      fields. */
  lemma UpsertKeepsUnique(entries: seq<TopicProgress>, topicId: string, vp: map<int, bool>, ci: int)
    requires UniqueTopicIds(entries)
    ensures UniqueTopicIds(Upsert(entries, topicId, vp, ci))
    ensures var r := Upsert(entries, topicId, vp, ci);
      var k := FindTopic(r, topicId);
      k.Some? && r[k.value].videoProgress == vp && r[k.value].currentIndex == ci
  {
    var r := Upsert(entries, topicId, vp, ci);
    var f := FindTopic(entries, topicId);
    if f.Some? {
      assert forall j :: 0 <= j < |r| ==> r[j].topicId == entries[j].topicId;
      assert r[f.value].topicId == topicId;
    } else {
      assert forall j :: 0 <= j < |entries| ==> r[j] == entries[j];
      assert r[|entries|].topicId == topicId;
    }
    var k := FindTopic(r, topicId);
    assert k.Some?;
    assert k.value == if f.Some? then f.value else |entries|;
  }

  // ---------------------------------------------------------------------------
  // Progress indexed by topic id
  // ---------------------------------------------------------------------------

  /** Saved entries indexed by topic id, entry by entry, a later entry for
      the same id replacing an earlier one: the `progressMap` of the
      learning-path overview and the result of the course page's
      `normalizeProgress`. */
  function ProgressMapOf(entries: seq<TopicProgress>): map<string, TopicProgress>
  {
    if entries == [] then map[]
    else ProgressMapOf(entries[..|entries| - 1])[entries[|entries| - 1].topicId := entries[|entries| - 1]]
  }

  /** A topic id is in the map iff some entry has it, and it maps to the last
      such entry. */
  lemma {:induction false} ProgressMapLastWins(entries: seq<TopicProgress>, id: string)
    ensures id in ProgressMapOf(entries) <==> exists i :: 0 <= i < |entries| && entries[i].topicId == id
    ensures forall i :: (0 <= i < |entries| && entries[i].topicId == id &&
                         forall j :: i < j < |entries| ==> entries[j].topicId != id)
                        ==> id in ProgressMapOf(entries) && ProgressMapOf(entries)[id] == entries[i]
  {
    if entries != [] {
      var n := |entries| - 1;
      var init := entries[..n];
      ProgressMapLastWins(init, id);
      assert forall i :: 0 <= i < n ==> init[i] == entries[i];
      if id != entries[n].topicId && id in ProgressMapOf(entries) {
        var i :| 0 <= i < |init| && init[i].topicId == id;
        assert entries[i].topicId == id;
      }
    }
  }

  /** The loop that fills that index. */
  method BuildProgressMap(entries: seq<TopicProgress>) returns (pm: map<string, TopicProgress>)
    ensures pm == ProgressMapOf(entries)
  {
    pm := map[];
    for i := 0 to |entries|
      invariant pm == ProgressMapOf(entries[..i])
    {
      assert entries[..i + 1][..i] == entries[..i];
      pm := pm[entries[i].topicId := entries[i]];
    }
    assert entries[..|entries|] == entries;
  }

  /** The Progress collection, keyed by (learner id, course id). */
  class ProgressStore {
    var docs: map<(string, string), seq<TopicProgress>>

    /** Every document lists each topic at most once. */
    predicate Valid()
      reads this
    {
      forall key :: key in docs ==> UniqueTopicIds(docs[key])
    }

    constructor()
      ensures docs == map[]
    {
      docs := map[];
    }

    /** `getProgressForCourse`: the saved entries, or none without a document. */
    function ProgressFor(userId: string, courseId: string): (r: seq<TopicProgress>)
      reads this
      ensures (userId, courseId) !in docs ==> r == []
      ensures (userId, courseId) in docs ==> r == docs[(userId, courseId)]
    {
      if (userId, courseId) in docs then docs[(userId, courseId)] else []
    }

    /** `saveProgress`: a missing course or topic id is rejected with nothing
        changed; otherwise the document (created empty if missing) gets the
        topic upserted with `videoProgress || {}` and
        `Number(currentIndex) || 0`. */
    method Save(userId: string, courseId: string, topicId: string,
                videoProgress: Option<map<int, bool>>, currentIndex: Option<int>)
      returns (r: Result<string, Failure>)
      modifies this
      ensures courseId == "" || topicId == "" ==>
        r == Err(BadRequest("Missing courseId or topicId")) && docs == old(docs)
      ensures courseId != "" && topicId != "" ==>
        r == Ok("Progress saved!") &&
        docs == old(docs)[(userId, courseId) := Upsert(old(ProgressFor(userId, courseId)), topicId,
                                                       videoProgress.GetOr(map[]), currentIndex.GetOr(0))]
      ensures old(Valid()) ==> Valid()
    {
      if courseId == "" || topicId == "" {
        return Err(BadRequest("Missing courseId or topicId"));
      }
      var entries := ProgressFor(userId, courseId);
      var vp := videoProgress.GetOr(map[]);
      var ci := currentIndex.GetOr(0);
      var found := FindTopic(entries, topicId);
      if found.Some? {
        var i := found.value;
        entries := entries[i := entries[i].(videoProgress := vp, currentIndex := ci)];
      } else {
        entries := entries + [TopicProgress(topicId, vp, ci)];
      }
      if Valid() {
        UpsertKeepsUnique(ProgressFor(userId, courseId), topicId, vp, ci);
      }
      docs := docs[(userId, courseId) := entries];
      r := Ok("Progress saved!");
    }
  }
}
