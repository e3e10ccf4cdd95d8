/** The course page's state machine
    (enliven-frontend/src/components/pages/CoursePage.jsx): loading the
    sections with the learner's saved progress, and completing the active
    lesson, which saves the section's progress and unlocks the next lesson,
    across a module boundary only once that module's test is done. */
module CoursePage {

  import opened Wrappers
  import opened Search
  import opened Course
  import opened Progress
  import opened TestKeys
  import opened CourseLessons
  import opened Rounding

  // ---------------------------------------------------------------------------
  // Applying saved progress (lines 163-199)
  // ---------------------------------------------------------------------------

  /** The saved map says this video is done. */
  predicate DoneIn(l: Lesson, vp: map<int, bool>) {
    l.kind == VideoLesson && l.videoIndex.Some? && l.videoIndex.value in vp && vp[l.videoIndex.value]
  }

  /** Every video the saved map says is done is marked completed. */
  function MarkCompleted(ls: seq<Lesson>, vp: map<int, bool>): (r: seq<Lesson>)
    ensures |r| == |ls|
  {
    seq(|ls|, k requires 0 <= k < |ls| => if DoneIn(ls[k], vp) then ls[k].(status := Completed) else ls[k])
  }

  /** The loop over a section's lessons that marks them. */
  method MarkLessons(ls: seq<Lesson>, vp: map<int, bool>) returns (r: seq<Lesson>)
    ensures r == MarkCompleted(ls, vp)
  {
    r := ls;
    for k := 0 to |ls|
      invariant |r| == |ls|
      invariant forall j :: 0 <= j < k ==> r[j] == MarkCompleted(ls, vp)[j]
      invariant forall j :: k <= j < |ls| ==> r[j] == ls[j]
    {
      if r[k].kind == VideoLesson && r[k].videoIndex.Some? {
        var index := r[k].videoIndex.value;
        if index in vp && vp[index] {
          r := r[k := r[k].(status := Completed)];
        }
      }
    }
  }

  /** The video lesson whose index is the saved `currentIndex`. */
  predicate IsVideoAt(l: Lesson, ci: int) {
    l.kind == VideoLesson && l.videoIndex == Some(ci)
  }

  /** `sec.lessons.find(l => l.type === "video" && l.videoIndex === currentIdx)`. */
  function CurrentPos(ls: seq<Lesson>, ci: int): (r: Option<nat>)
    ensures r.Some? ==> r.value < |ls| && IsVideoAt(ls[r.value], ci)
    ensures r.Some? ==> forall j :: 0 <= j < r.value ==> !IsVideoAt(ls[j], ci)
    ensures r.None? <==> forall j :: 0 <= j < |ls| ==> !IsVideoAt(ls[j], ci)
  {
    FirstIndex(ls, l => IsVideoAt(l, ci))
  }

  /** The video at the saved index becomes current unless it is completed. */
  function Promote(l: Lesson): Lesson {
    if l.status == Completed then l else l.(status := Current)
  }

  /** A section's lessons after its saved progress is applied, and the lesson
      at the saved index (after promotion), if there is one. */
  function ApplyProgress(ls: seq<Lesson>, p: TopicProgress): (seq<Lesson>, Option<Lesson>)
  {
    var marked := MarkCompleted(ls, p.videoProgress);
    match CurrentPos(marked, p.currentIndex)
    case None => (marked, None)
    case Some(k) => (marked[k := Promote(marked[k])], Some(Promote(marked[k])))
  }

  /** A section with saved progress has it applied; others are untouched. */
  function Applied(sec: Section, pm: map<string, TopicProgress>): Section {
    if sec.id in pm then sec.(lessons := ApplyProgress(sec.lessons, pm[sec.id]).0) else sec
  }

  /** The lesson a section offers as the initially active one. */
  function ActiveIn(sec: Section, pm: map<string, TopicProgress>): Option<Lesson> {
    if sec.id in pm then ApplyProgress(sec.lessons, pm[sec.id]).1 else None
  }

  predicate HasCurrent(sec: Section, pm: map<string, TopicProgress>) {
    ActiveIn(sec, pm).Some?
  }

  /** The first section that offers an active lesson. */
  function FirstCurrent(built: seq<Section>, pm: map<string, TopicProgress>): (r: Option<nat>)
    ensures r.Some? ==> r.value < |built| && HasCurrent(built[r.value], pm)
    ensures r.Some? ==> forall j :: 0 <= j < r.value ==> !HasCurrent(built[j], pm)
    ensures r.None? <==> forall j :: 0 <= j < |built| ==> !HasCurrent(built[j], pm)
  {
    FirstIndex(built, s => HasCurrent(s, pm))
  }

  /** What the page shows: the sections and the active lesson. */
  datatype View = View(sections: seq<Section>, active: Option<Lesson>)

  /** Every section with its saved progress applied, and the section at `h`
      expanded. */
  function Marked(built: seq<Section>, pm: map<string, TopicProgress>, h: Option<nat>): (r: seq<Section>)
    ensures |r| == |built|
    ensures forall k :: 0 <= k < |built| ==>
      r[k].lessons == Applied(built[k], pm).lessons && r[k].id == built[k].id && r[k].title == built[k].title &&
      r[k].expanded == (h == Some(k) || built[k].expanded)
  {
    seq(|built|, k requires 0 <= k < |built| =>
      if h == Some(k) then Applied(built[k], pm).(expanded := true) else Applied(built[k], pm))
  }

  /** Without an active lesson, the first lesson of the first section is made
      current, its section is expanded, and that lesson is active. */
  function Fallback(secs: seq<Section>): View {
    if |secs| > 0 && |secs[0].lessons| > 0 then
      var first := secs[0].lessons[0].(status := Current);
      View(secs[0 := secs[0].(expanded := true, lessons := secs[0].lessons[0 := first])], Some(first))
    else View(secs, None)
  }

  /** The page after loading: progress applied to every section; the first
      section offering a lesson at its saved index is expanded and that lesson
      is active; without one, the fallback applies. */
  function Loaded(built: seq<Section>, pm: map<string, TopicProgress>): View {
    var h := FirstCurrent(built, pm);
    var secs := Marked(built, pm, h);
    if h.Some? then View(secs, ActiveIn(built[h.value], pm)) else Fallback(secs)
  }

  // ---------------------------------------------------------------------------
  // Completing the active lesson (lines 265-356)
  // ---------------------------------------------------------------------------

  /** Every lesson with the given id takes the given status. */
  function Relabel(ls: seq<Lesson>, id: string, st: Status): (r: seq<Lesson>)
    ensures |r| == |ls|
  {
    seq(|ls|, k requires 0 <= k < |ls| => if ls[k].id == id then ls[k].(status := st) else ls[k])
  }

  /** Every section keeps its id, title and expansion, and its lessons are
      relabelled. */
  function RelabelAll(secs: seq<Section>, id: string, st: Status): (r: seq<Section>)
    ensures |r| == |secs|
    ensures forall i :: 0 <= i < |secs| ==>
      r[i].lessons == Relabel(secs[i].lessons, id, st) && r[i].(lessons := secs[i].lessons) == secs[i]
  {
    seq(|secs|, i requires 0 <= i < |secs| => secs[i].(lessons := Relabel(secs[i].lessons, id, st)))
  }

  /** `sec.lessons.some(l => l.id === id)`. */
  predicate Holds(sec: Section, id: string) {
    exists k :: 0 <= k < |sec.lessons| && sec.lessons[k].id == id
  }

  /** Every section holding a lesson with the id is expanded; nothing else
      changes. */
  function ExpandHolding(secs: seq<Section>, id: string): (r: seq<Section>)
    ensures |r| == |secs|
    ensures forall i :: 0 <= i < |secs| ==>
      r[i].(expanded := secs[i].expanded) == secs[i] && (r[i].expanded <==> secs[i].expanded || Holds(secs[i], id))
  {
    seq(|secs|, i requires 0 <= i < |secs| => if Holds(secs[i], id) then secs[i].(expanded := true) else secs[i])
  }

  /** `all.findIndex(l => l.id === id)`. */
  function IdPos(all: seq<Lesson>, id: string): (r: Option<nat>)
    ensures r.Some? ==> r.value < |all| && all[r.value].id == id
    ensures r.Some? ==> forall j :: 0 <= j < r.value ==> all[j].id != id
    ensures r.None? <==> forall j :: 0 <= j < |all| ==> all[j].id != id
  {
    FirstIndex(all, (l: Lesson) => l.id == id)
  }

  /** `all[idx + 1]`, where a missing id gives index -1 and so the first lesson. */
  function NextAfter(all: seq<Lesson>, id: string): (r: Option<Lesson>)
  {
    var i := match IdPos(all, id) case None => 0 case Some(k) => k + 1;
    if i < |all| then Some(all[i]) else None
  }

  /** `updated.find(s => s.id === topicId)`. */
  function SectionOf(secs: seq<Section>, topicId: string): (r: Option<nat>)
    ensures r.Some? ==> r.value < |secs| && secs[r.value].id == topicId
    ensures r.Some? ==> forall j :: 0 <= j < r.value ==> secs[j].id != topicId
    ensures r.None? <==> forall j :: 0 <= j < |secs| ==> secs[j].id != topicId
  {
    FirstIndex(secs, (s: Section) => s.id == topicId)
  }

  /** A video lesson carrying an index. */
  predicate IndexedVideo(l: Lesson) {
    l.kind == VideoLesson && l.videoIndex.Some?
  }

  /** The `videoProgressMap` of a section: each indexed video's index maps to
      whether it is completed, a later lesson overriding an earlier one. */
  function VideoProgressOf(ls: seq<Lesson>): map<int, bool>
  {
    if ls == [] then map[]
    else
      var l := ls[|ls| - 1];
      var m := VideoProgressOf(ls[..|ls| - 1]);
      if IndexedVideo(l) then m[l.videoIndex.value := l.status == Completed] else m
  }

  /** The loop that fills that map. */
  method BuildVideoProgress(ls: seq<Lesson>) returns (vp: map<int, bool>)
    ensures vp == VideoProgressOf(ls)
  {
    vp := map[];
    for k := 0 to |ls|
      invariant vp == VideoProgressOf(ls[..k])
    {
      assert ls[..k + 1][..k] == ls[..k];
      if ls[k].kind == VideoLesson && ls[k].videoIndex.Some? {
        vp := vp[ls[k].videoIndex.value := ls[k].status == Completed];
      }
    }
    assert ls[..|ls|] == ls;
  }

  /** `Math.max(...keys)` over the indexed videos, absent when there are none. */
  function MaxVideoIndex(ls: seq<Lesson>): (r: Option<int>)
    ensures r.None? <==> forall k :: 0 <= k < |ls| ==> !IndexedVideo(ls[k])
    ensures r.Some? ==> exists k :: 0 <= k < |ls| && IndexedVideo(ls[k]) && ls[k].videoIndex.value == r.value
    ensures r.Some? ==> forall k :: 0 <= k < |ls| && IndexedVideo(ls[k]) ==> ls[k].videoIndex.value <= r.value
  {
    if ls == [] then None
    else
      var n := |ls| - 1;
      var l := ls[n];
      var m := MaxVideoIndex(ls[..n]);
      assert forall k :: 0 <= k < n ==> ls[..n][k] == ls[k];
      if !IndexedVideo(l) then m
      else if m.Some? && m.value > l.videoIndex.value then m
      else Some(l.videoIndex.value)
  }

  /** An indexed video that is not completed. */
  predicate IsPending(l: Lesson) {
    IndexedVideo(l) && l.status != Completed
  }

  /** The `currentIndex` saved for a section (lines 291-307): the index of
      the first pending video, else the largest video index, else 0. */
  function SaveIndex(ls: seq<Lesson>): int
  {
    match FirstIndex(ls, IsPending)
    case Some(k) => ls[k].videoIndex.value
    case None => MaxVideoIndex(ls).GetOr(0)
  }

  /** `buildCourseId`: the id the page saves its progress under. */
  function CourseId(domain: string, level: string): string {
    domain + "-" + level
  }

  /** The body of the `progress/save` request. */
  datatype SaveRequest = SaveRequest(courseId: string, topicId: string, videoProgress: map<int, bool>,
                                     currentIndex: int)

  /** The save `completeCurrentLesson` sends for the active lesson's module,
      if that module is on the page. */
  function SaveAfter(updated: seq<Section>, a: Lesson, domain: string, level: string): Option<SaveRequest> {
    match SectionOf(updated, a.topicId)
    case None => None
    case Some(s) => Some(SaveRequest(CourseId(domain, level), a.topicId, VideoProgressOf(updated[s].lessons),
                                     SaveIndex(updated[s].lessons)))
  }

  /** A locked next lesson opens when it is in the same module, or when the
      current module's test is recorded as done. */
  predicate Unlocks(next: Lesson, active: Lesson, storage: Storage, domain: string, level: string) {
    next.status == Locked &&
    (next.topicId == active.topicId || IsDone(storage, TestKey(domain, level, active.topicId)))
  }

  datatype Outcome = Outcome(sections: seq<Section>, active: Option<Lesson>, save: Option<SaveRequest>)

  /** `completeCurrentLesson`: the active lesson is completed, the progress of
      its section is saved, and the next lesson in flat order is made current
      and becomes active when it unlocks; otherwise the active lesson stays. */
  function Complete(secs: seq<Section>, active: Option<Lesson>, storage: Storage,
                    domain: string, level: string): Outcome
  {
    if active.None? then Outcome(secs, None, None)
    else
      var a := active.value;
      var updated := RelabelAll(secs, a.id, Completed);
      var next := NextAfter(Flatten(updated), a.id);
      var save := SaveAfter(updated, a, domain, level);
      if next.Some? && Unlocks(next.value, a, storage, domain, level) then
        Outcome(ExpandHolding(RelabelAll(updated, next.value.id, Current), next.value.id), next, save)
      else Outcome(updated, active, save)
  }

  /** The two `forEach` passes that make a lesson current and expand the
      sections holding it. */
  method UnlockLesson(secs: seq<Section>, id: string) returns (r: seq<Section>)
    ensures r == ExpandHolding(RelabelAll(secs, id, Current), id)
  {
    r := secs;
    for i := 0 to |r|
      invariant |r| == |secs|
      invariant forall k :: 0 <= k < i ==> r[k] == RelabelAll(secs, id, Current)[k]
      invariant forall k :: i <= k < |r| ==> r[k] == secs[k]
    {
      r := r[i := r[i].(lessons := Relabel(r[i].lessons, id, Current))];
    }
    ghost var relabelled := r;
    assert relabelled == RelabelAll(secs, id, Current);
    for i := 0 to |r|
      invariant |r| == |secs|
      invariant forall k :: 0 <= k < i ==> r[k] == ExpandHolding(relabelled, id)[k]
      invariant forall k :: i <= k < |r| ==> r[k] == relabelled[k]
    {
      if exists k :: 0 <= k < |r[i].lessons| && r[i].lessons[k].id == id {
        r := r[i := r[i].(expanded := true)];
      }
    }
  }

  /** One pass of the progress loop: the section's saved progress applied,
      the section expanded when it is the first to offer an active lesson. */
  method ApplySection(sec: Section, pm: map<string, TopicProgress>, first: bool)
    returns (r: Section, cur: Option<Lesson>)
    ensures cur == ActiveIn(sec, pm)
    ensures r == if first && cur.Some? then Applied(sec, pm).(expanded := true) else Applied(sec, pm)
  {
    r, cur := sec, None;
    if sec.id in pm {
      var p := pm[sec.id];
      var lessons := MarkLessons(sec.lessons, p.videoProgress);
      var pos := CurrentPos(lessons, p.currentIndex);
      if pos.Some? {
        var c := Promote(lessons[pos.value]);
        lessons := lessons[pos.value := c];
        cur := Some(c);
        if first {
          r := r.(expanded := true);
        }
      }
      r := r.(lessons := lessons);
    }
  }

  /** The loop over the built sections (lines 166-193). */
  method ApplyAll(built: seq<Section>, pm: map<string, TopicProgress>) returns (secs: seq<Section>, initial: Option<Lesson>)
    ensures secs == Marked(built, pm, FirstCurrent(built, pm))
    ensures initial.Some? <==> FirstCurrent(built, pm).Some?
    ensures initial.Some? ==> initial == ActiveIn(built[FirstCurrent(built, pm).value], pm)
  {
    secs, initial := [], None;
    ghost var hit: Option<nat> := None;
    for i := 0 to |built|
      invariant |secs| == i
      invariant forall k :: 0 <= k < i ==> secs[k] == MarkedAt(built, pm, hit, k)
      invariant FirstHitUpTo(built, pm, i, hit)
      invariant initial.Some? <==> hit.Some?
      invariant hit.Some? ==> initial == ActiveIn(built[hit.value], pm)
    {
      var sec, cur := ApplySection(built[i], pm, initial.None?);
      FirstHitStep(built, pm, i, hit);
      if initial.None? && cur.Some? {
        initial := cur;
        hit := Some(i);
      }
      secs := secs + [sec];
    }
    FirstHitEnd(built, pm, hit);
    MarkedFromElements(built, pm, hit, secs);
  }

  lemma MarkedFromElements(built: seq<Section>, pm: map<string, TopicProgress>, h: Option<nat>, secs: seq<Section>)
    requires |secs| == |built| && forall k :: 0 <= k < |built| ==> secs[k] == MarkedAt(built, pm, h, k)
    ensures secs == Marked(built, pm, h)
  {
  }

  /** Element `k` of `Marked`. */
  function MarkedAt(built: seq<Section>, pm: map<string, TopicProgress>, h: Option<nat>, k: nat): Section
    requires k < |built|
  {
    if h == Some(k) then Applied(built[k], pm).(expanded := true) else Applied(built[k], pm)
  }

  /** `h` is the first of the first `i` sections offering an active lesson. */
  predicate FirstHitUpTo(built: seq<Section>, pm: map<string, TopicProgress>, i: nat, h: Option<nat>)
    requires i <= |built|
  {
    (h.None? ==> forall k :: 0 <= k < i ==> !HasCurrent(built[k], pm)) &&
    (h.Some? ==> h.value < i && HasCurrent(built[h.value], pm) &&
                 forall k :: 0 <= k < h.value ==> !HasCurrent(built[k], pm))
  }

  lemma FirstHitStep(built: seq<Section>, pm: map<string, TopicProgress>, i: nat, h: Option<nat>)
    requires i < |built| && FirstHitUpTo(built, pm, i, h)
    ensures FirstHitUpTo(built, pm, i + 1, if h.None? && HasCurrent(built[i], pm) then Some(i) else h)
  {
  }

  lemma FirstHitEnd(built: seq<Section>, pm: map<string, TopicProgress>, h: Option<nat>)
    requires FirstHitUpTo(built, pm, |built|, h)
    ensures h == FirstCurrent(built, pm)
  {
    var f := FirstCurrent(built, pm);
    if h.Some? {
      assert HasCurrent(built[h.value], pm);
      FirstOfTwo(built, pm, h.value, f.value);
    }
  }

  /** Two positions that are each the first to offer an active lesson are
      the same. */
  lemma FirstOfTwo(built: seq<Section>, pm: map<string, TopicProgress>, a: nat, b: nat)
    requires a < |built| && HasCurrent(built[a], pm) && forall k :: 0 <= k < a ==> !HasCurrent(built[k], pm)
    requires b < |built| && HasCurrent(built[b], pm) && forall k :: 0 <= k < b ==> !HasCurrent(built[k], pm)
    ensures a == b
  {
  }


  // ---------------------------------------------------------------------------
  // The page
  // ---------------------------------------------------------------------------

  /** What the progress loop returns, followed by the fallback when it found
      no active lesson, is the loaded page. */
  lemma LoadedOfApplied(built: seq<Section>, pm: map<string, TopicProgress>, secs: seq<Section>, initial: Option<Lesson>)
    requires secs == Marked(built, pm, FirstCurrent(built, pm))
    requires initial.Some? <==> FirstCurrent(built, pm).Some?
    requires initial.Some? ==> initial == ActiveIn(built[FirstCurrent(built, pm).value], pm)
    ensures Loaded(built, pm) == if initial.Some? then View(secs, initial) else Fallback(secs)
  {
  }

  class CourseView {
    const domain: string
    const level: string
    var sections: seq<Section>
    var active: Option<Lesson>

    constructor(domain: string, level: string)
      ensures this.domain == domain && this.level == level
      ensures sections == [] && active.None?
    {
      this.domain := domain;
      this.level := level;
      sections := [];
      active := None;
    }

    /** The load effect after both requests succeed: sections built from the
        merged items, then the saved progress applied section by section. */
    method Load(items: seq<CourseItem>, entries: seq<TopicProgress>)
      modifies this
      ensures View(sections, active) == Loaded(BuildSections(items), ProgressMapOf(entries))
    {
      var built := BuildSections(items);
      var pm := BuildProgressMap(entries);
      var secs, initial := ApplyAll(built, pm);
      LoadedOfApplied(built, pm, secs, initial);
      if initial.None? {
        var v := Fallback(secs);
        secs, initial := v.sections, v.active;
      }
      sections := secs;
      active := initial;
    }

    /** `completeCurrentLesson`, with the local storage it reads; returns the
        save request it sends, if any. */
    method CompleteCurrentLesson(storage: Storage) returns (save: Option<SaveRequest>)
      modifies this
      ensures Outcome(sections, active, save) == Complete(old(sections), old(active), storage, domain, level)
    {
      if active.None? {
        return None;
      }
      var a := active.value;
      var updated := RelabelAll(sections, a.id, Completed);
      var next := NextAfter(Flatten(updated), a.id);
      save := None;
      var s := SectionOf(updated, a.topicId);
      if s.Some? {
        var lessons := updated[s.value].lessons;
        var vp := BuildVideoProgress(lessons);
        save := Some(SaveRequest(CourseId(domain, level), a.topicId, vp, SaveIndex(lessons)));
      }
      if next.Some? && next.value.status == Locked {
        if next.value.topicId == a.topicId || IsDone(storage, TestKey(domain, level, a.topicId)) {
          updated := UnlockLesson(updated, next.value.id);
          active := next;
        }
      }
      sections := updated;
    }
  }

  // ---------------------------------------------------------------------------
  // Properties of loading
  // ---------------------------------------------------------------------------

  /** Marking keeps every lesson's identity, kind and index. */
  lemma MarkKeepsShape(ls: seq<Lesson>, vp: map<int, bool>)
    ensures forall k :: 0 <= k < |ls| ==>
      MarkCompleted(ls, vp)[k] == ls[k].(status := MarkCompleted(ls, vp)[k].status)
  {
  }

  /** Marking does not move the video at the saved index. */
  lemma CurrentPosAfterMark(ls: seq<Lesson>, vp: map<int, bool>, ci: int)
    ensures CurrentPos(MarkCompleted(ls, vp), ci) == CurrentPos(ls, ci)
  {
    var m := MarkCompleted(ls, vp);
    assert forall k :: 0 <= k < |ls| ==> (IsVideoAt(m[k], ci) <==> IsVideoAt(ls[k], ci));
    var a, b := CurrentPos(m, ci), CurrentPos(ls, ci);
    if a.Some? && b.Some? {
      assert !(a.value < b.value) && !(b.value < a.value);
    }
  }

  /** Applying saved progress to a section whose lessons are all locked: a
      video is completed exactly when its index maps to true, the video at the
      saved index is current unless it is completed, every other lesson stays
      locked, and nothing but the status changes. The lesson offered as
      active is the one at the saved index. */
  lemma ProgressMarksLessons(ls: seq<Lesson>, p: TopicProgress)
    requires forall k :: 0 <= k < |ls| ==> ls[k].status == Locked
    ensures var (r, cur) := ApplyProgress(ls, p);
      |r| == |ls| &&
      (forall k :: 0 <= k < |ls| ==>
        r[k] == ls[k].(status := r[k].status) &&
        (r[k].status == Completed <==> DoneIn(ls[k], p.videoProgress)) &&
        (r[k].status == Current <==> !DoneIn(ls[k], p.videoProgress) && CurrentPos(ls, p.currentIndex) == Some(k))) &&
      (cur.None? <==> CurrentPos(ls, p.currentIndex).None?) &&
      (cur.Some? ==> cur.value == r[CurrentPos(ls, p.currentIndex).value])
  {
    CurrentPosAfterMark(ls, p.videoProgress, p.currentIndex);
  }

  /** Applying progress keeps a section's lessons, and the lesson it offers
      as active is one of them. */
  lemma AppliedKeepsLessons(sec: Section, pm: map<string, TopicProgress>)
    ensures Applied(sec, pm).id == sec.id
    ensures SameLessons(sec.lessons, Applied(sec, pm).lessons)
    ensures ActiveIn(sec, pm).Some? ==>
      exists k :: 0 <= k < |sec.lessons| && Applied(sec, pm).lessons[k] == ActiveIn(sec, pm).value
  {
    if sec.id in pm {
      var p := pm[sec.id];
      MarkKeepsShape(sec.lessons, p.videoProgress);
      var m := MarkCompleted(sec.lessons, p.videoProgress);
      match CurrentPos(m, p.currentIndex)
      case None =>
      case Some(k) =>
        assert Applied(sec, pm).lessons[k] == ActiveIn(sec, pm).value;
    }
  }

  /** The view after loading built sections: every lesson keeps its id, title,
      url, kind, module and index; only statuses and expansion change, and
      the active lesson is one of the lessons shown. */
  lemma LoadedKeepsLessons(built: seq<Section>, pm: map<string, TopicProgress>)
    ensures var v := Loaded(built, pm);
      |v.sections| == |built| &&
      (forall i :: 0 <= i < |built| ==>
        v.sections[i].id == built[i].id && SameLessons(built[i].lessons, v.sections[i].lessons)) &&
      (v.active.Some? ==> exists i, k :: 0 <= i < |built| && 0 <= k < |built[i].lessons| &&
                                        v.sections[i].lessons[k] == v.active.value)
  {
    var h := FirstCurrent(built, pm);
    var secs := Marked(built, pm, h);
    forall i | 0 <= i < |built|
      ensures secs[i].id == built[i].id && SameLessons(built[i].lessons, secs[i].lessons)
    {
      AppliedKeepsLessons(built[i], pm);
    }
    if h.Some? {
      var i := h.value;
      AppliedKeepsLessons(built[i], pm);
      var k :| 0 <= k < |built[i].lessons| && Applied(built[i], pm).lessons[k] == ActiveIn(built[i], pm).value;
      assert secs[i].lessons[k] == Loaded(built, pm).active.value;
    } else if |secs| > 0 && |secs[0].lessons| > 0 {
      var v := Fallback(secs);
      assert v.sections[0].lessons[0] == v.active.value;
      assert SameLessons(built[0].lessons, v.sections[0].lessons);
    }
  }

  /** With no saved progress, the first lesson of the first section is the
      only current one and is active, its section the only expanded one, and
      every other lesson is locked; a course without lessons has no active
      lesson. */
  lemma LoadWithoutProgress(items: seq<CourseItem>)
    ensures var built := BuildSections(items);
      var v := Loaded(built, ProgressMapOf([]));
      var starts := |built| > 0 && |built[0].lessons| > 0;
      |v.sections| == |built| &&
      (forall i :: 0 <= i < |built| ==>
        v.sections[i].expanded == (starts && i == 0) &&
        |v.sections[i].lessons| == |built[i].lessons| &&
        forall k :: 0 <= k < |built[i].lessons| ==>
          v.sections[i].lessons[k] == built[i].lessons[k].(status := if starts && i == 0 && k == 0 then Current else Locked)) &&
      (starts ==> v.active == Some(v.sections[0].lessons[0])) &&
      (!starts ==> v.active.None?)
  {
    var built := BuildSections(items);
    var pm := ProgressMapOf([]);
    assert pm == map[];
    assert FirstCurrent(built, pm).None?;
    assert Marked(built, pm, None) == built;
  }

  /** Away from the fallback, a loaded section holds its lessons with the
      saved progress applied. */
  lemma LoadedSectionIsApplied(built: seq<Section>, pm: map<string, TopicProgress>, i: nat)
    requires i < |built|
    requires i != 0 || FirstCurrent(built, pm).Some?
    ensures Loaded(built, pm).sections[i].lessons == Applied(built[i], pm).lessons
  {
  }

  /** After loading, a section with saved progress shows it (unless the page
      fell back to the first lesson of this very section): completed videos
      are those whose index maps to true, the video at the saved index is
      current unless completed, and the rest stay locked. Built sections
      start with every lesson locked (see `BuildSection`). */
  lemma LoadAppliesProgress(built: seq<Section>, pm: map<string, TopicProgress>, i: nat)
    requires forall j, k :: 0 <= j < |built| && 0 <= k < |built[j].lessons| ==> built[j].lessons[k].status == Locked
    requires i < |built| && built[i].id in pm
    requires i != 0 || FirstCurrent(built, pm).Some?
    ensures var ls := built[i].lessons;
      var p := pm[built[i].id];
      var r := Loaded(built, pm).sections[i].lessons;
      |r| == |ls| &&
      forall k :: 0 <= k < |ls| ==>
        (r[k].status == Completed <==> DoneIn(ls[k], p.videoProgress)) &&
        (r[k].status == Current <==> !DoneIn(ls[k], p.videoProgress) && CurrentPos(ls, p.currentIndex) == Some(k)) &&
        (r[k].status == Locked <==> !DoneIn(ls[k], p.videoProgress) && CurrentPos(ls, p.currentIndex) != Some(k))
  {
    var ls, p := built[i].lessons, pm[built[i].id];
    LoadedSectionIsApplied(built, pm, i);
    ProgressStatuses(ls, p);
  }

  /** The statuses saved progress gives to a section's locked lessons. */
  lemma ProgressStatuses(ls: seq<Lesson>, p: TopicProgress)
    requires forall k :: 0 <= k < |ls| ==> ls[k].status == Locked
    ensures var r := ApplyProgress(ls, p).0;
      |r| == |ls| &&
      forall k :: 0 <= k < |ls| ==>
        (r[k].status == Completed <==> DoneIn(ls[k], p.videoProgress)) &&
        (r[k].status == Current <==> !DoneIn(ls[k], p.videoProgress) && CurrentPos(ls, p.currentIndex) == Some(k)) &&
        (r[k].status == Locked <==> !DoneIn(ls[k], p.videoProgress) && CurrentPos(ls, p.currentIndex) != Some(k))
  {
    ProgressMarksLessons(ls, p);
  }

  /** A course built from topics with distinct sequence numbers shows
      lessons with distinct ids after loading. */
  lemma LoadedIdsDistinct(items: seq<CourseItem>, pm: map<string, TopicProgress>)
    requires forall i, j :: 0 <= i < j < |items| ==> items[i].sequenceNumber != items[j].sequenceNumber
    ensures DistinctIds(Flatten(Loaded(BuildSections(items), pm).sections))
  {
    var built := BuildSections(items);
    LoadedKeepsLessons(built, pm);
    BuiltIdsDistinct(items);
    FlattenSameLessons(built, Loaded(built, pm).sections);
    SameLessonsDistinct(Flatten(built), Flatten(Loaded(built, pm).sections));
  }

  /** When no section offers a lesson at its saved index, the first lesson of
      the first section becomes current and active even if the saved progress
      had completed it. */
  lemma LoadFallsBackToFirstLesson(built: seq<Section>, pm: map<string, TopicProgress>)
    requires FirstCurrent(built, pm).None?
    requires |built| > 0 && |built[0].lessons| > 0
    ensures var v := Loaded(built, pm);
      v.sections[0].expanded && v.sections[0].lessons[0].status == Current &&
      v.active == Some(v.sections[0].lessons[0])
  {
  }

  // ---------------------------------------------------------------------------
  // Properties of completing a lesson
  // ---------------------------------------------------------------------------

  lemma RelabelAppend(a: seq<Lesson>, b: seq<Lesson>, id: string, st: Status)
    ensures Relabel(a + b, id, st) == Relabel(a, id, st) + Relabel(b, id, st)
  {
    assert forall k :: 0 <= k < |a + b| ==>
      Relabel(a + b, id, st)[k] == (Relabel(a, id, st) + Relabel(b, id, st))[k];
  }

  /** Relabelling section by section is relabelling the flat lesson list. */
  lemma {:induction false} FlattenRelabel(secs: seq<Section>, id: string, st: Status)
    ensures Flatten(RelabelAll(secs, id, st)) == Relabel(Flatten(secs), id, st)
  {
    if secs != [] {
      FlattenRelabel(secs[1..], id, st);
      assert RelabelAll(secs, id, st)[1..] == RelabelAll(secs[1..], id, st);
      RelabelAppend(secs[0].lessons, Flatten(secs[1..]), id, st);
    }
  }

  /** Expanding sections does not change the flat lesson list. */
  lemma {:induction false} FlattenExpand(secs: seq<Section>, id: string)
    ensures Flatten(ExpandHolding(secs, id)) == Flatten(secs)
  {
    if secs != [] {
      FlattenExpand(secs[1..], id);
      assert ExpandHolding(secs, id)[1..] == ExpandHolding(secs[1..], id);
    }
  }

  /** Completing the active lesson, in flat order: the lessons stay the same
      apart from their statuses; every lesson with the active id is
      completed; when the next lesson opens, every lesson with its id is
      current and it becomes active; every other lesson is unchanged, and
      without an opening the active lesson stays. */
  lemma CompleteEffect(secs: seq<Section>, a: Lesson, storage: Storage, domain: string, level: string)
    ensures var out := Complete(secs, Some(a), storage, domain, level);
      var flat := Flatten(secs);
      var next := NextAfter(Relabel(flat, a.id, Completed), a.id);
      var opens := next.Some? && Unlocks(next.value, a, storage, domain, level);
      var flat' := Flatten(out.sections);
      SameLessons(flat, flat') &&
      (forall k :: 0 <= k < |flat| && flat[k].id == a.id ==> flat'[k].status == Completed) &&
      (forall k :: 0 <= k < |flat| && opens && flat[k].id == next.value.id ==> flat'[k].status == Current) &&
      (forall k :: 0 <= k < |flat| && flat[k].id != a.id && !(opens && flat[k].id == next.value.id) ==>
         flat'[k] == flat[k]) &&
      out.active == (if opens then next else Some(a))
  {
    var flat := Flatten(secs);
    var next := NextAfter(Relabel(flat, a.id, Completed), a.id);
    CompleteFlat(secs, a, storage, domain, level);
    RelabelEffect(flat, a.id, Completed);
    if next.Some? && Unlocks(next.value, a, storage, domain, level) {
      RelabelEffect(Relabel(flat, a.id, Completed), next.value.id, Current);
    }
  }

  /** Completing a lesson sends a save exactly when its module is on the
      page, under the page's course id and the lesson's topic, holding that
      module's video progress after the completion. */
  lemma CompleteSave(secs: seq<Section>, a: Lesson, storage: Storage, domain: string, level: string)
    ensures var out := Complete(secs, Some(a), storage, domain, level);
      (out.save.Some? <==> exists j :: 0 <= j < |secs| && secs[j].id == a.topicId) &&
      (out.save.Some? ==>
        var j := SectionOf(secs, a.topicId).value;
        out.save.value.courseId == CourseId(domain, level) && out.save.value.topicId == a.topicId &&
        out.save.value.videoProgress == VideoProgressOf(Relabel(secs[j].lessons, a.id, Completed)))
  {
    assert Complete(secs, Some(a), storage, domain, level).save ==
      SaveAfter(RelabelAll(secs, a.id, Completed), a, domain, level);
    SaveAfterRelabelled(secs, a, domain, level);
  }

  lemma SaveAfterRelabelled(secs: seq<Section>, a: Lesson, domain: string, level: string)
    ensures var save := SaveAfter(RelabelAll(secs, a.id, Completed), a, domain, level);
      (save.Some? <==> exists j :: 0 <= j < |secs| && secs[j].id == a.topicId) &&
      (save.Some? ==>
        var j := SectionOf(secs, a.topicId).value;
        save.value.courseId == CourseId(domain, level) && save.value.topicId == a.topicId &&
        save.value.videoProgress == VideoProgressOf(Relabel(secs[j].lessons, a.id, Completed)))
  {
    SectionOfRelabelled(secs, a.id, a.topicId);
  }

  /** Relabelling keeps the sections' ids, so each topic is found at the
      same place. */
  lemma SectionOfRelabelled(secs: seq<Section>, id: string, topicId: string)
    ensures SectionOf(RelabelAll(secs, id, Completed), topicId) == SectionOf(secs, topicId)
  {
    var updated := RelabelAll(secs, id, Completed);
    assert forall j :: 0 <= j < |secs| ==> updated[j].id == secs[j].id;
    var u, v := SectionOf(updated, topicId), SectionOf(secs, topicId);
    if u.Some? && v.Some? {
      assert !(u.value < v.value) && !(v.value < u.value);
    }
  }

  /** Relabelling changes exactly the statuses of the lessons with the id. */
  lemma RelabelEffect(ls: seq<Lesson>, id: string, st: Status)
    ensures var r := Relabel(ls, id, st);
      SameLessons(ls, r) &&
      (forall k :: 0 <= k < |ls| && ls[k].id == id ==> r[k].status == st) &&
      (forall k :: 0 <= k < |ls| && ls[k].id != id ==> r[k] == ls[k])
  {
  }

  /** The flat lesson list and the active lesson after completing `a`. */
  lemma CompleteFlat(secs: seq<Section>, a: Lesson, storage: Storage, domain: string, level: string)
    ensures var flat := Flatten(secs);
      var next := NextAfter(Relabel(flat, a.id, Completed), a.id);
      var out := Complete(secs, Some(a), storage, domain, level);
      if next.Some? && Unlocks(next.value, a, storage, domain, level) then
        next.value.id != a.id &&
        Flatten(out.sections) == Relabel(Relabel(flat, a.id, Completed), next.value.id, Current) && out.active == next
      else Flatten(out.sections) == Relabel(flat, a.id, Completed) && out.active == Some(a)
  {
    var updated := RelabelAll(secs, a.id, Completed);
    FlattenRelabel(secs, a.id, Completed);
    var next := NextAfter(Flatten(updated), a.id);
    CompleteParts(secs, a, storage, domain, level);
    if next.Some? && Unlocks(next.value, a, storage, domain, level) {
      FlattenExpand(RelabelAll(updated, next.value.id, Current), next.value.id);
      FlattenRelabel(updated, next.value.id, Current);
      NextNotActive(Flatten(secs), a, next.value);
    }
  }

  /** A locked lesson after the completed one never carries its id. */
  lemma NextNotActive(flat: seq<Lesson>, a: Lesson, n: Lesson)
    requires NextAfter(Relabel(flat, a.id, Completed), a.id) == Some(n) && n.status == Locked
    ensures n.id != a.id
  {
    var relabelled := Relabel(flat, a.id, Completed);
    var j := match IdPos(relabelled, a.id) case None => 0 case Some(p) => p + 1;
    assert relabelled[j] == n;
  }

  /** The sections and active lesson after completing `a`, apart from the
      save request. */
  lemma CompleteParts(secs: seq<Section>, a: Lesson, storage: Storage, domain: string, level: string)
    ensures var updated := RelabelAll(secs, a.id, Completed);
      var next := NextAfter(Flatten(updated), a.id);
      var out := Complete(secs, Some(a), storage, domain, level);
      if next.Some? && Unlocks(next.value, a, storage, domain, level) then
        out.sections == ExpandHolding(RelabelAll(updated, next.value.id, Current), next.value.id) && out.active == next
      else out.sections == updated && out.active == Some(a)
  {
  }

  /** With distinct lesson ids and the active lesson at flat position `i`,
      completing it changes at most positions `i` and `i + 1`: `i` becomes
      completed, and `i + 1` becomes current and active exactly when it is
      locked and either in the same module or past a module whose test is
      recorded as done; otherwise the active lesson stays. */
  lemma CompleteChangesAtMostTwo(secs: seq<Section>, a: Lesson, i: nat, storage: Storage, domain: string, level: string)
    requires DistinctIds(Flatten(secs))
    requires i < |Flatten(secs)| && Flatten(secs)[i].id == a.id
    ensures var flat := Flatten(secs);
      var out := Complete(secs, Some(a), storage, domain, level);
      var flat' := Flatten(out.sections);
      var opens := i + 1 < |flat| && Unlocks(flat[i + 1], a, storage, domain, level);
      SameLessons(flat, flat') &&
      flat'[i].status == Completed &&
      (forall k :: 0 <= k < |flat| && k != i && k != i + 1 ==> flat'[k] == flat[k]) &&
      (i + 1 < |flat| ==> flat'[i + 1] == if opens then flat[i + 1].(status := Current) else flat[i + 1]) &&
      out.active == if opens then Some(flat[i + 1]) else Some(a)
  {
    var flat := Flatten(secs);
    var out := Complete(secs, Some(a), storage, domain, level);
    var flat' := Flatten(out.sections);
    CompleteEffect(secs, a, storage, domain, level);
    NextIsFollowing(flat, a, i);
    forall k | 0 <= k < |flat| && k != i && k != i + 1
      ensures flat'[k] == flat[k]
    {
      assert flat[k].id != flat[i].id;
      assert i + 1 < |flat| ==> flat[k].id != flat[i + 1].id;
    }
  }

  /** With distinct ids, the lesson after the completed one in flat order is
      the one that follows its position. */
  lemma NextIsFollowing(flat: seq<Lesson>, a: Lesson, i: nat)
    requires DistinctIds(flat)
    requires i < |flat| && flat[i].id == a.id
    ensures NextAfter(Relabel(flat, a.id, Completed), a.id) == if i + 1 < |flat| then Some(flat[i + 1]) else None
  {
    var relabelled := Relabel(flat, a.id, Completed);
    assert forall j :: 0 <= j < |flat| ==> relabelled[j].id == flat[j].id;
    var pos := IdPos(relabelled, a.id);
    assert relabelled[i].id == a.id;
    assert pos.Some? && !(pos.value < i) && !(pos.value > i);
    if i + 1 < |flat| {
      assert flat[i + 1].id != a.id;
    }
  }

  /** Across a module boundary, a locked next lesson opens exactly when the
      active lesson's module has its module test recorded as done. */
  lemma ModuleBoundaryNeedsTest(secs: seq<Section>, a: Lesson, i: nat, storage: Storage, domain: string, level: string)
    requires DistinctIds(Flatten(secs))
    requires i + 1 < |Flatten(secs)| && Flatten(secs)[i].id == a.id
    requires Flatten(secs)[i + 1].status == Locked && Flatten(secs)[i + 1].topicId != a.topicId
    ensures var out := Complete(secs, Some(a), storage, domain, level);
      var flat' := Flatten(out.sections);
      |flat'| == |Flatten(secs)| &&
      (flat'[i + 1].status == Current <==> IsDone(storage, TestKey(domain, level, a.topicId))) &&
      (out.active == Some(a) <==> !IsDone(storage, TestKey(domain, level, a.topicId)))
  {
    CompleteChangesAtMostTwo(secs, a, i, storage, domain, level);
    assert Flatten(secs)[i + 1] != a;
  }

  /** With distinct ids, the lesson that follows the completed one is the
      only lesson with its id; when it is locked, so is every lesson with
      that id. */
  lemma NextOnlyLocked(flat: seq<Lesson>, a: Lesson, n: Lesson)
    requires DistinctIds(flat)
    requires NextAfter(Relabel(flat, a.id, Completed), a.id) == Some(n) && n.status == Locked
    ensures forall k :: 0 <= k < |flat| && flat[k].id == n.id ==> flat[k].status == Locked
  {
    var relabelled := Relabel(flat, a.id, Completed);
    var j := match IdPos(relabelled, a.id) case None => 0 case Some(p) => p + 1;
    assert relabelled[j] == n;
    assert flat[j] == n;
    forall k | 0 <= k < |flat| && flat[k].id == n.id
      ensures flat[k].status == Locked
    {
      assert k == j;
    }
  }

  /** With distinct ids, a completed lesson stays completed. */
  lemma CompleteKeepsCompleted(secs: seq<Section>, active: Option<Lesson>, storage: Storage, domain: string, level: string)
    requires DistinctIds(Flatten(secs))
    ensures var flat, flat' := Flatten(secs), Flatten(Complete(secs, active, storage, domain, level).sections);
      |flat'| == |flat| &&
      forall k :: 0 <= k < |flat| && flat[k].status == Completed ==> flat'[k].status == Completed
  {
    if active.Some? {
      var a := active.value;
      var flat := Flatten(secs);
      CompleteEffect(secs, a, storage, domain, level);
      var next := NextAfter(Relabel(flat, a.id, Completed), a.id);
      if next.Some? && Unlocks(next.value, a, storage, domain, level) {
        NextOnlyLocked(flat, a, next.value);
      }
    }
  }

  /** Completing a lesson keeps lesson ids distinct. */
  lemma CompleteKeepsIdsDistinct(secs: seq<Section>, active: Option<Lesson>, storage: Storage, domain: string, level: string)
    requires DistinctIds(Flatten(secs))
    ensures DistinctIds(Flatten(Complete(secs, active, storage, domain, level).sections))
  {
    if active.Some? {
      CompleteEffect(secs, active.value, storage, domain, level);
      SameLessonsDistinct(Flatten(secs), Flatten(Complete(secs, active, storage, domain, level).sections));
    }
  }

  /** The completed count never drops when completed lessons stay completed. */
  lemma {:induction false} CompletedCountMonotone(a: seq<Lesson>, b: seq<Lesson>)
    requires |a| == |b|
    requires forall k :: 0 <= k < |a| && a[k].status == Completed ==> b[k].status == Completed
    ensures CompletedCount(a) <= CompletedCount(b)
  {
    if a != [] {
      var n := |a| - 1;
      CompletedCountMonotone(a[..n], b[..n]);
    }
  }

  /** With distinct ids, completing a lesson never lowers the course percent. */
  lemma CompleteNeverLowersPercent(secs: seq<Section>, active: Option<Lesson>, storage: Storage, domain: string, level: string)
    requires DistinctIds(Flatten(secs))
    ensures CoursePercent(Complete(secs, active, storage, domain, level).sections) >= CoursePercent(secs)
  {
    var flat, flat' := Flatten(secs), Flatten(Complete(secs, active, storage, domain, level).sections);
    CompleteKeepsCompleted(secs, active, storage, domain, level);
    CompletedCountMonotone(flat, flat');
    RoundPercentMonotone(CompletedCount(flat), CompletedCount(flat'), if |flat| == 0 then 1 else |flat|);
  }

  // ---------------------------------------------------------------------------
  // Properties of the saved progress
  // ---------------------------------------------------------------------------

  /** The lesson layout of a built section: `nv` videos indexed by their
      position, then readings without an index. */
  predicate VideoLayout(ls: seq<Lesson>, nv: nat) {
    nv <= |ls| &&
    (forall k :: 0 <= k < nv ==> ls[k].kind == VideoLesson && ls[k].videoIndex == Some(k)) &&
    (forall k :: nv <= k < |ls| ==> ls[k].kind == Reading && ls[k].videoIndex.None?)
  }

  /** Built sections have that layout, and keep it whatever their statuses. */
  lemma BuiltLayout(item: CourseItem, ls: seq<Lesson>)
    requires SameLessons(BuildSection(item).lessons, ls)
    ensures VideoLayout(ls, |item.videos|)
  {
  }

  /** On that layout the saved map has one key per video, mapping to whether
      that video is completed. */
  lemma {:induction false} VideoProgressOfLayout(ls: seq<Lesson>, nv: nat, m: nat)
    requires VideoLayout(ls, nv) && m <= |ls|
    ensures VideoProgressOf(ls[..m]) == map k | 0 <= k < (if m < nv then m else nv) :: ls[k].status == Completed
  {
    if m > 0 {
      VideoProgressOfLayout(ls, nv, m - 1);
      assert ls[..m][..m - 1] == ls[..m - 1];
    }
  }

  /** On that layout the saved `currentIndex` is the first video not yet
      completed; with every video completed it is the last video, and 0 for
      a section without videos. */
  lemma SaveIndexOfLayout(ls: seq<Lesson>, nv: nat)
    requires VideoLayout(ls, nv)
    ensures (exists k :: 0 <= k < nv && ls[k].status != Completed) ==>
      var r := SaveIndex(ls);
      0 <= r < nv && ls[r].status != Completed && forall j :: 0 <= j < r ==> ls[j].status == Completed
    ensures (forall k :: 0 <= k < nv ==> ls[k].status == Completed) ==>
      SaveIndex(ls) == if nv > 0 then nv - 1 else 0
  {
    assert forall k :: 0 <= k < |ls| ==> (IsPending(ls[k]) <==> k < nv && ls[k].status != Completed);
    match FirstIndex(ls, IsPending)
    case Some(k) =>
    case None =>
      var mx := MaxVideoIndex(ls);
      if nv > 0 {
        assert IndexedVideo(ls[nv - 1]);
        assert mx.Some? && mx.value == nv - 1;
      }
  }

  /** Saving a section and loading it again restores its completions: the
      saved map, applied to the freshly built section, completes exactly the
      videos that were completed, and no reading. */
  lemma SaveThenReload(item: CourseItem, ls: seq<Lesson>)
    requires SameLessons(BuildSection(item).lessons, ls)
    ensures var built := BuildSection(item).lessons;
      var r := MarkCompleted(built, VideoProgressOf(ls));
      forall k :: 0 <= k < |built| ==>
        (r[k].status == Completed <==> built[k].kind == VideoLesson && ls[k].status == Completed)
  {
    var nv := |item.videos|;
    BuiltLayout(item, ls);
    VideoProgressOfLayout(ls, nv, |ls|);
    assert ls[..|ls|] == ls;
  }
}
