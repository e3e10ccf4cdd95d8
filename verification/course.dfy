/** The merged course view (enliven-backend/controllers/courseController.js):
    the learner's roadmap topics, in sequence order, each joined with the
    catalogue step its title matches, the step's links becoming videos. */
module Course {

  import opened Wrappers
  import opened Text
  import opened Search
  import opened Naming
  import opened Catalog
  import opened Roadmap

  /** `norm`: lower case, trimmed. */
  function Norm(s: string): string {
    Trim(Lower(s))
  }

  // ---------------------------------------------------------------------------
  // The step map: a JavaScript `Map` from normalised title to step
  // ---------------------------------------------------------------------------

  /** Entries in insertion order; keys are pairwise distinct. */
  type StepMap = seq<(string, CatalogStep)>

  predicate DistinctKeys(m: StepMap) {
    forall i, j :: 0 <= i < j < |m| ==> m[i].0 != m[j].0
  }

  /** The position of key `k`, if present. */
  function KeyIndex(k: string, m: StepMap): (r: Option<nat>)
    ensures r.Some? ==> r.value < |m| && m[r.value].0 == k
    ensures r.None? ==> forall j :: 0 <= j < |m| ==> m[j].0 != k
  {
    FirstIndex(m, (e: (string, CatalogStep)) => e.0 == k)
  }

  /** `map.get(k)`. */
  function Lookup(m: StepMap, k: string): (r: Option<CatalogStep>)
    ensures r.None? <==> forall j :: 0 <= j < |m| ==> m[j].0 != k
    ensures DistinctKeys(m) ==> forall i :: 0 <= i < |m| && m[i].0 == k ==> r == Some(m[i].1)
  {
    match KeyIndex(k, m)
    case Some(i) => Some(m[i].1)
    case None => None
  }

  /** `map.set(k, v)`: an existing key keeps its position and takes the new
      value; a new key is appended at the end. */
  function MapSet(m: StepMap, k: string, v: CatalogStep): (r: StepMap)
    requires DistinctKeys(m)
    ensures DistinctKeys(r)
    ensures forall i :: 0 <= i < |m| && m[i].0 == k ==> r == m[i := (k, v)]
    ensures (forall i :: 0 <= i < |m| ==> m[i].0 != k) ==> r == m + [(k, v)]
  {
    match KeyIndex(k, m)
    case Some(i) => m[i := (k, v)]
    case None => m + [(k, v)]
  }

  /** After `set(k, v)`, `get(k)` is `v` and every other key reads as before. */
  lemma MapSetLookup(m: StepMap, k: string, v: CatalogStep, k': string)
    requires DistinctKeys(m)
    ensures Lookup(MapSet(m, k, v), k) == Some(v)
    ensures k' != k ==> Lookup(MapSet(m, k, v), k') == Lookup(m, k')
  {
    var r := MapSet(m, k, v);
    var idx := KeyIndex(k, m);
    if idx.Some? {
      assert r[idx.value] == (k, v);
    } else {
      assert r[|m|] == (k, v);
    }
    if k' != k {
      if Lookup(m, k').Some? {
        var i := KeyIndex(k', m).value;
        assert r[i] == m[i];
      } else {
        assert forall j :: 0 <= j < |r| ==> r[j].0 != k' by {
          assert forall j :: 0 <= j < |r| ==> r[j].0 == k || (j < |m| && r[j] == m[j]);
        }
      }
    }
  }

  function StepKey(s: CatalogStep): string {
    Norm(s.title)
  }

  /** `new Map(steps.map(s => [norm(s.title || ""), s]))`. */
  function BuildStepMap(steps: seq<CatalogStep>): (m: StepMap)
    ensures DistinctKeys(m)
  {
    if steps == [] then []
    else MapSet(BuildStepMap(steps[..|steps| - 1]), StepKey(steps[|steps| - 1]), steps[|steps| - 1])
  }

  /** A key no step normalises to is absent from the step map. */
  lemma {:induction false} StepMapAbsent(steps: seq<CatalogStep>, k: string)
    requires forall i :: 0 <= i < |steps| ==> StepKey(steps[i]) != k
    ensures Lookup(BuildStepMap(steps), k).None?
  {
    if steps != [] {
      var n := |steps| - 1;
      assert forall i :: 0 <= i < n ==> steps[..n][i] == steps[i];
      StepMapAbsent(steps[..n], k);
      MapSetLookup(BuildStepMap(steps[..n]), StepKey(steps[n]), steps[n], k);
    }
  }

  /** Equal normalised titles leave one entry, holding the LAST such step. */
  lemma {:induction false} StepMapLastWins(steps: seq<CatalogStep>, k: string, i: nat)
    requires i < |steps| && StepKey(steps[i]) == k
    requires forall j :: i < j < |steps| ==> StepKey(steps[j]) != k
    ensures Lookup(BuildStepMap(steps), k) == Some(steps[i])
  {
    var n := |steps| - 1;
    var init := steps[..n];
    MapSetLookup(BuildStepMap(init), StepKey(steps[n]), steps[n], k);
    if i < n {
      assert init[i] == steps[i];
      assert forall j :: i < j < |init| ==> init[j] == steps[j];
      StepMapLastWins(init, k, i);
    }
  }

  // ---------------------------------------------------------------------------
  // smartMatch
  // ---------------------------------------------------------------------------

  /** Containment test of the second tier, on a normalised key. */
  predicate KeyWithin(key: string, lower: string) {
    Contains(key, lower) || Contains(lower, key)
  }

  /** Overlap test of the third tier: a candidate word is one of the key's
      white-space separated words. */
  predicate KeyOverlap(key: string, words: seq<string>) {
    exists w :: w in words && w in Words(key)
  }

  function WithinIndex(lower: string, m: StepMap): (r: Option<nat>)
    ensures r.Some? ==> r.value < |m| && KeyWithin(m[r.value].0, lower)
    ensures r.Some? ==> forall j {:trigger KeyWithin(m[j].0, lower)} :: 0 <= j < r.value ==> !KeyWithin(m[j].0, lower)
    ensures r.None? ==> forall j {:trigger KeyWithin(m[j].0, lower)} :: 0 <= j < |m| ==> !KeyWithin(m[j].0, lower)
  {
    FirstIndex(m, (e: (string, CatalogStep)) => KeyWithin(e.0, lower))
  }

  function OverlapIndex(words: seq<string>, m: StepMap): (r: Option<nat>)
    ensures r.Some? ==> r.value < |m| && KeyOverlap(m[r.value].0, words)
    ensures r.Some? ==> forall j {:trigger KeyOverlap(m[j].0, words)} :: 0 <= j < r.value ==> !KeyOverlap(m[j].0, words)
    ensures r.None? ==> forall j {:trigger KeyOverlap(m[j].0, words)} :: 0 <= j < |m| ==> !KeyOverlap(m[j].0, words)
  {
    FirstIndex(m, (e: (string, CatalogStep)) => KeyOverlap(e.0, words))
  }

  /** `smartMatch(topicTitle, map)`: the step under the exact normalised key,
      else the first entry whose key contains or is contained in the title,
      else the first entry whose key shares a whole word longer than 2
      characters with the title, else `None`. */
  function SmartMatch(title: string, m: StepMap): (r: Option<CatalogStep>)
    ensures title == "" ==> r.None?
    ensures r.Some? ==> exists i :: 0 <= i < |m| && m[i].1 == r.value
  {
    if title == "" then None
    else
      var lower := Norm(title);
      var exact := KeyIndex(lower, m);
      if exact.Some? then Some(m[exact.value].1)
      else
        var within := WithinIndex(lower, m);
        if within.Some? then Some(m[within.value].1)
        else
          var overlap := OverlapIndex(LongWords(Words(lower)), m);
          if overlap.Some? then Some(m[overlap.value].1) else None
  }

  /** Exact tier: a key equal to the normalised title wins, and yields the
      value `map.get` returns for it. */
  lemma SmartMatchExact(title: string, m: StepMap)
    requires title != "" && DistinctKeys(m)
    requires Lookup(m, Norm(title)).Some?
    ensures SmartMatch(title, m) == Lookup(m, Norm(title))
  {
  }

  /** Containment tier: with no exact key, the first entry in insertion order
      whose key contains or is contained in the normalised title wins. */
  lemma SmartMatchContainment(title: string, m: StepMap, i: nat)
    requires title != "" && i < |m|
    requires forall j :: 0 <= j < |m| ==> m[j].0 != Norm(title)
    requires KeyWithin(m[i].0, Norm(title))
    requires forall j :: 0 <= j < i ==> !KeyWithin(m[j].0, Norm(title))
    ensures SmartMatch(title, m) == Some(m[i].1)
  {
    var lower := Norm(title);
    assert KeyIndex(lower, m).None?;
    assert WithinIndex(lower, m) == Some(i);
  }

  /** Overlap tier: with no exact and no containment match, the first entry
      whose key has a whole word equal to a candidate word wins. */
  lemma SmartMatchOverlap(title: string, m: StepMap, i: nat)
    requires title != "" && i < |m|
    requires forall j :: 0 <= j < |m| ==> m[j].0 != Norm(title)
    requires forall j :: 0 <= j < |m| ==> !KeyWithin(m[j].0, Norm(title))
    requires KeyOverlap(m[i].0, LongWords(Words(Norm(title))))
    requires forall j :: 0 <= j < i ==> !KeyOverlap(m[j].0, LongWords(Words(Norm(title))))
    ensures SmartMatch(title, m) == Some(m[i].1)
  {
    var lower := Norm(title);
    assert KeyIndex(lower, m).None?;
    assert WithinIndex(lower, m).None?;
    assert OverlapIndex(LongWords(Words(lower)), m) == Some(i);
  }

  /** No match: a non-empty title matches nothing exactly when no key is
      equal to, contains, is contained in, or shares a long word with it. */
  lemma SmartMatchNoneIff(title: string, m: StepMap)
    requires title != ""
    ensures SmartMatch(title, m).None? <==>
      (forall j :: 0 <= j < |m| ==> m[j].0 != Norm(title)) &&
      (forall j :: 0 <= j < |m| ==> !KeyWithin(m[j].0, Norm(title))) &&
      (forall j :: 0 <= j < |m| ==> !KeyOverlap(m[j].0, LongWords(Words(Norm(title)))))
  {
    var lower := Norm(title);
    var exact := KeyIndex(lower, m);
    var within := WithinIndex(lower, m);
    var overlap := OverlapIndex(LongWords(Words(lower)), m);
    assert SmartMatch(title, m).None? <==> exact.None? && within.None? && overlap.None?;
  }

  /** Overlap needs a candidate word of at least 3 characters: a title whose
      words are all short matches only through the first two tiers. */
  lemma SmartMatchShortWords(title: string, m: StepMap)
    requires title != ""
    requires forall w :: w in Words(Norm(title)) ==> |w| <= 2
    requires forall j :: 0 <= j < |m| ==> m[j].0 != Norm(title)
    requires forall j :: 0 <= j < |m| ==> !KeyWithin(m[j].0, Norm(title))
    ensures SmartMatch(title, m).None?
  {
    NoLongWords(Words(Norm(title)));
  }

  // ---------------------------------------------------------------------------
  // The merged items
  // ---------------------------------------------------------------------------

  datatype Video = Video(title: string, url: string)

  datatype CourseItem = CourseItem(sequenceNumber: int, title: string, description: string,
                                   videos: seq<Video>, resources: seq<Resource>)

  datatype MergedCourse = MergedCourse(domain: string, level: string, items: seq<CourseItem>)

  /** The object built for one topic (lines 110-128). */
  function MergeItem(topic: Topic, m: StepMap): (item: CourseItem)
    ensures item.sequenceNumber == topic.sequenceNumber && item.title == topic.title && item.description == topic.description
    ensures SmartMatch(topic.title, m).None? ==> item.videos == [] && item.resources == []
    ensures SmartMatch(topic.title, m).Some? ==>
      var step := SmartMatch(topic.title, m).value;
      |item.videos| == |step.links| && item.resources == step.resources &&
      forall i :: 0 <= i < |step.links| ==> item.videos[i] == Video(topic.title, step.links[i])
  {
    match SmartMatch(topic.title, m)
    case None => CourseItem(topic.sequenceNumber, topic.title, topic.description, [], [])
    case Some(step) =>
      CourseItem(topic.sequenceNumber, topic.title, topic.description,
                 seq(|step.links|, i requires 0 <= i < |step.links| => Video(topic.title, step.links[i])),
                 step.resources)
  }

  /** The sort-then-map pipeline over the roadmap topics. */
  function MergeItems(topics: seq<Topic>, m: StepMap): (items: seq<CourseItem>)
  {
    var sorted := SortBySeq(topics);
    seq(|sorted|, i requires 0 <= i < |sorted| => MergeItem(sorted[i], m))
  }

  /** One item per roadmap topic, in non-decreasing sequence order, and every
      topic (counted with multiplicity) is the source of exactly as many items. */
  lemma MergeItemsFollowTopics(topics: seq<Topic>, m: StepMap)
    ensures |MergeItems(topics, m)| == |topics|
    ensures forall i, j :: 0 <= i < j < |topics| ==>
      MergeItems(topics, m)[i].sequenceNumber <= MergeItems(topics, m)[j].sequenceNumber
    ensures exists sorted: seq<Topic> ::
      (multiset(sorted) == multiset(topics) && |sorted| == |topics| &&
       forall i :: 0 <= i < |sorted| ==> MergeItems(topics, m)[i] == MergeItem(sorted[i], m))
  {
    var sorted := SortBySeq(topics);
    assert forall i :: 0 <= i < |sorted| ==> MergeItems(topics, m)[i] == MergeItem(sorted[i], m);
  }

  /** `loadContent` applies `toSlug` and `toLevel` once more to the slugs it
      is given; both are already fixed points. */
  lemma {:induction false} SlugNoTrimIsStable(s: string)
    ensures SlugNoTrim(SlugNoTrim(s)) == SlugNoTrim(s)
  {
    var t := SlugNoTrim(s);
    LowerKeepsNoUpper(t);
  }

  /** `getMergedCourseForUser`: the learner's roadmap must be for this domain
      and level; the content file must exist; `items` are the merged topics. */
  function GetMergedCourse(roadmaps: map<string, RoadmapDoc>, userId: string, domain: string, level: string,
                           catalogue: Catalogue): (r: Result<MergedCourse, Failure>)
    ensures r.Ok? ==> r.value.domain == SlugNoTrim(domain) && r.value.level == Level(level)
    ensures r.Ok? ==> userId in roadmaps && |r.value.items| == |roadmaps[userId].topics|
    ensures (userId !in roadmaps || roadmaps[userId].domain != SlugNoTrim(domain) || roadmaps[userId].skillLevel != Level(level))
      ==> r == Err(NotFound("No roadmap found for this user"))
    ensures var key := (SlugNoTrim(SlugNoTrim(domain)), Level(Level(level)));
      userId in roadmaps && roadmaps[userId].domain == SlugNoTrim(domain) && roadmaps[userId].skillLevel == Level(level) ==>
        if key !in catalogue then r == Err(ServerError("Failed to merge course content"))
        else r.Ok? && r.value.items == MergeItems(roadmaps[userId].topics, BuildStepMap(catalogue[key]))
  {
    var domainSlug := SlugNoTrim(domain);
    var levelLower := Level(level);
    if userId !in roadmaps || roadmaps[userId].domain != domainSlug || roadmaps[userId].skillLevel != levelLower then
      Err(NotFound("No roadmap found for this user"))
    else if (SlugNoTrim(domainSlug), Level(levelLower)) !in catalogue then
      Err(ServerError("Failed to merge course content"))
    else
      var steps := catalogue[(SlugNoTrim(domainSlug), Level(levelLower))];
      MergeItemsFollowTopics(roadmaps[userId].topics, BuildStepMap(steps));
      Ok(MergedCourse(domainSlug, levelLower, MergeItems(roadmaps[userId].topics, BuildStepMap(steps))))
  }

  /** A roadmap generated for a domain and a skill level is the one the
      merged view finds when the page asks with the stored slugs, and the
      merge reads the same content file the generator took its titles from. */
  lemma GeneratedRoadmapIsFound(roadmaps: map<string, RoadmapDoc>, userId: string, doc: RoadmapDoc,
                                domain: string, skillLevel: string, catalogue: Catalogue)
    requires doc.domain == Slug(domain) && doc.skillLevel == Level(Trim(skillLevel))
    requires (doc.domain, doc.skillLevel) in catalogue
    ensures GetMergedCourse(roadmaps[userId := doc], userId, doc.domain, doc.skillLevel, catalogue).Ok?
    ensures |GetMergedCourse(roadmaps[userId := doc], userId, doc.domain, doc.skillLevel, catalogue).value.items| == |doc.topics|
  {
    SlugIsStable(domain);
    LevelIsStable(Trim(skillLevel));
  }
}
