/** The lesson list of the course page
    (enliven-frontend/src/components/pages/CoursePage.jsx): the sections and
    lessons built from the merged course items, the embed-link rewrite, and the
    completion summaries shown above the player. */
module CourseLessons {

  import opened Wrappers
  import opened Text
  import opened Search
  import opened Catalog
  import opened Course
  import opened Rounding

  datatype Kind = VideoLesson | Reading

  datatype Status = Locked | Current | Completed

  /** One row of the sidebar. `url` is the embed url of a video or the
      resource of a reading; `videoIndex` is the video's position among the
      item's videos, absent for readings. */
  datatype Lesson = Lesson(id: string, title: string, url: string, kind: Kind, status: Status,
                           topicId: string, videoIndex: Option<int>)

  /** One module of the course: a roadmap topic and its lessons. */
  datatype Section = Section(id: string, title: string, expanded: bool, lessons: seq<Lesson>)

  /** `a || b` on strings. */
  function OrDefault(s: string, fallback: string): string {
    if s == "" then fallback else s
  }

  // ---------------------------------------------------------------------------
  // Embed links
  // ---------------------------------------------------------------------------

  const EmbedPrefix: string := "https://www.youtube.com/embed/"

  /** The part of `s` before the first occurrence of `sep`: `s.split(sep)[0]`. */
  function Before(s: string, sep: string): (r: string)
    ensures |r| <= |s| && r == s[..|r|]
    ensures !Contains(s, sep) ==> r == s
    ensures |sep| > 0 && Contains(s, sep) ==> IndexOf(s, sep) == Some(|r|)
  {
    match IndexOf(s, sep)
    case None => s
    case Some(i) => s[..i]
  }

  /** `convertToEmbed`: a `watch?v=` link has its first `watch?v=` replaced by
      `embed/`; a `youtu.be/` link becomes the embed prefix followed by the
      text between the first `youtu.be/` and the next one, cut at the first
      `?`; a `youtu.be` without the slash makes the split fail, and the url is
      returned unchanged, as is every other url. */
  function ConvertToEmbed(url: string): (r: string)
    ensures !Contains(url, "watch?v=") && !Contains(url, "youtu.be") ==> r == url
    ensures Contains(url, "watch?v=") ==>
      var i := IndexOf(url, "watch?v=").value;
      r == url[..i] + "embed/" + url[i + 8..]
    ensures !Contains(url, "watch?v=") && Contains(url, "youtu.be/") ==>
      |EmbedPrefix| <= |r| && r[..|EmbedPrefix|] == EmbedPrefix && !Contains(r[|EmbedPrefix|..], "?")
  {
    if Contains(url, "watch?v=") then WatchEmbed(url)
    else if Contains(url, "youtu.be") then
      match IndexOf(url, "youtu.be/")
      case None => url
      case Some(i) => ShortLinkEmbed(url[i + 9..])
    else
      assert "youtu.be" + "/" == "youtu.be/";
      ContainsShorter(url, "youtu.be", "/");
      url
  }

  /** Which id a short link gets, and the short link without its slash:
      `youtu.be/` links embed the text after the first `youtu.be/`, cut at
      the next `youtu.be/` and then at the first `?`; a `youtu.be` without
      the slash makes `split(...)[1]` undefined, the call throws, and the
      catch returns the url unchanged. */
  lemma ConvertShortLink(url: string)
    requires !Contains(url, "watch?v=")
    ensures Contains(url, "youtu.be/") ==>
      ConvertToEmbed(url) == EmbedPrefix + ShortLinkId(url[IndexOf(url, "youtu.be/").value + 9..])
    ensures Contains(url, "youtu.be") && !Contains(url, "youtu.be/") ==> ConvertToEmbed(url) == url
  {
    var k := IndexOf(url, "youtu.be/");
    if k.Some? {
      assert "youtu.be" + "/" == "youtu.be/";
      ContainsShorter(url, "youtu.be", "/");
      assert ConvertToEmbed(url) == ShortLinkEmbed(url[k.value + 9..]);
    } else {
      assert ConvertToEmbed(url) == url;
    }
  }

  /** `url.replace("watch?v=", "embed/")` on a url holding `watch?v=`. */
  function WatchEmbed(url: string): (r: string)
    requires Contains(url, "watch?v=")
    ensures var i := IndexOf(url, "watch?v=").value;
      r == url[..i] + "embed/" + url[i + 8..]
  {
    ReplaceFirst(url, "watch?v=", "embed/")
  }

  /** `split("youtu.be/")[1].split("?")[0]` for the text after the first
      `youtu.be/`: cut at the next `youtu.be/`, then at the first `?`. */
  function ShortLinkId(rest: string): (id: string)
    ensures !Contains(id, "?")
  {
    BeforeHasNo(Before(rest, "youtu.be/"), "?");
    Before(Before(rest, "youtu.be/"), "?")
  }

  /** The embed url of a short link. */
  function ShortLinkEmbed(rest: string): (r: string)
    ensures r == EmbedPrefix + ShortLinkId(rest)
    ensures |EmbedPrefix| <= |r| && r[..|EmbedPrefix|] == EmbedPrefix && !Contains(r[|EmbedPrefix|..], "?")
  {
    var id := ShortLinkId(rest);
    assert (EmbedPrefix + id)[|EmbedPrefix|..] == id;
    EmbedPrefix + id
  }

  /** What `Before` keeps does not contain the separator. */
  lemma BeforeHasNo(s: string, sep: string)
    requires |sep| > 0
    ensures !Contains(Before(s, sep), sep)
  {
    match IndexOf(s, sep)
    case None =>
    case Some(i) =>
      NoOccurrenceBefore(s, sep, i);
  }

  lemma NoOccurrenceBefore(s: string, sep: string, i: nat)
    requires |sep| > 0 && i <= |s|
    requires forall j :: 0 <= j < i ==> !IsPrefix(sep, s[j..])
    ensures !Contains(s[..i], sep)
  {
    var r := s[..i];
    forall j | 0 <= j && j + |sep| <= |r|
      ensures !OccursAt(r, sep, j)
    {
      assert !IsPrefix(sep, s[j..]);
      assert r[j..j + |sep|] == s[j..][..|sep|];
    }
    ContainsAt(r, sep);
  }

  /** A url holding `youtu.be/` holds `youtu.be`. */
  lemma ContainsShorter(s: string, sub: string, more: string)
    ensures Contains(s, sub + more) ==> Contains(s, sub)
  {
    ContainsAt(s, sub + more);
    ContainsAt(s, sub);
    if Contains(s, sub + more) {
      var j :| OccursAt(s, sub + more, j);
      assert s[j..j + |sub|] == (sub + more)[..|sub|];
      assert OccursAt(s, sub, j);
    }
  }

  // ---------------------------------------------------------------------------
  // Building the sections
  // ---------------------------------------------------------------------------

  /** The id of the `i`-th lesson of a kind: `${sequenceNumber}-V${i + 1}` or
      `${sequenceNumber}-R${i + 1}`. */
  function LessonId(sequenceNumber: int, tag: char, i: nat): string {
    IntToString(sequenceNumber) + "-" + [tag] + NatToString(i + 1)
  }

  function VideoLessonOf(item: CourseItem, i: nat): Lesson
    requires i < |item.videos|
  {
    Lesson(LessonId(item.sequenceNumber, 'V', i), OrDefault(item.videos[i].title, item.title),
           ConvertToEmbed(item.videos[i].url), VideoLesson, Locked,
           IntToString(item.sequenceNumber), Some(i))
  }

  /** A bare link has no title of its own and is itself the resource. */
  function ReadingLessonOf(item: CourseItem, j: nat): Lesson
    requires j < |item.resources|
  {
    var (title, resource) := match item.resources[j]
      case Link(href) => (item.title, href)
      case File(t, u) => (OrDefault(t, item.title), u);
    Lesson(LessonId(item.sequenceNumber, 'R', j), title, resource, Reading, Locked,
           IntToString(item.sequenceNumber), None)
  }

  /** The section built for one merged item (lines 127-161): the video
      lessons first, in order, then the readings, all locked. */
  function BuildSection(item: CourseItem): (s: Section)
    ensures s.id == IntToString(item.sequenceNumber) && s.title == item.title && !s.expanded
    ensures |s.lessons| == |item.videos| + |item.resources|
    ensures forall i :: 0 <= i < |item.videos| ==>
      s.lessons[i].kind == VideoLesson && s.lessons[i].videoIndex == Some(i) &&
      s.lessons[i].id == LessonId(item.sequenceNumber, 'V', i)
    ensures forall j :: |item.videos| <= j < |s.lessons| ==>
      s.lessons[j].kind == Reading && s.lessons[j].videoIndex.None? &&
      s.lessons[j].id == LessonId(item.sequenceNumber, 'R', j - |item.videos|)
    ensures forall k :: 0 <= k < |s.lessons| ==> s.lessons[k].status == Locked && s.lessons[k].topicId == s.id
  {
    var nv := |item.videos|;
    var videos := seq(nv, i requires 0 <= i < nv => VideoLessonOf(item, i));
    var readings := seq(|item.resources|, j requires 0 <= j < |item.resources| => ReadingLessonOf(item, j));
    Section(IntToString(item.sequenceNumber), item.title, false, videos + readings)
  }

  function BuildSections(items: seq<CourseItem>): (r: seq<Section>)
    ensures |r| == |items|
    ensures forall i :: 0 <= i < |items| ==> r[i] == BuildSection(items[i])
  {
    seq(|items|, i requires 0 <= i < |items| => BuildSection(items[i]))
  }

  predicate DistinctIds(ls: seq<Lesson>) {
    forall i, j :: 0 <= i < j < |ls| ==> ls[i].id != ls[j].id
  }

  /** `b` holds the lessons of `a`, with possibly different statuses. */
  predicate SameLessons(a: seq<Lesson>, b: seq<Lesson>) {
    |a| == |b| && forall k :: 0 <= k < |a| ==> b[k] == a[k].(status := b[k].status)
  }

  /** A lesson id is the section id, a '-', the tag and the 1-based position. */
  lemma LessonIdParts(n: int, t: char, i: nat)
    ensures LessonId(n, t, i) == IntToString(n) + ("-" + [t] + NatToString(i + 1))
  {
  }

  /** Two lesson ids of one item agree only for the same kind and position. */
  lemma LessonIdInjective(n: int, t: char, i: nat, t': char, i': nat)
    requires LessonId(n, t, i) == LessonId(n, t', i')
    ensures t == t' && i == i'
  {
    var p := IntToString(n);
    var x, x' := "-" + [t] + NatToString(i + 1), "-" + [t'] + NatToString(i' + 1);
    LessonIdParts(n, t, i);
    LessonIdParts(n, t', i');
    assert x == (p + x)[|p|..] == (p + x')[|p|..] == x';
    assert x[1] == t && x'[1] == t';
    assert NatToString(i + 1) == x[2..] && NatToString(i' + 1) == x'[2..];
    NatToStringRoundTrip(i + 1);
    NatToStringRoundTrip(i' + 1);
  }

  /** Lesson ids within a section are pairwise distinct. */
  lemma SectionIdsDistinct(item: CourseItem)
    ensures DistinctIds(BuildSection(item).lessons)
  {
    var s := BuildSection(item);
    var nv := |item.videos|;
    forall i, j | 0 <= i < j < |s.lessons|
      ensures s.lessons[i].id != s.lessons[j].id
    {
      var (ti, ii) := if i < nv then ('V', i) else ('R', i - nv);
      var (tj, ij) := if j < nv then ('V', j) else ('R', j - nv);
      if s.lessons[i].id == s.lessons[j].id {
        LessonIdInjective(item.sequenceNumber, ti, ii, tj, ij);
      }
    }
  }

  /** Lessons of sections built for different sequence numbers never share an
      id: the number in front of the first '-' after the sign tells them
      apart. */
  lemma CrossSectionIdsDistinct(a: CourseItem, b: CourseItem, i: nat, j: nat)
    requires a.sequenceNumber != b.sequenceNumber
    requires i < |BuildSection(a).lessons| && j < |BuildSection(b).lessons|
    ensures BuildSection(a).lessons[i].id != BuildSection(b).lessons[j].id
  {
    var (ta, ia) := if i < |a.videos| then ('V', i) else ('R', i - |a.videos|);
    var (tb, ib) := if j < |b.videos| then ('V', j) else ('R', j - |b.videos|);
    assert BuildSection(a).lessons[i].id == LessonId(a.sequenceNumber, ta, ia);
    assert BuildSection(b).lessons[j].id == LessonId(b.sequenceNumber, tb, ib);
    LessonIdParts(a.sequenceNumber, ta, ia);
    LessonIdParts(b.sequenceNumber, tb, ib);
    if LessonId(a.sequenceNumber, ta, ia) == LessonId(b.sequenceNumber, tb, ib) {
      IntPrefixUnique(a.sequenceNumber, b.sequenceNumber, "-" + [ta] + NatToString(ia + 1), "-" + [tb] + NatToString(ib + 1));
    }
  }

  /** `sections.flatMap(s => s.lessons)`. */
  function Flatten(secs: seq<Section>): (r: seq<Lesson>)
    ensures secs == [] ==> r == []
  {
    if secs == [] then [] else secs[0].lessons + Flatten(secs[1..])
  }

  /** Every lesson of the flat list is a lesson of some section. */
  lemma {:induction false} FlattenMember(secs: seq<Section>, k: nat)
    requires k < |Flatten(secs)|
    ensures exists i, j :: 0 <= i < |secs| && 0 <= j < |secs[i].lessons| && Flatten(secs)[k] == secs[i].lessons[j]
  {
    if k < |secs[0].lessons| {
      assert Flatten(secs)[k] == secs[0].lessons[k];
    } else {
      FlattenMember(secs[1..], k - |secs[0].lessons|);
      var i, j :| 0 <= i < |secs| - 1 && 0 <= j < |secs[1..][i].lessons| &&
                  Flatten(secs[1..])[k - |secs[0].lessons|] == secs[1..][i].lessons[j];
      assert Flatten(secs)[k] == secs[i + 1].lessons[j];
    }
  }

  /** No lesson of `a` shares an id with a lesson of `b`. */
  predicate IdsApart(a: seq<Lesson>, b: seq<Lesson>) {
    forall x, y :: 0 <= x < |a| && 0 <= y < |b| ==> a[x].id != b[y].id
  }

  lemma DistinctAppend(a: seq<Lesson>, b: seq<Lesson>)
    requires DistinctIds(a) && DistinctIds(b) && IdsApart(a, b)
    ensures DistinctIds(a + b)
  {
    var c := a + b;
    forall x, y | 0 <= x < y < |c|
      ensures c[x].id != c[y].id
    {
      if y < |a| {
        assert c[x] == a[x] && c[y] == a[y];
      } else if x >= |a| {
        assert c[x] == b[x - |a|] && c[y] == b[y - |a|];
      } else {
        assert c[x] == a[x] && c[y] == b[y - |a|];
      }
    }
  }

  /** The first section's lessons share no id with the later sections'. */
  lemma HeadApart(items: seq<CourseItem>)
    requires items != []
    requires forall j :: 0 < j < |items| ==> items[0].sequenceNumber != items[j].sequenceNumber
    ensures IdsApart(BuildSection(items[0]).lessons, Flatten(BuildSections(items[1..])))
  {
    var head := BuildSection(items[0]).lessons;
    var rest := BuildSections(items[1..]);
    forall x, y | 0 <= x < |head| && 0 <= y < |Flatten(rest)|
      ensures head[x].id != Flatten(rest)[y].id
    {
      FlattenMember(rest, y);
      var i, j :| 0 <= i < |rest| && 0 <= j < |rest[i].lessons| && Flatten(rest)[y] == rest[i].lessons[j];
      CrossSectionIdsDistinct(items[0], items[1..][i], x, j);
    }
  }

  /** Distinct sequence numbers give a course whose lesson ids are all
      distinct. */
  lemma {:induction false} BuiltIdsDistinct(items: seq<CourseItem>)
    requires forall i, j :: 0 <= i < j < |items| ==> items[i].sequenceNumber != items[j].sequenceNumber
    ensures DistinctIds(Flatten(BuildSections(items)))
  {
    if items != [] {
      var secs := BuildSections(items);
      var rest := BuildSections(items[1..]);
      assert secs[1..] == rest;
      assert Flatten(secs) == secs[0].lessons + Flatten(rest);
      BuiltIdsDistinct(items[1..]);
      SectionIdsDistinct(items[0]);
      HeadApart(items);
      DistinctAppend(BuildSection(items[0]).lessons, Flatten(rest));
    }
  }

  /** Sections whose lessons agree up to status flatten to lists that agree
      up to status. */
  lemma {:induction false} FlattenSameLessons(a: seq<Section>, b: seq<Section>)
    requires |a| == |b| && forall i :: 0 <= i < |a| ==> SameLessons(a[i].lessons, b[i].lessons)
    ensures SameLessons(Flatten(a), Flatten(b))
  {
    if a != [] {
      FlattenSameLessons(a[1..], b[1..]);
      var x, y := Flatten(a), Flatten(b);
      assert x == a[0].lessons + Flatten(a[1..]) && y == b[0].lessons + Flatten(b[1..]);
      forall k | 0 <= k < |x|
        ensures y[k] == x[k].(status := y[k].status)
      {
        if k >= |a[0].lessons| {
          assert x[k] == Flatten(a[1..])[k - |a[0].lessons|];
        }
      }
    }
  }

  /** Agreeing up to status keeps ids distinct. */
  lemma SameLessonsDistinct(a: seq<Lesson>, b: seq<Lesson>)
    requires SameLessons(a, b) && DistinctIds(a)
    ensures DistinctIds(b)
  {
    assert forall k :: 0 <= k < |a| ==> b[k].id == a[k].id;
  }

  // ---------------------------------------------------------------------------
  // Completion summaries
  // ---------------------------------------------------------------------------

  /** The completed positions below `m`. */
  function CompletedBelow(ls: seq<Lesson>, m: nat): set<nat> {
    set k: nat | k < m && k < |ls| && ls[k].status == Completed
  }

  /** The number of completed lessons. */
  function CompletedCount(ls: seq<Lesson>): (n: nat)
    ensures n <= |ls|
  {
    if ls == [] then 0
    else (if ls[|ls| - 1].status == Completed then 1 else 0) + CompletedCount(ls[..|ls| - 1])
  }

  /** The count is exact: it is the size of the set of completed positions. */
  lemma CompletedCountIsCardinality(ls: seq<Lesson>)
    ensures CompletedCount(ls) == |CompletedBelow(ls, |ls|)|
  {
    CountUpTo(ls, |ls|);
    assert ls[..|ls|] == ls;
  }

  lemma {:induction false} CountUpTo(ls: seq<Lesson>, m: nat)
    requires m <= |ls|
    ensures CompletedCount(ls[..m]) == |CompletedBelow(ls, m)|
    decreases m
  {
    if m > 0 {
      CountUpTo(ls, m - 1);
      assert ls[..m][..m - 1] == ls[..m - 1];
      if ls[m - 1].status == Completed {
        assert CompletedBelow(ls, m) == CompletedBelow(ls, m - 1) + {m - 1};
      } else {
        assert CompletedBelow(ls, m) == CompletedBelow(ls, m - 1);
      }
    }
  }

  /** The course progress percent (lines 220-223): completed lessons over all
      lessons, an empty course counting as one lesson. */
  function CoursePercent(secs: seq<Section>): (r: nat)
    ensures r <= 100
    ensures Flatten(secs) != [] && CompletedCount(Flatten(secs)) == |Flatten(secs)| ==> r == 100
    ensures CompletedCount(Flatten(secs)) == 0 ==> r == 0
  {
    var flat := Flatten(secs);
    RoundPercent(CompletedCount(flat), if |flat| == 0 then 1 else |flat|)
  }

  /** `isSectionCompleted`: the section has a video and every video is
      completed. */
  predicate IsSectionCompleted(sec: Section) {
    (exists k :: 0 <= k < |sec.lessons| && sec.lessons[k].kind == VideoLesson) &&
    forall k :: 0 <= k < |sec.lessons| && sec.lessons[k].kind == VideoLesson ==> sec.lessons[k].status == Completed
  }

  /** `allModulesCompleted`: there is a section and every section is completed. */
  predicate AllModulesCompleted(secs: seq<Section>) {
    |secs| > 0 && forall i :: 0 <= i < |secs| ==> IsSectionCompleted(secs[i])
  }

  /** A section built from an item without videos is never completed, and a
      freshly built section with videos is not completed either. */
  lemma FreshSectionNotCompleted(item: CourseItem)
    ensures !IsSectionCompleted(BuildSection(item))
  {
    var s := BuildSection(item);
    if |item.videos| > 0 {
      assert s.lessons[0].status == Locked;
    }
  }

  /** Completion only depends on the video lessons: if every video that is
      completed in one section is completed in another with the same kinds,
      the second is completed whenever the first is. */
  lemma SectionCompletedMonotone(a: Section, b: Section)
    requires |a.lessons| == |b.lessons|
    requires forall k :: 0 <= k < |a.lessons| ==> a.lessons[k].kind == b.lessons[k].kind
    requires forall k :: 0 <= k < |a.lessons| && a.lessons[k].status == Completed ==> b.lessons[k].status == Completed
    requires IsSectionCompleted(a)
    ensures IsSectionCompleted(b)
  {
    var k :| 0 <= k < |a.lessons| && a.lessons[k].kind == VideoLesson;
    assert b.lessons[k].kind == VideoLesson;
  }
}
