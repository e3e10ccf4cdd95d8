# Enliven learning-path logic in Dafny

Enliven is a learning app. A learner picks a domain and a skill level. The
backend then asks a language model for a roadmap and snaps every proposed
step title onto the titles of a static course catalogue. The course page
turns the roadmap into modules of video and reading lessons and unlocks them
one by one. A module test, taken on the proctored assessment page, opens the
next module. Progress is saved per topic and summarised on the learning-path
page.

This project models the deterministic core of that flow and proves what it
promises:

- **Title reconciliation.** The roadmap controller's `snapToAllowed` and the
  course controller's `smartMatch` are three-tier, first-match-wins searches:
  exact, then containment, then word overlap.
- **Roadmap assembly.** The model covers the de-duplication through `seen`,
  the sequence numbers, the six-title fallback and the sort by sequence
  number. It also covers the merged course: one item per topic, with videos
  built from the matched links.
- **The course page's lesson state machine.**
  - Sections and lessons are built from the merged items.
  - Saved progress is applied on load.
  - `completeCurrentLesson` completes a lesson. When it reaches the first
    lesson of another module, it opens that lesson only if the module test
    is marked done in local storage.
  - The saved `currentIndex` rule, the section-completed predicate, the
    progress percent, `convertToEmbed` and `toTitleCase` are modelled too.
- **Progress storage.** `saveProgress` upserts a topic entry in place or
  appends one. `getProgressForCourse` defaults to an empty list.
- **Progress display.** The overview controller computes per-topic and
  overall percentages. The learning-path page builds `topicStats`, the
  totals, `statusFor` and the card statuses. The progress bar clamps its
  value.
- **Assessment.** This covers scoring, the 60% pass mark, the test-done keys
  the course page reads back, answer selection, navigation, retake, the
  three-violation auto-submit, the countdown and `formatTime`.
- **Badges, chat context and question extraction.**
  - Badge awarding is idempotent.
  - The chat context update is a shallow merge.
  - The proctor's question extraction strips fences, scans for `{...}`
    fragments, repairs them, parses them and normalises the questions.

The modules are organised as follows:

- One module per source file: `Roadmap`, `Course`, `CourseLessons` and
  `CoursePage` (for CoursePage.jsx), `Progress`, `LearningPathOverview`,
  `LearningPathView`, `Assessment`, `Badges`, `ChatContext`, `Proctor` and
  `ProgressBar`.
- Shared helpers:
  - `Text` holds ASCII case, trim, substrings, words and decimal strings.
  - `Naming` holds the `toSlug`/`toLevel` variants, and `TitleCase` holds `toTitleCase`.
  - `Rounding` holds `Math.round(a / b * 100)` as exact round-half-up.
  - `TestKeys` holds the local-storage keys.
  - `Search`, `Catalog` and `Wrappers` hold the first-match search, the catalogue types and Option/Result.

The model represents the outside world as follows:

- The database, the content files and local storage are maps, held in class
  fields where the source updates them.
- `JSON.parse` and the language model's reply are parameters.
- Clocks are parameters.

Where the source mutates state step by step, the model does the same:

- The course page's load and completion, the progress upsert, the badge
  list, the chat-context store and the assessment session are classes or
  methods with loops.
- Each of these is proved equal to a specification function, and the
  lemmas state what the source promises about that function.

## Model

Source paths are relative to the repository root.

| member | source | states |
|---|---|---|
| ProgressBar.Clamp | enliven-frontend/src/components/ProgressBar.jsx:10 | The drawn value lies in [0,100]; a value already in range is kept; negatives become 0 and values above 100 become 100 |
| ProgressBar.ClampIdempotent | enliven-frontend/src/components/ProgressBar.jsx:10 | Clamping twice is clamping once |
| Rounding.RoundPercent | enliven-frontend/src/components/pages/AssessmentPage.jsx:151 | The percent r is the rounded value of 100a/b with halves up (2br <= 200a+b < 2b(r+1)); it is at most 100 when a <= b, 100 when a = b, 0 when a = 0 |
| Rounding.RoundPercentMonotone | enliven-backend/controllers/learningpathController.js:61 | More done out of the same total never gives a smaller percent |
| Text.Trim | enliven-backend/controllers/roadmapController.js:30 | `trim` is never longer than its input and has no white space at either end |
| Text.TrimIsSlice | enliven-backend/controllers/roadmapController.js:30 | What `trim` keeps is a contiguous slice of the input, and every character outside it is white space |
| Text.TrimLeftIsSuffix | enliven-backend/controllers/roadmapController.js:30 | What left-trimming keeps is a suffix of its input, and every dropped character is white space |
| Text.TrimRightIsPrefix | enliven-backend/controllers/roadmapController.js:30 | What right-trimming keeps is a prefix of its input, and every dropped character is white space |
| Text.ContainsAt | enliven-backend/controllers/roadmapController.js:41 | `includes` holds exactly when the substring sits at some position |
| Text.Words | enliven-backend/controllers/roadmapController.js:45 | Every piece of `split(/\s+/)` is a non-empty run of non-space characters |
| Text.WordsSplit | enliven-backend/controllers/roadmapController.js:45 | A word followed by white space and more text splits into that word and the words of the rest |
| Text.WordsSkipSpace | enliven-backend/controllers/roadmapController.js:45 | Leading white space yields no word |
| Text.WordsOfWord | enliven-backend/controllers/roadmapController.js:45 | A single word splits into itself |
| Text.LongWords | enliven-backend/controllers/roadmapController.js:45 | The filter never yields more words than it is given |
| Text.LongWordsMembers | enliven-backend/controllers/roadmapController.js:45 | The filter keeps exactly the words longer than 2 characters |
| Text.NoLongWords | enliven-backend/controllers/roadmapController.js:45 | Without a word longer than 2 characters nothing is kept |
| Text.LongWordsConcat | enliven-backend/controllers/roadmapController.js:45 | Filtering a concatenation concatenates the filtered parts, so order and repetitions are kept |
| Text.LongWordsCons | enliven-backend/controllers/roadmapController.js:45 | A word in front is kept exactly when it is longer than 2 characters, ahead of what the rest keeps |
| Text.LongWordsOne | enliven-backend/controllers/roadmapController.js:45 | One word is kept exactly when it is longer than 2 characters |
| Text.NatToString | enliven-frontend/src/components/pages/CoursePage.jsx:133 | `String(n)` of a natural number is a non-empty run of decimal digits |
| Text.IntToString | enliven-frontend/src/components/pages/CoursePage.jsx:156 | `String(seq)` is non-empty and made of digits and '-' |
| Text.IntToStringShape | enliven-frontend/src/components/pages/CoursePage.jsx:156 | The text starts with '-' exactly for a negative number, and every later character is a digit |
| Text.NatToStringRoundTrip | enliven-frontend/src/components/pages/CoursePage.jsx:133 | Reading back the decimal digits of `String(n)` gives n |
| Text.IntToStringInjective | enliven-frontend/src/components/pages/CoursePage.jsx:156 | Different sequence numbers give different section ids |
| Text.IntPrefixUnique | enliven-frontend/src/components/pages/CoursePage.jsx:133 | A number followed by text starting with '-' splits back uniquely |
| Text.PadStart2 | enliven-frontend/src/components/pages/AssessmentPage.jsx:158 | `padStart(2, "0")` yields a string of length max(2, n) that ends with the input, preceded only by '0' |
| Text.IndexOf | enliven-frontend/src/components/pages/CoursePage.jsx:40 | The first position where the pattern occurs, or none when it does not occur |
| Text.IndexOfFirst | enliven-frontend/src/components/pages/CoursePage.jsx:40 | `indexOf` returns the position of the first occurrence |
| Text.ReplaceFirst | enliven-frontend/src/components/pages/CoursePage.jsx:40 | A string pattern is replaced at its first occurrence, with the text before and after it kept; a string without it is unchanged |
| Text.RemoveAll | enliven-backend/controllers/roadmapController.js:60-61 | A global literal replace by "" never lengthens the text and leaves text without the pattern unchanged |
| Text.RemoveAllCanLeaveOccurrence | enliven-backend/controllers/roadmapController.js:60-61 | Removing an occurrence can join two pieces into a new one ("aabb" without "ab" is "ab"), as the regular-expression replace does |
| Naming.HyphenateSpaces | enliven-backend/controllers/courseController.js:16 | `replace(/\s+/g, "-")` leaves no white space, introduces no upper case and changes nothing in a string without spaces |
| Naming.LowerHasNoUpper | enliven-backend/controllers/courseController.js:16 | `toLowerCase` leaves no upper-case letter |
| Naming.LowerKeepsNoUpper | enliven-backend/controllers/courseController.js:16 | Lower-casing a string without upper case changes nothing |
| Naming.TrimKeepsNoUpper | enliven-backend/controllers/roadmapController.js:15 | Trimming keeps a lower-case string lower-case |
| Naming.Slug | enliven-backend/controllers/roadmapController.js:15 | The roadmap's `toSlug` yields a string with no white space and no upper case |
| Naming.SlugNoTrim | enliven-backend/controllers/courseController.js:16 | The course controller's `toSlug` (and the overview's `slug`) yields no white space and no upper case |
| Naming.Level | enliven-backend/controllers/courseController.js:17 | `toLevel` yields only the letters a-z and is never longer than its input |
| Naming.SlugIsStable | enliven-backend/controllers/courseController.js:80 | A stored roadmap slug is a fixed point of both slug functions, so the course controller finds the domain the generator stored |
| Naming.LevelIsStable | enliven-backend/controllers/courseController.js:81 | A level is a fixed point of `toLevel` and of lower-casing |
| Naming.LevelIdentity | enliven-backend/controllers/courseController.js:17 | `toLevel` of a string of letters a-z is that string |
| TitleCase.Dehyphen | enliven-frontend/src/components/pages/CoursePage.jsx:30 | Every hyphen becomes a space; every other character and the length are kept |
| Text.RunBefore | enliven-frontend/src/components/pages/CoursePage.jsx:31 | The leading run of `split(sep)` ends at the first separator, or at the end when there is none |
| TitleCase.Pieces | enliven-frontend/src/components/pages/CoursePage.jsx:31-32 | `split(" ").filter(Boolean)` yields non-empty pieces without spaces |
| TitleCase.Caps | enliven-frontend/src/components/pages/CoursePage.jsx:33 | Every piece is capitalised, one result per piece |
| TitleCase.Capitalize | enliven-frontend/src/components/pages/CoursePage.jsx:33 | Capitalising keeps the length of the word |
| TitleCase.LowerCapitalize | enliven-frontend/src/components/pages/CoursePage.jsx:33 | Lower-casing a capitalised lower-case word gives the word back |
| TitleCase.PiecesSplit | enliven-frontend/src/components/pages/CoursePage.jsx:31-32 | A word followed by a space and more text splits into that word and the pieces of the rest |
| TitleCase.TitleHead | enliven-frontend/src/components/pages/CoursePage.jsx:28-34 | The title of a slug starts with the upper-cased first letter of the slug |
| TitleCase.TitleOfWord | enliven-frontend/src/components/pages/CoursePage.jsx:28-34 | A slug without hyphens titles to its capitalised self |
| TitleCase.TitleOfHyphenated | enliven-frontend/src/components/pages/CoursePage.jsx:28-34 | A slug with a hyphen titles to its capitalised first word, a space, and the title of the rest |
| TitleCase.SlugOfTitle | enliven-frontend/src/components/pages/CoursePage.jsx:28-34 | Round trip: for a domain slug (lower-case words joined by single hyphens), `toSlug(toTitleCase(s))` is s |
| TestKeys.TestKey | enliven-frontend/src/components/pages/AssessmentPage.jsx:49 | A module-test key starts with `test-` |
| TestKeys.FinalKey | enliven-frontend/src/components/pages/AssessmentPage.jsx:47 | A final-exam key starts with `final-` |
| TestKeys.TestAndFinalKeysDiffer | enliven-frontend/src/components/pages/AssessmentPage.jsx:45-51 | A module-test key never equals a final-exam key |
| Search.FirstIndex | enliven-backend/controllers/roadmapController.js:33-35 | The first position satisfying the predicate, none before it satisfying it, or none at all exactly when no element does |
| Roadmap.ExactMatch | enliven-backend/controllers/roadmapController.js:33-35 | The first title equal to the candidate after lower-casing and trimming; none exactly when no title is |
| Roadmap.WithinMatch | enliven-backend/controllers/roadmapController.js:39-42 | The first title that contains or is contained in the candidate; none exactly when no title is |
| Roadmap.OverlapMatch | enliven-backend/controllers/roadmapController.js:45-50 | The first title containing a candidate word; none exactly when no title does |
| Roadmap.SnapToAllowed | enliven-backend/controllers/roadmapController.js:28-53 | A missing or empty title snaps to nothing; any snapped title is one of the allowed titles |
| Roadmap.SnapExactTier | enliven-backend/controllers/roadmapController.js:33-36 | The first exact title wins over every containment or overlap match |
| Roadmap.SnapContainmentTier | enliven-backend/controllers/roadmapController.js:39-42 | With no exact match, the first title in list order that contains or is contained in the candidate is returned |
| Roadmap.SnapOverlapTier | enliven-backend/controllers/roadmapController.js:45-52 | With neither exact nor containment match, the first title containing a candidate word longer than 2 is returned |
| Roadmap.SnapNoneIffNoTier | enliven-backend/controllers/roadmapController.js:28-53 | A non-empty candidate snaps to nothing exactly when no tier matches (an exact hit on an empty title counts as none) |
| Roadmap.SnapBlankCandidate | enliven-backend/controllers/roadmapController.js:39-42 | A white-space-only candidate lowers to "" and so snaps to the first title when no title is blank |
| Roadmap.SnapReflexive | enliven-backend/controllers/roadmapController.js:33-36 | A non-empty title snaps to itself |
| Roadmap.SequenceNumber | enliven-backend/controllers/roadmapController.js:139 | `Number(n) \|\| idx + 1` is never 0 |
| Roadmap.ReconciledTitles | enliven-backend/controllers/roadmapController.js:127-142 | Reconciled topics carry non-empty allowed titles not used before, pairwise distinct |
| Roadmap.ReconciledOrigin | enliven-backend/controllers/roadmapController.js:130-140 | Each topic comes from one step: its snapped title, its description, and its number or its 1-based position |
| Roadmap.ReconciledKeepsEveryTitle | enliven-backend/controllers/roadmapController.js:127-142 | Every step whose title snaps to an unused title contributes that title |
| Roadmap.ReconciledLength | enliven-backend/controllers/roadmapController.js:129-142 | At most one topic per step |
| Roadmap.ReconcileSteps | enliven-backend/controllers/roadmapController.js:127-142 | The loop with its `seen` set computes the reconciled topics; titles are distinct and allowed |
| Roadmap.Fallback | enliven-backend/controllers/roadmapController.js:147-151 | min(6, number of titles) topics: the allowed titles in order, numbered 1..n, with "Learn <t> with hands-on practice." |
| Roadmap.ChosenTopicsShape | enliven-backend/controllers/roadmapController.js:115-152 | With a non-empty catalogue the chosen topics are non-empty and allowed; either the fallback, or from the parsed reply with distinct titles and at most one per step |
| Roadmap.InsertBySeq | enliven-backend/controllers/roadmapController.js:161 | Insertion adds exactly the new topic (as a multiset) |
| Roadmap.InsertKeepsSorted | enliven-backend/controllers/roadmapController.js:161 | Inserting into an ordered list keeps it ordered |
| Roadmap.SortBySeq | enliven-backend/controllers/roadmapController.js:161 | The sort yields a permutation ordered by non-decreasing sequence number |
| Roadmap.SortSortedIsIdentity | enliven-backend/controllers/roadmapController.js:161 | Sorting an ordered list leaves it unchanged |
| Roadmap.InsertBeforeEqual | enliven-backend/controllers/roadmapController.js:161 | An inserted topic goes in front of the topics with its own number, whose order is kept |
| Roadmap.SortIsStable | enliven-backend/controllers/roadmapController.js:161 | The sort is stable: for every number, the topics carrying it keep their relative order |
| Roadmap.FallbackIsSorted | enliven-backend/controllers/roadmapController.js:147-161 | The fallback is already in order, so the sort keeps it |
| Roadmap.AllowedTitles | enliven-backend/controllers/roadmapController.js:24 | Every title kept is non-empty and is some step's title, and every non-empty step title is kept |
| Roadmap.AllowedTitlesConcat | enliven-backend/controllers/roadmapController.js:24 | The titles keep catalogue order: loading two runs of steps gives the first run's titles, then the second's |
| Roadmap.AllowedTitlesOne | enliven-backend/controllers/roadmapController.js:24 | One step contributes its title exactly when the title is non-empty |
| Roadmap.GenerateRoadmap | enliven-backend/controllers/roadmapController.js:71-166 | Through Roadmap.GeneratedAs: missing domain or level is a 400; a missing content file a 500; no titles a 400; otherwise the learner's roadmap under the normalised domain and level, holding a sorted, non-empty permutation of the chosen topics |
| Roadmap.RoadmapStore.constructor | enliven-backend/models/Roadmap.js:9-19 | A store starts without roadmaps; each stored roadmap is keyed by its learner |
| Roadmap.RoadmapStore.Generate | enliven-backend/controllers/roadmapController.js:71-166 | The answer satisfies Roadmap.GeneratedAs (the 400/500/400 failures, and on success the slugs, level and sorted chosen topics); a success upserts exactly that roadmap under the learner's id, a failure changes nothing |
| Course.KeyIndex | enliven-backend/controllers/courseController.js:33 | The position of a key in the map, or none exactly when the key is absent |
| Course.Lookup | enliven-backend/controllers/courseController.js:33 | `map.get(k)` is none exactly when no entry has key k, and the entry's value otherwise |
| Course.MapSet | enliven-backend/controllers/courseController.js:102-104 | `map.set` keeps keys distinct, overwrites an existing key in place and appends a new one |
| Course.MapSetLookup | enliven-backend/controllers/courseController.js:102-104 | After `set(k, v)`, `get(k)` is v and every other key reads as before |
| Course.BuildStepMap | enliven-backend/controllers/courseController.js:102-104 | The step map has distinct keys |
| Course.StepMapAbsent | enliven-backend/controllers/courseController.js:102-104 | A key no step normalises to is absent |
| Course.StepMapLastWins | enliven-backend/controllers/courseController.js:102-104 | Equal normalised titles leave one entry holding the last such step |
| Course.WithinIndex | enliven-backend/controllers/courseController.js:36-38 | The first entry whose key contains or is contained in the title, in insertion order |
| Course.OverlapIndex | enliven-backend/controllers/courseController.js:41-46 | The first entry whose key has a whole word equal to a candidate word |
| Course.SmartMatch | enliven-backend/controllers/courseController.js:28-49 | An empty title matches nothing; any match is a value of the map |
| Course.SmartMatchExact | enliven-backend/controllers/courseController.js:29-33 | An exact normalised key wins and yields that key's step |
| Course.SmartMatchContainment | enliven-backend/controllers/courseController.js:36-38 | With no exact key, the first containment entry in insertion order wins |
| Course.SmartMatchOverlap | enliven-backend/controllers/courseController.js:41-46 | With neither exact nor containment, the first whole-word overlap entry wins |
| Course.SmartMatchNoneIff | enliven-backend/controllers/courseController.js:28-49 | A non-empty title matches nothing exactly when no tier matches |
| Course.SmartMatchShortWords | enliven-backend/controllers/courseController.js:41-48 | A title whose words are all at most 2 characters long cannot match by overlap |
| Course.MergeItem | enliven-backend/controllers/courseController.js:110-128 | An item keeps the topic's fields; one video per matched link titled with the topic title and the matched resources; an unmatched topic gets neither |
| Course.MergeItemsFollowTopics | enliven-backend/controllers/courseController.js:107-129 | One item per topic, in non-decreasing sequence order, built from a permutation of the topics |
| Course.SlugNoTrimIsStable | enliven-backend/controllers/courseController.js:21-22 | `loadContent` re-slugging an already slugged domain changes nothing |
| Course.GetMergedCourse | enliven-backend/controllers/courseController.js:75-144 | The roadmap must match the slugged domain and level or the answer is a 404; a missing content file is a 500; a success carries the stored slugs and the topics merged with that file's step map, one item per topic |
| Course.GeneratedRoadmapIsFound | enliven-backend/controllers/courseController.js:80-98 | A roadmap stored by the generator is found by the merged view asked with the stored slugs, with one item per topic |
| CourseLessons.Before | enliven-frontend/src/components/pages/CoursePage.jsx:42 | `split(sep)[0]` is a prefix of the input that ends where the first occurrence of sep starts, and the whole input when sep does not occur |
| CourseLessons.BeforeHasNo | enliven-frontend/src/components/pages/CoursePage.jsx:42 | What `split(sep)[0]` keeps does not contain sep |
| CourseLessons.ConvertToEmbed | enliven-frontend/src/components/pages/CoursePage.jsx:38-49 | A `watch?v=` link has its first `watch?v=` replaced by `embed/`; a `youtu.be/` link becomes the embed prefix and an id without `?`; a url with neither host marker is kept |
| CourseLessons.ConvertShortLink | enliven-frontend/src/components/pages/CoursePage.jsx:41-47 | A `youtu.be/` link embeds the text after the first `youtu.be/`, cut at the next `youtu.be/` and then at the first `?`; a `youtu.be` without the slash (the split throws) is kept unchanged |
| CourseLessons.ShortLinkId | enliven-frontend/src/components/pages/CoursePage.jsx:42 | The short-link id holds no `?` |
| CourseLessons.ContainsShorter | enliven-frontend/src/components/pages/CoursePage.jsx:41-42 | A url holding `youtu.be/` holds `youtu.be` |
| CourseLessons.BuildSection | enliven-frontend/src/components/pages/CoursePage.jsx:127-161 | Video lessons first, in order, with ids `<seq>-V<i+1>` and their index; then readings with ids `<seq>-R<j+1>`; all locked and not expanded |
| CourseLessons.BuildSections | enliven-frontend/src/components/pages/CoursePage.jsx:127 | One section per merged item, in order |
| CourseLessons.LessonIdParts | enliven-frontend/src/components/pages/CoursePage.jsx:133 | A lesson id is the section id, '-', the tag and the 1-based position |
| CourseLessons.LessonIdInjective | enliven-frontend/src/components/pages/CoursePage.jsx:133-145 | Two lesson ids of one item agree only for the same kind and position |
| CourseLessons.SectionIdsDistinct | enliven-frontend/src/components/pages/CoursePage.jsx:127-161 | Lesson ids within a section are pairwise distinct |
| CourseLessons.CrossSectionIdsDistinct | enliven-frontend/src/components/pages/CoursePage.jsx:133-145 | Lessons of items with different sequence numbers never share an id |
| CourseLessons.Flatten | enliven-frontend/src/components/pages/CoursePage.jsx:220 | `flatMap` of no sections is empty |
| CourseLessons.FlattenMember | enliven-frontend/src/components/pages/CoursePage.jsx:220 | Every lesson of the flat list is a lesson of some section |
| CourseLessons.BuiltIdsDistinct | enliven-frontend/src/components/pages/CoursePage.jsx:127-161 | Distinct sequence numbers give a course whose lesson ids are all distinct |
| CourseLessons.FlattenSameLessons | enliven-frontend/src/components/pages/CoursePage.jsx:220 | Sections agreeing up to status flatten to lists agreeing up to status |
| CourseLessons.SameLessonsDistinct | enliven-frontend/src/components/pages/CoursePage.jsx:269-274 | Changing statuses keeps ids distinct |
| CourseLessons.CompletedCount | enliven-frontend/src/components/pages/CoursePage.jsx:222 | The completed count is at most the number of lessons |
| CourseLessons.CompletedCountIsCardinality | enliven-frontend/src/components/pages/CoursePage.jsx:222 | The count equals the size of the set of positions whose lesson is completed |
| CourseLessons.CoursePercent | enliven-frontend/src/components/pages/CoursePage.jsx:220-223 | The percent lies in [0,100] (an empty course counts as one lesson); 100 when every lesson is completed, 0 when none is |
| CourseLessons.FreshSectionNotCompleted | enliven-frontend/src/components/pages/CoursePage.jsx:233-237 | A section without videos is never completed, nor is a freshly built one |
| CourseLessons.SectionCompletedMonotone | enliven-frontend/src/components/pages/CoursePage.jsx:233-237 | A completed section stays completed when no video loses its completion |
| CoursePage.MarkLessons | enliven-frontend/src/components/pages/CoursePage.jsx:170-175 | The marking loop computes the marked lessons |
| CoursePage.MarkKeepsShape | enliven-frontend/src/components/pages/CoursePage.jsx:170-175 | Marking changes only statuses |
| CoursePage.CurrentPos | enliven-frontend/src/components/pages/CoursePage.jsx:178-180 | The first video whose index is the saved `currentIndex`, or none exactly when there is none |
| CoursePage.CurrentPosAfterMark | enliven-frontend/src/components/pages/CoursePage.jsx:170-180 | Marking does not move the video at the saved index |
| CoursePage.ProgressMarksLessons | enliven-frontend/src/components/pages/CoursePage.jsx:170-186 | On locked lessons: a video is completed exactly when its index maps to true; the video at `currentIndex` is current unless completed; the rest stay locked; that video is the section's candidate |
| CoursePage.FirstCurrent | enliven-frontend/src/components/pages/CoursePage.jsx:188-191 | The first section offering a lesson at its saved index, none before it, or none at all |
| CoursePage.Marked | enliven-frontend/src/components/pages/CoursePage.jsx:166-193 | One section out per section in, with the same id and title, its saved progress applied to its lessons, and expanded when it was or when it is the chosen section |
| CoursePage.ApplySection | enliven-frontend/src/components/pages/CoursePage.jsx:167-192 | One pass applies the section's progress and expands it when it is the first to offer an active lesson |
| CoursePage.ApplyAll | enliven-frontend/src/components/pages/CoursePage.jsx:166-193 | The loop applies progress to every section, expands the first offering an active lesson, and picks that lesson as `initialActive` |
| CoursePage.AppliedKeepsLessons | enliven-frontend/src/components/pages/CoursePage.jsx:166-192 | Applying progress keeps a section's lessons and id, and its active lesson is one of them |
| CoursePage.LoadedKeepsLessons | enliven-frontend/src/components/pages/CoursePage.jsx:164-199 | After loading every lesson keeps its identity; only statuses and expansion change; the active lesson is one of the lessons shown |
| CoursePage.LoadWithoutProgress | enliven-frontend/src/components/pages/CoursePage.jsx:195-199 | With no saved progress the first lesson of the first section is the only current one and is active, its section the only expanded one |
| CoursePage.LoadedSectionIsApplied | enliven-frontend/src/components/pages/CoursePage.jsx:166-199 | Away from the fallback a loaded section holds its lessons with progress applied |
| CoursePage.LoadAppliesProgress | enliven-frontend/src/components/pages/CoursePage.jsx:166-199 | A section with saved progress shows it: completed iff the index maps to true, current iff at the saved index and not done, locked otherwise |
| CoursePage.LoadedIdsDistinct | enliven-frontend/src/components/pages/CoursePage.jsx:127-199 | Topics with distinct sequence numbers give lessons with distinct ids after loading |
| CoursePage.LoadFallsBackToFirstLesson | enliven-frontend/src/components/pages/CoursePage.jsx:195-199 | Without an active lesson the first lesson becomes current and active, even if progress had completed it |
| CoursePage.IdPos | enliven-frontend/src/components/pages/CoursePage.jsx:277 | `findIndex` by id: the first position with that id, or none exactly when none has it |
| CoursePage.SectionOf | enliven-frontend/src/components/pages/CoursePage.jsx:281 | The first section with the active lesson's topic id, or none exactly when none has it |
| CoursePage.BuildVideoProgress | enliven-frontend/src/components/pages/CoursePage.jsx:284-289 | The loop builds the section's video-progress map |
| CoursePage.MaxVideoIndex | enliven-frontend/src/components/pages/CoursePage.jsx:305-306 | The largest index among indexed videos, absent exactly when there are none |
| CoursePage.UnlockLesson | enliven-frontend/src/components/pages/CoursePage.jsx:317-326 | The two `forEach` passes make the lesson current everywhere and expand the sections holding it |
| CoursePage.RelabelAll | enliven-frontend/src/components/pages/CoursePage.jsx:317-321 | One section out per section in; each keeps everything but its lessons, which are relabelled |
| CoursePage.ExpandHolding | enliven-frontend/src/components/pages/CoursePage.jsx:323-326 | One section out per section in; each keeps everything but `expanded`, which becomes true exactly for sections already expanded or holding the lesson |
| CoursePage.FlattenRelabel | enliven-frontend/src/components/pages/CoursePage.jsx:269-276 | Relabelling section by section relabels the flat lesson list |
| CoursePage.FlattenExpand | enliven-frontend/src/components/pages/CoursePage.jsx:323-326 | Expanding sections does not change the flat lesson list |
| CoursePage.CompleteEffect | enliven-frontend/src/components/pages/CoursePage.jsx:265-356 | Lessons are kept up to status; the active id is completed; an opening next lesson is current and active; everything else is unchanged |
| CoursePage.CompleteChangesAtMostTwo | enliven-frontend/src/components/pages/CoursePage.jsx:269-352 | With distinct ids only positions i and i+1 change: i is completed, i+1 becomes current and active exactly when it unlocks |
| CoursePage.NextIsFollowing | enliven-frontend/src/components/pages/CoursePage.jsx:276-278 | With distinct ids the next lesson is the one after the completed lesson's position |
| CoursePage.ModuleBoundaryNeedsTest | enliven-frontend/src/components/pages/CoursePage.jsx:312-349 | Across a module boundary a locked next lesson opens exactly when `test-<domain>-<level>-<module>` is "done"; otherwise the active lesson stays |
| CoursePage.CompleteSave | enliven-frontend/src/components/pages/CoursePage.jsx:243-309 | A save is sent exactly when the lesson's module is on the page; it carries the page's `domain-level` course id, the lesson's topic and that module's video progress after the completion |
| CoursePage.CompleteKeepsCompleted | enliven-frontend/src/components/pages/CoursePage.jsx:265-356 | A completed lesson stays completed |
| CoursePage.CompleteKeepsIdsDistinct | enliven-frontend/src/components/pages/CoursePage.jsx:265-356 | Completing a lesson keeps ids distinct |
| CoursePage.CompletedCountMonotone | enliven-frontend/src/components/pages/CoursePage.jsx:222 | The completed count never drops when completed lessons stay completed |
| CoursePage.CompleteNeverLowersPercent | enliven-frontend/src/components/pages/CoursePage.jsx:220-223 | Completing a lesson never lowers the course percent |
| CoursePage.BuiltLayout | enliven-frontend/src/components/pages/CoursePage.jsx:131-153 | A built section has its videos at positions 0..n-1 indexed by position, then readings without an index |
| CoursePage.VideoProgressOfLayout | enliven-frontend/src/components/pages/CoursePage.jsx:284-289 | On that layout the saved map has one key per video, mapping to whether it is completed |
| CoursePage.SaveIndexOfLayout | enliven-frontend/src/components/pages/CoursePage.jsx:291-307 | The saved `currentIndex` is the first non-completed video; the last video when all are completed; 0 without videos |
| CoursePage.SaveThenReload | enliven-frontend/src/components/pages/CoursePage.jsx:284-309 | Saving a section and loading it again completes exactly the videos that were completed and no reading |
| CoursePage.CourseView.constructor | enliven-frontend/src/components/pages/CoursePage.jsx:79-84 | A page starts with no sections and no active lesson |
| CoursePage.CourseView.Load | enliven-frontend/src/components/pages/CoursePage.jsx:127-204 | The loaded sections and active lesson are those of the specification of loading |
| CoursePage.CourseView.CompleteCurrentLesson | enliven-frontend/src/components/pages/CoursePage.jsx:265-356 | The new sections, active lesson and save request are those of the completion specification |
| Progress.FindTopic | enliven-backend/controllers/progressController.js:29 | The first entry with the topic id, or none exactly when none has it |
| Progress.UpsertExisting | enliven-backend/controllers/progressController.js:29-35 | An existing entry is updated in place; every other entry and the length are unchanged |
| Progress.UpsertNew | enliven-backend/controllers/progressController.js:36-42 | A new topic id is appended as exactly one entry at the end |
| Progress.UpsertKeepsUnique | enliven-backend/controllers/progressController.js:29-42 | Topic ids stay unique and the topic's entry holds the saved fields |
| Progress.ProgressMapLastWins | enliven-frontend/src/components/pages/CoursePage.jsx:55-69 | An id is in the progress map iff an entry has it, and maps to the last such entry |
| Progress.BuildProgressMap | enliven-backend/controllers/learningpathController.js:37-44 | The loop builds that map |
| Progress.ProgressStore.constructor | enliven-backend/controllers/progressController.js:17 | A store starts with no documents |
| Progress.ProgressStore.ProgressFor | enliven-backend/controllers/progressController.js:63-67 | Without a document the progress list is empty, otherwise it is the document's list |
| Progress.ProgressStore.Save | enliven-backend/controllers/progressController.js:7-52 | A missing course or topic id is a 400 and changes nothing; otherwise the document, created if missing, gets the upsert with `videoProgress \|\| {}` and `Number(currentIndex) \|\| 0`; no other document changes; ids stay unique |
| LearningPathOverview.DoneAtMostTracked | enliven-backend/controllers/learningpathController.js:55-56 | Done videos are among the tracked ones |
| LearningPathOverview.Percent | enliven-backend/controllers/learningpathController.js:61 | 0 when nothing is tracked or done; at most 100 when done <= seen; 100 when all are done |
| LearningPathOverview.RowFor | enliven-backend/controllers/learningpathController.js:51-71 | A row keeps the topic's fields; done <= tracked and percent <= 100; `next` is null exactly without saved progress |
| LearningPathOverview.SumDoneAtMostTracked | enliven-backend/controllers/learningpathController.js:58-59 | The done total never exceeds the tracked total |
| LearningPathOverview.BuildRows | enliven-backend/controllers/learningpathController.js:47-72 | One row per sorted topic and the accumulators are the sums of the rows' counts |
| LearningPathOverview.GetLearningPathOverview | enliven-backend/controllers/learningpathController.js:8-83 | No roadmap gives empty topics, zero totals and no continue path; otherwise sorted rows, summed totals, overall percent in [0,100] |
| LearningPathView.Pct | enliven-frontend/src/components/pages/LearningPath.jsx:20 | 0 when the total is not positive or nothing is done; at most 100 when done <= total; 100 when all are done |
| LearningPathView.CountDone | enliven-frontend/src/components/pages/LearningPath.jsx:23-26 | 0 without a progress object, otherwise the number of true values |
| LearningPathView.StatFor | enliven-frontend/src/components/pages/LearningPath.jsx:93-103 | The total is the larger of done and the number of keys, the percent is `pct` of them |
| LearningPathView.StatsBounded | enliven-frontend/src/components/pages/LearningPath.jsx:92-104 | Every statistic has total >= done, so percent <= 100 |
| LearningPathView.StatsLastWins | enliven-frontend/src/components/pages/LearningPath.jsx:92-104 | A topic's statistics are those of its last saved row |
| LearningPathView.BuildTopicStats | enliven-frontend/src/components/pages/LearningPath.jsx:92-104 | The loop builds those statistics, all bounded |
| LearningPathView.SumsBounded | enliven-frontend/src/components/pages/LearningPath.jsx:142-151 | The done sum never exceeds the total sum |
| LearningPathView.ComputeTotals | enliven-frontend/src/components/pages/LearningPath.jsx:142-152 | The `reduce` gives the sums of the per-topic counts and the overall percent, in [0,100] |
| LearningPathView.StatusFor | enliven-frontend/src/components/pages/LearningPath.jsx:155-162 | The first module is unlocked; any other is unlocked iff the previous topic of the unsorted list is at exactly 100% |
| LearningPathView.CardStatus | enliven-frontend/src/components/pages/LearningPath.jsx:239-240 | A card at 100% is completed; otherwise it takes `statusFor` of its index |
| LearningPathView.CardLockFollowsPreviousCard | enliven-frontend/src/components/pages/LearningPath.jsx:233-240 | For a stored (sorted) roadmap, a card is open iff the card before it is at 100% |
| Assessment.CountCorrect | enliven-frontend/src/components/pages/AssessmentPage.jsx:143-146 | The count of correct answers never exceeds the questions counted |
| Assessment.CountCorrectIsCardinality | enliven-frontend/src/components/pages/AssessmentPage.jsx:143-146 | The count equals the number of positions whose answer is the correct index |
| Assessment.AllCorrectCountsAll | enliven-frontend/src/components/pages/AssessmentPage.jsx:143-146 | All answers correct counts every question |
| Assessment.NoneCorrectCountsNone | enliven-frontend/src/components/pages/AssessmentPage.jsx:143-146 | No correct answer counts zero |
| Assessment.CountCorrectMonotone | enliven-frontend/src/components/pages/AssessmentPage.jsx:143-146 | More correct answers never lower the count |
| Assessment.ScoreOf | enliven-frontend/src/components/pages/AssessmentPage.jsx:140-153 | 0/0/0 without questions; otherwise correct <= total = number of questions and percent <= 100 |
| Assessment.CalculateResults | enliven-frontend/src/components/pages/AssessmentPage.jsx:140-153 | The counting loop computes the score |
| Assessment.ExtremeScores | enliven-frontend/src/components/pages/AssessmentPage.jsx:140-153 | All correct scores 100; none correct fails |
| Assessment.PassedIff | enliven-frontend/src/components/pages/AssessmentPage.jsx:251 | Passing (rounded percent >= 60) holds exactly when 200 correct >= 119 total |
| Assessment.MarkTestComplete | enliven-frontend/src/components/pages/AssessmentPage.jsx:45-51 | The final or module-test key is set to "done" and no other key changes |
| Assessment.SubmittedView | enliven-frontend/src/components/pages/AssessmentPage.jsx:239-257 | There is a submitted view exactly when questions were loaded |
| Assessment.SubmittedViewEffect | enliven-frontend/src/components/pages/AssessmentPage.jsx:249-257 | Passing marks the key done, failing leaves storage alone, no other key changes, and a badge is requested iff final and passed |
| Assessment.SubmittedViewKeepsOtherKind | enliven-frontend/src/components/pages/AssessmentPage.jsx:45-51 | A module test never marks a final done, nor a final a module test |
| Assessment.SubmittedViewIdempotent | enliven-frontend/src/components/pages/AssessmentPage.jsx:249-254 | Re-rendering the submitted view leaves storage as after the first render |
| Assessment.PassedTestOpensNextModule | enliven-frontend/src/components/pages/AssessmentPage.jsx:249-254 | Passing a module test makes the locked first lesson of the next module current on the next completion |
| Assessment.FormatTime | enliven-frontend/src/components/pages/AssessmentPage.jsx:155-159 | The clock is digits, ':' and two more digits |
| Assessment.SmallNatDigits | enliven-frontend/src/components/pages/AssessmentPage.jsx:157-158 | A number below 100 has at most two digits, below 10 one |
| Assessment.PaddedValue | enliven-frontend/src/components/pages/AssessmentPage.jsx:158 | The padded seconds are two digits reading back as the seconds |
| Assessment.FormatTimeRoundTrip | enliven-frontend/src/components/pages/AssessmentPage.jsx:155-159 | The minutes read back as seconds/60 and the seconds as seconds%60, recombining to the input |
| Assessment.FormatTimeInjective | enliven-frontend/src/components/pages/AssessmentPage.jsx:155-159 | Different times show different clocks |
| Assessment.ThirdViolationSubmits | enliven-frontend/src/components/pages/AssessmentPage.jsx:184-190 | Each violation adds one; the test is submitted once the count reaches 3, and not before |
| Assessment.CountdownSubmits | enliven-frontend/src/components/pages/AssessmentPage.jsx:164-174 | The timer never goes negative; a taking test is submitted once the time runs out, and counts down before |
| Assessment.SubmittedStays | enliven-frontend/src/components/pages/AssessmentPage.jsx:165 | A submitted test's timer stops |
| Assessment.Session.Clock | enliven-frontend/src/components/pages/AssessmentPage.jsx:155-159 | The shown clock of a valid session is `m:ss` with one or two minute digits and reads back to the remaining seconds |
| Assessment.Session.constructor | enliven-frontend/src/components/pages/AssessmentPage.jsx:18-31 | A session starts with no questions, 600 seconds, no violations, taking |
| Assessment.Session.LoadQuestions | enliven-frontend/src/components/pages/AssessmentPage.jsx:89-117 | Loaded questions come with one empty answer each; a failed load changes nothing |
| Assessment.Session.SelectAnswer | enliven-frontend/src/components/pages/AssessmentPage.jsx:122-126 | Only the slot at the current question changes (holes past the end are empty) |
| Assessment.Session.Next | enliven-frontend/src/components/pages/AssessmentPage.jsx:352-353 | Moves forward unless at the last question |
| Assessment.Session.Previous | enliven-frontend/src/components/pages/AssessmentPage.jsx:346-347 | Moves back unless at the first question |
| Assessment.Session.Submit | enliven-frontend/src/components/pages/AssessmentPage.jsx:128-130 | The test is submitted and nothing else changes |
| Assessment.Session.Retake | enliven-frontend/src/components/pages/AssessmentPage.jsx:132-138 | Every answer empty, question 0, 600 seconds, no violations, taking |
| Assessment.Session.RegisterViolation | enliven-frontend/src/components/pages/AssessmentPage.jsx:184-190 | One more violation, submitting at the third |
| Assessment.Session.Tick | enliven-frontend/src/components/pages/AssessmentPage.jsx:164-174 | One second of the countdown, submitting at zero |
| Assessment.Session.Finish | enliven-frontend/src/components/pages/AssessmentPage.jsx:249-257 | The submitted view of the session's questions and answers |
| Badges.AwardTo | enliven-backend/controllers/badgeController.js:11-20 | "Already earned" is reported exactly when a badge with that id is held |
| Badges.AwardEffect | enliven-backend/controllers/badgeController.js:11-18 | A held badge leaves the list unchanged; a new one is appended with its award time, earlier badges untouched; the badge is held afterwards |
| Badges.AwardKeepsIdsDistinct | enliven-backend/controllers/badgeController.js:11-20 | Badge ids stay pairwise distinct |
| Badges.AwardIdempotent | enliven-backend/controllers/badgeController.js:11-20 | Awarding twice equals awarding once, the second reporting "already earned" |
| Badges.AwardKeepsHeld | enliven-backend/controllers/badgeController.js:15-20 | Every badge held before is still held |
| Badges.Learners.constructor | enliven-backend/controllers/badgeController.js:8 | The store holds the given badge lists |
| Badges.Learners.AwardBadge | enliven-backend/controllers/badgeController.js:3-28 | An unknown user is a 500 changing nothing; a missing badge is a 500 changing nothing when the user holds any entry, and appends an entry with only its award time when the list is empty; otherwise the user's list is the award result; no other list changes |
| ChatContext.MergeEffect | enliven-backend/controllers/chatbotContextController.js:19-23 | Payload keys take the payload's values; `lastEvent` is the event unless the payload carries one; other old keys keep their values |
| ChatContext.MergeIdempotent | enliven-backend/controllers/chatbotContextController.js:19-23 | Sending the same update twice gives the context of one update |
| ChatContext.FirstUpdate | enliven-backend/controllers/chatbotContextController.js:14-16 | A learner's first update yields exactly `lastEvent` and the payload |
| ChatContext.Contexts.constructor | enliven-backend/controllers/chatbotContextController.js:12 | The store holds the given records |
| ChatContext.Contexts.UpdateContext | enliven-backend/controllers/chatbotContextController.js:3-32 | No user id is a 400 changing nothing; otherwise the learner's record, created if missing, gets the merged context, its messages and other records unchanged |
| ChatContext.Contexts.GetChatHistory | enliven-backend/controllers/chatbotContextController.js:33-45 | A learner without a record has no messages; otherwise the stored messages |
| Proctor.StripFences | enliven-backend/controllers/proctorController.js:15 | Removing fences never lengthens the text |
| Proctor.StripFencesNoTicks | enliven-backend/controllers/proctorController.js:15 | Text without backticks is unchanged |
| Proctor.StripFencesHead | enliven-backend/controllers/proctorController.js:15 | A leading character that is not a backtick is kept |
| Proctor.StripFencesNoFence | enliven-backend/controllers/proctorController.js:15 | No three backticks remain after stripping |
| Proctor.TickNotFollowedByTwo | enliven-backend/controllers/proctorController.js:15 | A lone leading backtick is not followed by two after stripping |
| Proctor.CharFrom | enliven-backend/controllers/proctorController.js:18 | The next occurrence of a character at or after a position, or the end |
| Proctor.FragmentsShape | enliven-backend/controllers/proctorController.js:18 | Every fragment starts with `{`, ends with the first `}` after it, and holds no other `}` |
| Proctor.FragmentsEmptyIff | enliven-backend/controllers/proctorController.js:18-19 | No fragment is found exactly when no `{` has a `}` after it |
| Proctor.DropCommaBefore | enliven-backend/controllers/proctorController.js:27-28 | Dropping trailing commas never lengthens the text; what it does is stated by DropCommaRepairs, DropCommaKeepsLoneComma and DropCommaKeepsChar |
| Proctor.DropCommaRepairs | enliven-backend/controllers/proctorController.js:27-28 | A comma, white space and the bracket become the bracket alone, and the rest is repaired after it |
| Proctor.DropCommaKeepsLoneComma | enliven-backend/controllers/proctorController.js:27-28 | A comma whose white space is followed by anything but the bracket is kept |
| Proctor.DropCommaKeepsChar | enliven-backend/controllers/proctorController.js:27-28 | Every character other than a comma is kept |
| Proctor.TrimLeftSpaces | enliven-backend/controllers/proctorController.js:27-28 | The `\s*` of the pattern: white space ahead of a non-space character is exactly what is skipped |
| Proctor.RemoveControls | enliven-backend/controllers/proctorController.js:29 | No control character U+0000-U+001F remains |
| Proctor.Clean | enliven-backend/controllers/proctorController.js:26-29 | The repaired fragment is no longer and has no control character |
| Proctor.SignificantTrimLeft | enliven-backend/controllers/proctorController.js:27 | Leading white space is not significant |
| Proctor.DropCommaKeepsSignificant | enliven-backend/controllers/proctorController.js:27-28 | Only commas and white space are ever dropped: every other character survives, in order |
| Proctor.DropCommaNoComma | enliven-backend/controllers/proctorController.js:27-28 | A fragment without commas is unchanged |
| Proctor.RemoveControlsNone | enliven-backend/controllers/proctorController.js:29 | A fragment without control characters is unchanged |
| Proctor.CleanIdentity | enliven-backend/controllers/proctorController.js:26-29 | Repair leaves a clean fragment unchanged |
| Proctor.ParsedPrefix | enliven-backend/controllers/proctorController.js:23-36 | At most one object per fragment |
| Proctor.ParsedOne | enliven-backend/controllers/proctorController.js:24-35 | A fragment gives its parsed object or nothing |
| Proctor.ParsedPrefixOfConcat | enliven-backend/controllers/proctorController.js:23-36 | Later fragments do not affect earlier results |
| Proctor.ParsedConcat | enliven-backend/controllers/proctorController.js:23-36 | Parsing is fragment by fragment, preserving order |
| Proctor.ParsedLast | enliven-backend/controllers/proctorController.js:23-36 | One more fragment appends its result at the end |
| Proctor.ParsedEmptyIff | enliven-backend/controllers/proctorController.js:23-40 | Nothing is parsed exactly when every fragment fails |
| Proctor.ParsedAllKept | enliven-backend/controllers/proctorController.js:23-36 | When every fragment parses, every result is kept, in order |
| Proctor.SafelyParse | enliven-backend/controllers/proctorController.js:12-43 | The result equals the extraction specification: empty reply, no fragment, all fragments invalid, or the parsed objects |
| Proctor.ParseFragments | enliven-backend/controllers/proctorController.js:21-36 | The loop yields the parsed objects of the fragments, in fragment order, skipping those that fail to parse |
| Proctor.SafelyParseOutcome | enliven-backend/controllers/proctorController.js:12-43 | Empty input fails; no fragment fails; all fragments invalid fails; otherwise a non-empty list, at most one per fragment |
| Proctor.Normalize | enliven-backend/controllers/proctorController.js:89-96 | min(count, number parsed) questions |
| Proctor.NormalizeEffect | enliven-backend/controllers/proctorController.js:89-96 | Each question keeps its question, options, correct index, explanation and difficulty; its id is its own non-empty id, or `q<i+1>` when the id is missing or empty; never an empty id |
| Proctor.DefaultIdsDistinct | enliven-backend/controllers/proctorController.js:90 | Default ids of different positions differ |
| Proctor.NormalizeIdsDistinct | enliven-backend/controllers/proctorController.js:89-96 | Without own ids, the questions' ids are pairwise distinct |
| Proctor.NormalizePrefix | enliven-backend/controllers/proctorController.js:89-96 | A smaller count gives a prefix of a larger count's questions |

## Left out

- Floating point: `Math.round(a / b * 100)` is exact round-half-up on integers, so NaN, infinities and binary rounding are not modelled.
- Case and white space are ASCII only. `toLowerCase`, `toUpperCase`, `trim` and `\s` do not cover Unicode letters or Unicode spaces.
- Language-model calls, prompts and `fetch` are not modelled. The reply is a parameter, and a failed request is the absent reply. `JSON.parse` is an abstract partial function given as a parameter. The question records are typed fields, not arbitrary JSON.
- Mongoose and file reads become maps. Save failures and the 500 responses of a throwing database are not modelled, except where a missing record is named explicitly.
- Clocks are parameters. `setInterval`, `setTimeout`, the camera and the blur, visibility and context-menu listeners are not modelled. Only the countdown and violation arithmetic is kept, as `Tick` and `RegisterViolation`.
- `updateStudyBuddyContext`, note generation and the notes tab on the course page are not modelled.
- `getCourseContent` (courseController.js:54-69) only echoes a content file. It is not modelled beyond `Catalog`.
- `getUserRoadmap` is not modelled; the roadmap store is read directly.
- `normalizeProgress` and `mapToObj` convert between string keys and numbers. `videoProgress` is a map from integers, so both conversions are identities here.
- A reading resource object without a `url` is not modelled. The source would store the object itself as the resource.
- Proctor.NormalizeEffect: a falsy id other than a missing or empty one (`0`, `false`) is not modelled, because ids are strings or absent.
- Assessment.Session.LoadQuestions: a missing or `null` `correctIndex` is not modelled, because it is an integer here. JavaScript's `null` and `undefined` answer holes are both `None`.
- ChatContext.Contexts.UpdateContext: Mongo's dropping of `undefined` values on save is not modelled. A missing `event` is stored as `Undefined`.
- Badges.Learners.AwardBadge: the model gives each learner the `badges` list that the badge controller reads as `user.badges`. The user schema (enliven-backend/models/User.js:37-45) defines `achievements` and no `badges` path, so with the schema as written `user.badges` is undefined, `user.badges.some` throws, and every request for an existing learner ends in the 500 of badgeController.js:24-26. The model states the controller's paths as if that list existed. The frontend also sends the badge fields unwrapped while the controller reads `req.body.badge`, which would make every request take the missing-badge path. Only `id` of a badge is compared; the other fields a request may carry are not modelled.
- Broken wiring is not modelled as working:
  - The profile routes import `addBadge` and `getBadges`, which the badge controller does not export.
  - The progress routes import `saveAssessmentProgress`, which the progress controller does not define.
  - The study-buddy helper wraps its payload as `{context: ...}`, so `event` is undefined on that path.
  - The dashboard looks up a roadmap and never uses it.
- LearningPathView.StatusFor: `statusFor` reads the previous topic from the roadmap's own order, while the cards are sorted. The model keeps both orders, and CardLockFollowsPreviousCard states the agreement only for sorted (stored) roadmaps.
- CoursePage.CourseView.CompleteCurrentLesson: which lesson stays active when nothing opens is decided by the page's `activeLesson` captured before the update. The model keeps that object, so its status field is the pre-completion one.
- The course page's `activeLesson` after a module-boundary alert is the old object. The alert itself is not modelled.
- CourseLessons.ConvertToEmbed: its own contract gives the `watch?v=` rewrite, the embed prefix and the `?`-free id; which id a short link gets, and the unchanged url of a `youtu.be` without the slash, are stated by CourseLessons.ConvertShortLink, kept apart to keep the function's own proof small.
- Text.Trim: its own contract gives the length bound and the non-space ends; that it keeps a slice and drops only white space is stated by Text.TrimIsSlice, kept apart so the many proofs that use `trim` do not carry those quantifiers.
- Text.Words: its own contract says only that each piece is a word; how a string splits into words is stated by Text.WordsSplit, Text.WordsSkipSpace and Text.WordsOfWord, which together determine the result.
- Text.LongWords: its own contract gives only the length bound; membership is stated by Text.LongWordsMembers, and order and repetitions by Text.LongWordsConcat and Text.LongWordsOne.
- Text.RemoveAll: the contract does not say which occurrences go (left to right, without overlap); Text.RemoveAllCanLeaveOccurrence shows that the result may still contain the pattern, as in the source.
- Roadmap.SequenceNumber: `Number(step.sequenceNumber)` is an integer or absent here. A fractional number, or a string that reads as one, is not modelled.
- `getGroqClient()` (roadmapController.js:93) runs outside the inner `try`, so a client that cannot be created is a 500, not the fallback. Client creation is not modelled; the reply is a parameter.
- TitleCase.Capitalize: its own contract states only the length; the content (upper-cased first letter, lower-cased rest) is stated by TitleCase.Caps, TitleCase.LowerCapitalize and TitleCase.TitleHead.
- `allModulesCompleted` is stated by its definition (`CourseLessons.AllModulesCompleted`: some section, and all completed). It has no separate lemma.

## Notes on the code

- On load, the first section that holds a video at its saved `currentIndex` supplies the active lesson, even when that video is already completed. The fallback to the first lesson applies only when no section has such a video. In that case the first lesson is made current even if saved progress had completed it (CoursePage.LoadFallsBackToFirstLesson).
- Every section with saved progress gets its own current video, so several lessons can be current after loading. Only the first such section is expanded.
- Two roadmap topics with the same sequence number give sections with the same id, and so duplicate lesson ids. The distinct-id lemmas require distinct sequence numbers.
