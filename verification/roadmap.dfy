/** Roadmap generation (enliven-backend/controllers/roadmapController.js):
    LLM-proposed steps are reconciled with the catalogue titles, de-duplicated,
    numbered, replaced by a deterministic fallback when nothing usable comes
    back, and sorted by sequence number before they are stored. */
module Roadmap {

  import opened Wrappers
  import opened Text
  import opened Search
  import opened Naming
  import opened Catalog

  /** A stored roadmap topic (models/Roadmap.js). */
  datatype Topic = Topic(title: string, description: string, sequenceNumber: int)

  /** A learner's stored roadmap; `domain` and `skillLevel` hold the slugs. */
  datatype RoadmapDoc = RoadmapDoc(userId: string, domain: string, skillLevel: string, topics: seq<Topic>)

  /** One element of the array the LLM returned, after JSON parsing. A missing
      or null field is `None`; a `sequenceNumber` that `Number` turns into NaN
      is `None` as well. */
  datatype LlmStep = LlmStep(title: Option<string>, description: Option<string>, sequenceNumber: Option<int>)

  // ---------------------------------------------------------------------------
  // Title reconciliation: snapToAllowed
  // ---------------------------------------------------------------------------

  /** `t.toLowerCase().trim()`. */
  function NormTitle(t: string): string {
    Trim(Lower(t))
  }

  /** The containment test of the second tier: either string contains the other. */
  predicate ContainsEither(a: string, b: string) {
    Contains(a, b) || Contains(b, a)
  }

  /** The overlap test of the third tier: some candidate word is a substring of `tl`. */
  predicate SharesWord(tl: string, words: seq<string>) {
    exists w :: w in words && Contains(tl, w)
  }

  /** The candidate words of the third tier: white-space separated, longer than 2. */
  function CandidateWords(lower: string): seq<string> {
    LongWords(Words(lower))
  }

  /** First-tier test: `t` equals the candidate once lower-cased and trimmed. */
  predicate ExactHit(t: string, lower: string) {
    NormTitle(t) == lower
  }

  /** Second-tier test: either string contains the other. */
  predicate WithinHit(t: string, lower: string) {
    ContainsEither(Lower(t), lower)
  }

  /** Third-tier test: `t` contains one of the candidate words. */
  predicate OverlapHit(t: string, words: seq<string>) {
    SharesWord(Lower(t), words)
  }

  /** First tier: the first title equal to `lower` once lower-cased and trimmed. */
  function ExactMatch(lower: string, allowed: seq<string>): (r: Option<nat>)
    ensures r.Some? ==> r.value < |allowed| && ExactHit(allowed[r.value], lower)
    ensures r.Some? ==> forall j {:trigger ExactHit(allowed[j], lower)} :: 0 <= j < r.value ==> !ExactHit(allowed[j], lower)
    ensures r.None? ==> forall j {:trigger ExactHit(allowed[j], lower)} :: 0 <= j < |allowed| ==> !ExactHit(allowed[j], lower)
  {
    FirstIndex(allowed, t => ExactHit(t, lower))
  }

  /** Second tier: the first title whose lower-cased form contains `lower` or
      is contained in it. */
  function WithinMatch(lower: string, allowed: seq<string>): (r: Option<nat>)
    ensures r.Some? ==> r.value < |allowed| && WithinHit(allowed[r.value], lower)
    ensures r.Some? ==> forall j {:trigger WithinHit(allowed[j], lower)} :: 0 <= j < r.value ==> !WithinHit(allowed[j], lower)
    ensures r.None? ==> forall j {:trigger WithinHit(allowed[j], lower)} :: 0 <= j < |allowed| ==> !WithinHit(allowed[j], lower)
  {
    FirstIndex(allowed, t => WithinHit(t, lower))
  }

  /** Third tier: the first title containing one of the candidate words. */
  function OverlapMatch(words: seq<string>, allowed: seq<string>): (r: Option<nat>)
    ensures r.Some? ==> r.value < |allowed| && OverlapHit(allowed[r.value], words)
    ensures r.Some? ==> forall j {:trigger OverlapHit(allowed[j], words)} :: 0 <= j < r.value ==> !OverlapHit(allowed[j], words)
    ensures r.None? ==> forall j {:trigger OverlapHit(allowed[j], words)} :: 0 <= j < |allowed| ==> !OverlapHit(allowed[j], words)
  {
    FirstIndex(allowed, t => OverlapHit(t, words))
  }

  /** `snapToAllowed(title, allowedTitles)`: exact match on the normalised
      title, then the first title in list order that contains or is contained
      in it, then the first title containing a candidate word; `None` if no
      tier matches. An exact hit on an empty title falls through, as the
      source's `if (exact)` does. */
  function SnapToAllowed(title: Option<string>, allowed: seq<string>): (r: Option<string>)
    ensures title.None? || title.value == "" ==> r.None?
    ensures r.Some? ==> r.value in allowed
  {
    if title.None? || title.value == "" then None
    else
      var lower := NormTitle(title.value);
      var exact := ExactMatch(lower, allowed);
      if exact.Some? && allowed[exact.value] != "" then Some(allowed[exact.value])
      else
        var within := WithinMatch(lower, allowed);
        if within.Some? then Some(allowed[within.value])
        else
          var overlap := OverlapMatch(CandidateWords(lower), allowed);
          if overlap.Some? then Some(allowed[overlap.value]) else None
  }

  /** Exact tier: the first title equal to the candidate after lower-casing and
      trimming wins over every containment or overlap match. */
  lemma SnapExactTier(title: string, allowed: seq<string>, i: nat)
    requires title != "" && i < |allowed| && allowed[i] != ""
    requires ExactHit(allowed[i], NormTitle(title))
    requires forall j :: 0 <= j < i ==> !ExactHit(allowed[j], NormTitle(title))
    ensures SnapToAllowed(Some(title), allowed) == Some(allowed[i])
  {
    assert ExactMatch(NormTitle(title), allowed) == Some(i);
  }

  /** Containment tier: with no exact match, the first title in list order
      that contains or is contained in the candidate is returned. */
  lemma SnapContainmentTier(title: string, allowed: seq<string>, i: nat)
    requires title != "" && i < |allowed|
    requires forall j :: 0 <= j < |allowed| ==> !ExactHit(allowed[j], NormTitle(title))
    requires WithinHit(allowed[i], NormTitle(title))
    requires forall j :: 0 <= j < i ==> !WithinHit(allowed[j], NormTitle(title))
    ensures SnapToAllowed(Some(title), allowed) == Some(allowed[i])
  {
    var lower := NormTitle(title);
    assert ExactMatch(lower, allowed).None?;
    assert WithinMatch(lower, allowed) == Some(i);
  }

  /** Overlap tier: with no exact and no containment match, the first title
      containing a candidate word longer than 2 characters is returned. */
  lemma SnapOverlapTier(title: string, allowed: seq<string>, i: nat)
    requires title != "" && i < |allowed|
    requires forall j :: 0 <= j < |allowed| ==> !ExactHit(allowed[j], NormTitle(title))
    requires forall j :: 0 <= j < |allowed| ==> !WithinHit(allowed[j], NormTitle(title))
    requires OverlapHit(allowed[i], CandidateWords(NormTitle(title)))
    requires forall j :: 0 <= j < i ==> !OverlapHit(allowed[j], CandidateWords(NormTitle(title)))
    ensures SnapToAllowed(Some(title), allowed) == Some(allowed[i])
  {
    var lower := NormTitle(title);
    assert ExactMatch(lower, allowed).None?;
    assert WithinMatch(lower, allowed).None?;
    assert OverlapMatch(CandidateWords(lower), allowed) == Some(i);
  }

  /** No match: a non-empty candidate is rejected exactly when no title
      matches it in any of the three tiers (counting an exact hit on an empty
      title, the first one found, as no hit). */
  lemma SnapNoneIffNoTier(title: string, allowed: seq<string>)
    requires title != ""
    ensures SnapToAllowed(Some(title), allowed).None? <==>
      (forall j :: 0 <= j < |allowed| && ExactHit(allowed[j], NormTitle(title)) ==>
         allowed[j] == "" || exists k :: 0 <= k < j && ExactHit(allowed[k], NormTitle(title))) &&
      (forall j :: 0 <= j < |allowed| ==> !WithinHit(allowed[j], NormTitle(title))) &&
      (forall j :: 0 <= j < |allowed| ==> !OverlapHit(allowed[j], CandidateWords(NormTitle(title))))
  {
    var lower := NormTitle(title);
    var exact := ExactMatch(lower, allowed);
    var within := WithinMatch(lower, allowed);
    var overlap := OverlapMatch(CandidateWords(lower), allowed);
    assert SnapToAllowed(Some(title), allowed).None? <==>
      (exact.None? || allowed[exact.value] == "") && within.None? && overlap.None?;
    ExactTierFails(lower, allowed);
  }

  /** The exact tier yields nothing usable exactly when every exact hit is
      an empty title or comes after an earlier exact hit. */
  lemma ExactTierFails(lower: string, allowed: seq<string>)
    ensures var exact := ExactMatch(lower, allowed);
      (exact.None? || allowed[exact.value] == "") <==>
      (forall j :: 0 <= j < |allowed| && ExactHit(allowed[j], lower) ==>
         allowed[j] == "" || exists k :: 0 <= k < j && ExactHit(allowed[k], lower))
  {
    var exact := ExactMatch(lower, allowed);
    if exact.Some? && allowed[exact.value] != "" {
      var j := exact.value;
      assert !(allowed[j] == "" || exists k :: 0 <= k < j && ExactHit(allowed[k], lower));
    } else {
      forall j | 0 <= j < |allowed| && ExactHit(allowed[j], lower)
        ensures allowed[j] == "" || exists k :: 0 <= k < j && ExactHit(allowed[k], lower)
      {
        if j != exact.value {
          assert ExactHit(allowed[exact.value], lower);
        }
      }
    }
  }

  lemma {:induction false} TrimAllSpace(s: string)
    requires forall i :: 0 <= i < |s| ==> IsSpace(s[i])
    ensures TrimLeft(s) == []
    decreases |s|
  {
    if s != [] {
      TrimAllSpace(s[1..]);
    }
  }

  /** A candidate made only of white space normalises to the empty string,
      which every title contains: when no catalogue title is blank, it snaps
      to the first title. */
  lemma {:induction false} SnapBlankCandidate(title: string, allowed: seq<string>)
    requires title != "" && forall i :: 0 <= i < |title| ==> IsSpace(title[i])
    requires allowed != []
    requires forall j :: 0 <= j < |allowed| ==> NormTitle(allowed[j]) != ""
    ensures SnapToAllowed(Some(title), allowed) == Some(allowed[0])
  {
    var l := Lower(title);
    assert forall i :: 0 <= i < |l| ==> IsSpace(l[i]);
    TrimAllSpace(l);
    assert NormTitle(title) == "";
    ContainsEmpty(Lower(allowed[0]));
    assert ContainsEither(Lower(allowed[0]), "");
  }

  /** Reconciling a non-empty title against a list holding only itself returns it. */
  lemma SnapReflexive(t: string)
    requires t != ""
    ensures SnapToAllowed(Some(t), [t]) == Some(t)
  {
  }

  // ---------------------------------------------------------------------------
  // Reconciliation of the LLM's steps
  // ---------------------------------------------------------------------------

  /** `Number(step.sequenceNumber) || idx + 1`: the LLM's number, or the
      1-based position of the step when that number is 0 or NaN. */
  function SequenceNumber(n: Option<int>, idx: nat): (r: int)
    ensures r != 0
  {
    if n.Some? && n.value != 0 then n.value else idx + 1
  }

  /** `step.description?.toString() || ""`. */
  function Description(d: Option<string>): string {
    if d.Some? then d.value else ""
  }

  /** The reconciled topics of `steps[i..]` when the titles in `seen` are
      already taken: a step is dropped when its title does not snap or snaps
      to a title already used; otherwise it becomes a topic. */
  function ReconciledFrom(steps: seq<LlmStep>, allowed: seq<string>, i: nat, seen: set<string>): seq<Topic>
    requires i <= |steps|
    decreases |steps| - i
  {
    if i == |steps| then []
    else
      var snapped := SnapToAllowed(steps[i].title, allowed);
      if snapped.None? || snapped.value == "" || snapped.value in seen then
        ReconciledFrom(steps, allowed, i + 1, seen)
      else
        [Topic(snapped.value, Description(steps[i].description), SequenceNumber(steps[i].sequenceNumber, i))]
          + ReconciledFrom(steps, allowed, i + 1, seen + {snapped.value})
  }

  predicate DistinctTitles(ts: seq<Topic>) {
    forall a, b :: 0 <= a < b < |ts| ==> ts[a].title != ts[b].title
  }

  /** Reconciled topics carry non-empty catalogue titles not used before, and
      no two of them share a title. */
  lemma {:induction false} ReconciledTitles(steps: seq<LlmStep>, allowed: seq<string>, i: nat, seen: set<string>)
    requires i <= |steps|
    ensures var r := ReconciledFrom(steps, allowed, i, seen);
      (forall k :: 0 <= k < |r| ==> r[k].title in allowed && r[k].title != "" && r[k].title !in seen) &&
      DistinctTitles(r)
    decreases |steps| - i
  {
    if i < |steps| {
      var snapped := SnapToAllowed(steps[i].title, allowed);
      if snapped.None? || snapped.value == "" || snapped.value in seen {
        ReconciledTitles(steps, allowed, i + 1, seen);
      } else {
        var seen' := seen + {snapped.value};
        ReconciledTitles(steps, allowed, i + 1, seen');
        var t := Topic(snapped.value, Description(steps[i].description), SequenceNumber(steps[i].sequenceNumber, i));
        var tail := ReconciledFrom(steps, allowed, i + 1, seen');
        assert ReconciledFrom(steps, allowed, i, seen) == [t] + tail;
        ConsFreshTitle(t, tail, allowed, seen);
      }
    }
  }

  /** A topic with a fresh allowed title in front of topics whose titles are
      allowed, distinct and neither seen nor its own. */
  lemma ConsFreshTitle(t: Topic, tail: seq<Topic>, allowed: seq<string>, seen: set<string>)
    requires t.title in allowed && t.title != "" && t.title !in seen
    requires forall k :: 0 <= k < |tail| ==> tail[k].title in allowed && tail[k].title != "" && tail[k].title !in seen + {t.title}
    requires DistinctTitles(tail)
    ensures var r := [t] + tail;
      (forall k :: 0 <= k < |r| ==> r[k].title in allowed && r[k].title != "" && r[k].title !in seen) &&
      DistinctTitles(r)
  {
    var r := [t] + tail;
    assert forall k :: 1 <= k < |r| ==> r[k] == tail[k - 1];
  }

  /** Every reconciled topic comes from one step at or after `i`: its title is
      that step's snapped title, and its number and description are the
      step's, the number falling back to the step's 1-based position. */
  lemma {:induction false} ReconciledOrigin(steps: seq<LlmStep>, allowed: seq<string>, i: nat, seen: set<string>, k: nat)
    requires i <= |steps|
    requires k < |ReconciledFrom(steps, allowed, i, seen)|
    ensures var t := ReconciledFrom(steps, allowed, i, seen)[k];
      exists idx :: i <= idx < |steps| &&
        SnapToAllowed(steps[idx].title, allowed) == Some(t.title) &&
        t.description == Description(steps[idx].description) &&
        t.sequenceNumber == SequenceNumber(steps[idx].sequenceNumber, idx)
    decreases |steps| - i
  {
    var snapped := SnapToAllowed(steps[i].title, allowed);
    if snapped.None? || snapped.value == "" || snapped.value in seen {
      ReconciledOrigin(steps, allowed, i + 1, seen, k);
    } else if k > 0 {
      ReconciledOrigin(steps, allowed, i + 1, seen + {snapped.value}, k - 1);
    }
  }

  /** Nothing usable is lost: every step whose title snaps to a non-empty
      title not in `seen` has that title among the reconciled topics. */
  lemma {:induction false} ReconciledKeepsEveryTitle(steps: seq<LlmStep>, allowed: seq<string>, i: nat, seen: set<string>, idx: nat, want: string)
    requires i <= idx < |steps|
    requires SnapToAllowed(steps[idx].title, allowed) == Some(want)
    requires want != "" && want !in seen
    ensures exists k :: 0 <= k < |ReconciledFrom(steps, allowed, i, seen)| && ReconciledFrom(steps, allowed, i, seen)[k].title == want
    decreases |steps| - i
  {
    var r := ReconciledFrom(steps, allowed, i, seen);
    var snapped := SnapToAllowed(steps[i].title, allowed);
    if snapped.None? || snapped.value == "" || snapped.value in seen {
      assert idx != i;
      ReconciledKeepsEveryTitle(steps, allowed, i + 1, seen, idx, want);
      var tail := ReconciledFrom(steps, allowed, i + 1, seen);
      assert r == tail;
    } else if snapped.value == want {
      assert r[0].title == want;
    } else {
      assert idx != i;
      var seen' := seen + {snapped.value};
      ReconciledKeepsEveryTitle(steps, allowed, i + 1, seen', idx, want);
      var tail := ReconciledFrom(steps, allowed, i + 1, seen');
      var k :| 0 <= k < |tail| && tail[k].title == want;
      assert r[k + 1] == tail[k];
    }
  }

  /** The `map`/`filter` pass over the LLM's steps (lines 127-142), with its
      mutable `seen` set. */
  method ReconcileSteps(steps: seq<LlmStep>, allowed: seq<string>) returns (topics: seq<Topic>)
    ensures topics == ReconciledFrom(steps, allowed, 0, {})
    ensures DistinctTitles(topics)
    ensures forall k :: 0 <= k < |topics| ==> topics[k].title in allowed
  {
    var seen: set<string> := {};
    topics := [];
    for idx := 0 to |steps|
      invariant topics + ReconciledFrom(steps, allowed, idx, seen) == ReconciledFrom(steps, allowed, 0, {})
    {
      var snapped := SnapToAllowed(steps[idx].title, allowed);
      if snapped.Some? && snapped.value != "" && snapped.value !in seen {
        seen := seen + {snapped.value};
        topics := topics + [Topic(snapped.value, Description(steps[idx].description), SequenceNumber(steps[idx].sequenceNumber, idx))];
      }
    }
    ReconciledTitles(steps, allowed, 0, {});
  }

  // ---------------------------------------------------------------------------
  // Fallback, reply cleaning and the chosen topics
  // ---------------------------------------------------------------------------

  /** The catch branch: the first six catalogue titles, numbered from 1, each
      with a generic description. */
  function Fallback(allowed: seq<string>): (r: seq<Topic>)
    ensures |r| == if |allowed| < 6 then |allowed| else 6
    ensures forall i :: 0 <= i < |r| ==> r[i].title == allowed[i] && r[i].sequenceNumber == i + 1
    ensures forall i :: 0 <= i < |r| ==> r[i].description == "Learn " + allowed[i] + " with hands-on practice."
  {
    var n := if |allowed| < 6 then |allowed| else 6;
    seq(n, i requires 0 <= i < n => Topic(allowed[i], "Learn " + allowed[i] + " with hands-on practice.", i + 1))
  }

  /** `parseJSONSafe` before `JSON.parse`: every "```json" removed, then every
      "```", then the result trimmed. */
  function StripFences(text: string): string {
    Trim(RemoveAll(RemoveAll(text, "```json"), "```"))
  }

  /** The LLM reply up to the parsed array: no reply, an empty reply or a reply
      that does not parse as an array of step objects is `None`. */
  function ParseReply(reply: Option<string>, parse: string -> Option<seq<LlmStep>>): Option<seq<LlmStep>> {
    if reply.None? || Trim(reply.value) == "" then None
    else parse(StripFences(Trim(reply.value)))
  }

  /** The topics chosen inside the try/catch (lines 115-152): the reconciled
      steps when there are any, otherwise the fallback. */
  function ChosenTopics(reply: Option<string>, parse: string -> Option<seq<LlmStep>>, allowed: seq<string>): seq<Topic> {
    var parsed := ParseReply(reply, parse);
    if parsed.Some? && ReconciledFrom(parsed.value, allowed, 0, {}) != [] then ReconciledFrom(parsed.value, allowed, 0, {})
    else Fallback(allowed)
  }

  /** With a non-empty catalogue the chosen topics are never empty and are all
      catalogue titles; either they are exactly the fallback, or they came from
      the parsed reply, at most one per step and with pairwise distinct titles. */
  lemma ChosenTopicsShape(reply: Option<string>, parse: string -> Option<seq<LlmStep>>, allowed: seq<string>)
    requires allowed != []
    ensures var r := ChosenTopics(reply, parse, allowed);
      r != [] &&
      (forall k :: 0 <= k < |r| ==> r[k].title in allowed) &&
      (r == Fallback(allowed) ||
       (ParseReply(reply, parse).Some? && |r| <= |ParseReply(reply, parse).value| && DistinctTitles(r)))
  {
    var parsed := ParseReply(reply, parse);
    if parsed.Some? {
      ReconciledTitles(parsed.value, allowed, 0, {});
      ReconciledLength(parsed.value, allowed, 0, {});
    }
  }

  lemma {:induction false} ReconciledLength(steps: seq<LlmStep>, allowed: seq<string>, i: nat, seen: set<string>)
    requires i <= |steps|
    ensures |ReconciledFrom(steps, allowed, i, seen)| <= |steps| - i
    decreases |steps| - i
  {
    if i < |steps| {
      var snapped := SnapToAllowed(steps[i].title, allowed);
      if snapped.None? || snapped.value == "" || snapped.value in seen {
        ReconciledLength(steps, allowed, i + 1, seen);
      } else {
        ReconciledLength(steps, allowed, i + 1, seen + {snapped.value});
      }
    }
  }

  // ---------------------------------------------------------------------------
  // Sorting by sequence number
  // ---------------------------------------------------------------------------

  predicate SortedBySeq(ts: seq<Topic>) {
    forall i, j :: 0 <= i < j < |ts| ==> ts[i].sequenceNumber <= ts[j].sequenceNumber
  }

  /** Insert `t` before the first topic whose number is not smaller. */
  function InsertBySeq(t: Topic, ts: seq<Topic>): (r: seq<Topic>)
    ensures multiset(r) == multiset(ts) + multiset{t}
    ensures |r| == |ts| + 1
    ensures r[0] == t || (ts != [] && r[0] == ts[0])
  {
    if ts == [] || t.sequenceNumber <= ts[0].sequenceNumber then
      [t] + ts
    else
      assert ts == [ts[0]] + ts[1..];
      [ts[0]] + InsertBySeq(t, ts[1..])
  }

  /** Inserting into an ordered list keeps it ordered. */
  lemma {:induction false} InsertKeepsSorted(t: Topic, ts: seq<Topic>)
    requires SortedBySeq(ts)
    ensures SortedBySeq(InsertBySeq(t, ts))
  {
    if ts != [] && t.sequenceNumber > ts[0].sequenceNumber {
      InsertKeepsSorted(t, ts[1..]);
      var rest := InsertBySeq(t, ts[1..]);
      var r := InsertBySeq(t, ts);
      assert r == [ts[0]] + rest;
      forall i, j | 0 <= i < j < |r| ensures r[i].sequenceNumber <= r[j].sequenceNumber {
        if i == 0 {
          assert rest[0].sequenceNumber <= rest[j - 1].sequenceNumber || j == 1;
        }
      }
    }
  }

  /** The ordering `(a, b) => a.sequenceNumber - b.sequenceNumber` applied by
      a stable insertion sort: the result is ordered by sequence number and is
      a permutation of the input. */
  function SortBySeq(ts: seq<Topic>): (r: seq<Topic>)
    ensures SortedBySeq(r)
    ensures multiset(r) == multiset(ts)
    ensures |r| == |ts|
  {
    if ts == [] then []
    else
      assert ts == [ts[0]] + ts[1..];
      InsertKeepsSorted(ts[0], SortBySeq(ts[1..]));
      InsertBySeq(ts[0], SortBySeq(ts[1..]))
  }

  /** Sorting a list that is already in order leaves it as it is. */
  lemma {:induction false} SortSortedIsIdentity(ts: seq<Topic>)
    requires SortedBySeq(ts)
    ensures SortBySeq(ts) == ts
  {
    if ts != [] {
      SortSortedIsIdentity(ts[1..]);
      assert ts == [ts[0]] + ts[1..];
    }
  }

  /** The topics numbered `v`, in their order in `ts`. */
  function WithSeq(ts: seq<Topic>, v: int): seq<Topic> {
    if ts == [] then []
    else (if ts[0].sequenceNumber == v then [ts[0]] else []) + WithSeq(ts[1..], v)
  }

  lemma WithSeqCons(t: Topic, ts: seq<Topic>, v: int)
    ensures WithSeq([t] + ts, v) == (if t.sequenceNumber == v then [t] else []) + WithSeq(ts, v)
  {
    assert ([t] + ts)[1..] == ts;
  }

  /** A topic goes in front of every topic with its own number. */
  lemma {:induction false} InsertBeforeEqual(t: Topic, ts: seq<Topic>, v: int)
    ensures WithSeq(InsertBySeq(t, ts), v) == (if t.sequenceNumber == v then [t] else []) + WithSeq(ts, v)
  {
    if ts == [] || t.sequenceNumber <= ts[0].sequenceNumber {
      WithSeqCons(t, ts, v);
    } else {
      var h, tail := ts[0], ts[1..];
      var own: seq<Topic> := if t.sequenceNumber == v then [t] else [];
      var first: seq<Topic> := if h.sequenceNumber == v then [h] else [];
      assert InsertBySeq(t, ts) == [h] + InsertBySeq(t, tail);
      assert ts == [h] + tail;
      calc {
        WithSeq(InsertBySeq(t, ts), v);
        { WithSeqCons(h, InsertBySeq(t, tail), v); }
        first + WithSeq(InsertBySeq(t, tail), v);
        { InsertBeforeEqual(t, tail, v); }
        first + (own + WithSeq(tail, v));
        { assert own == [] || first == []; }
        own + (first + WithSeq(tail, v));
        { WithSeqCons(h, tail, v); }
        own + WithSeq(ts, v);
      }
    }
  }

  /** The sort is stable: the topics sharing a number keep their relative
      order. */
  lemma {:induction false} SortIsStable(ts: seq<Topic>, v: int)
    ensures WithSeq(SortBySeq(ts), v) == WithSeq(ts, v)
  {
    if ts != [] {
      SortIsStable(ts[1..], v);
      InsertBeforeEqual(ts[0], SortBySeq(ts[1..]), v);
    }
  }

  /** The fallback is numbered 1..n in order, so sorting keeps it unchanged. */
  lemma FallbackIsSorted(allowed: seq<string>)
    ensures SortBySeq(Fallback(allowed)) == Fallback(allowed)
  {
    SortSortedIsIdentity(Fallback(allowed));
  }

  // ---------------------------------------------------------------------------
  // generateRoadmap
  // ---------------------------------------------------------------------------

  /** `loadAllowedTitles`: the non-empty step titles of a content file. */
  function AllowedTitles(steps: seq<CatalogStep>): (r: seq<string>)
    ensures forall k :: 0 <= k < |r| ==> r[k] != ""
    ensures forall s :: s in steps && s.title != "" ==> s.title in r
    ensures forall k :: 0 <= k < |r| ==> exists j :: 0 <= j < |steps| && steps[j].title == r[k]
  {
    if steps == [] then []
    else if steps[0].title != "" then [steps[0].title] + AllowedTitles(steps[1..])
    else AllowedTitles(steps[1..])
  }

  /** The titles keep catalogue order: loading two runs of steps gives the
      titles of the first run, then those of the second. */
  lemma {:induction false} AllowedTitlesConcat(a: seq<CatalogStep>, b: seq<CatalogStep>)
    ensures AllowedTitles(a + b) == AllowedTitles(a) + AllowedTitles(b)
    decreases |a|
  {
    if a == [] {
      assert a + b == b;
    } else {
      assert (a + b)[1..] == a[1..] + b;
      AllowedTitlesConcat(a[1..], b);
    }
  }

  /** One step contributes its title exactly when the title is non-empty. */
  lemma AllowedTitlesOne(s: CatalogStep)
    ensures AllowedTitles([s]) == if s.title != "" then [s.title] else []
  {
  }

  /** What `generateRoadmap` answers: a 400 without a domain or a level, a
      500 when the catalogue has no content file for the pair, a 400 when the
      file has no titles, and otherwise the learner's roadmap under the
      normalised domain and level, holding the chosen topics sorted by
      sequence number. */
  predicate GeneratedAs(userId: string, domain: string, skillLevel: string, catalogue: Catalogue,
                        reply: Option<string>, parse: string -> Option<seq<LlmStep>>,
                        r: Result<RoadmapDoc, Failure>)
  {
    (domain == "" || skillLevel == "" ==> r == Err(BadRequest("Domain & skillLevel required"))) &&
    (domain != "" && skillLevel != "" && (Slug(domain), Level(Trim(skillLevel))) !in catalogue ==>
      r.Err? && r.error.ServerError?) &&
    (domain != "" && skillLevel != "" && (Slug(domain), Level(Trim(skillLevel))) in catalogue ==>
      var allowed := AllowedTitles(catalogue[(Slug(domain), Level(Trim(skillLevel)))]);
      (allowed == [] ==> r == Err(BadRequest("No course content found for domain/level"))) &&
      (allowed != [] ==>
        r.Ok? && r.value.userId == userId &&
        r.value.domain == Slug(domain) && r.value.skillLevel == Level(Trim(skillLevel)) &&
        r.value.topics != [] && SortedBySeq(r.value.topics) &&
        multiset(r.value.topics) == multiset(ChosenTopics(reply, parse, allowed))))
  }

  /** `generateRoadmap`: validate the request, load the catalogue titles,
      reconcile the LLM reply or fall back, and sort by sequence number. The
      result is what the controller upserts under the learner's id. */
  method GenerateRoadmap(userId: string, domain: string, skillLevel: string, catalogue: Catalogue,
                         reply: Option<string>, parse: string -> Option<seq<LlmStep>>)
    returns (r: Result<RoadmapDoc, Failure>)
    ensures GeneratedAs(userId, domain, skillLevel, catalogue, reply, parse, r)
  {
    if domain == "" || skillLevel == "" {
      return Err(BadRequest("Domain & skillLevel required"));
    }
    var domainSlug := Slug(domain);
    var levelLower := Level(Trim(skillLevel));
    if (domainSlug, levelLower) !in catalogue {
      return Err(ServerError("Error generating roadmap"));
    }
    var allowed := AllowedTitles(catalogue[(domainSlug, levelLower)]);
    if allowed == [] {
      return Err(BadRequest("No course content found for domain/level"));
    }
    var topics: seq<Topic> := [];
    var parsed := ParseReply(reply, parse);
    if parsed.Some? {
      topics := ReconcileSteps(parsed.value, allowed);
    }
    if topics == [] {
      topics := Fallback(allowed);
    }
    ChosenTopicsShape(reply, parse, allowed);
    topics := SortBySeq(topics);
    r := Ok(RoadmapDoc(userId, domainSlug, levelLower, topics));
  }

  /** The roadmap collection, one document per learner. */
  class RoadmapStore {
    var roadmaps: map<string, RoadmapDoc>

    constructor()
      ensures roadmaps == map[]
    {
      roadmaps := map[];
    }

    /** `POST /api/roadmap/generate` with its upsert: a successful generation
        replaces the learner's roadmap (or creates it); a failed one changes
        nothing. */
    method Generate(userId: string, domain: string, skillLevel: string, catalogue: Catalogue,
                    reply: Option<string>, parse: string -> Option<seq<LlmStep>>)
      returns (r: Result<RoadmapDoc, Failure>)
      modifies this
      ensures r.Ok? ==> roadmaps == old(roadmaps)[userId := r.value] && r.value.userId == userId
      ensures r.Err? ==> roadmaps == old(roadmaps)
      ensures GeneratedAs(userId, domain, skillLevel, catalogue, reply, parse, r)
    {
      r := GenerateRoadmap(userId, domain, skillLevel, catalogue, reply, parse);
      if r.Ok? {
        roadmaps := roadmaps[userId := r.value];
      }
    }
  }
}
