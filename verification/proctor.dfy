/** Turning the question generator's reply into questions
    (enliven-backend/controllers/proctorController.js): `safelyParseGroqJSON`
    strips code fences, cuts the reply into `{...}` fragments, repairs and
    parses each fragment on its own and keeps the ones that parse; the
    generator then keeps at most the requested number and gives each one an
    id. The language model is outside the model: its reply is an input
    string, and `JSON.parse` is a parameter. */
module Proctor {

  import opened Wrappers
  import opened Text

  /** The number of questions asked for a module test and a final exam. */
  const ModuleCount: nat := 10
  const FinalCount: nat := 30

  // ---------------------------------------------------------------------
  // Code fences
  // ---------------------------------------------------------------------

  /** `raw.replace(/```json|```/g, "")`: left to right, the longer
      alternative is tried first. */
  function StripFences(s: string): (r: string)
    ensures |r| <= |s|
    decreases |s|
  {
    if |s| >= 7 && s[..7] == "```json" then StripFences(s[7..])
    else if |s| >= 3 && s[..3] == "```" then StripFences(s[3..])
    else if s == [] then []
    else [s[0]] + StripFences(s[1..])
  }

  predicate TicksAt(r: string, j: nat)
    requires j + 3 <= |r|
  {
    r[j] == '`' && r[j + 1] == '`' && r[j + 2] == '`'
  }

  /** No three backticks in a row. */
  predicate NoFence(r: string) {
    forall j :: 0 <= j && j + 3 <= |r| ==> !TicksAt(r, j)
  }

  /** A text without backticks passes unchanged. */
  lemma {:induction false} StripFencesNoTicks(s: string)
    requires forall k :: 0 <= k < |s| ==> s[k] != '`'
    ensures StripFences(s) == s
  {
    if s != [] {
      assert s[0] != '`';
      StripFencesNoTicks(s[1..]);
    }
  }

  /** What the stripped text starts with: a text that starts with a
      character other than a backtick keeps it in front. */
  lemma StripFencesHead(s: string)
    requires s != [] && s[0] != '`'
    ensures StripFences(s) == [s[0]] + StripFences(s[1..])
  {
    assert |s| >= 7 ==> s[..7][0] == s[0];
    assert |s| >= 3 ==> s[..3][0] == s[0];
  }

  /** After stripping, the text holds no code fence: no three backticks in
      a row survive. (The other two facts carry the induction: a stripped
      text starting with a backtick came from one, and never starts with
      three.) */
  lemma {:induction false} StripFencesNoFence(s: string)
    ensures NoFence(StripFences(s))
    ensures var r := StripFences(s);
      |r| >= 1 && r[0] == '`' ==> s != [] && s[0] == '`'
    ensures var r := StripFences(s);
      |r| >= 2 && r[0] == '`' && r[1] == '`' ==> |r| == 2 || r[2] != '`'
    decreases |s|
  {
    if |s| >= 7 && s[..7] == "```json" {
      StripFencesNoFence(s[7..]);
    } else if |s| >= 3 && s[..3] == "```" {
      StripFencesNoFence(s[3..]);
    } else if s != [] {
      var t := s[1..];
      var r, r' := StripFences(s), StripFences(t);
      StripFencesNoFence(t);
      StripFencesCons(s);
      if s[0] == '`' {
        TickNotFollowedByTwo(s);
      }
      NoFenceCons(s[0], r');
    }
  }

  /** A text that opens no fence keeps its first character in front. */
  lemma StripFencesCons(s: string)
    requires s != []
    requires !(|s| >= 7 && s[..7] == "```json") && !(|s| >= 3 && s[..3] == "```")
    ensures StripFences(s) == [s[0]] + StripFences(s[1..])
  {
  }

  /** A character in front of a text without fences opens none, unless it is
      a backtick before two more. */
  lemma NoFenceCons(c: char, r': string)
    requires NoFence(r')
    requires !(c == '`' && |r'| >= 2 && r'[0] == '`' && r'[1] == '`')
    ensures NoFence([c] + r')
  {
    var r := [c] + r';
    forall j | 0 <= j && j + 3 <= |r|
      ensures !TicksAt(r, j)
    {
      if j >= 1 {
        assert TicksAt(r, j) == TicksAt(r', j - 1);
      }
    }
  }

  /** A backtick that does not open a fence is not followed by two more
      after stripping. */
  lemma TickNotFollowedByTwo(s: string)
    requires s != [] && s[0] == '`'
    requires !(|s| >= 3 && s[..3] == "```")
    ensures var r' := StripFences(s[1..]);
      !(|r'| >= 2 && r'[0] == '`' && r'[1] == '`')
  {
    var t := s[1..];
    if t != [] && t[0] == '`' {
      assert !(|t| >= 3 && t[..3] == "```");
      assert !(|t| >= 7 && t[..7] == "```json");
      assert StripFences(t) == [t[0]] + StripFences(t[1..]);
      if |t| >= 2 {
        assert t[1] != '`';
        StripFencesHead(t[1..]);
      }
    } else if t != [] {
      StripFencesHead(t);
    }
  }

  // ---------------------------------------------------------------------
  // Fragments
  // ---------------------------------------------------------------------

  /** The position of the first `c` at or after `k`, or the length. */
  function CharFrom(s: string, c: char, k: nat): (r: nat)
    requires k <= |s|
    ensures k <= r <= |s|
    ensures r < |s| ==> s[r] == c
    ensures forall j :: k <= j < r ==> s[j] != c
    decreases |s| - k
  {
    if k == |s| || s[k] == c then k else CharFrom(s, c, k + 1)
  }

  /** `raw.match(/\{[\s\S]*?\}/g) || []`: from the first `{`, the shortest
      text up to a `}`, then the same again after it. */
  function Fragments(s: string): (fs: seq<string>)
    decreases |s|
  {
    var i := CharFrom(s, '{', 0);
    if i == |s| then []
    else
      var j := CharFrom(s, '}', i + 1);
      if j == |s| then [] else [s[i..j + 1]] + Fragments(s[j + 1..])
  }

  predicate IsFragment(f: string) {
    |f| >= 2 && f[0] == '{' && f[|f| - 1] == '}' &&
    forall k :: 0 <= k < |f| - 1 ==> f[k] != '}'
  }

  /** Every fragment starts with `{`, ends with `}` and holds no other `}`. */
  lemma {:induction false} FragmentsShape(s: string)
    ensures forall k :: 0 <= k < |Fragments(s)| ==> IsFragment(Fragments(s)[k])
    decreases |s|
  {
    var i := CharFrom(s, '{', 0);
    if i < |s| {
      var j := CharFrom(s, '}', i + 1);
      if j < |s| {
        var rest := Fragments(s[j + 1..]);
        FragmentsShape(s[j + 1..]);
        FragmentOfSlice(s, i, j);
        assert Fragments(s) == [s[i..j + 1]] + rest;
        forall k | 1 <= k < |Fragments(s)|
          ensures IsFragment(Fragments(s)[k])
        {
          assert Fragments(s)[k] == rest[k - 1];
        }
      }
    }
  }

  /** The text from a `{` up to the first `}` after it is a fragment. */
  lemma FragmentOfSlice(s: string, i: nat, j: nat)
    requires i < j < |s| && s[i] == '{' && s[j] == '}'
    requires forall k :: i < k < j ==> s[k] != '}'
    ensures IsFragment(s[i..j + 1])
  {
    var f := s[i..j + 1];
    assert forall k :: 0 <= k < |f| ==> f[k] == s[i + k];
  }

  predicate BracePair(s: string, i: nat, j: nat) {
    i < j < |s| && s[i] == '{' && s[j] == '}'
  }

  /** Some `{` comes before some `}`. */
  predicate HasBracePair(s: string) {
    exists i: nat, j: nat :: i < j < |s| && BracePair(s, i, j)
  }

  /** There is a fragment exactly when some `{` comes before some `}`. */
  lemma FragmentsEmptyIff(s: string)
    ensures Fragments(s) == [] <==> !HasBracePair(s)
  {
    var i := CharFrom(s, '{', 0);
    if i < |s| {
      var j := CharFrom(s, '}', i + 1);
      if j < |s| {
        assert BracePair(s, i, j);
      } else {
        forall i': nat, j': nat
          ensures !BracePair(s, i', j')
        {
          if i' < j' < |s| && s[i'] == '{' {
            assert i <= i';
          }
        }
      }
    }
  }

  // ---------------------------------------------------------------------
  // Repairs
  // ---------------------------------------------------------------------

  /** `s.replace(/,\s*c/g, c)` for a closing bracket `c`: a comma followed
      by white space and `c` is dropped together with the white space. */
  function DropCommaBefore(s: string, c: char): (r: string)
    ensures |r| <= |s|
    decreases |s|
  {
    if s == [] then []
    else
      var t := TrimLeft(s[1..]);
      if s[0] == ',' && t != [] && t[0] == c then [c] + DropCommaBefore(t[1..], c)
      else [s[0]] + DropCommaBefore(s[1..], c)
  }

  predicate IsControl(ch: char) {
    ch < ' '
  }

  /** `s.replace(/[\u0000-\u001F]+/g, "")`. */
  function RemoveControls(s: string): (r: string)
    ensures |r| <= |s|
    ensures forall k :: 0 <= k < |r| ==> !IsControl(r[k])
  {
    if s == [] then []
    else if IsControl(s[0]) then RemoveControls(s[1..])
    else [s[0]] + RemoveControls(s[1..])
  }

  /** The repairs applied to a fragment before it is parsed. */
  function Clean(f: string): (r: string)
    ensures |r| <= |f|
    ensures forall k :: 0 <= k < |r| ==> !IsControl(r[k])
  {
    RemoveControls(DropCommaBefore(DropCommaBefore(f, '}'), ']'))
  }

  /** The characters of `s` other than commas and white space. */
  function Significant(s: string): (r: string)
  {
    if s == [] then []
    else if s[0] == ',' || IsSpace(s[0]) then Significant(s[1..])
    else [s[0]] + Significant(s[1..])
  }

  lemma {:induction false} SignificantTrimLeft(s: string)
    ensures Significant(TrimLeft(s)) == Significant(s)
    decreases |s|
  {
    if |s| > 0 && IsSpace(s[0]) {
      SignificantTrimLeft(s[1..]);
    }
  }

  /** Dropping trailing commas removes only commas and white space: every
      other character survives, in order. */
  lemma {:induction false} DropCommaKeepsSignificant(s: string, c: char)
    requires c == '}' || c == ']'
    ensures Significant(DropCommaBefore(s, c)) == Significant(s)
    decreases |s|
  {
    if s != [] {
      var t := TrimLeft(s[1..]);
      if s[0] == ',' && t != [] && t[0] == c {
        DropCommaKeepsSignificant(t[1..], c);
        SignificantTrimLeft(s[1..]);
        assert Significant(t) == [c] + Significant(t[1..]);
      } else {
        DropCommaKeepsSignificant(s[1..], c);
      }
    }
  }

  /** White space ahead of a non-space character is all that `TrimLeft` drops. */
  lemma {:induction false} TrimLeftSpaces(w: string, x: string)
    requires forall k :: 0 <= k < |w| ==> IsSpace(w[k])
    requires x == [] || !IsSpace(x[0])
    ensures TrimLeft(w + x) == x
    decreases |w|
  {
    if w == [] {
      assert w + x == x;
    } else {
      assert (w + x)[1..] == w[1..] + x;
      TrimLeftSpaces(w[1..], x);
    }
  }

  /** The repair itself: a comma, white space and the bracket `c` become
      `c` alone, and the rest is repaired after it. */
  lemma DropCommaRepairs(w: string, c: char, rest: string)
    requires c == '}' || c == ']'
    requires forall k :: 0 <= k < |w| ==> IsSpace(w[k])
    ensures DropCommaBefore([','] + w + [c] + rest, c) == [c] + DropCommaBefore(rest, c)
  {
    var s := [','] + w + [c] + rest;
    assert s[1..] == w + ([c] + rest);
    TrimLeftSpaces(w, [c] + rest);
    assert ([c] + rest)[1..] == rest;
  }

  /** A comma followed by white space and then anything but `c` is kept. */
  lemma DropCommaKeepsLoneComma(w: string, x: string, c: char)
    requires forall k :: 0 <= k < |w| ==> IsSpace(w[k])
    requires x == [] || (!IsSpace(x[0]) && x[0] != c)
    ensures DropCommaBefore([','] + w + x, c) == [','] + DropCommaBefore(w + x, c)
  {
    var s := [','] + w + x;
    assert s[1..] == w + x;
    TrimLeftSpaces(w, x);
  }

  /** Every character other than a comma is kept. */
  lemma DropCommaKeepsChar(ch: char, t: string, c: char)
    requires ch != ','
    ensures DropCommaBefore([ch] + t, c) == [ch] + DropCommaBefore(t, c)
  {
    assert ([ch] + t)[1..] == t;
  }

  /** A fragment without commas is not changed by the comma repair. */
  lemma {:induction false} DropCommaNoComma(s: string, c: char)
    requires forall k :: 0 <= k < |s| ==> s[k] != ','
    ensures DropCommaBefore(s, c) == s
    decreases |s|
  {
    if s != [] {
      DropCommaNoComma(s[1..], c);
    }
  }

  /** Removing control characters changes nothing in a text without them. */
  lemma {:induction false} RemoveControlsNone(s: string)
    requires forall k :: 0 <= k < |s| ==> !IsControl(s[k])
    ensures RemoveControls(s) == s
  {
    if s != [] {
      RemoveControlsNone(s[1..]);
    }
  }

  /** A fragment without commas and control characters is parsed as it is. */
  lemma CleanIdentity(f: string)
    requires forall k :: 0 <= k < |f| ==> f[k] != ',' && !IsControl(f[k])
    ensures Clean(f) == f
  {
    DropCommaNoComma(f, '}');
    DropCommaNoComma(f, ']');
    RemoveControlsNone(f);
  }

  // ---------------------------------------------------------------------
  // Parsing
  // ---------------------------------------------------------------------

  /** The three errors `safelyParseGroqJSON` throws. */
  datatype ParseError = EmptyResponse | NoObjects | AllInvalid

  /** The parsed objects of the first `n` fragments, in fragment order,
      skipping the ones that fail to parse. */
  function ParsedPrefix<T>(frags: seq<string>, parse: string -> Option<T>, n: nat): (r: seq<T>)
    requires n <= |frags|
    ensures |r| <= n
  {
    if n == 0 then []
    else
      ParsedPrefix(frags, parse, n - 1) + ParsedOne(frags[n - 1], parse)
  }

  /** The object of one fragment, if it parses. */
  function ParsedOne<T>(frag: string, parse: string -> Option<T>): (r: seq<T>)
    ensures |r| <= 1
  {
    match parse(Clean(frag)) case Some(v) => [v] case None => []
  }

  function Parsed<T>(frags: seq<string>, parse: string -> Option<T>): seq<T> {
    ParsedPrefix(frags, parse, |frags|)
  }

  /** `safelyParseGroqJSON`. */
  function SafelyParseSpec<T>(raw: string, parse: string -> Option<T>): (r: Result<seq<T>, ParseError>)
  {
    if raw == [] then Err(EmptyResponse)
    else
      var frags := Fragments(Trim(StripFences(raw)));
      if frags == [] then Err(NoObjects)
      else
        var objs := Parsed(frags, parse);
        if objs == [] then Err(AllInvalid) else Ok(objs)
  }

  /** `safelyParseGroqJSON` (lines 12-43): the reply's fragments are
      repaired and parsed one by one. */
  method SafelyParse<T>(raw: string, parse: string -> Option<T>) returns (r: Result<seq<T>, ParseError>)
    ensures r == SafelyParseSpec(raw, parse)
  {
    if raw == [] {
      return Err(EmptyResponse);
    }
    var frags := Fragments(Trim(StripFences(raw)));
    if frags == [] {
      return Err(NoObjects);
    }
    var objs := ParseFragments(frags, parse);
    if objs == [] {
      return Err(AllInvalid);
    }
    r := Ok(objs);
  }

  /** The loop of `safelyParseGroqJSON`: each fragment is repaired and
      parsed on its own, and a fragment that fails is skipped. */
  method ParseFragments<T>(frags: seq<string>, parse: string -> Option<T>) returns (objs: seq<T>)
    ensures objs == Parsed(frags, parse)
  {
    objs := [];
    for i := 0 to |frags|
      invariant objs == ParsedPrefix(frags, parse, i)
    {
      var p := parse(Clean(frags[i]));
      if p.Some? {
        objs := objs + [p.value];
      }
    }
  }

  /** The prefix of a longer fragment list parses as the shorter list. */
  lemma {:induction false} ParsedPrefixOfConcat<T>(f1: seq<string>, f2: seq<string>, parse: string -> Option<T>, n: nat)
    requires n <= |f1|
    ensures ParsedPrefix(f1 + f2, parse, n) == ParsedPrefix(f1, parse, n)
  {
    if n > 0 {
      ParsedPrefixOfConcat(f1, f2, parse, n - 1);
      assert (f1 + f2)[n - 1] == f1[n - 1];
    }
  }

  /** Skipping broken fragments keeps the relative order of the rest: the
      objects of two fragment lists, one after the other, are the objects of
      the first followed by those of the second. */
  lemma {:induction false} ParsedConcat<T>(f1: seq<string>, f2: seq<string>, parse: string -> Option<T>)
    ensures Parsed(f1 + f2, parse) == Parsed(f1, parse) + Parsed(f2, parse)
    decreases |f2|
  {
    if f2 == [] {
      assert f1 + f2 == f1;
    } else {
      var g, h := f2[..|f2| - 1], f2[|f2| - 1];
      assert f2 == g + [h];
      calc {
        Parsed(f1 + f2, parse);
        { assert f1 + f2 == (f1 + g) + [h]; }
        Parsed((f1 + g) + [h], parse);
        { ParsedLast(f1 + g, h, parse); }
        Parsed(f1 + g, parse) + ParsedOne(h, parse);
        { ParsedConcat(f1, g, parse); }
        (Parsed(f1, parse) + Parsed(g, parse)) + ParsedOne(h, parse);
        { ParsedLast(g, h, parse); }
        Parsed(f1, parse) + Parsed(f2, parse);
      }
    }
  }

  lemma ParsedLast<T>(fs: seq<string>, h: string, parse: string -> Option<T>)
    ensures Parsed(fs + [h], parse) == Parsed(fs, parse) + ParsedOne(h, parse)
  {
    ParsedPrefixOfConcat(fs, [h], parse, |fs|);
    assert (fs + [h])[|fs|] == h;
  }

  /** No object comes out exactly when every fragment fails to parse. */
  lemma {:induction false} ParsedEmptyIff<T>(frags: seq<string>, parse: string -> Option<T>, n: nat)
    requires n <= |frags|
    ensures ParsedPrefix(frags, parse, n) == [] <==> forall k :: 0 <= k < n ==> parse(Clean(frags[k])).None?
  {
    if n > 0 {
      ParsedEmptyIff(frags, parse, n - 1);
      var p, q := ParsedPrefix(frags, parse, n - 1), ParsedOne(frags[n - 1], parse);
      assert ParsedPrefix(frags, parse, n) == p + q;
      assert |p + q| == |p| + |q|;
    }
  }

  /** When every fragment parses, every fragment contributes its object, in
      order. */
  lemma {:induction false} ParsedAllKept<T>(frags: seq<string>, parse: string -> Option<T>, n: nat)
    requires n <= |frags|
    requires forall k :: 0 <= k < n ==> parse(Clean(frags[k])).Some?
    ensures |ParsedPrefix(frags, parse, n)| == n
    ensures forall k :: 0 <= k < n ==> ParsedPrefix(frags, parse, n)[k] == parse(Clean(frags[k])).value
  {
    if n > 0 {
      ParsedAllKept(frags, parse, n - 1);
      var p := ParsedPrefix(frags, parse, n - 1);
      assert ParsedOne(frags[n - 1], parse) == [parse(Clean(frags[n - 1])).value];
      assert ParsedPrefix(frags, parse, n) == p + [parse(Clean(frags[n - 1])).value];
    }
  }

  /** The outcome of `safelyParseGroqJSON` in terms of the reply: an empty
      reply, a reply without a `{`...`}` pair after fence stripping, and a
      reply whose fragments all fail are the three errors; otherwise the
      result is non-empty. */
  lemma SafelyParseOutcome<T>(raw: string, parse: string -> Option<T>)
    ensures var r := SafelyParseSpec(raw, parse);
      var s := Trim(StripFences(raw));
      var frags := Fragments(s);
      (r == Err(EmptyResponse) <==> raw == []) &&
      (r == Err(NoObjects) <==> raw != [] && !HasBracePair(s)) &&
      (r == Err(AllInvalid) <==>
         raw != [] && frags != [] && forall k :: 0 <= k < |frags| ==> parse(Clean(frags[k])).None?) &&
      (r.Ok? ==> r.value != [] && |r.value| <= |frags|)
  {
    var s := Trim(StripFences(raw));
    FragmentsEmptyIff(s);
    var frags := Fragments(s);
    ParsedEmptyIff(frags, parse, |frags|);
    var r := SafelyParseSpec(raw, parse);
    assert raw != [] ==> (r == Err(NoObjects) <==> frags == []);
  }

  // ---------------------------------------------------------------------
  // Normalising
  // ---------------------------------------------------------------------

  /** An object as `JSON.parse` returns it; `id` may be missing. */
  datatype QuestionObject = QuestionObject(id: Option<string>, question: string, options: seq<string>,
                                           correctIndex: int, explanation: string, difficulty: int)

  /** A question as the exam endpoints return it. */
  datatype ExamQuestion = ExamQuestion(id: string, question: string, options: seq<string>,
                                       correctIndex: int, explanation: string, difficulty: int)

  /** `` `q${i + 1}` ``. */
  function DefaultId(i: nat): string {
    "q" + NatToString(i + 1)
  }

  /** `q.id || `q${i + 1}``: a missing or empty id is replaced. */
  function NormalizeOne(q: QuestionObject, i: nat): ExamQuestion {
    var id := if q.id.Some? && q.id.value != "" then q.id.value else DefaultId(i);
    ExamQuestion(id, q.question, q.options, q.correctIndex, q.explanation, q.difficulty)
  }

  /** `parsed.slice(0, count).map(...)`. */
  function Normalize(parsed: seq<QuestionObject>, count: nat): (r: seq<ExamQuestion>)
    ensures |r| == if count < |parsed| then count else |parsed|
  {
    var n := if count < |parsed| then count else |parsed|;
    seq(n, i requires 0 <= i < n => NormalizeOne(parsed[i], i))
  }

  /** Each question keeps the content of its object (question, options,
      correct index, explanation, difficulty), in order, and has a non-empty
      id: its own when it has a non-empty one, otherwise `q` and its position
      counted from one. */
  lemma NormalizeEffect(parsed: seq<QuestionObject>, count: nat)
    ensures var r := Normalize(parsed, count);
      |r| <= count && |r| <= |parsed| &&
      forall i :: 0 <= i < |r| ==>
        r[i].id != "" &&
        r[i].question == parsed[i].question && r[i].options == parsed[i].options &&
        r[i].correctIndex == parsed[i].correctIndex &&
        r[i].explanation == parsed[i].explanation && r[i].difficulty == parsed[i].difficulty &&
        (parsed[i].id.Some? && parsed[i].id.value != "" ==> r[i].id == parsed[i].id.value) &&
        (parsed[i].id.None? || parsed[i].id.value == "" ==> r[i].id == DefaultId(i))
  {
  }

  /** Replacement ids never clash with each other. */
  lemma DefaultIdsDistinct(i: nat, j: nat)
    requires i != j
    ensures DefaultId(i) != DefaultId(j)
  {
    if DefaultId(i) == DefaultId(j) {
      assert NatToString(i + 1) == DefaultId(i)[1..] == DefaultId(j)[1..] == NatToString(j + 1);
      NatToStringRoundTrip(i + 1);
      NatToStringRoundTrip(j + 1);
    }
  }

  /** When no object brings its own id, the ids are pairwise distinct. */
  lemma NormalizeIdsDistinct(parsed: seq<QuestionObject>, count: nat)
    requires forall i :: 0 <= i < |parsed| ==> parsed[i].id.None?
    ensures var r := Normalize(parsed, count);
      forall i, j :: 0 <= i < j < |r| ==> r[i].id != r[j].id
  {
    var r := Normalize(parsed, count);
    forall i, j | 0 <= i < j < |r|
      ensures r[i].id != r[j].id
    {
      DefaultIdsDistinct(i, j);
    }
  }

  /** Asking for more questions only extends the list. */
  lemma NormalizePrefix(parsed: seq<QuestionObject>, count: nat, count': nat)
    requires count <= count'
    ensures var r, r' := Normalize(parsed, count), Normalize(parsed, count');
      |r| <= |r'| && r == r'[..|r|]
  {
  }
}
