/** The course page's `toTitleCase`
    (enliven-frontend/src/components/pages/CoursePage.jsx), which turns the
    domain slug of the url back into a heading, and the fact that the slug
    functions undo it. */
module TitleCase {

  import opened Text
  import opened Naming

  /** `s.replace(/-/g, " ")`. */
  function Dehyphen(s: string): (r: string)
    ensures |r| == |s|
    ensures forall k :: 0 <= k < |s| ==> r[k] == DehyphenChar(s[k])
  {
    seq(|s|, k requires 0 <= k < |s| => DehyphenChar(s[k]))
  }

  function DehyphenChar(c: char): char {
    if c == '-' then ' ' else c
  }

  lemma DehyphenAppend(a: string, b: string)
    ensures Dehyphen(a + b) == Dehyphen(a) + Dehyphen(b)
  {
  }

  /** `s.split(" ").filter(Boolean)`: the maximal runs of characters other
      than the space, left to right. */
  function Pieces(s: string): (ws: seq<string>)
    ensures forall i :: 0 <= i < |ws| ==> ws[i] != [] && ' ' !in ws[i]
    decreases |s|
  {
    if s == [] then []
    else if s[0] == ' ' then Pieces(s[1..])
    else
      var n := RunBefore(s, ' ');
      var w := s[..n];
      assert forall k :: 0 <= k < |w| ==> w[k] != ' ';
      [w] + Pieces(s[n..])
  }

  /** `w.charAt(0).toUpperCase() + w.slice(1).toLowerCase()`. */
  function Capitalize(w: string): (r: string)
    ensures |r| == |w|
  {
    if w == [] then [] else [UpperChar(w[0])] + Lower(w[1..])
  }

  /** `ws.join(" ")`. */
  function JoinSpaced(ws: seq<string>): string {
    if ws == [] then "" else if |ws| == 1 then ws[0] else ws[0] + " " + JoinSpaced(ws[1..])
  }

  /** `ws.map(capitalize)`. */
  function Caps(ws: seq<string>): (r: seq<string>)
    ensures |r| == |ws|
    ensures forall i :: 0 <= i < |ws| ==> r[i] == Capitalize(ws[i])
  {
    seq(|ws|, i requires 0 <= i < |ws| => Capitalize(ws[i]))
  }

  /** `toTitleCase`. */
  function ToTitleCase(s: string): string {
    JoinSpaced(Caps(Pieces(Dehyphen(s))))
  }

  /** A slug as the pages put it in the url: non-empty, no white space, no
      capitals, hyphens only between words. */
  predicate IsSlugText(s: string) {
    s != [] && NoSpace(s) && NoUpper(s) && s[0] != '-' && s[|s| - 1] != '-' &&
    forall k :: 0 <= k < |s| - 1 ==> !DoubleHyphenAt(s, k)
  }

  predicate DoubleHyphenAt(s: string, k: nat)
    requires k + 1 < |s|
  {
    s[k] == '-' && s[k + 1] == '-'
  }

  /** Lower-casing a capitalised word without capitals gives it back. */
  lemma LowerCapitalize(w: string)
    requires NoUpper(w)
    ensures Lower(Capitalize(w)) == w
  {
    if w != [] {
      LowerKeepsNoUpper(w[1..]);
      assert Lower(Capitalize(w))[0] == w[0];
      assert forall k :: 1 <= k < |w| ==> Lower(Capitalize(w))[k] == Lower(w[1..])[k - 1];
    }
  }

  lemma LowerAppend(a: string, b: string)
    ensures Lower(a + b) == Lower(a) + Lower(b)
  {
  }

  /** A run without white space passes `HyphenateSpaces` unchanged. */
  lemma {:induction false} HyphenatePrefix(w: string, x: string)
    requires NoSpace(w)
    ensures HyphenateSpaces(w + x) == w + HyphenateSpaces(x)
    decreases |w|
  {
    if w == [] {
      assert w + x == x;
    } else {
      NoSpaceTail(w);
      ConsSplit(w, x);
      HyphenateCons(w[0], w[1..] + x);
      HyphenatePrefix(w[1..], x);
    }
  }

  lemma NoSpaceTail(w: string)
    requires w != [] && NoSpace(w)
    ensures !IsSpace(w[0]) && NoSpace(w[1..])
  {
    assert forall i :: 0 <= i < |w| - 1 ==> w[1..][i] == w[i + 1];
  }

  lemma ConsSplit(w: string, x: string)
    requires w != []
    ensures w + x == [w[0]] + (w[1..] + x)
    ensures forall y :: [w[0]] + (w[1..] + y) == w + y
  {
  }

  lemma HyphenateCons(c: char, y: string)
    requires !IsSpace(c)
    ensures HyphenateSpaces([c] + y) == [c] + HyphenateSpaces(y)
  {
    assert ([c] + y)[1..] == y;
  }

  /** A single space before a word becomes a single hyphen. */
  lemma HyphenateSpace(x: string)
    requires x == [] || !IsSpace(x[0])
    ensures HyphenateSpaces(" " + x) == "-" + HyphenateSpaces(x)
  {
    assert (" " + x)[1..] == x;
    assert TrimLeft(" " + x) == TrimLeft(x) == x;
  }

  /** Pieces of a word, a space and the rest. */
  lemma PiecesSplit(w: string, x: string)
    requires w != [] && ' ' !in w
    ensures Pieces(w + " " + x) == [w] + Pieces(x)
  {
    var s := w + " " + x;
    assert forall k :: 0 <= k < |w| ==> s[k] == w[k];
    assert RunBefore(s, ' ') == |w| by {
      RunBeforeAt(s, ' ', |w|);
    }
    assert s[..|w|] == w;
    assert s[|w|..] == " " + x;
    assert (" " + x)[1..] == x;
  }

  /** The capitalised words of a piece list, joined: a non-empty piece list
      gives a heading starting with its first piece's capitalised first
      character. */
  lemma JoinHead(ws: seq<string>)
    requires ws != [] && ws[0] != []
    ensures JoinSpaced(ws) != [] && JoinSpaced(ws)[0] == ws[0][0]
  {
  }

  /** The heading of a slug starts with its first character in upper case. */
  lemma {:induction false} TitleHead(s: string)
    requires IsSlugText(s)
    ensures ToTitleCase(s) != [] && ToTitleCase(s)[0] == UpperChar(s[0])
  {
    var d := Dehyphen(s);
    var ws := Pieces(d);
    var n := RunBefore(d, ' ');
    assert d[0] == s[0] && d[0] != ' ';
    assert ws == [d[..n]] + Pieces(d[n..]);
    JoinHead(Caps(ws));
  }

  /** A slug without hyphens is a single word. */
  lemma TitleOfWord(s: string)
    requires IsSlugText(s) && RunBefore(s, '-') == |s|
    ensures ToTitleCase(s) == Capitalize(s)
  {
    assert Dehyphen(s) == s;
    RunBeforeAt(s, ' ', |s|);
    assert s[..|s|] == s && s[|s|..] == [];
    assert Pieces(s) == [s];
  }

  /** A slug with a hyphen splits into a word, a space and a shorter slug
      once its hyphens are replaced. */
  lemma SlugSplit(s: string, n: nat)
    requires IsSlugText(s) && n == RunBefore(s, '-') && n < |s|
    ensures 0 < n && n + 1 < |s| && IsSlugText(s[n + 1..]) && ' ' !in s[..n]
    ensures Dehyphen(s) == s[..n] + " " + Dehyphen(s[n + 1..])
  {
    SlugRest(s, n);
    FirstWordNoSpace(s, n);
    DehyphenFirst(s, n);
  }

  /** What follows a hyphen of a slug is a slug. */
  lemma SlugRest(s: string, n: nat)
    requires IsSlugText(s) && n < |s| && s[n] == '-'
    ensures 0 < n && n + 1 < |s| && IsSlugText(s[n + 1..])
  {
    var rest := s[n + 1..];
    assert n + 1 < |s|;
    assert rest[0] != '-' by {
      assert !DoubleHyphenAt(s, n);
    }
    SuffixKeepsChars(s, n + 1);
    assert rest[|rest| - 1] == s[|s| - 1];
    SuffixKeepsDoubles(s, n + 1);
  }

  lemma SuffixKeepsChars(s: string, m: nat)
    requires NoSpace(s) && NoUpper(s) && m <= |s|
    ensures NoSpace(s[m..]) && NoUpper(s[m..])
  {
    assert forall k :: 0 <= k < |s| - m ==> s[m..][k] == s[m + k];
  }

  lemma SuffixKeepsDoubles(s: string, m: nat)
    requires m <= |s| && forall k :: 0 <= k < |s| - 1 ==> !DoubleHyphenAt(s, k)
    ensures var rest := s[m..]; forall k :: 0 <= k < |rest| - 1 ==> !DoubleHyphenAt(rest, k)
  {
    var rest := s[m..];
    forall k | 0 <= k < |rest| - 1 ensures !DoubleHyphenAt(rest, k) {
      assert rest[k] == s[m + k] && rest[k + 1] == s[m + k + 1];
      assert !DoubleHyphenAt(s, m + k);
    }
  }

  lemma FirstWordNoSpace(s: string, n: nat)
    requires NoSpace(s) && n <= |s|
    ensures ' ' !in s[..n]
  {
    var w := s[..n];
    assert forall k :: 0 <= k < |w| ==> w[k] == s[k] && !IsSpace(s[k]);
  }

  lemma DehyphenFirst(s: string, n: nat)
    requires n == RunBefore(s, '-') && n < |s|
    ensures Dehyphen(s) == s[..n] + " " + Dehyphen(s[n + 1..])
  {
    var w, rest := s[..n], s[n + 1..];
    HyphenSplit(s, n);
    DehyphenNoHyphen(w);
    DehyphenAround(w, rest);
  }

  lemma HyphenSplit(s: string, n: nat)
    requires n < |s| && s[n] == '-'
    ensures s == s[..n] + "-" + s[n + 1..]
  {
  }

  lemma DehyphenNoHyphen(w: string)
    requires forall k :: 0 <= k < |w| ==> w[k] != '-'
    ensures Dehyphen(w) == w
  {
  }

  lemma DehyphenAround(w: string, rest: string)
    ensures Dehyphen(w + "-" + rest) == Dehyphen(w) + " " + Dehyphen(rest)
  {
    DehyphenAppend(w + "-", rest);
    DehyphenAppend(w, "-");
  }

  /** Capitalising and joining the pieces of a word, a space and a text
      that starts with a word. */
  lemma TitleOfSpaced(w: string, d: string)
    requires w != [] && ' ' !in w && d != [] && d[0] != ' '
    ensures JoinSpaced(Caps(Pieces(w + " " + d))) == Capitalize(w) + " " + JoinSpaced(Caps(Pieces(d)))
  {
    PiecesOfSpaced(w, d);
    CapsCons(w, Pieces(d));
    JoinCons(Capitalize(w), Caps(Pieces(d)));
  }

  lemma PiecesOfSpaced(w: string, d: string)
    requires w != [] && ' ' !in w && d != [] && d[0] != ' '
    ensures Pieces(w + " " + d) == [w] + Pieces(d) && Pieces(d) != []
  {
    PiecesSplit(w, d);
    var ws := Pieces(d);
    assert ws == [d[..RunBefore(d, ' ')]] + Pieces(d[RunBefore(d, ' ')..]);
  }

  lemma CapsCons(w: string, ws: seq<string>)
    ensures Caps([w] + ws) == [Capitalize(w)] + Caps(ws)
  {
  }

  lemma JoinCons(c: string, cs: seq<string>)
    requires cs != []
    ensures JoinSpaced([c] + cs) == c + " " + JoinSpaced(cs)
  {
    assert ([c] + cs)[1..] == cs;
  }

  /** A slug with a hyphen: the heading is the first word capitalised, a
      space, and the heading of the rest. */
  lemma TitleOfHyphenated(s: string, n: nat)
    requires IsSlugText(s) && n == RunBefore(s, '-') && n < |s|
    ensures 0 < n && n + 1 < |s| && IsSlugText(s[n + 1..])
    ensures ToTitleCase(s) == Capitalize(s[..n]) + " " + ToTitleCase(s[n + 1..])
  {
    SlugSplit(s, n);
    var d := Dehyphen(s[n + 1..]);
    assert d[0] == s[n + 1] && d[0] != ' ';
    TitleOfSpaced(s[..n], d);
  }

  /** The slug of a capitalised word, a space and a heading. */
  lemma SlugOfJoin(w: string, t: string)
    requires NoSpace(w) && NoUpper(w)
    requires t == [] || !IsSpace(Lower(t)[0])
    ensures SlugNoTrim(Capitalize(w) + " " + t) == w + "-" + SlugNoTrim(t)
  {
    calc {
      SlugNoTrim(Capitalize(w) + " " + t);
      HyphenateSpaces(Lower(Capitalize(w) + " " + t));
      { LowerOfJoin(w, t); }
      HyphenateSpaces(w + (" " + Lower(t)));
      { HyphenatePrefix(w, " " + Lower(t)); }
      w + HyphenateSpaces(" " + Lower(t));
      { HyphenateSpace(Lower(t)); }
      w + ("-" + HyphenateSpaces(Lower(t)));
      w + "-" + SlugNoTrim(t);
    }
  }

  lemma LowerOfJoin(w: string, t: string)
    requires NoUpper(w)
    ensures Lower(Capitalize(w) + " " + t) == w + (" " + Lower(t))
  {
    LowerAppend(Capitalize(w) + " ", t);
    LowerAppend(Capitalize(w), " ");
    LowerCapitalize(w);
  }

  /** The slug functions undo `toTitleCase` on a slug:
      `toSlug(toTitleCase(s)) == s`, so the heading shown for a domain leads
      back to the same course. */
  lemma {:induction false} SlugOfTitle(s: string)
    requires IsSlugText(s)
    ensures SlugNoTrim(ToTitleCase(s)) == s
    decreases |s|
  {
    var n := RunBefore(s, '-');
    if n == |s| {
      SlugOfWord(s);
    } else {
      TitleOfHyphenated(s, n);
      var rest := s[n + 1..];
      SlugOfTitle(rest);
      HeadWordOfSlug(s, n);
      SlugOfHeading(s[..n], rest);
      HyphenSplit(s, n);
    }
  }

  /** The text before a hyphen of a slug has no white space and no capitals. */
  lemma HeadWordOfSlug(s: string, n: nat)
    requires IsSlugText(s) && n <= |s|
    ensures NoSpace(s[..n]) && NoUpper(s[..n])
  {
    assert forall k :: 0 <= k < n ==> s[..n][k] == s[k];
  }

  lemma SlugOfWord(s: string)
    requires IsSlugText(s) && RunBefore(s, '-') == |s|
    ensures SlugNoTrim(ToTitleCase(s)) == s
  {
    TitleOfWord(s);
    LowerCapitalize(s);
  }

  /** One step of the round trip: a word, a space and the heading of a slug
      whose own round trip holds. */
  lemma SlugOfHeading(w: string, rest: string)
    requires NoSpace(w) && NoUpper(w) && IsSlugText(rest)
    requires SlugNoTrim(ToTitleCase(rest)) == rest
    ensures SlugNoTrim(Capitalize(w) + " " + ToTitleCase(rest)) == w + "-" + rest
  {
    var t := ToTitleCase(rest);
    TitleHead(rest);
    assert Lower(t)[0] == LowerChar(UpperChar(rest[0])) == rest[0];
    SlugOfJoin(w, t);
  }
}
