/** ASCII string helpers standing for the JavaScript string methods the
    application uses: `toLowerCase`, `trim`, `includes`, `split(/\s+/)`,
    `String(n)` and `padStart`. */
module Text {

  import opened Wrappers

  /** JavaScript `\s`, restricted to ASCII: space, tab, line feed,
      vertical tab, form feed and carriage return. */
  predicate IsSpace(c: char) {
    c == ' ' || '\t' <= c <= '\r'
  }

  function LowerChar(c: char): char {
    if 'A' <= c <= 'Z' then (c as int + 32) as char else c
  }

  function UpperChar(c: char): char {
    if 'a' <= c <= 'z' then (c as int - 32) as char else c
  }

  /** `s.toLowerCase()` on ASCII text. */
  function Lower(s: string): (r: string)
    ensures |r| == |s|
    ensures forall i :: 0 <= i < |s| ==> r[i] == LowerChar(s[i])
  {
    seq(|s|, i requires 0 <= i < |s| => LowerChar(s[i]))
  }

  function TrimLeft(s: string): (r: string)
    ensures |r| <= |s|
    ensures r == [] || !IsSpace(r[0])
  {
    if |s| > 0 && IsSpace(s[0]) then TrimLeft(s[1..]) else s
  }

  /** What `TrimLeft` keeps is a suffix of its input, and everything it
      drops is white space. */
  lemma {:induction false} TrimLeftIsSuffix(s: string)
    ensures TrimLeft(s) == s[|s| - |TrimLeft(s)|..]
    ensures forall k :: 0 <= k < |s| - |TrimLeft(s)| ==> IsSpace(s[k])
  {
    if |s| > 0 && IsSpace(s[0]) {
      TrimLeftIsSuffix(s[1..]);
      assert forall k :: 1 <= k < |s| ==> s[k] == s[1..][k - 1];
    }
  }

  function TrimRight(s: string): (r: string)
    ensures |r| <= |s|
    ensures r == [] || !IsSpace(r[|r| - 1])
  {
    if |s| > 0 && IsSpace(s[|s| - 1]) then TrimRight(s[..|s| - 1]) else s
  }

  /** What `TrimRight` keeps is a prefix of its input, and everything it
      drops is white space. */
  lemma {:induction false} TrimRightIsPrefix(s: string)
    ensures TrimRight(s) == s[..|TrimRight(s)|]
    ensures forall k :: |TrimRight(s)| <= k < |s| ==> IsSpace(s[k])
  {
    if |s| > 0 && IsSpace(s[|s| - 1]) {
      TrimRightIsPrefix(s[..|s| - 1]);
    }
  }

  /** `s.trim()`: drops the leading and trailing white space. */
  function Trim(s: string): (r: string)
    ensures |r| <= |s|
    ensures r == [] || (!IsSpace(r[0]) && !IsSpace(r[|r| - 1]))
  {
    TrimRightIsPrefix(TrimLeft(s));
    TrimRight(TrimLeft(s))
  }

  /** What `trim` keeps is the slice of `s` starting where the leading white
      space ends, and every character outside that slice is white space. */
  lemma TrimIsSlice(s: string)
    ensures var r, i := Trim(s), |s| - |TrimLeft(s)|;
      i + |r| <= |s| && r == s[i..i + |r|] &&
      (forall k :: 0 <= k < i ==> IsSpace(s[k])) &&
      (forall k :: i + |r| <= k < |s| ==> IsSpace(s[k]))
  {
    TrimLeftIsSuffix(s);
    TrimRightIsPrefix(TrimLeft(s));
    SliceOfSuffix(s, TrimLeft(s), Trim(s));
  }

  lemma SliceOfSuffix(s: string, t: string, r: string)
    requires |t| <= |s| && t == s[|s| - |t|..]
    requires |r| <= |t| && r == t[..|r|]
    requires forall k :: |r| <= k < |t| ==> IsSpace(t[k])
    ensures var i := |s| - |t|;
      i + |r| <= |s| && r == s[i..i + |r|] && (forall k :: i + |r| <= k < |s| ==> IsSpace(s[k]))
  {
    var i := |s| - |t|;
    assert forall k :: i <= k < |s| ==> s[k] == t[k - i];
  }

  predicate IsPrefix(p: string, s: string) {
    |p| <= |s| && s[..|p|] == p
  }

  /** `s.includes(sub)`: `sub` occurs in `s` at some position. */
  predicate Contains(s: string, sub: string)
    decreases |s|
  {
    IsPrefix(sub, s) || (|s| > 0 && Contains(s[1..], sub))
  }

  /** Everything in a string contains the empty string. */
  lemma ContainsEmpty(s: string)
    ensures Contains(s, "")
  {
  }

  /** `sub` sits in `s` starting at position `j`. */
  predicate OccursAt(s: string, sub: string, j: int) {
    0 <= j && j + |sub| <= |s| && s[j..j + |sub|] == sub
  }

  /** `Contains` holds exactly when `sub` sits at some position of `s`. */
  lemma {:induction false} ContainsAt(s: string, sub: string)
    ensures Contains(s, sub) <==> exists j :: OccursAt(s, sub, j)
    decreases |s|
  {
    if IsPrefix(sub, s) {
      assert OccursAt(s, sub, 0);
    } else if |s| > 0 {
      ContainsAt(s[1..], sub);
      if Contains(s[1..], sub) {
        var j :| OccursAt(s[1..], sub, j);
        assert s[j + 1..j + 1 + |sub|] == s[1..][j..j + |sub|];
        assert OccursAt(s, sub, j + 1);
      }
      if exists j :: OccursAt(s, sub, j) {
        var j :| OccursAt(s, sub, j);
        assert j != 0;
        assert s[1..][j - 1..j - 1 + |sub|] == s[j..j + |sub|];
        assert OccursAt(s[1..], sub, j - 1);
      }
    } else {
      assert forall j :: !OccursAt(s, sub, j);
    }
  }

  /** Length of the leading run of non-space characters. */
  function WordLength(s: string): (n: nat)
    ensures n <= |s|
    ensures forall i :: 0 <= i < n ==> !IsSpace(s[i])
    ensures n == |s| || IsSpace(s[n])
  {
    if |s| == 0 || IsSpace(s[0]) then 0 else 1 + WordLength(s[1..])
  }

  /** The length of the leading run of characters other than `sep`: the
      position of the first `sep`, or the length when there is none. */
  function RunBefore(s: string, sep: char): (n: nat)
    ensures n <= |s|
    ensures forall k :: 0 <= k < n ==> s[k] != sep
    ensures n == |s| || s[n] == sep
  {
    if s == [] || s[0] == sep then 0 else 1 + RunBefore(s[1..], sep)
  }

  /** The run ends at `n` when `n` holds the first `sep`, or is the end. */
  lemma RunBeforeAt(s: string, sep: char, n: nat)
    requires n <= |s| && (n == |s| || s[n] == sep)
    requires forall k :: 0 <= k < n ==> s[k] != sep
    ensures RunBefore(s, sep) == n
  {
  }

  /** A non-empty run of non-space characters. */
  predicate IsWord(w: string) {
    |w| > 0 && forall i :: 0 <= i < |w| ==> !IsSpace(w[i])
  }

  /** `s.split(/\s+/)` on a trimmed string, without the single empty piece
      JavaScript yields for an empty string: the maximal runs of non-space
      characters, left to right. */
  function Words(s: string): (ws: seq<string>)
    ensures forall k :: 0 <= k < |ws| ==> IsWord(ws[k])
    decreases |s|
  {
    if s == [] then []
    else if IsSpace(s[0]) then Words(s[1..])
    else
      var n := WordLength(s);
      var w, rest := s[..n], Words(s[n..]);
      assert IsWord(w);
      assert forall k :: 0 <= k < |rest| ==> IsWord(rest[k]);
      [w] + rest
  }

  /** A word followed by white space and more text splits into that word
      and the words of the rest. */
  lemma WordsSplit(w: string, c: char, rest: string)
    requires IsWord(w) && IsSpace(c)
    ensures Words(w + [c] + rest) == [w] + Words(rest)
  {
    var s := w + [c] + rest;
    assert forall k :: 0 <= k < |w| ==> s[k] == w[k];
    assert s[|w|] == c;
    assert WordLength(s) == |w|;
    assert s[..|w|] == w;
    assert s[|w|..] == [c] + rest;
    assert ([c] + rest)[1..] == rest;
  }

  /** Leading white space yields no word. */
  lemma WordsSkipSpace(c: char, rest: string)
    requires IsSpace(c)
    ensures Words([c] + rest) == Words(rest)
  {
    assert ([c] + rest)[1..] == rest;
  }

  /** A single word is its only word. */
  lemma WordsOfWord(w: string)
    requires IsWord(w)
    ensures Words(w) == [w]
  {
    assert WordLength(w) == |w|;
    assert w[..|w|] == w;
  }

  /** `words.filter(w => w.length > 2)`. */
  function LongWords(ws: seq<string>): (r: seq<string>)
    ensures |r| <= |ws|
  {
    if ws == [] then []
    else if |ws[0]| > 2 then [ws[0]] + LongWords(ws[1..])
    else LongWords(ws[1..])
  }

  /** Without a word longer than 2 characters nothing is kept. */
  lemma {:induction false} NoLongWords(ws: seq<string>)
    requires forall w :: w in ws ==> |w| <= 2
    ensures LongWords(ws) == []
  {
    if ws != [] {
      assert ws[0] in ws;
      assert forall w :: w in ws[1..] ==> w in ws;
      NoLongWords(ws[1..]);
    }
  }

  /** The filter keeps exactly the words longer than 2 characters. */
  lemma {:induction false} LongWordsMembers(ws: seq<string>)
    ensures var r := LongWords(ws);
      (forall k :: 0 <= k < |r| ==> |r[k]| > 2 && r[k] in ws) &&
      (forall w :: w in ws && |w| > 2 ==> w in r)
  {
    if ws != [] {
      LongWordsMembers(ws[1..]);
      assert ws == [ws[0]] + ws[1..];
    }
  }

  /** The filter works word by word and keeps order and repetitions: filtering
      a concatenation concatenates the filtered parts. */
  lemma {:induction false} LongWordsConcat(a: seq<string>, b: seq<string>)
    ensures LongWords(a + b) == LongWords(a) + LongWords(b)
  {
    if a == [] {
      assert a + b == b;
    } else {
      var w, pre := a[0], if |a[0]| > 2 then [a[0]] else [];
      assert a + b == [w] + (a[1..] + b);
      assert a == [w] + a[1..];
      calc {
        LongWords(a + b);
        { LongWordsCons(w, a[1..] + b); }
        pre + LongWords(a[1..] + b);
        { LongWordsConcat(a[1..], b); }
        pre + (LongWords(a[1..]) + LongWords(b));
        (pre + LongWords(a[1..])) + LongWords(b);
        { LongWordsCons(w, a[1..]); }
        LongWords(a) + LongWords(b);
      }
    }
  }

  lemma LongWordsCons(w: string, rest: seq<string>)
    ensures LongWords([w] + rest) == (if |w| > 2 then [w] else []) + LongWords(rest)
  {
    assert ([w] + rest)[1..] == rest;
  }

  /** One word is kept exactly when it is longer than 2 characters. */
  lemma LongWordsOne(w: string)
    ensures LongWords([w]) == if |w| > 2 then [w] else []
  {
    assert [w][1..] == [];
  }

  predicate IsDigit(c: char) {
    '0' <= c <= '9'
  }

  function DigitChar(d: nat): char
    requires d < 10
  {
    ('0' as int + d) as char
  }

  /** `String(n)` for a natural number: its decimal digits, most significant first. */
  function NatToString(n: nat): (r: string)
    ensures |r| > 0
    ensures forall i :: 0 <= i < |r| ==> IsDigit(r[i])
  {
    if n < 10 then [DigitChar(n)] else NatToString(n / 10) + [DigitChar(n % 10)]
  }

  /** `String(i)` for an integer. */
  function IntToString(i: int): (r: string)
    ensures |r| > 0
    ensures forall k :: 0 <= k < |r| ==> IsDigit(r[k]) || r[k] == '-'
  {
    if i < 0 then "-" + NatToString(-i) else NatToString(i)
  }

  /** The value of a string of decimal digits (the reading direction of `NatToString`). */
  function DigitsValue(s: string): nat
    requires forall i :: 0 <= i < |s| ==> IsDigit(s[i])
  {
    if s == [] then 0
    else
      assert IsDigit(s[|s| - 1]);
      DigitsValue(s[..|s| - 1]) * 10 + (s[|s| - 1] as int - '0' as int)
  }

  /** Reading back the decimal digits of `n` gives `n`. */
  lemma {:induction false} NatToStringRoundTrip(n: nat)
    ensures DigitsValue(NatToString(n)) == n
  {
    if n >= 10 {
      var s := NatToString(n);
      assert s[..|s| - 1] == NatToString(n / 10);
      NatToStringRoundTrip(n / 10);
    }
  }

  /** Only the first character of `String(i)` can be a minus sign. */
  lemma IntToStringShape(i: int)
    ensures IntToString(i)[0] == '-' <==> i < 0
    ensures forall k :: 1 <= k < |IntToString(i)| ==> IsDigit(IntToString(i)[k])
  {
    var r := IntToString(i);
    if i < 0 {
      assert r == "-" + NatToString(-i);
      assert forall k :: 1 <= k < |r| ==> r[k] == NatToString(-i)[k - 1];
    }
  }

  /** `String` is injective on integers. */
  lemma IntToStringInjective(a: int, b: int)
    requires IntToString(a) == IntToString(b)
    ensures a == b
  {
    IntToStringShape(a);
    IntToStringShape(b);
    if a < 0 {
      assert NatToString(-a) == IntToString(a)[1..] == NatToString(-b);
      NatToStringRoundTrip(-a);
      NatToStringRoundTrip(-b);
    } else {
      NatToStringRoundTrip(a);
      NatToStringRoundTrip(b);
    }
  }

  /** A number followed by text starting with '-' splits back uniquely: the
      number ends where the first '-' after its first character is. */
  lemma IntPrefixUnique(a: int, b: int, y: string, y': string)
    requires y != [] && y[0] == '-' && y' != [] && y'[0] == '-'
    requires IntToString(a) + y == IntToString(b) + y'
    ensures a == b && y == y'
  {
    var x, x' := IntToString(a), IntToString(b);
    IntToStringShape(a);
    IntToStringShape(b);
    var z := (x + y)[1..];
    assert forall j :: 0 <= j < |x| - 1 ==> z[j] == x[j + 1];
    RunBeforeAt(z, '-', |x| - 1);
    assert forall j :: 0 <= j < |x'| - 1 ==> z[j] == x'[j + 1];
    RunBeforeAt(z, '-', |x'| - 1);
    assert x == (x + y)[..|x|] == (x' + y')[..|x'|] == x';
    IntToStringInjective(a, b);
    assert y == (x + y)[|x|..] == (x' + y')[|x'|..] == y';
  }

  /** `s.padStart(2, "0")`. */
  function PadStart2(s: string): (r: string)
    ensures |r| == if |s| < 2 then 2 else |s|
    ensures r[|r| - |s|..] == s
    ensures forall k :: 0 <= k < |r| - |s| ==> r[k] == '0'
  {
    if |s| == 0 then "00" else if |s| == 1 then "0" + s else s
  }

  /** The position of the first occurrence of `sub` in `s`, if any (`indexOf`). */
  function IndexOf(s: string, sub: string): (r: Option<nat>)
    ensures r.Some? ==> r.value + |sub| <= |s| && s[r.value..r.value + |sub|] == sub
    ensures r.Some? ==> forall j :: 0 <= j < r.value ==> !IsPrefix(sub, s[j..])
    ensures r.None? <==> !Contains(s, sub)
    decreases |s|
  {
    if IsPrefix(sub, s) then Some(0)
    else if |s| == 0 then None
    else match IndexOf(s[1..], sub)
      case None => None
      case Some(k) =>
        ShiftNoPrefix(s, sub, k);
        ShiftOccurrence(s, sub, k);
        Some(k + 1)
  }

  /** No occurrence before `k` in the tail and none at the head means none
      before `k + 1` in the whole string. */
  lemma ShiftNoPrefix(s: string, sub: string, k: nat)
    requires |s| > 0 && !IsPrefix(sub, s) && k < |s|
    requires forall j :: 0 <= j < k ==> !IsPrefix(sub, s[1..][j..])
    ensures forall j :: 0 <= j < k + 1 ==> !IsPrefix(sub, s[j..])
  {
    forall j | 0 < j < k + 1
      ensures !IsPrefix(sub, s[j..])
    {
      assert s[j..] == s[1..][j - 1..];
    }
  }

  lemma ShiftOccurrence(s: string, sub: string, k: nat)
    requires |s| > 0 && k + |sub| <= |s| - 1 && s[1..][k..k + |sub|] == sub
    ensures s[k + 1..k + 1 + |sub|] == sub
  {
    assert s[k + 1..k + 1 + |sub|] == s[1..][k..k + |sub|];
  }

  /** `sub` sits at `i` and at no earlier position. */
  predicate FirstOccurrence(s: string, sub: string, i: int) {
    OccursAt(s, sub, i) && forall j :: 0 <= j < i ==> !OccursAt(s, sub, j)
  }

  /** `indexOf` finds the first occurrence. */
  lemma IndexOfFirst(s: string, sub: string, i: int)
    requires FirstOccurrence(s, sub, i)
    ensures IndexOf(s, sub) == Some(i)
  {
    ContainsAt(s, sub);
    assert OccursAt(s, sub, i);
    var v := IndexOf(s, sub).value;
    assert OccursAt(s, sub, v);
    assert !(v < i);
    assert s[i..][..|sub|] == s[i..i + |sub|];
    assert IsPrefix(sub, s[i..]);
  }

  /** `s.replace(pattern, replacement)` with a string pattern: the first
      occurrence is replaced, and a string without one is unchanged. */
  function ReplaceFirst(s: string, pattern: string, replacement: string): (r: string)
    ensures !Contains(s, pattern) ==> r == s
    ensures forall i :: FirstOccurrence(s, pattern, i) ==>
      r == s[..i] + replacement + s[i + |pattern|..]
  {
    match IndexOf(s, pattern)
    case None => ContainsAt(s, pattern); s
    case Some(i) =>
      assert forall j :: FirstOccurrence(s, pattern, j) ==> j == i by {
        forall j | FirstOccurrence(s, pattern, j) ensures j == i {
          IndexOfFirst(s, pattern, j);
        }
      }
      s[..i] + replacement + s[i + |pattern|..]
  }

  /** `s.replace(/pattern/g, "")` for a non-empty literal pattern: occurrences are
      removed left to right without overlapping. */
  function RemoveAll(s: string, pattern: string): (r: string)
    requires |pattern| > 0
    ensures |r| <= |s|
    ensures !Contains(s, pattern) ==> r == s
    decreases |s|
  {
    if |s| == 0 then s
    else if IsPrefix(pattern, s) then RemoveAll(s[|pattern|..], pattern)
    else [s[0]] + RemoveAll(s[1..], pattern)
  }

  /** Removing an occurrence can bring two pieces together into a new one,
      as with the regular-expression replace. */
  lemma RemoveAllCanLeaveOccurrence()
    ensures RemoveAll("aabb", "ab") == "ab"
    ensures Contains(RemoveAll("aabb", "ab"), "ab")
  {
    assert IsPrefix("ab", "abb");
    assert RemoveAll("abb", "ab") == RemoveAll("b", "ab") == "b";
    assert "aabb"[..2] == "aa";
    assert RemoveAll("aabb", "ab") == "a" + RemoveAll("abb", "ab");
    assert IsPrefix("ab", "ab");
  }
}
