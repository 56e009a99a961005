/** The Python string operations the annotator is built from: character classes,
    str.lower(), str.split(), " ".join / "".join, str.translate that deletes
    string.punctuation, str.strip(), str.replace(p, ""), the `in` substring test,
    re.split on "." or ";" and the word-boundary search `\bW\b`. */
module Text {

  /** str.isspace(): the characters str.split() with no argument splits on. */
  predicate IsSpace(c: char) {
    c == ' ' || ('\t' <= c <= '\r') || ('\U{1C}' <= c <= '\U{1F}') || c == '\U{85}' || c == '\U{A0}'
    || c == '\U{1680}' || ('\U{2000}' <= c <= '\U{200A}') || c == '\U{2028}' || c == '\U{2029}'
    || c == '\U{202F}' || c == '\U{205F}' || c == '\U{3000}'
  }

  /** The regex class `\w` of a str pattern (letters, digits, underscore), exact up to U+024F;
      characters above U+024F count as non-word characters. */
  predicate IsWordChar(c: char) {
    ('a' <= c <= 'z') || ('A' <= c <= 'Z') || ('0' <= c <= '9') || c == '_'
    || c == 'ª' || c == '²' || c == '³' || c == 'µ' || c == '¹' || c == 'º' || ('¼' <= c <= '¾')
    || ('À' <= c <= 'Ö') || ('Ø' <= c <= 'ö') || ('ø' <= c <= '\U{24F}')
  }

  /** A character of string.punctuation. */
  predicate IsPunctuation(c: char) {
    ('!' <= c <= '/') || (':' <= c <= '@') || ('[' <= c <= '`') || ('{' <= c <= '~')
  }

  /** str.lower() on one character, exact for ASCII and Latin-1. */
  function LowerChar(c: char): (d: char)
    ensures IsPunctuation(c) ==> d == c
  {
    if ('A' <= c <= 'Z') || ('À' <= c <= 'Þ' && c != '×') then (c as int + 32) as char else c
  }

  function Lower(s: string): (r: string)
    ensures |r| == |s| && forall i :: 0 <= i < |s| ==> r[i] == LowerChar(s[i])
  {
    seq(|s|, i requires 0 <= i < |s| => LowerChar(s[i]))
  }

  /** The character classes whose maximal runs the annotator cuts text into. */
  datatype CharClass = Space | NonSpace | WordChar | NonDelimiter | NonPunctuation

  predicate In(c: char, k: CharClass) {
    match k
    case Space => IsSpace(c)
    case NonSpace => !IsSpace(c)
    case WordChar => IsWordChar(c)
    case NonDelimiter => c != '.' && c != ';'
    case NonPunctuation => !IsPunctuation(c)
  }

  predicate AllIn(s: string, k: CharClass) {
    forall i :: 0 <= i < |s| ==> In(s[i], k)
  }

  predicate NoneIn(s: string, k: CharClass) {
    forall i :: 0 <= i < |s| ==> !In(s[i], k)
  }

  /** Length of the longest prefix of `s` made of characters of class `k`. */
  function RunLength(s: string, k: CharClass): (n: nat)
    ensures n <= |s| && AllIn(s[..n], k)
    ensures n < |s| ==> !In(s[n], k)
  {
    if s == [] || !In(s[0], k) then 0
    else
      var m := RunLength(s[1..], k);
      assert s[..1 + m] == [s[0]] + s[1..][..m];
      1 + m
  }

  lemma RunLengthUnique(s: string, k: CharClass, m: nat)
    requires m <= |s| && AllIn(s[..m], k) && (m < |s| ==> !In(s[m], k))
    ensures RunLength(s, k) == m
  {
    var n := RunLength(s, k);
    assert forall j :: 0 <= j < m ==> s[..m][j] == s[j];
    assert forall j :: 0 <= j < n ==> s[..n][j] == s[j];
  }

  /** The maximal non-empty runs of characters of class `k`, left to right. */
  function Segments(s: string, k: CharClass): (r: seq<string>)
    ensures forall i :: 0 <= i < |r| ==> r[i] != [] && AllIn(r[i], k)
    decreases |s|
  {
    if s == [] then []
    else if !In(s[0], k) then Segments(s[1..], k)
    else
      var n := RunLength(s, k);
      [s[..n]] + Segments(s[n..], k)
  }

  /** str.split() with no argument. */
  function Words(s: string): (r: seq<string>)
    ensures forall i :: 0 <= i < |r| ==> r[i] != [] && AllIn(r[i], NonSpace)
  {
    Segments(s, NonSpace)
  }

  /** A non-empty run of one class is its own only segment. */
  lemma SegmentsOfRun(w: string, k: CharClass)
    requires AllIn(w, k)
    ensures Segments(w, k) == if w == [] then [] else [w]
  {
    if w != [] {
      assert w[..|w|] == w;
      RunLengthUnique(w, k, |w|);
      assert w[|w|..] == [];
    }
  }

  /** A character outside the class separates the segments on its two sides. */
  lemma {:induction false} SegmentsSplit(a: string, c: char, b: string, k: CharClass)
    requires !In(c, k)
    ensures Segments(a + [c] + b, k) == Segments(a, k) + Segments(b, k)
    decreases |a|
  {
    var s := a + [c] + b;
    if a == [] {
      assert s[1..] == b;
    } else if !In(a[0], k) {
      assert s[1..] == a[1..] + [c] + b;
      SegmentsSplit(a[1..], c, b, k);
    } else {
      var n := RunLength(a, k);
      assert RunLength(s, k) == n by {
        assert s[..n] == a[..n];
        assert s[n] == if n < |a| then a[n] else c;
        RunLengthUnique(s, k, n);
      }
      assert Segments(s, k) == [a[..n]] + Segments(a[n..] + [c] + b, k) by {
        assert s[..n] == a[..n] && s[n..] == a[n..] + [c] + b;
      }
      SegmentsSplit(a[n..], c, b, k);
      assert Segments(a, k) == [a[..n]] + Segments(a[n..], k);
    }
  }

  /** `w` occurs at index `i` of `s` with no character of class `k` right before or after it.
      For a word `w` and the class WordChar this is the regex `\bw\b` matching at `i`. */
  predicate BoundedAt(s: string, w: string, i: int, k: CharClass) {
    0 <= i && i + |w| <= |s| && s[i..i + |w|] == w
    && (i == 0 || !In(s[i - 1], k))
    && (i + |w| == |s| || !In(s[i + |w|], k))
  }

  /** Some bounded occurrence of `w` in `s`. */
  predicate OccursBounded(s: string, w: string, k: CharClass) {
    exists i | 0 <= i <= |s| - |w| :: BoundedAt(s, w, i, k)
  }

  /** `\bw\b` searched anywhere in `s` (re.search). */
  predicate SearchWord(s: string, w: string) {
    OccursBounded(s, w, WordChar)
  }

  /** Bounded occurrences in a suffix are bounded occurrences in the whole string, shifted,
      as long as the suffix does not start right after a character of the class. */
  lemma BoundedShift(s: string, w: string, k: CharClass, d: nat, j: nat)
    requires d <= |s|
    requires j > 0 || d == 0 || !In(s[d - 1], k)
    ensures BoundedAt(s[d..], w, j, k) <==> BoundedAt(s, w, j + d, k)
  {
    var t := s[d..];
    if j + |w| <= |t| {
      assert t[j..j + |w|] == s[j + d..j + d + |w|];
      if j > 0 {
        assert t[j - 1] == s[j + d - 1];
      }
      if j + |w| < |t| {
        assert t[j + |w|] == s[j + d + |w|];
      }
    }
  }

  /** A run never starts right after a character outside its class... at index 0 of a string
      whose first character is outside the class, nothing of the class occurs. */
  lemma BoundedNotAtOutsider(s: string, w: string, k: CharClass, i: nat)
    requires w != [] && AllIn(w, k) && i < |s| && !In(s[i], k)
    ensures !BoundedAt(s, w, i, k)
  {
    assert i + |w| <= |s| ==> s[i..i + |w|][0] == s[i];
  }

  lemma BoundedSkipOutsider(s: string, w: string, k: CharClass)
    requires w != [] && AllIn(w, k) && s != [] && !In(s[0], k)
    ensures OccursBounded(s, w, k) <==> OccursBounded(s[1..], w, k)
  {
    if OccursBounded(s, w, k) {
      var i :| 0 <= i <= |s| - |w| && BoundedAt(s, w, i, k);
      BoundedNotAtOutsider(s, w, k, 0);
      BoundedShift(s, w, k, 1, i - 1);
    }
    if OccursBounded(s[1..], w, k) {
      var j :| 0 <= j <= |s[1..]| - |w| && BoundedAt(s[1..], w, j, k);
      BoundedShift(s, w, k, 1, j);
    }
  }

  lemma BoundedSkipRun(s: string, w: string, k: CharClass)
    requires w != [] && AllIn(w, k) && s != [] && In(s[0], k)
    ensures var n := RunLength(s, k);
      OccursBounded(s, w, k) <==> w == s[..n] || OccursBounded(s[n..], w, k)
  {
    var n := RunLength(s, k);
    var t := s[n..];
    if OccursBounded(s, w, k) {
      var i :| 0 <= i <= |s| - |w| && BoundedAt(s, w, i, k);
      BoundedInRunOrAfter(s, w, k, i);
    }
    if w == s[..n] {
      assert s[0..0 + |w|] == w;
      assert BoundedAt(s, w, 0, k);
    }
    if OccursBounded(t, w, k) {
      var j :| 0 <= j <= |t| - |w| && BoundedAt(t, w, j, k);
      if j == 0 {
        BoundedNotAtOutsider(t, w, k, 0);
      }
      BoundedShift(s, w, k, n, j);
    }
  }

  /** A bounded occurrence in a string that starts with a run of class `k` is that run or lies
      after it. */
  lemma BoundedInRunOrAfter(s: string, w: string, k: CharClass, i: nat)
    requires w != [] && AllIn(w, k) && s != [] && In(s[0], k) && BoundedAt(s, w, i, k)
    ensures var n := RunLength(s, k);
      w == s[..n] || OccursBounded(s[n..], w, k)
  {
    var n := RunLength(s, k);
    assert forall j :: 0 <= j < n ==> s[..n][j] == s[j];
    if i == 0 {
      assert s[..|w|] == w;
      RunLengthUnique(s, k, |w|);
    } else if i == n {
      BoundedNotAtOutsider(s, w, k, n);
    } else {
      BoundedShift(s, w, k, n, i - n);
    }
  }

  /** A bounded occurrence of a run of class `k` is exactly one of the segments of that class. */
  lemma {:induction false} SegmentsAreBoundedRuns(s: string, w: string, k: CharClass)
    requires w != [] && AllIn(w, k)
    ensures w in Segments(s, k) <==> OccursBounded(s, w, k)
    decreases |s|
  {
    if s == [] {
    } else if !In(s[0], k) {
      SegmentsAreBoundedRuns(s[1..], w, k);
      BoundedSkipOutsider(s, w, k);
    } else {
      var n := RunLength(s, k);
      SegmentsAreBoundedRuns(s[n..], w, k);
      BoundedSkipRun(s, w, k);
      assert Segments(s, k) == [s[..n]] + Segments(s[n..], k);
    }
  }

  /** " ".join(ws) */
  function JoinSpace(ws: seq<string>): string {
    if |ws| == 0 then ""
    else if |ws| == 1 then ws[0]
    else JoinSpace(ws[..|ws| - 1]) + " " + ws[|ws| - 1]
  }

  /** "".join(ws) */
  function Concat(ws: seq<string>): string {
    if ws == [] then "" else ws[0] + Concat(ws[1..])
  }

  /** Splitting the space-joined words gives them back: " ".join and str.split() are inverse
      on lists of non-empty, whitespace-free words. */
  lemma {:induction false} WordsOfJoinSpace(ws: seq<string>)
    requires forall i :: 0 <= i < |ws| ==> ws[i] != [] && AllIn(ws[i], NonSpace)
    ensures Words(JoinSpace(ws)) == ws
  {
    if |ws| == 1 {
      SegmentsOfRun(ws[0], NonSpace);
    } else if |ws| > 1 {
      var init, last := ws[..|ws| - 1], ws[|ws| - 1];
      WordsOfJoinSpace(init);
      SegmentsSplit(JoinSpace(init), ' ', last, NonSpace);
      assert JoinSpace(init) + " " + last == JoinSpace(init) + [' '] + last;
      SegmentsOfRun(last, NonSpace);
      assert ws == init + [last];
    }
  }

  /** " ".join(s.split()) is a normal form: splitting it again gives the same words. */
  lemma NormalizeSpacesKeepsWords(s: string)
    ensures Words(JoinSpace(Words(s))) == Words(s)
  {
    WordsOfJoinSpace(Words(s));
  }

  /** Joining non-empty strings gives the empty string only for the empty list. */
  lemma {:induction false} JoinSpaceEmpty(ws: seq<string>)
    requires forall i :: 0 <= i < |ws| ==> ws[i] != []
    ensures JoinSpace(ws) == "" <==> ws == []
  {
    if |ws| > 1 {
      assert |JoinSpace(ws)| >= |ws[|ws| - 1]| > 0;
    }
  }

  /** "".join of runs of one class contains only characters of that class. */
  lemma {:induction false} ConcatAllIn(ws: seq<string>, k: CharClass)
    requires forall i :: 0 <= i < |ws| ==> AllIn(ws[i], k)
    ensures AllIn(Concat(ws), k)
  {
    if ws != [] {
      ConcatAllIn(ws[1..], k);
      var c := Concat(ws);
      assert c == ws[0] + Concat(ws[1..]);
      forall i | 0 <= i < |c| ensures In(c[i], k) {
        if i >= |ws[0]| {
          assert c[i] == Concat(ws[1..])[i - |ws[0]|];
        }
      }
    }
  }

  /** The characters of `s` of class `k`, in order: str.translate deleting the other ones. */
  function Keep(s: string, k: CharClass): (r: string)
    ensures |r| <= |s| && AllIn(r, k)
  {
    if s == [] then []
    else
      var rest := Keep(s[1..], k);
      var r := (if In(s[0], k) then [s[0]] else []) + rest;
      assert forall i :: 0 <= i < |r| ==> (i == 0 && In(s[0], k) && r[i] == s[0]) || r[i] in rest;
      r
  }

  lemma {:induction false} KeepAppend(a: string, b: string, k: CharClass)
    ensures Keep(a + b, k) == Keep(a, k) + Keep(b, k)
  {
    if a != [] {
      assert (a + b)[1..] == a[1..] + b;
      KeepAppend(a[1..], b, k);
    } else {
      assert a + b == b;
    }
  }

  lemma {:induction false} KeepAll(s: string, k: CharClass)
    requires AllIn(s, k)
    ensures Keep(s, k) == s
  {
    if s != [] {
      KeepAll(s[1..], k);
    }
  }

  lemma {:induction false} KeepNone(s: string, k: CharClass)
    requires NoneIn(s, k)
    ensures Keep(s, k) == []
  {
    if s != [] {
      KeepNone(s[1..], k);
    }
  }

  /** Concatenating the segments loses exactly the characters outside the class. */
  lemma {:induction false} ConcatSegments(s: string, k: CharClass)
    ensures Concat(Segments(s, k)) == Keep(s, k)
    decreases |s|
  {
    if s == [] {
    } else if !In(s[0], k) {
      ConcatSegments(s[1..], k);
    } else {
      var n := RunLength(s, k);
      ConcatSegments(s[n..], k);
      assert s == s[..n] + s[n..];
      KeepAppend(s[..n], s[n..], k);
      KeepAll(s[..n], k);
      assert Segments(s, k) == [s[..n]] + Segments(s[n..], k);
      assert Concat([s[..n]] + Segments(s[n..], k)) == s[..n] + Concat(Segments(s[n..], k));
    }
  }

  /** re.split("\.|;", s): the pieces between consecutive delimiters, empty pieces included. */
  function SplitOnDelimiters(s: string): (r: seq<string>)
    ensures |r| > 0
    decreases |s|
  {
    var n := RunLength(s, NonDelimiter);
    if n == |s| then [s] else [s[..n]] + SplitOnDelimiters(s[n + 1..])
  }

  /** list(filter(None, pieces)) */
  function DropEmpty(pieces: seq<string>): seq<string> {
    if pieces == [] then []
    else (if pieces[0] == "" then [] else [pieces[0]]) + DropEmpty(pieces[1..])
  }

  /** Splitting on "." or ";" and dropping the empty pieces yields the maximal delimiter-free runs. */
  lemma {:induction false} SplitDropEmptyIsSegments(s: string)
    ensures DropEmpty(SplitOnDelimiters(s)) == Segments(s, NonDelimiter)
    decreases |s|
  {
    var n := RunLength(s, NonDelimiter);
    if n == |s| {
      assert s[..n] == s;
      SegmentsOfRun(s, NonDelimiter);
    } else {
      SplitDropEmptyIsSegments(s[n + 1..]);
      assert s == s[..n] + [s[n]] + s[n + 1..];
      SegmentsSplit(s[..n], s[n], s[n + 1..], NonDelimiter);
      SegmentsOfRun(s[..n], NonDelimiter);
      assert SplitOnDelimiters(s) == [s[..n]] + SplitOnDelimiters(s[n + 1..]);
    }
  }

  /** The sentences of a stage text (lines 224-226): no sentence is empty or holds a delimiter,
      and together they hold every other character of the text, in order. */
  function Sentences(s: string): (r: seq<string>)
    ensures forall i :: 0 <= i < |r| ==> r[i] != [] && '.' !in r[i] && ';' !in r[i]
    ensures Concat(r) == Keep(s, NonDelimiter)
    ensures r == Segments(s, NonDelimiter)
  {
    SplitDropEmptyIsSegments(s);
    ConcatSegments(s, NonDelimiter);
    var r := DropEmpty(SplitOnDelimiters(s));
    assert forall i, j :: 0 <= i < |r| && 0 <= j < |r[i]| ==> In(r[i][j], NonDelimiter);
    r
  }

  /** `p` occurs in `s` starting at index `i`. */
  predicate OccursAt(s: string, p: string, i: int) {
    0 <= i && i + |p| <= |s| && s[i..i + |p|] == p
  }

  /** The `in` operator on two strings. */
  predicate IsSubstring(p: string, s: string) {
    exists i | 0 <= i <= |s| - |p| :: OccursAt(s, p, i)
  }

  /** s.replace(p, ""): every occurrence of `p`, scanned left to right without overlap, is deleted. */
  function Remove(s: string, p: string): string
    decreases |s|
  {
    if p == [] || |s| < |p| then s
    else if s[..|p|] == p then Remove(s[|p|..], p)
    else [s[0]] + Remove(s[1..], p)
  }

  /** Without an occurrence of `p`, replace leaves the string alone. */
  lemma {:induction false} RemoveAbsent(s: string, p: string)
    requires !IsSubstring(p, s)
    ensures Remove(s, p) == s
    decreases |s|
  {
    if p != [] && |s| >= |p| {
      assert OccursAt(s, p, 0) <==> s[..|p|] == p;
      var t := s[1..];
      forall i | 0 <= i <= |t| - |p|
        ensures !OccursAt(t, p, i)
      {
        OccursShift(s, p, i);
      }
      RemoveAbsent(t, p);
    }
  }

  lemma OccursShift(s: string, p: string, j: nat)
    requires s != []
    ensures OccursAt(s[1..], p, j) <==> OccursAt(s, p, j + 1)
  {
    if j + 1 + |p| <= |s| {
      assert s[1..][j..j + |p|] == s[j + 1..j + 1 + |p|];
    }
  }

  /** The leftmost occurrence is deleted and the scan resumes right after it. */
  lemma {:induction false} RemoveLeftmost(s: string, p: string, i: nat)
    requires p != [] && OccursAt(s, p, i)
    requires forall j :: 0 <= j < i ==> !OccursAt(s, p, j)
    ensures Remove(s, p) == s[..i] + Remove(s[i + |p|..], p)
    decreases i
  {
    if i == 0 {
      RemoveAtOccurrence(s, p);
    } else {
      var t := s[1..];
      RemoveSkipsFirst(s, p);
      LeftmostInTail(s, p, i);
      RemoveLeftmost(t, p, i - 1);
      assert t[i - 1 + |p|..] == s[i + |p|..];
      PrependSlice(s, i, Remove(s, p), Remove(t, p), Remove(s[i + |p|..], p));
    }
  }

  /** The leftmost occurrence at i > 0 is the leftmost occurrence at i - 1 of the tail. */
  lemma LeftmostInTail(s: string, p: string, i: nat)
    requires 0 < i && OccursAt(s, p, i)
    requires forall j :: 0 <= j < i ==> !OccursAt(s, p, j)
    ensures OccursAt(s[1..], p, i - 1)
    ensures forall j :: 0 <= j < i - 1 ==> !OccursAt(s[1..], p, j)
  {
    forall j | 0 <= j < i - 1
      ensures !OccursAt(s[1..], p, j)
    {
      OccursShift(s, p, j);
    }
    OccursShift(s, p, i - 1);
  }

  /** An occurrence at the start is deleted. */
  lemma RemoveAtOccurrence(s: string, p: string)
    requires p != [] && OccursAt(s, p, 0)
    ensures Remove(s, p) == s[..0] + Remove(s[0 + |p|..], p)
  {
    assert s[..|p|] == s[0..0 + |p|];
  }

  /** A first character that starts no occurrence is kept. */
  lemma RemoveSkipsFirst(s: string, p: string)
    requires p != [] && s != [] && !OccursAt(s, p, 0)
    ensures Remove(s, p) == [s[0]] + Remove(s[1..], p)
  {
    if |s| >= |p| {
      assert s[..|p|] == s[0..0 + |p|];
    }
  }

  /** A leading occurrence of a word followed by a space is deleted, the space is kept and the
      scan goes on through the rest, where later occurrences are deleted as well. */
  lemma RemoveLeadingWord(a: string, w: string)
    requires a != [] && !IsSpace(a[0])
    ensures Remove(a + " " + w, a) == " " + Remove(w, a)
  {
    var s := a + " " + w;
    assert s[0..0 + |a|] == a;
    RemoveAtOccurrence(s, a);
    assert s[|a|..] == " " + w;
    RemoveSkipsFirst(" " + w, a);
    assert (" " + w)[1..] == w;
  }

  lemma PrependSlice(s: string, i: nat, whole: string, tail: string, rest: string)
    requires 0 < i <= |s|
    requires whole == [s[0]] + tail && tail == s[1..][..i - 1] + rest
    ensures whole == s[..i] + rest
  {
    assert [s[0]] + s[1..][..i - 1] == s[..i];
  }

  /** str.strip(): leading and trailing whitespace removed, nothing else. */
  function Strip(s: string): (r: string)
    ensures r == [] || (!IsSpace(r[0]) && !IsSpace(r[|r| - 1]))
    ensures exists i :: 0 <= i <= |s| - |r| && r == s[i..i + |r|] && AllIn(s[..i], Space) && AllIn(s[i + |r|..], Space)
  {
    var n := RunLength(s, Space);
    var r := TrimEnd(s[n..]);
    assert r == s[n..n + |r|] && AllIn(s[n + |r|..], Space) by {
      assert s[n..][|r|..] == s[n + |r|..];
    }
    r
  }

  /** A leading space makes no difference to strip. */
  lemma StripLeadingSpace(x: string)
    ensures Strip(" " + x) == Strip(x)
  {
    var s := " " + x;
    assert s[1..] == x;
    assert RunLength(s, Space) == 1 + RunLength(x, Space);
    assert s[RunLength(s, Space)..] == x[RunLength(x, Space)..];
  }

  /** `s` without its trailing whitespace. */
  function TrimEnd(s: string): (r: string)
    ensures |r| <= |s| && r == s[..|r|] && AllIn(s[|r|..], Space)
    ensures r == [] || !IsSpace(r[|r| - 1])
    decreases |s|
  {
    if s != [] && IsSpace(s[|s| - 1]) then
      var r := TrimEnd(s[..|s| - 1]);
      assert s[|r|..] == s[..|s| - 1][|r|..] + [s[|s| - 1]];
      r
    else
      assert s[..|s|] == s;
      s
  }


  /** Each item preceded by `prefix`: the `"#" + person` of the join loops. */
  function Prefixed(items: seq<string>, prefix: string): (r: seq<string>)
    ensures |r| == |items| && forall i :: 0 <= i < |items| ==> r[i] == prefix + items[i]
  {
    seq(|items|, i requires 0 <= i < |items| => prefix + items[i])
  }

  /** The loop `for idx2, person in enumerate(...)` that appends `prefix + person`,
      preceded by a space from the second item on (lines 101-105, 131-135, 164-168). */
  method JoinLoop(items: seq<string>, prefix: string) returns (persons: string)
    ensures persons == JoinSpace(Prefixed(items, prefix))
  {
    persons := "";
    for idx2 := 0 to |items|
      invariant persons == JoinSpace(Prefixed(items[..idx2], prefix))
    {
      assert Prefixed(items[..idx2 + 1], prefix)[..idx2] == Prefixed(items[..idx2], prefix);
      if idx2 > 0 {
        persons := persons + " " + prefix + items[idx2];
      } else {
        persons := persons + prefix + items[idx2];
      }
    }
    assert items[..|items|] == items;
  }
}
