/** The per-sentence decision table (lines 21-50 and 260-334): which rule of the battery
    decides a sentence of a stage direction. */
module MovementClassifier {
  import opened Text
  import opened CharacterRegistry

  /** The entrance patterns that combine two words at a distance (entrances1, entrances3,
      entrances7, lines 22, 24, 30), as opaque predicates on the sentence. */
  datatype EntranceOracles = EntranceOracles(e1: string -> bool, e3: string -> bool, e7: string -> bool)

  /** The exit patterns with distances, anchors or lookbehinds (exit1, exit3-exit7, exit10,
      exit12, lines 33-45), as opaque predicates on the sentence. */
  datatype ExitOracles = ExitOracles(
    x1: string -> bool, x3: string -> bool, x4: string -> bool, x5: string -> bool,
    x6: string -> bool, x7: string -> bool, x10: string -> bool, x12: string -> bool)

  /** All opaque patterns, with wrongWord2 (line 50). */
  datatype Oracles = Oracles(entrance: EntranceOracles, exit: ExitOracles, wrongWord2: string -> bool)

  /** The word lists of the single-word patterns `\bw1\b|\bw2\b|...`. */
  const Entrances2: seq<string> := ["kommend", "eintretend", "hereinstürzend"]
  const Entrances4: seq<string> := ["gesprungen", "kommen", "kommt", "kömmen", "kömmt", "gelaufen", "geführt"]
  const Entrances5: seq<string> := ["betreten", "betritt"]
  const Entrances6: seq<string> := ["nahen", "naht"]
  const Exit2: seq<string> := ["fort", "vorbei", "hinaus"]
  const Exit9: seq<string> := ["fliehen", "flieht"]
  const Exit11: seq<string> := ["nacheilend"]
  const WrongWord: seq<string> := ["will"]

  /** re.search of `\bw1\b|\bw2\b|...` */
  predicate SearchAny(text: string, words: seq<string>) {
    exists i | 0 <= i < |words| :: SearchWord(text, words[i])
  }

  /** A list of non-empty words made of word characters only. */
  predicate WordList(words: seq<string>) {
    forall i :: 0 <= i < |words| ==> words[i] != [] && AllIn(words[i], WordChar)
  }

  /** A single-word pattern matches exactly when one of its words is a whole maximal run of word
      characters of the sentence. */
  lemma SearchAnyIffRun(text: string, words: seq<string>)
    requires WordList(words)
    ensures SearchAny(text, words) <==> exists i | 0 <= i < |words| :: words[i] in Segments(text, WordChar)
  {
    forall i | 0 <= i < |words|
      ensures SearchWord(text, words[i]) <==> words[i] in Segments(text, WordChar)
    {
      SegmentsAreBoundedRuns(text, words[i], WordChar);
    }
  }

  /** The single-word entrance patterns are lists of words. */
  lemma EntranceWordLists()
    ensures WordList(Entrances2) && WordList(Entrances4) && WordList(Entrances5) && WordList(Entrances6)
  {
    ComingWordList();
    assert WordList(Entrances2) by {
      assert AllIn("hereinstürzend", WordChar);
    }
  }

  /** entrances4 is a list of words. */
  lemma ComingWordList()
    ensures WordList(Entrances4)
  {
    assert AllIn("kömmen", WordChar) && AllIn("kömmt", WordChar);
    assert AllIn("gesprungen", WordChar) && AllIn("gelaufen", WordChar) && AllIn("geführt", WordChar);
  }

  /** The single-word exit patterns and the "will" pattern are lists of words. */
  lemma ExitWordLists()
    ensures WordList(Exit2) && WordList(Exit9) && WordList(Exit11) && WordList(WrongWord)
  {
  }

  /** The entrance battery of line 262, in its order. */
  predicate EntranceBattery(text: string, or: Oracles) {
    or.entrance.e1(text) || SearchAny(text, Entrances2) || or.entrance.e3(text) || SearchAny(text, Entrances4)
    || SearchAny(text, Entrances5) || SearchAny(text, Entrances6) || or.entrance.e7(text)
  }

  /** The exit battery of line 279, in its order; exit8 is not part of it. */
  predicate ExitBattery(text: string, or: ExitOracles) {
    or.x1(text) || SearchAny(text, Exit2) || or.x3(text) || or.x4(text) || or.x5(text) || or.x6(text)
    || or.x7(text) || SearchAny(text, Exit9) || or.x10(text) || SearchAny(text, Exit11) || or.x12(text)
  }

  /** exit8, `^\ballein\b(\.)?$` (line 41): `$` also matches before a final newline. */
  predicate AloneMatch(text: string) {
    text == "allein" || text == "allein." || text == "allein\n" || text == "allein.\n"
  }

  /** On a sentence, which holds no "." and no newline, exit8 matches only the bare word. */
  lemma AloneOnSentence(text: string)
    requires '.' !in text && '\n' !in text
    ensures AloneMatch(text) <==> text == "allein"
  {
    assert "allein."[6] == '.' && "allein.\n"[6] == '.' && "allein\n"[6] == '\n';
  }

  /** Which branch of lines 262-334 a sentence takes. */
  datatype Verdict =
    | EntranceRule   // an entrance pattern matched, no veto (lines 265-276)
    | ExitRule       // an exit pattern matched, no veto (lines 282-296)
    | AloneRule      // only exit8 matched (lines 299-311)
    | VerbLess       // nothing matched and the tagger found no verb (lines 322-334)
    | Vetoed         // an entrance or exit pattern matched together with "will" (lines 263-264, 280-281)
    | NoRule         // nothing matched and the sentence has a verb

  /** The decision table of lines 262-322, with `hasVerb` the verb test of lines 316-321. */
  function Classify(text: string, or: Oracles, hasVerb: bool): (v: Verdict)
    ensures v == EntranceRule || v == Vetoed <==> EntranceBattery(text, or) || (ExitBattery(text, or.exit) && SearchAny(text, WrongWord))
  {
    if EntranceBattery(text, or) then
      if SearchAny(text, WrongWord) then Vetoed else EntranceRule
    else if ExitBattery(text, or.exit) then
      if SearchAny(text, WrongWord) then Vetoed else ExitRule
    else if AloneMatch(text) then AloneRule
    else if !hasVerb then VerbLess
    else NoRule
  }

  /** When an entrance pattern matches, the exit patterns are never consulted: any exit battery
      gives the same verdict, which is an entrance or a veto. */
  lemma EntranceShadowsExit(text: string, or: Oracles, x: ExitOracles, hasVerb: bool)
    requires EntranceBattery(text, or)
    ensures Classify(text, or, hasVerb) == Classify(text, or.(exit := x), hasVerb)
    ensures Classify(text, or, hasVerb) in {EntranceRule, Vetoed}
  {
  }

  /** A sentence is vetoed exactly when some entrance or exit pattern matches and "will" occurs as a word. */
  lemma VetoIff(text: string, or: Oracles, hasVerb: bool)
    ensures Classify(text, or, hasVerb) == Vetoed <==>
      (EntranceBattery(text, or) || ExitBattery(text, or.exit)) && SearchAny(text, WrongWord)
  {
  }

  /** An exit is recorded exactly when no entrance pattern, some exit pattern and no "will" matches. */
  lemma ExitIff(text: string, or: Oracles, hasVerb: bool)
    ensures Classify(text, or, hasVerb) == ExitRule <==>
      !EntranceBattery(text, or) && ExitBattery(text, or.exit) && !SearchAny(text, WrongWord)
  {
  }

  /** exit8 is tried only when neither battery matched. */
  lemma AloneIff(text: string, or: Oracles, hasVerb: bool)
    ensures Classify(text, or, hasVerb) == AloneRule <==>
      !EntranceBattery(text, or) && !ExitBattery(text, or.exit) && AloneMatch(text)
  {
  }

  /** The verb test is reached only when no pattern at all matched. */
  lemma VerbLessIff(text: string, or: Oracles, hasVerb: bool)
    ensures Classify(text, or, hasVerb) == VerbLess <==>
      !EntranceBattery(text, or) && !ExitBattery(text, or.exit) && !AloneMatch(text) && !hasVerb
  {
  }

  /** The verb loop of lines 317-321: the flag (named noVerb in the source) is set when some
      token is tagged VERB. */
  method ContainsVerb(doc: seq<Token>) returns (noVerb: bool)
    ensures noVerb <==> exists i | 0 <= i < |doc| :: doc[i].pos == "VERB"
  {
    noVerb := false;
    var i := 0;
    while i < |doc|
      invariant 0 <= i <= |doc|
      invariant forall j | 0 <= j < i :: doc[j].pos != "VERB"
    {
      if doc[i].pos == "VERB" {
        noVerb := true;
        break;
      }
      i := i + 1;
    }
  }

  /** Whether the tagger finds a verb in the sentence. */
  predicate HasVerb(tag: Tagger, text: string) {
    exists i | 0 <= i < |tag(text)| :: tag(text)[i].pos == "VERB"
  }

  /** A word standing between non-word characters is a bounded occurrence. */
  lemma WordBetween(a: string, w: string, b: string)
    requires a == [] || !IsWordChar(a[|a| - 1])
    requires b == [] || !IsWordChar(b[0])
    ensures BoundedAt(a + w + b, w, |a|, WordChar)
  {
    assert (a + w + b)[|a|..|a| + |w|] == w;
  }

  /** A listed word standing between non-word characters makes the list's pattern match. */
  lemma ListedWordMatches(t: string, a: string, b: string, words: seq<string>, j: nat)
    requires j < |words| && t == a + words[j] + b
    requires a == [] || !IsWordChar(a[|a| - 1])
    requires b == [] || !IsWordChar(b[0])
    ensures SearchAny(t, words)
  {
    WordBetween(a, words[j], b);
    assert SearchWord(t, words[j]);
  }

  /** The word runs of two words separated by a space. */
  lemma TwoWordRuns(a: string, b: string)
    requires a != [] && b != [] && AllIn(a, WordChar) && AllIn(b, WordChar)
    ensures Segments(a + " " + b, WordChar) == [a, b]
  {
    SegmentsSplit(a, ' ', b, WordChar);
    assert a + " " + b == a + [' '] + b;
    SegmentsOfRun(a, WordChar);
    SegmentsOfRun(b, WordChar);
  }

  /** "will" next to an entrance phrase vetoes it, whatever the opaque patterns say otherwise. */
  lemma WillVetoesEntrance(t: string, or: Oracles, hasVerb: bool)
    requires t == "sie will auf die bühne treten" && or.entrance.e1(t)
    ensures Classify(t, or, hasVerb) == Vetoed
  {
    ListedWordMatches(t, "sie ", " auf die bühne treten", WrongWord, 0);
  }

  /** "kommt" is an entrance word: the sentence "karl kommt" is an entrance under any oracles. */
  lemma KommtIsEntrance(t: string, or: Oracles, hasVerb: bool)
    requires t == "karl kommt"
    ensures Classify(t, or, hasVerb) == EntranceRule
  {
    KommtWords(t);
  }

  /** "karl kommt" holds the entrance word "kommt" and no "will". */
  lemma KommtWords(t: string)
    requires t == "karl kommt"
    ensures SearchAny(t, Entrances4) && !SearchAny(t, WrongWord)
  {
    ListedWordMatches(t, "karl ", "", Entrances4, 2);
    KarlHasNoWill(t, "kommt");
  }

  /** "karl" followed by a word other than "will" holds no "will". */
  lemma KarlHasNoWill(t: string, b: string)
    requires t == "karl " + b && b != [] && AllIn(b, WordChar) && b != "will"
    ensures !SearchAny(t, WrongWord)
  {
    ExitWordLists();
    assert AllIn("karl", WordChar);
    assert t == "karl" + " " + b;
    NotAWordOf(t, "karl", b, WrongWord);
  }

  /** "flieht" is an exit word: with no entrance pattern matching, "karl flieht" is an exit. */
  lemma FliehtIsExit(t: string, or: Oracles, hasVerb: bool)
    requires t == "karl flieht" && !or.entrance.e1(t) && !or.entrance.e3(t) && !or.entrance.e7(t)
    ensures Classify(t, or, hasVerb) == ExitRule
  {
    NoSingleEntranceWord(t);
    KarlHasNoWill(t, "flieht");
    ListedWordMatches(t, "karl ", "", Exit9, 1);
  }

  /** No single-word entrance pattern matches "karl flieht". */
  lemma NoSingleEntranceWord(t: string)
    requires t == "karl flieht"
    ensures !SearchAny(t, Entrances2) && !SearchAny(t, Entrances4)
    ensures !SearchAny(t, Entrances5) && !SearchAny(t, Entrances6)
  {
    EntranceWordLists();
    NotAWordOf(t, "karl", "flieht", Entrances2);
    NotAWordOf(t, "karl", "flieht", Entrances4);
    NotAWordOf(t, "karl", "flieht", Entrances5);
    NotAWordOf(t, "karl", "flieht", Entrances6);
  }

  /** A list that holds none of the word runs of a sentence does not match it. */
  lemma NoListedRun(t: string, words: seq<string>)
    requires WordList(words)
    requires forall w :: w in Segments(t, WordChar) ==> w !in words
    ensures !SearchAny(t, words)
  {
    SearchAnyIffRun(t, words);
  }

  /** A sentence of two words separated by a space matches no list that holds neither word. */
  lemma NotAWordOf(t: string, a: string, b: string, words: seq<string>)
    requires t == a + " " + b && a != [] && b != [] && AllIn(a, WordChar) && AllIn(b, WordChar)
    requires WordList(words) && a !in words && b !in words
    ensures !SearchAny(t, words)
  {
    TwoWordRuns(a, b);
    SearchAnyIffRun(t, words);
  }
}
