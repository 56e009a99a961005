/** The annotation loop (lines 192-334): for each division of a drama, every stage direction
    is read in document order and gets `type` and `who` attributes, while the characters on
    stage and the characters of the last scene heading are carried from one stage direction
    to the next. */
module AnnotationDriver {
  import opened Text
  import opened OrderedSet
  import opened CharacterRegistry
  import opened MentionResolver
  import opened StageSetTracker
  import opened MovementClassifier

  datatype Option<T> = None | Some(value: T)

  /** The element right before a stage direction: whether it is a TEI head, and its text as
      lines 231-243 find it. */
  datatype Sibling = Sibling(isHead: bool, text: string)

  /** A stage element: its own text ("" when absent), its tail text, the element before it,
      the `who` attributes of its enclosing sp elements (innermost first) and its attributes. */
  datatype Stage = Stage(
    text: string, tail: Option<string>, previous: Option<Sibling>,
    speakers: seq<string>, attrib: map<string, string>)

  /** The variables carried across stage directions: presentPersons and previousPersons. */
  datatype Carry = Carry(present: string, previous: string)

  /** What a file supplies to the loop: the name table, the opaque patterns and the tagger. */
  datatype Context = Context(reg: Registry, or: Oracles, tag: Tagger)

  /** A stage's attributes together with the carried variables. */
  datatype Annotation = Annotation(attrib: map<string, string>, carry: Carry)

  /** The lower-cased text of a stage direction (lines 216-222): its own text with runs of
      whitespace turned into single spaces, or, when it has none, its tail with all whitespace
      deleted. None when both are missing, where `None.split()` raises. */
  function StageText(s: Stage): (r: Option<string>)
    ensures r.None? <==> s.text == [] && s.tail.None?
    ensures s.text == [] && s.tail.Some? ==> r == Some(Lower(Keep(s.tail.value, NonSpace)))
    ensures s.text != [] ==> r.Some? && exists n :: r.value == Lower(n) && Words(n) == Words(s.text) && JoinSpace(Words(n)) == n
  {
    if s.text == [] then
      if s.tail.None? then None
      else
        ConcatSegments(s.tail.value, NonSpace);
        Some(Lower(Concat(Words(s.tail.value))))
    else
      var n := JoinSpace(Words(s.text));
      NormalizeSpacesKeepsWords(s.text);
      Some(Lower(n))
  }

  /** The test of line 245: the element before is a head whose text contains "Auftritt". */
  predicate HeadingApplies(s: Stage) {
    s.previous.Some? && s.previous.value.isHead && IsSubstring("Auftritt", s.previous.value.text)
  }

  /** `" ".join(sorted(set(words), key=words.index))` over the words of `persons + " " + more`. */
  function AppendDistinct(persons: string, more: string): string {
    JoinSpace(Dedup(Words(persons + " " + more)))
  }

  /** Lines 271-274 (and 289-292, 328-331): the `who` already on the stage is united with the
      persons found; AppendDistinctIsUnion shows the code's append-and-deduplicate is this union. */
  function Merge(persons: string, attrib: map<string, string>): string {
    if "who" in attrib then Union(persons, attrib["who"]) else persons
  }

  /** The loop over the enclosing sp elements (lines 267-269, 285-287, 301-303): an empty result
      takes the `who` of the speakers in turn until one is non-empty. */
  function Fallback(persons: string, speakers: seq<string>): (r: string)
    ensures persons != "" ==> r == persons
    ensures persons == "" ==> (r == "" <==> forall i :: 0 <= i < |speakers| ==> speakers[i] == "")
    ensures persons == "" && r != "" ==> exists i :: 0 <= i < |speakers| && speakers[i] == r && forall j :: 0 <= j < i ==> speakers[j] == ""
    decreases |speakers|
  {
    if speakers == [] then persons
    else
      var r := Fallback(if persons == "" then speakers[0] else persons, speakers[1..]);
      assert forall i :: 0 < i < |speakers| ==> speakers[i] == speakers[1..][i - 1];
      if persons == "" && speakers[0] == "" && r != "" then
        var i :| 0 <= i < |speakers[1..]| && speakers[1..][i] == r && forall j :: 0 <= j < i ==> speakers[1..][j] == "";
        assert speakers[i + 1] == r;
        r
      else r
  }

  /** One sentence of a stage direction (lines 260-334). */
  function SentenceStep(attrib: map<string, string>, speakers: seq<string>, sentence: string, c: Carry, ctx: Context): Annotation
    requires ctx.reg.Valid()
  {
    var text := Lower(sentence);
    var found := Resolve(text, ctx.reg);
    match Classify(text, ctx.or, HasVerb(ctx.tag, text))
    case Vetoed => Annotation(attrib, c)
    case NoRule => Annotation(attrib, c)
    case EntranceRule =>
      var persons := Merge(Fallback(found, speakers), attrib);
      Annotation(attrib["type" := "entrance"]["who" := persons], c.(present := AddedAsWritten(persons)))
    case ExitRule =>
      // both carried strings are replaced by what removePersons returns
      var persons := Merge(Fallback(found, speakers), attrib);
      Annotation(attrib["type" := "exit"]["who" := persons], Carry("", ""))
    case AloneRule =>
      var persons := Fallback(found, speakers);
      if IsSubstring(persons, c.present) then
        // `who` becomes what removePersons returns
        Annotation(attrib["type" := "exit"]["who" := ""], c)
      else
        Annotation(attrib["type" := "entrance"]["who" := persons], c.(present := ""))
    case VerbLess =>
      if found == "" || ctx.or.wrongWord2(text) then Annotation(attrib, c)
      else
        var persons := Merge(found, attrib);
        Annotation(attrib["type" := "entrance"]["who" := persons], c.(present := AddedAsWritten(persons)))
  }

  /** The sentences of one stage direction, one after the other. */
  function SentencesRun(attrib: map<string, string>, speakers: seq<string>, sentences: seq<string>, c: Carry, ctx: Context): Annotation
    requires ctx.reg.Valid()
    decreases |sentences|
  {
    if sentences == [] then Annotation(attrib, c)
    else
      var a := SentenceStep(attrib, speakers, sentences[0], c, ctx);
      SentencesRun(a.attrib, speakers, sentences[1..], a.carry, ctx)
  }

  /** The persons of a stage direction after a scene heading (lines 247-255). */
  function HeadingPersons(text: string, previous: string, reg: Registry): string
    requires reg.Valid()
  {
    var persons := Resolve(text, reg);
    if IsSubstring("vorige", text) && previous != "" then Union(persons, previous) else persons
  }

  /** One stage direction (lines 212-334); None when reading its text raises. */
  function StageStep(s: Stage, c: Carry, ctx: Context): Option<Annotation>
    requires ctx.reg.Valid()
  {
    match StageText(s)
    case None => None
    case Some(text) =>
      if HeadingApplies(s) then
        var persons := HeadingPersons(text, c.previous, ctx.reg);
        Some(Annotation(s.attrib["type" := "entrance"]["who" := persons], Carry(persons, persons)))
      else
        Some(SentencesRun(s.attrib, s.speakers, Sentences(text), c, ctx))
  }

  /** The outcome of annotating a list of stage directions: the stages, the carried strings and
      whether a stage without text and tail stopped the run. */
  datatype Run = Run(stages: seq<Stage>, carry: Carry, crashed: bool)

  /** The stages of one division (lines 205-334): `done` are already annotated, `todo` follow. */
  function DivisionRun(done: seq<Stage>, todo: seq<Stage>, c: Carry, ctx: Context): (r: Run)
    requires ctx.reg.Valid()
    ensures |r.stages| == |done| + |todo| && r.stages[..|done|] == done
    decreases |todo|
  {
    if todo == [] then Run(done, c, false)
    else
      match StageStep(todo[0], c, ctx)
      case None => Run(done + todo, c, true)
      case Some(a) =>
        var r := DivisionRun(done + [todo[0].(attrib := a.attrib)], todo[1..], a.carry, ctx);
        assert r.stages[..|done|] == (done + [todo[0].(attrib := a.attrib)])[..|done|];
        assert forall i :: 0 < i < |todo| ==> todo[i] == todo[1..][i - 1];
        r
  }

  /** The outcome of a whole file: the divisions and the final previousPersons. */
  datatype DocRun = DocRun(divisions: seq<seq<Stage>>, previous: string, crashed: bool)

  /** The divisions of a file one after the other; presentPersons starts empty in each. */
  function DocumentRun(done: seq<seq<Stage>>, todo: seq<seq<Stage>>, previous: string, ctx: Context): (r: DocRun)
    requires ctx.reg.Valid()
    ensures |r.divisions| == |done| + |todo| && r.divisions[..|done|] == done
    decreases |todo|
  {
    if todo == [] then DocRun(done, previous, false)
    else
      var d := DivisionRun([], todo[0], Carry("", previous), ctx);
      if d.crashed then DocRun(done + [d.stages] + todo[1..], previous, true)
      else
        var r := DocumentRun(done + [d.stages], todo[1..], d.carry.previous, ctx);
        assert r.divisions[..|done|] == (done + [d.stages])[..|done|];
        r
  }

  // ---------------------------------------------------------------------------------------
  // The loops

  /** The sp loop of lines 267-269 (285-287, 301-303). */
  method SpeakerFallback(found: string, speakers: seq<string>) returns (persons: string)
    ensures persons == Fallback(found, speakers)
  {
    persons := found;
    for k := 0 to |speakers|
      invariant Fallback(persons, speakers[k..]) == Fallback(found, speakers)
    {
      assert speakers[k..][1..] == speakers[k + 1..];
      if persons == "" {
        persons := speakers[k];
      }
    }
  }

  /** The `who` merge of lines 271-274 (289-292, 328-331). */
  method MergeWho(found: string, attrib: map<string, string>) returns (persons: string)
    ensures persons == if "who" in attrib then Union(found, attrib["who"]) else found
  {
    persons := found;
    if "who" in attrib {
      persons := persons + " " + attrib["who"];
      var words := Words(persons);
      persons := JoinSpace(Dedup(words));
      AppendDistinctIsUnion(found, attrib["who"]);
    }
  }

  /** One sentence (lines 260-334) on the stage's attributes and the carried strings. */
  method ApplySentence(attrib: map<string, string>, speakers: seq<string>, sentence: string,
                       presentPersons: string, previousPersons: string, ctx: Context)
    returns (newAttrib: map<string, string>, present: string, previous: string)
    requires ctx.reg.Valid()
    ensures Annotation(newAttrib, Carry(present, previous))
         == SentenceStep(attrib, speakers, sentence, Carry(presentPersons, previousPersons), ctx)
  {
    newAttrib, present, previous := attrib, presentPersons, previousPersons;
    var text := Lower(sentence);
    if EntranceBattery(text, ctx.or) {
      if SearchAny(text, WrongWord) {
        return;
      }
      newAttrib := newAttrib["type" := "entrance"];
      var persons := FindPersons(text, ctx.reg);
      persons := SpeakerFallback(persons, speakers);
      persons := MergeWho(persons, newAttrib);
      present := AddPersons(present, persons);
      newAttrib := newAttrib["who" := persons];
    } else if ExitBattery(text, ctx.or.exit) {
      if SearchAny(text, WrongWord) {
        return;
      }
      newAttrib := newAttrib["type" := "exit"];
      var persons := FindPersons(text, ctx.reg);
      persons := SpeakerFallback(persons, speakers);
      persons := MergeWho(persons, newAttrib);
      newAttrib := newAttrib["who" := persons];
      previous := RemovePersons(previous, persons);
      present := RemovePersons(present, persons);
    } else if AloneMatch(text) {
      var persons := FindPersons(text, ctx.reg);
      persons := SpeakerFallback(persons, speakers);
      if IsSubstring(persons, present) {
        newAttrib := newAttrib["type" := "exit"];
        var gonePersons := RemovePersons(present, persons);
        newAttrib := newAttrib["who" := gonePersons];
      } else {
        newAttrib := newAttrib["type" := "entrance"];
        newAttrib := newAttrib["who" := persons];
        present := RemovePersons(present, persons);
      }
    } else {
      var doc := ctx.tag(text);
      var noVerb := ContainsVerb(doc);
      if !noVerb {
        var persons := FindPersons(text, ctx.reg);
        if persons != "" {
          if ctx.or.wrongWord2(text) {
            return;
          }
          newAttrib := newAttrib["type" := "entrance"];
          persons := MergeWho(persons, newAttrib);
          newAttrib := newAttrib["who" := persons];
          present := AddPersons(present, persons);
        }
      }
    }
  }

  /** The body of the stage loop (lines 212-334) for a stage direction whose text can be read. */
  method AnnotateStage(s: Stage, presentPersons: string, previousPersons: string, ctx: Context)
    returns (attrib: map<string, string>, present: string, previous: string)
    requires ctx.reg.Valid()
    requires s.text != "" || s.tail.Some?
    ensures StageStep(s, Carry(presentPersons, previousPersons), ctx) == Some(Annotation(attrib, Carry(present, previous)))
  {
    present, previous := presentPersons, previousPersons;
    var stageText;
    if s.text == "" {
      stageText := Concat(Words(s.tail.value));
    } else {
      stageText := JoinSpace(Words(s.text));
    }
    stageText := Lower(stageText);
    assert StageText(s) == Some(stageText);
    attrib := s.attrib;
    if HeadingApplies(s) {
      attrib := attrib["type" := "entrance"];
      var persons := FindPersons(stageText, ctx.reg);
      if IsSubstring("vorige", stageText) && previous != "" {
        AppendDistinctIsUnion(persons, previous);
        persons := persons + " " + previous;
        var words := Words(persons);
        persons := JoinSpace(Dedup(words));
      }
      attrib := attrib["who" := persons];
      previous := persons;
      present := persons;
    } else {
      var sentences := Sentences(stageText);
      for k := 0 to |sentences|
        invariant SentencesRun(s.attrib, s.speakers, sentences, Carry(presentPersons, previousPersons), ctx)
               == SentencesRun(attrib, s.speakers, sentences[k..], Carry(present, previous), ctx)
      {
        assert sentences[k..][1..] == sentences[k + 1..];
        attrib, present, previous := ApplySentence(attrib, s.speakers, sentences[k], present, previous, ctx);
      }
    }
  }

  /** The stage loop of one division (lines 205-334), writing the attributes into the array.
      It stops at a stage direction without text and tail, whose text cannot be read. */
  method AnnotateDivision(stage: array<Stage>, previousPersons: string, ctx: Context)
    returns (previous: string, crashed: bool)
    requires ctx.reg.Valid()
    modifies stage
    ensures var r := DivisionRun([], old(stage[..]), Carry("", previousPersons), ctx);
      stage[..] == r.stages && previous == r.carry.previous && crashed == r.crashed
  {
    var presentPersons := "";
    previous := previousPersons;
    crashed := false;
    ghost var original := stage[..];
    var idx := 0;
    while idx < stage.Length
      invariant 0 <= idx <= stage.Length
      invariant stage[idx..] == original[idx..]
      invariant DivisionRun([], original, Carry("", previousPersons), ctx)
             == DivisionRun(stage[..idx], stage[idx..], Carry(presentPersons, previous), ctx)
    {
      var s := stage[idx];
      assert stage[idx..][0] == s && stage[idx..][1..] == stage[idx + 1..];
      if s.text == "" && s.tail.None? {
        assert stage[..idx] + stage[idx..] == stage[..];
        crashed := true;
        return;
      }
      var attrib;
      attrib, presentPersons, previous := AnnotateStage(s, presentPersons, previous, ctx);
      stage[idx] := s.(attrib := attrib);
      assert stage[..idx + 1] == stage[..idx] + [s.(attrib := attrib)];
      idx := idx + 1;
    }
    assert stage[idx..] == [];
  }

  /** The divisions a file is annotated by (lines 199-202): its scenes, or its acts when it has no scene. */
  function Divisions(scenes: seq<array<Stage>>, acts: seq<array<Stage>>): (r: seq<array<Stage>>)
    ensures scenes != [] ==> r == scenes
    ensures scenes == [] ==> r == acts
  {
    if |scenes| == 0 then acts else scenes
  }

  /** No array is listed twice. */
  predicate Distinct(divs: seq<array<Stage>>) {
    forall i, j :: 0 <= i < j < |divs| ==> divs[i] != divs[j]
  }

  /** The stages held by the arrays, in order. */
  function Contents(divs: seq<array<Stage>>): (r: seq<seq<Stage>>)
    reads set d | d in divs
    ensures |r| == |divs| && forall j :: 0 <= j < |divs| ==> r[j] == divs[j][..]
  {
    if divs == [] then [] else Contents(divs[..|divs| - 1]) + [divs[|divs| - 1][..]]
  }

  /** One file (lines 191-334): the name table is read from the cast list, previousPersons
      starts empty, and the divisions are annotated in turn. */
  method AnnotateDocument(people: seq<Person>, tag: Tagger, or: Oracles,
                          scenes: seq<array<Stage>>, acts: seq<array<Stage>>) returns (crashed: bool)
    requires Distinct(scenes) && Distinct(acts)
    modifies set d | d in Divisions(scenes, acts)
    ensures var r := DocumentRun([], old(Contents(Divisions(scenes, acts))), "", Context(Build(Entries(people, tag)), or, tag));
      Contents(Divisions(scenes, acts)) == r.divisions && crashed == r.crashed
  {
    var namesWithIDs := ReadPersonList(people, tag);
    var previousPersons := "";
    var divs := scenes;
    if |divs| == 0 {
      divs := acts;
    }
    crashed := AnnotateDivisions(divs, previousPersons, Context(namesWithIDs, or, tag));
  }

  /** The division loop of lines 205-334, carrying previousPersons from one division to the next. */
  method AnnotateDivisions(divs: seq<array<Stage>>, previousPersons: string, ctx: Context) returns (crashed: bool)
    requires ctx.reg.Valid() && Distinct(divs)
    modifies set d | d in divs
    ensures var r := DocumentRun([], old(Contents(divs)), previousPersons, ctx);
      Contents(divs) == r.divisions && crashed == r.crashed
  {
    var previous := previousPersons;
    ghost var original := Contents(divs);
    ghost var done: seq<seq<Stage>> := [];
    for k := 0 to |divs|
      invariant |done| == k
      invariant forall j :: 0 <= j < k ==> divs[j][..] == done[j]
      invariant forall j :: k <= j < |divs| ==> divs[j][..] == original[j]
      invariant DocumentRun([], original, previousPersons, ctx) == DocumentRun(done, original[k..], previous, ctx)
    {
      assert original[k..][0] == divs[k][..] && original[k..][1..] == original[k + 1..];
      ghost var carried := previous;
      var divCrashed;
      label Before:
      previous, divCrashed := AnnotateDivision(divs[k], previous, ctx);
      forall j | 0 <= j < |divs| && j != k
        ensures divs[j][..] == old@Before(divs[j][..])
      {
        assert divs[j] != divs[k];
      }
      DocumentAdvance(done, original[k..], carried, ctx, divs[k][..], previous, divCrashed);
      done := done + [divs[k][..]];
      if divCrashed {
        SpliceContents(Contents(divs), done, original);
        return true;
      }
    }
    SpliceContents(Contents(divs), done, original);
    return false;
  }

  /** DocumentRun after one more division, given that division's run. */
  lemma DocumentAdvance(done: seq<seq<Stage>>, todo: seq<seq<Stage>>, previous: string, ctx: Context,
                        stages: seq<Stage>, next: string, crashed: bool)
    requires ctx.reg.Valid() && todo != []
    requires var d := DivisionRun([], todo[0], Carry("", previous), ctx);
      stages == d.stages && next == d.carry.previous && crashed == d.crashed
    ensures !crashed ==> DocumentRun(done, todo, previous, ctx) == DocumentRun(done + [stages], todo[1..], next, ctx)
    ensures crashed ==> DocumentRun(done, todo, previous, ctx) == DocRun(done + [stages] + todo[1..], previous, true)
  {
    DocumentStep(done, todo, previous, ctx);
  }

  /** Divisions annotated up to some point, followed by untouched ones. */
  lemma SpliceContents(c: seq<seq<Stage>>, done: seq<seq<Stage>>, original: seq<seq<Stage>>)
    requires |c| == |original| && |done| <= |original|
    requires forall j :: 0 <= j < |done| ==> c[j] == done[j]
    requires forall j :: |done| <= j < |c| ==> c[j] == original[j]
    ensures c == done + original[|done|..]
  {
  }

  /** One division of DocumentRun. */
  lemma DocumentStep(done: seq<seq<Stage>>, todo: seq<seq<Stage>>, previous: string, ctx: Context)
    requires ctx.reg.Valid() && todo != []
    ensures var d := DivisionRun([], todo[0], Carry("", previous), ctx);
      DocumentRun(done, todo, previous, ctx)
      == if d.crashed then DocRun(done + [d.stages] + todo[1..], previous, true)
         else DocumentRun(done + [d.stages], todo[1..], d.carry.previous, ctx)
  {
  }

  // ---------------------------------------------------------------------------------------
  // Properties

  /** A "will" in a sentence that an entrance or exit pattern matches leaves the stage
      direction and the carried strings as they were (lines 262-263, 280-281). */
  lemma VetoKeepsState(attrib: map<string, string>, speakers: seq<string>, sentence: string, c: Carry, ctx: Context)
    requires ctx.reg.Valid()
    requires EntranceBattery(Lower(sentence), ctx.or) || ExitBattery(Lower(sentence), ctx.or.exit)
    requires SearchAny(Lower(sentence), WrongWord)
    ensures SentenceStep(attrib, speakers, sentence, c, ctx) == Annotation(attrib, c)
  {
    VetoIff(Lower(sentence), ctx.or, HasVerb(ctx.tag, Lower(sentence)));
  }

  /** Appending with the duplicate removal of lines 254-255 (273-274, 291-292, 330-331) is the
      union of the two word lists: every word of either, once, in first-seen order. */
  lemma AppendDistinctIsUnion(persons: string, more: string)
    ensures AppendDistinct(persons, more) == Union(persons, more)
  {
    SegmentsSplit(persons, ' ', more, NonSpace);
    assert persons + " " + more == persons + [' '] + more;
  }

  /** An entrance sentence without "will" (lines 260-276): type entrance; `who` is the persons
      found, or else the nearest speaker, united with an earlier `who`; presentPersons becomes
      what addPersons returns for them, and previousPersons is kept. */
  lemma EntranceSentence(attrib: map<string, string>, speakers: seq<string>, sentence: string, c: Carry, ctx: Context)
    requires ctx.reg.Valid()
    requires EntranceBattery(Lower(sentence), ctx.or) && !SearchAny(Lower(sentence), WrongWord)
    ensures var a := SentenceStep(attrib, speakers, sentence, c, ctx);
      var persons := Fallback(Resolve(Lower(sentence), ctx.reg), speakers);
      var who := if "who" in attrib then Union(persons, attrib["who"]) else persons;
      a.attrib == attrib["type" := "entrance"]["who" := who] && a.carry == Carry(AddedAsWritten(who), c.previous)
  {
    var text := Lower(sentence);
    VetoIff(text, ctx.or, HasVerb(ctx.tag, text));
  }

  /** An exit sentence without "will" (lines 278-296): type exit; `who` as for an entrance; and
      both carried strings become what removePersons returns, the empty string. */
  lemma ExitSentence(attrib: map<string, string>, speakers: seq<string>, sentence: string, c: Carry, ctx: Context)
    requires ctx.reg.Valid()
    requires !EntranceBattery(Lower(sentence), ctx.or) && ExitBattery(Lower(sentence), ctx.or.exit)
    requires !SearchAny(Lower(sentence), WrongWord)
    ensures var a := SentenceStep(attrib, speakers, sentence, c, ctx);
      var persons := Fallback(Resolve(Lower(sentence), ctx.reg), speakers);
      var who := if "who" in attrib then Union(persons, attrib["who"]) else persons;
      a.attrib == attrib["type" := "exit"]["who" := who] && a.carry == Carry("", "")
  {
    var text := Lower(sentence);
    ExitIff(text, ctx.or, HasVerb(ctx.tag, text));
  }

  /** The "allein" sentence (lines 298-311): exit exactly when the persons (found, or else the
      nearest speaker) occur in presentPersons as a substring, which an empty result always
      does. The exit writes the empty result of removePersons into `who`; the entrance writes
      the persons and empties presentPersons. */
  lemma AloneSentence(attrib: map<string, string>, speakers: seq<string>, sentence: string, c: Carry, ctx: Context)
    requires ctx.reg.Valid()
    requires !EntranceBattery(Lower(sentence), ctx.or) && !ExitBattery(Lower(sentence), ctx.or.exit)
    requires AloneMatch(Lower(sentence))
    ensures var a := SentenceStep(attrib, speakers, sentence, c, ctx);
      var persons := Fallback(Resolve(Lower(sentence), ctx.reg), speakers);
      && (a.attrib["type"] == "exit" <==> IsSubstring(persons, c.present))
      && (persons == "" ==> a.attrib["type"] == "exit")
      && (IsSubstring(persons, c.present) ==> a.attrib == attrib["type" := "exit"]["who" := ""] && a.carry == c)
      && (!IsSubstring(persons, c.present) ==> a.attrib == attrib["type" := "entrance"]["who" := persons] && a.carry == Carry("", c.previous))
  {
    var text := Lower(sentence);
    AloneIff(text, ctx.or, HasVerb(ctx.tag, text));
    assert OccursAt(c.present, "", 0);
  }

  /** The sentence without verb (lines 313-334): nothing changes unless the text itself names a
      character and wrongWord2 does not match; then it is an entrance. No speaker is consulted. */
  lemma VerbLessSentence(attrib: map<string, string>, speakers: seq<string>, sentence: string, c: Carry, ctx: Context)
    requires ctx.reg.Valid()
    requires !EntranceBattery(Lower(sentence), ctx.or) && !ExitBattery(Lower(sentence), ctx.or.exit)
    requires !AloneMatch(Lower(sentence)) && !HasVerb(ctx.tag, Lower(sentence))
    ensures var a := SentenceStep(attrib, speakers, sentence, c, ctx);
      var found := Resolve(Lower(sentence), ctx.reg);
      var who := if "who" in attrib then Union(found, attrib["who"]) else found;
      && a == SentenceStep(attrib, [], sentence, c, ctx)
      && (found == "" || ctx.or.wrongWord2(Lower(sentence)) ==> a == Annotation(attrib, c))
      && (found != "" && !ctx.or.wrongWord2(Lower(sentence)) ==>
            a.attrib == attrib["type" := "entrance"]["who" := who] && a.carry == Carry(AddedAsWritten(who), c.previous))
  {
    var text := Lower(sentence);
    VerbLessIff(text, ctx.or, HasVerb(ctx.tag, text));
  }

  /** A sentence with a verb that no pattern matches changes nothing. */
  lemma UnmatchedSentence(attrib: map<string, string>, speakers: seq<string>, sentence: string, c: Carry, ctx: Context)
    requires ctx.reg.Valid()
    requires !EntranceBattery(Lower(sentence), ctx.or) && !ExitBattery(Lower(sentence), ctx.or.exit)
    requires !AloneMatch(Lower(sentence)) && HasVerb(ctx.tag, Lower(sentence))
    ensures SentenceStep(attrib, speakers, sentence, c, ctx) == Annotation(attrib, c)
  {
    var text := Lower(sentence);
    assert Classify(text, ctx.or, HasVerb(ctx.tag, text)) == NoRule;
  }

  /** A stage direction right after a heading containing "Auftritt" (lines 245-259): type
      entrance; `who`, presentPersons and previousPersons all become the persons its text names,
      united with the previous heading's persons when the text says "vorige"; no sentence rule,
      pattern or tagger is consulted. */
  lemma HeadingStage(s: Stage, c: Carry, ctx: Context, other: Oracles, tag: Tagger)
    requires ctx.reg.Valid() && HeadingApplies(s) && StageText(s).Some?
    ensures var text := StageText(s).value;
      var found := Resolve(text, ctx.reg);
      var persons := if IsSubstring("vorige", text) && c.previous != "" then Union(found, c.previous) else found;
      && StageStep(s, c, ctx) == Some(Annotation(s.attrib["type" := "entrance"]["who" := persons], Carry(persons, persons)))
      && StageStep(s, c, ctx) == StageStep(s, c, Context(ctx.reg, other, tag))
  {
  }

  /** Only `type` and `who` may change, and a changed `type` is "entrance" or "exit". */
  predicate OnlyTypeAndWho(before: map<string, string>, after: map<string, string>) {
    && (forall k :: k in before ==> k in after)
    && (forall k :: k in after && k != "type" && k != "who" ==> k in before && after[k] == before[k])
    && ("type" in after ==> ("type" in before && after["type"] == before["type"]) || after["type"] == "entrance" || after["type"] == "exit")
  }

  lemma OnlyTypeAndWhoTransitive(a: map<string, string>, b: map<string, string>, c: map<string, string>)
    requires OnlyTypeAndWho(a, b) && OnlyTypeAndWho(b, c)
    ensures OnlyTypeAndWho(a, c)
  {
  }

  /** A sentence keeps every other attribute of the stage. */
  lemma SentenceKeepsOtherAttributes(attrib: map<string, string>, speakers: seq<string>, sentence: string, c: Carry, ctx: Context)
    requires ctx.reg.Valid()
    ensures OnlyTypeAndWho(attrib, SentenceStep(attrib, speakers, sentence, c, ctx).attrib)
  {
    var text := Lower(sentence);
    var found := Resolve(text, ctx.reg);
    var r := SentenceStep(attrib, speakers, sentence, c, ctx).attrib;
    match Classify(text, ctx.or, HasVerb(ctx.tag, text))
    case Vetoed =>
    case NoRule =>
    case EntranceRule =>
      TypeAndWhoSet(attrib, "entrance", Merge(Fallback(found, speakers), attrib));
    case ExitRule =>
      TypeAndWhoSet(attrib, "exit", Merge(Fallback(found, speakers), attrib));
    case AloneRule =>
      var persons := Fallback(found, speakers);
      if IsSubstring(persons, c.present) {
        TypeAndWhoSet(attrib, "exit", "");
      } else {
        TypeAndWhoSet(attrib, "entrance", persons);
      }
    case VerbLess =>
      if found != "" && !ctx.or.wrongWord2(text) {
        TypeAndWhoSet(attrib, "entrance", Merge(found, attrib));
      }
  }

  /** Setting `type` to "entrance" or "exit" and `who` to anything touches nothing else. */
  lemma TypeAndWhoSet(attrib: map<string, string>, t: string, w: string)
    requires t == "entrance" || t == "exit"
    ensures OnlyTypeAndWho(attrib, attrib["type" := t]["who" := w])
  {
  }

  /** So do all the sentences of a stage direction. */
  lemma {:induction false} SentencesKeepOtherAttributes(attrib: map<string, string>, speakers: seq<string>, sentences: seq<string>, c: Carry, ctx: Context)
    requires ctx.reg.Valid()
    ensures OnlyTypeAndWho(attrib, SentencesRun(attrib, speakers, sentences, c, ctx).attrib)
    decreases |sentences|
  {
    if sentences != [] {
      var a := SentenceStep(attrib, speakers, sentences[0], c, ctx);
      SentenceKeepsOtherAttributes(attrib, speakers, sentences[0], c, ctx);
      SentencesKeepOtherAttributes(a.attrib, speakers, sentences[1..], a.carry, ctx);
      OnlyTypeAndWhoTransitive(attrib, a.attrib, SentencesRun(a.attrib, speakers, sentences[1..], a.carry, ctx).attrib);
    }
  }

  /** So does a whole stage direction. */
  lemma StageKeepsOtherAttributes(s: Stage, c: Carry, ctx: Context)
    requires ctx.reg.Valid() && StageStep(s, c, ctx).Some?
    ensures OnlyTypeAndWho(s.attrib, StageStep(s, c, ctx).value.attrib)
  {
    if !HeadingApplies(s) {
      SentencesKeepOtherAttributes(s.attrib, s.speakers, Sentences(StageText(s).value), c, ctx);
    }
  }

  /** One stage of DivisionRun. */
  lemma DivisionStep(done: seq<Stage>, todo: seq<Stage>, c: Carry, ctx: Context)
    requires ctx.reg.Valid() && todo != []
    ensures DivisionRun(done, todo, c, ctx)
      == match StageStep(todo[0], c, ctx)
         case None => Run(done + todo, c, true)
         case Some(a) => DivisionRun(done + [todo[0].(attrib := a.attrib)], todo[1..], a.carry, ctx)
  {
  }

  /** The stages `r[n..n + |todo|]` are those of `todo`, each changed at most in its `type` and
      `who` attributes. */
  predicate ChangedOnlyTypeAndWho(todo: seq<Stage>, r: seq<Stage>, n: nat)
    decreases |todo|
  {
    && n + |todo| <= |r|
    && (todo != [] ==>
      && r[n] == todo[0].(attrib := r[n].attrib) && OnlyTypeAndWho(todo[0].attrib, r[n].attrib)
      && ChangedOnlyTypeAndWho(todo[1..], r, n + 1))
  }

  /** ChangedOnlyTypeAndWho stage by stage. */
  lemma {:induction false} ChangedAt(todo: seq<Stage>, r: seq<Stage>, n: nat, i: nat)
    requires ChangedOnlyTypeAndWho(todo, r, n) && i < |todo|
    ensures r[n + i] == todo[i].(attrib := r[n + i].attrib) && OnlyTypeAndWho(todo[i].attrib, r[n + i].attrib)
    decreases i
  {
    if i > 0 {
      ChangedAt(todo[1..], r, n + 1, i - 1);
      assert todo[1..][i - 1] == todo[i];
    }
  }

  /** Annotating a division changes each stage element only in its `type` and `who` attributes:
      its text, tail, neighbours, speakers and other attributes stay, and so does its position. */
  lemma {:induction false} DivisionKeepsOtherAttributes(done: seq<Stage>, todo: seq<Stage>, c: Carry, ctx: Context)
    requires ctx.reg.Valid()
    ensures ChangedOnlyTypeAndWho(todo, DivisionRun(done, todo, c, ctx).stages, |done|)
    decreases |todo|
  {
    if todo != [] {
      var stopped, attrib, carry := DivisionFirstStage(done, todo, c, ctx);
      var r := DivisionRun(done, todo, c, ctx);
      if stopped {
        assert r.stages[|done|..|done| + |todo|] == todo;
        UnchangedStages(|done|, todo, r.stages);
      } else {
        var next := done + [todo[0].(attrib := attrib)];
        var r2 := DivisionRun(next, todo[1..], carry, ctx);
        assert r == r2;
        DivisionKeepsOtherAttributes(next, todo[1..], carry, ctx);
        assert r2.stages[|done|] == todo[0].(attrib := attrib) by {
          assert r2.stages[..|next|] == next;
          assert r2.stages[|done|] == r2.stages[..|next|][|done|];
        }
        assert |next| == |done| + 1;
      }
    }
  }

  /** The first stage of a division run, without its annotation: either the run stops there,
      leaving the stages as they were, or the stage gets new attributes that differ only in
      `type` and `who` and the run goes on. */
  lemma DivisionFirstStage(done: seq<Stage>, todo: seq<Stage>, c: Carry, ctx: Context)
    returns (stopped: bool, attrib: map<string, string>, carry: Carry)
    requires ctx.reg.Valid() && todo != []
    ensures stopped ==> DivisionRun(done, todo, c, ctx).stages == done + todo
    ensures !stopped ==> OnlyTypeAndWho(todo[0].attrib, attrib)
    ensures !stopped ==> DivisionRun(done, todo, c, ctx) == DivisionRun(done + [todo[0].(attrib := attrib)], todo[1..], carry, ctx)
  {
    DivisionStep(done, todo, c, ctx);
    var step := StageStep(todo[0], c, ctx);
    stopped := step.None?;
    if step.Some? {
      attrib, carry := step.value.attrib, step.value.carry;
      StageKeepsOtherAttributes(todo[0], c, ctx);
    } else {
      attrib, carry := todo[0].attrib, c;
    }
  }

  /** Stages left as they were are changed at most in `type` and `who`. */
  lemma {:induction false} UnchangedStages(n: nat, todo: seq<Stage>, r: seq<Stage>)
    requires n + |todo| <= |r| && r[n..n + |todo|] == todo
    ensures ChangedOnlyTypeAndWho(todo, r, n)
    decreases |todo|
  {
    if todo != [] {
      assert r[n] == r[n..n + |todo|][0];
      assert r[n + 1..n + 1 + |todo[1..]|] == todo[1..];
      UnchangedStages(n + 1, todo[1..], r);
    }
  }

  /** A document run that starts with divisions already done ends with them in front. */
  lemma {:induction false} DocumentRunFrom(done: seq<seq<Stage>>, todo: seq<seq<Stage>>, previous: string, ctx: Context)
    requires ctx.reg.Valid()
    ensures var r := DocumentRun([], todo, previous, ctx);
      DocumentRun(done, todo, previous, ctx) == DocRun(done + r.divisions, r.previous, r.crashed)
    decreases |todo|
  {
    if todo != [] {
      var d := DivisionRun([], todo[0], Carry("", previous), ctx);
      if d.crashed {
        CrashedDivisionStops(done, todo, previous, ctx);
      } else {
        var p := d.carry.previous;
        DocumentRunFrom(done + [d.stages], todo[1..], p, ctx);
        DocumentRunFrom([d.stages], todo[1..], p, ctx);
        DivisionCarriesOn(done, todo, previous, ctx);
      }
    }
  }

  /** A division that stops the run leaves the divisions after it as they were. */
  lemma CrashedDivisionStops(done: seq<seq<Stage>>, todo: seq<seq<Stage>>, previous: string, ctx: Context)
    requires ctx.reg.Valid() && todo != [] && DivisionRun([], todo[0], Carry("", previous), ctx).crashed
    ensures var r := DocumentRun([], todo, previous, ctx);
      DocumentRun(done, todo, previous, ctx) == DocRun(done + r.divisions, r.previous, r.crashed)
  {
    var d := DivisionRun([], todo[0], Carry("", previous), ctx);
    DocumentStep(done, todo, previous, ctx);
    DocumentStep([], todo, previous, ctx);
    assert done + [d.stages] + todo[1..] == done + ([] + [d.stages] + todo[1..]);
  }

  /** The step of DocumentRunFrom for a division that does not stop the run, given the claim
      for the divisions after it. */
  lemma DivisionCarriesOn(done: seq<seq<Stage>>, todo: seq<seq<Stage>>, previous: string, ctx: Context)
    requires ctx.reg.Valid() && todo != []
    requires var d := DivisionRun([], todo[0], Carry("", previous), ctx);
      && !d.crashed
      && var rest := DocumentRun([], todo[1..], d.carry.previous, ctx);
      && DocumentRun(done + [d.stages], todo[1..], d.carry.previous, ctx) == DocRun(done + [d.stages] + rest.divisions, rest.previous, rest.crashed)
      && DocumentRun([d.stages], todo[1..], d.carry.previous, ctx) == DocRun([d.stages] + rest.divisions, rest.previous, rest.crashed)
    ensures var r := DocumentRun([], todo, previous, ctx);
      DocumentRun(done, todo, previous, ctx) == DocRun(done + r.divisions, r.previous, r.crashed)
  {
    var d := DivisionRun([], todo[0], Carry("", previous), ctx);
    var rest := DocumentRun([], todo[1..], d.carry.previous, ctx);
    var whole := DocumentRun(done, todo, previous, ctx);
    var r := DocumentRun([], todo, previous, ctx);
    assert whole == DocumentRun(done + [d.stages], todo[1..], d.carry.previous, ctx) by {
      DocumentStep(done, todo, previous, ctx);
    }
    assert r == DocumentRun([d.stages], todo[1..], d.carry.previous, ctx) by {
      DocumentStep([], todo, previous, ctx);
      assert [] + [d.stages] == [d.stages];
    }
    PrefixRun(done, d.stages, whole, r, rest);
  }

  /** Sequence bookkeeping for DivisionCarriesOn. */
  lemma PrefixRun(done: seq<seq<Stage>>, first: seq<Stage>, whole: DocRun, r: DocRun, rest: DocRun)
    requires whole == DocRun(done + [first] + rest.divisions, rest.previous, rest.crashed)
    requires r == DocRun([first] + rest.divisions, rest.previous, rest.crashed)
    ensures whole == DocRun(done + r.divisions, r.previous, r.crashed)
  {
    assert done + [first] + rest.divisions == done + ([first] + rest.divisions);
  }

  /** presentPersons does not cross a division boundary (line 209) while previousPersons does
      (line 197): two first divisions that end with the same previousPersons give every later
      division the same annotation, whatever stage sets they end with. */
  lemma StageSetStaysInDivision(d1: seq<Stage>, d2: seq<Stage>, rest: seq<seq<Stage>>, previous: string, ctx: Context)
    requires ctx.reg.Valid()
    requires !DivisionRun([], d1, Carry("", previous), ctx).crashed && !DivisionRun([], d2, Carry("", previous), ctx).crashed
    requires DivisionRun([], d1, Carry("", previous), ctx).carry.previous == DivisionRun([], d2, Carry("", previous), ctx).carry.previous
    ensures DocumentRun([], [d1] + rest, previous, ctx).divisions[1..] == DocumentRun([], [d2] + rest, previous, ctx).divisions[1..]
  {
    var p := DivisionRun([], d1, Carry("", previous), ctx).carry.previous;
    ghost var later := DocumentRun([], rest, p, ctx).divisions;
    assert DocumentRun([], [d1] + rest, previous, ctx).divisions[1..] == later by {
      LaterDivisions(d1, rest, previous, ctx);
    }
    assert DocumentRun([], [d2] + rest, previous, ctx).divisions[1..] == later by {
      LaterDivisions(d2, rest, previous, ctx);
    }
  }

  /** After a first division that does not stop the run, the rest is annotated from the
      previousPersons it leaves. */
  lemma LaterDivisions(d: seq<Stage>, rest: seq<seq<Stage>>, previous: string, ctx: Context)
    requires ctx.reg.Valid() && !DivisionRun([], d, Carry("", previous), ctx).crashed
    ensures var r := DivisionRun([], d, Carry("", previous), ctx);
      DocumentRun([], [d] + rest, previous, ctx).divisions[1..] == DocumentRun([], rest, r.carry.previous, ctx).divisions
  {
    var r := DivisionRun([], d, Carry("", previous), ctx);
    assert ([d] + rest)[0] == d && ([d] + rest)[1..] == rest;
    DocumentStep([], [d] + rest, previous, ctx);
    assert [] + [r.stages] == [r.stages];
    DocumentRunFrom([r.stages], rest, r.carry.previous, ctx);
  }

  /** Lower-case letters and spaces are left as they are by lower(). */
  lemma LowerKeepsLowercase(t: string)
    requires forall i :: 0 <= i < |t| ==> 'a' <= t[i] <= 'z' || t[i] == ' '
    ensures Lower(t) == t
  {
  }

  /** No single-word pattern matches the sentence "allein". */
  lemma AloneMatchesNoWord(t: string)
    requires t == "allein"
    ensures !SearchAny(t, Entrances2) && !SearchAny(t, Entrances4) && !SearchAny(t, Entrances5) && !SearchAny(t, Entrances6)
    ensures !SearchAny(t, Exit2) && !SearchAny(t, Exit9) && !SearchAny(t, Exit11)
  {
    EntranceWordLists();
    ExitWordLists();
    SegmentsOfRun(t, WordChar);
    NoListedRun(t, Entrances2);
    NoListedRun(t, Entrances4);
    NoListedRun(t, Entrances5);
    NoListedRun(t, Entrances6);
    NoListedRun(t, Exit2);
    NoListedRun(t, Exit9);
    NoListedRun(t, Exit11);
  }

  /** No opaque entrance or exit pattern matches the text. */
  predicate OraclesSilent(or: Oracles, t: string) {
    && !or.entrance.e1(t) && !or.entrance.e3(t) && !or.entrance.e7(t)
    && !or.exit.x1(t) && !or.exit.x3(t) && !or.exit.x4(t) && !or.exit.x5(t)
    && !or.exit.x6(t) && !or.exit.x7(t) && !or.exit.x10(t) && !or.exit.x12(t)
  }

  /** The sentence "allein" is decided by the "allein" rule when no opaque pattern matches it. */
  lemma AloneDecides(t: string, or: Oracles)
    requires t == "allein" && OraclesSilent(or, t)
    ensures Lower(t) == t && !EntranceBattery(t, or) && !ExitBattery(t, or.exit) && AloneMatch(t)
  {
    LowerKeepsLowercase(t);
    AloneMatchesNoWord(t);
  }

  /** The speaker "#k" says "Allein." (a sentence the "allein" rule decides, such as "allein"),
      which names nobody. With "#k" on stage the stage direction is an exit, with nobody on
      stage an entrance. After "#k" has entered, addPersons leaves the stage set "# k", in
      which "#k" does not occur, so the stage direction is an entrance. */
  lemma AloneScenario(t: string, attrib: map<string, string>, previous: string, ctx: Context)
    requires ctx.reg.Valid() && Lower(t) == t && Resolve(t, ctx.reg) == ""
    requires !EntranceBattery(t, ctx.or) && !ExitBattery(t, ctx.or.exit) && AloneMatch(t)
    ensures SentenceStep(attrib, ["#k"], t, Carry("#k", previous), ctx).attrib["type"] == "exit"
    ensures SentenceStep(attrib, ["#k"], t, Carry("", previous), ctx).attrib["type"] == "entrance"
    ensures SentenceStep(attrib, ["#k"], t, Carry(AddedAsWritten("#k"), previous), ctx).attrib["type"] == "entrance"
  {
    HashKOnStage();
    AloneSpeakerK(t, attrib, "#k", previous, ctx);
    AloneSpeakerK(t, attrib, "", previous, ctx);
    AloneSpeakerK(t, attrib, AddedAsWritten("#k"), previous, ctx);
  }

  /** "#k" occurs in the stage set "#k" but not in "# k", the one addPersons writes for it. */
  lemma HashKOnStage()
    ensures IsSubstring("#k", "#k") && !IsSubstring("#k", "") && !IsSubstring("#k", AddedAsWritten("#k"))
  {
    assert OccursAt("#k", "#k", 0);
    AddedHashK();
    assert !OccursAt("# k", "#k", 0) && !OccursAt("# k", "#k", 1);
  }

  /** The "allein" rule for the speaker "#k" and a sentence naming nobody: exit exactly when
      "#k" occurs in presentPersons. */
  lemma AloneSpeakerK(t: string, attrib: map<string, string>, present: string, previous: string, ctx: Context)
    requires ctx.reg.Valid() && Lower(t) == t && Resolve(t, ctx.reg) == ""
    requires !EntranceBattery(t, ctx.or) && !ExitBattery(t, ctx.or.exit) && AloneMatch(t)
    ensures SentenceStep(attrib, ["#k"], t, Carry(present, previous), ctx).attrib["type"]
      == if IsSubstring("#k", present) then "exit" else "entrance"
  {
    assert Fallback("", ["#k"]) == "#k";
    AloneSentence(attrib, ["#k"], t, Carry(present, previous), ctx);
  }

  /** "karl kommt" is an entrance sentence without "will". */
  lemma KommtDecides(t: string, or: Oracles)
    requires t == "karl kommt"
    ensures Lower(t) == t && EntranceBattery(t, or) && !SearchAny(t, WrongWord)
  {
    LowerKeepsLowercase(t);
    KommtWords(t);
  }

  /** An entrance sentence (such as "karl kommt") whose text names characters, on a stage
      element without `who`: an entrance of exactly them, recorded in the stage set as
      addPersons writes it. */
  lemma EntranceScenario(t: string, attrib: map<string, string>, persons: string, c: Carry, ctx: Context)
    requires ctx.reg.Valid() && Lower(t) == t && Resolve(t, ctx.reg) == persons && persons != "" && "who" !in attrib
    requires EntranceBattery(t, ctx.or) && !SearchAny(t, WrongWord)
    ensures var a := SentenceStep(attrib, [], t, c, ctx);
      a.attrib["type"] == "entrance" && a.attrib["who"] == persons && a.carry == Carry(AddedAsWritten(persons), c.previous)
  {
    EntranceSentence(attrib, [], t, c, ctx);
  }
}
