# Entrance and exit recognition for TEI dramas, in Dafny

`drama_entrance_exit_recognition.py` reads TEI-encoded German dramas. It tries to give each
`<stage>` element a `type` attribute (`entrance` or `exit`) and a `who` attribute, meant to hold
the `#id` references of the characters who enter or leave. Not every stage direction gets them:

- an entrance or exit sentence with the word "will" in it is vetoed, and a sentence no rule
  matches is left alone;
- a sentence without a verb is left alone when it names nobody or when the second veto
  pattern (words such as "laut", "leise", "zu") matches;
- the "allein" exit writes `who=""` (what `removePersons` returns), not the leaving character.

The annotation has four parts:

- a **character registry**: a table from normalised name variants to character ids, read
  from the cast list (`readPersonList`);
- a **mention resolver**: the ids a stage text mentions (`findPersons`);
- a **stage-set tracker**: the string of characters currently on stage (`addPersons`,
  `removePersons`);
- a **movement classifier**: a prioritised battery of regular expressions and a part-of-speech
  test, applied to each sentence of a stage direction.

An **annotation driver** walks the divisions (scenes, or acts when there are none) and their
stage directions. It carries `presentPersons` within a division and `previousPersons` across
the whole file.

The model keeps the program's behaviour as written, including where that looks unintended:

- `removePersons` always returns the empty string. A local variable is overwritten before its
  loop, so the loop never runs.
- `addPersons` ignores the stage set it is given. It returns the distinct *characters* of the
  arriving ids, joined by spaces, so `"#k"` becomes the characters `#` and `k` in some order.
  The model takes first-occurrence order, giving `"# k"`.
- Because of this, after an entrance the stage set no longer contains the id as a substring,
  and a later "Allein." by that speaker is read as an entrance (`AloneScenario`).

The set union and difference these helpers were evidently meant to compute are defined
separately (`Union`, `Difference`). Their laws are proved, and the lemmas
`AddAsWrittenSplitsIds` and `RemoveAsWrittenDropsStayers` show where the code differs. The
`who` merges of the driver are proved to be exactly `Union`.

Modules, in dependency order:

- `Text` (text.dfy): the Python string operations used, over `seq<char>`. These are
  `str.split()` with Python's whitespace set, `" ".join` and `"".join`, `str.lower()`, deleting
  `string.punctuation`, `strip`, `replace(p, "")`, the `in` substring test, `re.split` on `.`
  or `;`, and the word-boundary search `\bw\b`.
- `OrderedSet` (ordered_set.dfy): Python sets as insertion-ordered duplicate-free sequences,
  and the idiom `sorted(set(words), key=words.index)`.
- `CharacterRegistry` (character_registry.dfy): `readPersonList`.
- `MentionResolver` (mention_resolver.dfy): `findPersons`.
- `StageSetTracker` (stage_set_tracker.dfy): `removePersons`, `addPersons`, and the intended
  union and difference.
- `MovementClassifier` (movement_classifier.dfy): the regular-expression battery as a
  decision table, and the verb test.
- `AnnotationDriver` (annotation_driver.dfy): the per-file, per-division and per-stage loops.
  The stages of a division live in an `array<Stage>` whose cells the loop rewrites.

The opaque parts enter as parameters:

- The spaCy tagger is a function `Tagger = string -> seq<Token>`.
- The regular expressions with distances, anchors or lookarounds are the predicates in
  `Oracles`.
- The lxml navigation the driver depends on is supplied in each `Stage` record: the previous
  sibling's tag and text, and the `who` of the enclosing `sp` elements.

## Model

| member | source | states |
|---|---|---|
| CharacterRegistry.Registry.Put | drama_entrance_exit_recognition.py:77 | dict assignment: the key maps to the new value, other keys keep theirs, a new key is appended to the key order and an existing one keeps its place |
| CharacterRegistry.NormalizeName | drama_entrance_exit_recognition.py:69-74 | the stored name has no punctuation; without a leading article it is the lower-cased name with punctuation deleted; with one it is that cleaned name with every occurrence of the article's text deleted, then stripped, so it has no surrounding whitespace |
| CharacterRegistry.ArticleRemovedEverywhere | drama_entrance_exit_recognition.py:72-74 | for every name of the form article, space, rest: the key is the rest with every occurrence of the article deleted, stripped |
| CharacterRegistry.ArticleCutFromLaterWord | drama_entrance_exit_recognition.py:72-74 | when the article occurs again in the rest, first at position i, it is cut out there too and the scan goes on after it |
| CharacterRegistry.ArticleOnlyInFront | drama_entrance_exit_recognition.py:72-74 | when the article does not occur again, the key is the rest of the name, stripped |
| CharacterRegistry.ReadPersonList | drama_entrance_exit_recognition.py:53-78 | the nested loops build the same dict as assigning every (normalised name, id) pair in cast-list order |
| CharacterRegistry.BuildKeys | drama_entrance_exit_recognition.py:62-77 | the dict's keys are the assigned names, each once, in first-assignment order |
| CharacterRegistry.LastWins | drama_entrance_exit_recognition.py:77 | a name maps to the id of the last assignment to it |
| CharacterRegistry.KeyIffAssigned | drama_entrance_exit_recognition.py:65-77 | a name is a key exactly when some name variant normalises to it |
| CharacterRegistry.IdsComeFromPeople | drama_entrance_exit_recognition.py:65-77 | every stored id is the xml:id of some person or personGrp of the cast list |
| CharacterRegistry.ArticleRemovedInsideWords | drama_entrance_exit_recognition.py:73-74 | every occurrence of the article's text is deleted, inside words too: "Die Dienerin" is stored as "nerin" |
| MentionResolver.Detected | drama_entrance_exit_recognition.py:91-99 | the detected set holds no id twice |
| MentionResolver.FindPersons | drama_entrance_exit_recognition.py:81-107 | the two detection loops and the joining loop compute the `#`-prefixed, space-joined listing of the detected ids |
| MentionResolver.TokenHitsIff | drama_entrance_exit_recognition.py:93-96 | the word loop finds an id exactly when some whitespace-separated word, with punctuation deleted, is a key for it |
| MentionResolver.NameHitsIff | drama_entrance_exit_recognition.py:97-99 | the name loop finds an id exactly when one of its keys occurs in the text as a substring |
| MentionResolver.DetectedIff | drama_entrance_exit_recognition.py:91-99 | an id is detected exactly when a punctuation-stripped word equals one of its names or one of its names is a substring of the text |
| MentionResolver.DetectedFromTable | drama_entrance_exit_recognition.py:96-99 | every detected id is a value of the name table |
| MentionResolver.ResolveEmptyIff | drama_entrance_exit_recognition.py:101-107 | the result is "" exactly when nothing was detected |
| MentionResolver.ResolveWords | drama_entrance_exit_recognition.py:101-107 | with whitespace-free ids, splitting the result gives each detected id once, prefixed with "#" |
| MentionResolver.EmptyNameAlwaysMatches | drama_entrance_exit_recognition.py:97-99 | a name that normalised to "" matches every stage text |
| StageSetTracker.AddEach | drama_entrance_exit_recognition.py:157-158 | the loop inserts every character of the string into the set |
| StageSetTracker.AddUnlisted | drama_entrance_exit_recognition.py:127-129 | the loop inserts the characters of the string that are not in the list |
| StageSetTracker.AddAbsent | drama_entrance_exit_recognition.py:160-162 | the loop inserts the characters that do not occur in the current text |
| StageSetTracker.RemovePersons | drama_entrance_exit_recognition.py:109-137 | as written, the result is always "" |
| StageSetTracker.AddPersons | drama_entrance_exit_recognition.py:140-170 | as written, the result depends only on the arriving string: its distinct characters joined by spaces |
| StageSetTracker.AddedAsWrittenIsDistinctChars | drama_entrance_exit_recognition.py:150-170 | the result lists each character of the arriving string once, first-seen order, with a space between neighbours |
| StageSetTracker.AddAsWrittenSplitsIds | drama_entrance_exit_recognition.py:160-168 | `addPersons("", "#k")` is "# k", which does not hold the id "#k", whereas the union does |
| StageSetTracker.RemoveAsWrittenDropsStayers | drama_entrance_exit_recognition.py:109-137 | the intended difference of "#a #b" and "#b" is the single word "#a", where `RemovePersons` returns "" for every input |
| StageSetTracker.UnionMembers | drama_entrance_exit_recognition.py:140-148 | the intended add: a word is in the result exactly when it is in either argument, and no word twice |
| StageSetTracker.DifferenceMembers | drama_entrance_exit_recognition.py:109-118 | the intended remove: a word is in the result exactly when it is in the stage set and not among the leavers, and no word twice |
| StageSetTracker.ArrivingArePresent | drama_entrance_exit_recognition.py:109-170 | after removing M and adding M back, every member of M is present |
| StageSetTracker.LeavingAreAbsent | drama_entrance_exit_recognition.py:109-170 | after adding M and removing M, no member of M is present |
| OrderedSet.Dedup | drama_entrance_exit_recognition.py:254-255 | the duplicate removal keeps exactly the words of the list, none twice |
| OrderedSet.DedupSortedByFirstIndex | drama_entrance_exit_recognition.py:273-274 | the duplicate removal lists words in the order of their first occurrence |
| OrderedSet.SortedSetIsDedup | drama_entrance_exit_recognition.py:291-292 | any duplicate-free listing of the words sorted by first occurrence is that result, so `sorted(set(words), key=words.index)` is determined |
| OrderedSet.DedupIdempotent | drama_entrance_exit_recognition.py:330-331 | removing duplicates twice is removing them once |
| Text.Sentences | drama_entrance_exit_recognition.py:224-226 | the sentences are exactly the maximal runs of the text free of "." and ";", left to right: none is empty, and together they are the text with the delimiters deleted |
| Text.NormalizeSpacesKeepsWords | drama_entrance_exit_recognition.py:219 | joining the words with single spaces keeps the words |
| Text.SegmentsAreBoundedRuns | drama_entrance_exit_recognition.py:23-49 | `\bw\b` matches exactly when `w` is a whole maximal run of word characters |
| Text.JoinLoop | drama_entrance_exit_recognition.py:101-105 | the joining loop prefixes each item and puts one space between items |
| Text.RemoveLeftmost | drama_entrance_exit_recognition.py:74 | `replace(p, "")` keeps what precedes the first occurrence and continues after it |
| Text.Strip | drama_entrance_exit_recognition.py:74 | the result is a whitespace-free-ended slice, with only whitespace cut on either side |
| MovementClassifier.SearchAnyIffRun | drama_entrance_exit_recognition.py:23-49 | a single-word pattern matches exactly when one of its words is a maximal word-character run of the sentence |
| MovementClassifier.AloneOnSentence | drama_entrance_exit_recognition.py:41 | on a sentence (no "." and no newline) exit8 matches exactly the text "allein" |
| MovementClassifier.Classify | drama_entrance_exit_recognition.py:262-334 | the entrance rule or the veto is chosen exactly when an entrance pattern matches, or an exit pattern matches together with "will" |
| MovementClassifier.EntranceShadowsExit | drama_entrance_exit_recognition.py:262-279 | when an entrance pattern matches, the exit patterns do not affect the verdict, which is entrance or veto |
| MovementClassifier.VetoIff | drama_entrance_exit_recognition.py:263-264 | a sentence is vetoed exactly when an entrance or exit pattern matches and "will" occurs as a word |
| MovementClassifier.ExitIff | drama_entrance_exit_recognition.py:279-281 | the exit rule fires exactly when no entrance pattern, some exit pattern and no "will" match |
| MovementClassifier.AloneIff | drama_entrance_exit_recognition.py:299 | the "allein" rule is tried only when no entrance or exit pattern matched |
| MovementClassifier.VerbLessIff | drama_entrance_exit_recognition.py:314-322 | the verb-less rule applies exactly when no pattern matched and the tagger found no VERB |
| MovementClassifier.ContainsVerb | drama_entrance_exit_recognition.py:316-321 | the flag the source calls noVerb ends up true exactly when some token is tagged VERB |
| MovementClassifier.WillVetoesEntrance | drama_entrance_exit_recognition.py:262-264 | "sie will auf die bühne treten" is vetoed when entrances1 matches it |
| MovementClassifier.KommtIsEntrance | drama_entrance_exit_recognition.py:26 | "karl kommt" is an entrance by entrances4 |
| MovementClassifier.FliehtIsExit | drama_entrance_exit_recognition.py:42 | "karl flieht" is an exit by exit9 when no opaque entrance pattern matches |
| AnnotationDriver.StageText | drama_entrance_exit_recognition.py:216-222 | reading fails exactly without text and tail; the tail fallback is the lowered tail with all whitespace deleted; the text path has the text's words, single-spaced |
| AnnotationDriver.Fallback | drama_entrance_exit_recognition.py:267-269 | a non-empty result is kept; an empty one becomes the nearest non-empty speaker, or stays "" when every speaker is empty |
| AnnotationDriver.SpeakerFallback | drama_entrance_exit_recognition.py:267-269 | the ancestor loop computes that fallback |
| AnnotationDriver.MergeWho | drama_entrance_exit_recognition.py:271-274 | with an existing `who`, the result is the union of the found persons and that `who`: every word of either once, in first-seen order; without one, the found persons unchanged |
| AnnotationDriver.AppendDistinctIsUnion | drama_entrance_exit_recognition.py:251-255 | appending and removing duplicates is the union of the two word lists |
| AnnotationDriver.ApplySentence | drama_entrance_exit_recognition.py:260-334 | the sentence body leaves the attributes and carried strings the decision table prescribes |
| AnnotationDriver.AnnotateStage | drama_entrance_exit_recognition.py:212-334 | one readable stage direction gets the annotation of the heading case or of its sentences in order |
| AnnotationDriver.AnnotateDivision | drama_entrance_exit_recognition.py:205-334 | the stage loop rewrites the array as the division run prescribes, starting from an empty stage set, and stops at an unreadable stage |
| AnnotationDriver.AnnotateDivisions | drama_entrance_exit_recognition.py:205-334 | the division loop rewrites each distinct array in turn, carrying previousPersons |
| AnnotationDriver.AnnotateDocument | drama_entrance_exit_recognition.py:191-203 | the file reads its name table, starts previousPersons empty and annotates its scenes, or its acts when it has no scene |
| AnnotationDriver.Divisions | drama_entrance_exit_recognition.py:199-202 | scenes when there are any, otherwise acts |
| AnnotationDriver.VetoKeepsState | drama_entrance_exit_recognition.py:263-264 | a vetoed sentence changes neither the stage's attributes nor the carried strings |
| AnnotationDriver.EntranceSentence | drama_entrance_exit_recognition.py:262-276 | entrance: `who` is the found persons or the nearest speaker, united with an earlier `who`; presentPersons is what addPersons gives; previousPersons stays |
| AnnotationDriver.ExitSentence | drama_entrance_exit_recognition.py:279-296 | exit: `who` as for an entrance; both carried strings become "" (what removePersons returns) |
| AnnotationDriver.AloneSentence | drama_entrance_exit_recognition.py:299-311 | "allein": exit exactly when the persons occur in presentPersons as a substring, always when they are ""; the exit writes "" into `who`; the entrance empties presentPersons |
| AnnotationDriver.VerbLessSentence | drama_entrance_exit_recognition.py:314-334 | without a verb: nothing changes unless the text names a character and wrongWord2 does not match; no speaker is consulted |
| AnnotationDriver.UnmatchedSentence | drama_entrance_exit_recognition.py:314-323 | a sentence with a verb that no pattern matches changes nothing |
| AnnotationDriver.HeadingStage | drama_entrance_exit_recognition.py:245-259 | after a head holding "Auftritt": entrance; `who`, presentPersons and previousPersons become the found persons, united with previousPersons for "vorige"; patterns and tagger play no part |
| AnnotationDriver.SentenceKeepsOtherAttributes | drama_entrance_exit_recognition.py:260-334 | one sentence changes only `type` and `who`, and sets `type` only to "entrance" or "exit" |
| AnnotationDriver.SentencesKeepOtherAttributes | drama_entrance_exit_recognition.py:260-334 | the sentences change only `type` and `who`, and set `type` only to "entrance" or "exit" |
| AnnotationDriver.StageKeepsOtherAttributes | drama_entrance_exit_recognition.py:245-334 | a readable stage direction, heading case or sentences, changes only `type` and `who` |
| AnnotationDriver.DivisionKeepsOtherAttributes | drama_entrance_exit_recognition.py:205-334 | a division run changes each stage element only in `type` and `who`, in place |
| AnnotationDriver.StageSetStaysInDivision | drama_entrance_exit_recognition.py:197-209 | later divisions depend on an earlier one only through previousPersons, never through its stage set |
| AnnotationDriver.LaterDivisions | drama_entrance_exit_recognition.py:197-209 | after a division that does not stop the run, the later divisions are annotated from the previousPersons it leaves |
| AnnotationDriver.AloneDecides | drama_entrance_exit_recognition.py:299 | the sentence "allein" reaches the "allein" rule when no opaque pattern matches it |
| AnnotationDriver.AloneScenario | drama_entrance_exit_recognition.py:299-311 | speaker "#k" alone: exit when "#k" is on stage, entrance on an empty stage, and entrance after addPersons has recorded "#k" as "# k" |
| AnnotationDriver.KommtDecides | drama_entrance_exit_recognition.py:262-264 | "karl kommt" is an entrance sentence without "will" |
| AnnotationDriver.EntranceScenario | drama_entrance_exit_recognition.py:262-276 | an entrance sentence naming characters on an element without `who` enters exactly them |

## Left out

- File iteration, XML parsing and serialisation, and output paths (lines 7-17, 175-189,
  336-341). The unused `dramas` list (line 11) and the unused `figurenNamen` list (lines 63,
  76) are also out. An unreadable stage direction ends the model's run with `crashed`. In the
  program the exception ends the script, so no output file is written.
- The spaCy model (lines 9, 72, 316) is the `Tagger` parameter. Its tokenisation and tags are
  not modelled.
- These regular expressions are opaque predicates (`Oracles`): `entrances1`, `entrances3`,
  `entrances7`, `exit1`, `exit3`-`exit7`, `exit10`, `exit12` and `wrongWord2` (lines 22-50).
  Their distances, anchors and lookarounds are not modelled. The single-word patterns and
  `exit8` are modelled exactly.
- `\w` is exact up to U+024F. Characters above that count as non-word characters. `lower()`
  is exact on ASCII and Latin-1 and the identity elsewhere.
- Python set iteration order (lines 91, 101, 123, 153, 164) is modelled as insertion order.
  The order of the ids in a `who` string is therefore one admissible order, not the one
  CPython's hashing produces.
- The lxml navigation is given as input in `Stage`:
  - `getprevious()` and the text selection of lines 230-243;
  - `iterancestors` (lines 267, 285, 301).
  These failures are not modelled:
  - a previous head whose selected text is None, which makes `"Auftritt" in None` raise;
  - a `KeyError` from an `sp` without `who`;
  - a `KeyError` from a person without `xml:id` (line 66);
  - a name element with no text (line 69).
- AnnotationDriver.AnnotateDocument: the division arrays are required to be distinct. Nested
  divisions sharing stage elements (aliasing) are not modelled.
- The idempotence of resolving the same text twice holds by construction: `Resolve` is a
  function.
