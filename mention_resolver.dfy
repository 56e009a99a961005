/** findPersons (lines 81-107): the ids of the characters a stage text mentions, as the
    string "#id1 #id2 ...". */
module MentionResolver {
  import opened Text
  import opened OrderedSet
  import opened CharacterRegistry

  /** The ids found by the first loop (lines 93-96): each whitespace-separated word, with its
      punctuation deleted, that is a key of the table, in text order, repeats included. */
  function TokenHits(words: seq<string>, ids: map<string, string>): (r: seq<string>)
    ensures forall x :: x in r ==> x in ids.Values
  {
    if words == [] then []
    else
      var word := Keep(words[|words| - 1], NonPunctuation);
      TokenHits(words[..|words| - 1], ids) + (if word in ids then [ids[word]] else [])
  }

  /** The ids found by the second loop (lines 97-99): each key, in table order, that occurs
      anywhere in the text as a substring. */
  function NameHits(keys: seq<string>, text: string, ids: map<string, string>): (r: seq<string>)
    requires forall i :: 0 <= i < |keys| ==> keys[i] in ids
    ensures forall x :: x in r ==> x in ids.Values
  {
    if keys == [] then []
    else
      var name := keys[|keys| - 1];
      NameHits(keys[..|keys| - 1], text, ids) + (if IsSubstring(name, text) then [ids[name]] else [])
  }

  /** The set `detectedPersons`, in insertion order. */
  function Detected(text: string, reg: Registry): (r: seq<string>)
    requires reg.Valid()
    ensures NoDup(r)
  {
    Dedup(TokenHits(Words(text), reg.ids) + NameHits(reg.keys, text, reg.ids))
  }

  /** The string findPersons returns. */
  function Resolve(text: string, reg: Registry): string
    requires reg.Valid()
  {
    JoinSpace(Prefixed(Detected(text, reg), "#"))
  }

  /** findPersons (lines 81-107): two loops fill the set, a third joins it. */
  method FindPersons(stageText: string, namesWithIDs: Registry) returns (persons: string)
    requires namesWithIDs.Valid()
    ensures persons == Resolve(stageText, namesWithIDs)
  {
    var ids := namesWithIDs.ids;
    var keys := namesWithIDs.keys;
    var words := Words(stageText);
    var detectedPersons: seq<string> := [];
    for w := 0 to |words|
      invariant detectedPersons == Dedup(TokenHits(words[..w], ids))
    {
      var word := Keep(words[w], NonPunctuation);
      TokenHitsStep(words, w, ids);
      if word in ids {
        DedupSnoc(TokenHits(words[..w], ids), ids[word]);
        detectedPersons := Insert(detectedPersons, ids[word]);
      }
    }
    assert words[..|words|] == words;
    ghost var first := TokenHits(words, ids);
    assert first + NameHits(keys[..0], stageText, ids) == first;
    for n := 0 to |keys|
      invariant detectedPersons == Dedup(first + NameHits(keys[..n], stageText, ids))
    {
      var name := keys[n];
      NameHitsStep(first, keys, n, stageText, ids);
      if IsSubstring(name, stageText) {
        DedupSnoc(first + NameHits(keys[..n], stageText, ids), ids[name]);
        detectedPersons := Insert(detectedPersons, ids[name]);
      }
    }
    assert keys[..|keys|] == keys;
    persons := JoinLoop(detectedPersons, "#");
  }

  /** One more word extends the first loop's hits by that word's id, if any. */
  lemma TokenHitsStep(words: seq<string>, w: nat, ids: map<string, string>)
    requires w < |words|
    ensures var word := Keep(words[w], NonPunctuation);
      TokenHits(words[..w + 1], ids) == if word in ids then TokenHits(words[..w], ids) + [ids[word]] else TokenHits(words[..w], ids)
  {
    assert words[..w + 1][..w] == words[..w];
  }

  /** One more key extends the second loop's hits by that key's id, if it occurs. */
  lemma NameHitsStep(first: seq<string>, keys: seq<string>, n: nat, text: string, ids: map<string, string>)
    requires n < |keys| && forall i :: 0 <= i < |keys| ==> keys[i] in ids
    ensures first + NameHits(keys[..n + 1], text, ids) ==
      if IsSubstring(keys[n], text) then (first + NameHits(keys[..n], text, ids)) + [ids[keys[n]]]
      else first + NameHits(keys[..n], text, ids)
  {
    assert keys[..n + 1][..n] == keys[..n];
  }

  /** The word loop finds an id exactly when some word, without its punctuation, is a key for it. */
  lemma {:induction false} TokenHitsIff(words: seq<string>, ids: map<string, string>, id: string)
    ensures id in TokenHits(words, ids) <==>
      exists i :: 0 <= i < |words| && Keep(words[i], NonPunctuation) in ids && ids[Keep(words[i], NonPunctuation)] == id
  {
    if words != [] {
      var init := words[..|words| - 1];
      TokenHitsIff(init, ids, id);
      assert forall i :: 0 <= i < |init| ==> init[i] == words[i];
    }
  }

  /** The name loop finds an id exactly when some key for it occurs in the text. */
  lemma {:induction false} NameHitsIff(keys: seq<string>, text: string, ids: map<string, string>, id: string)
    requires forall i :: 0 <= i < |keys| ==> keys[i] in ids
    ensures id in NameHits(keys, text, ids) <==>
      exists i :: 0 <= i < |keys| && IsSubstring(keys[i], text) && ids[keys[i]] == id
  {
    if keys != [] {
      var init := keys[..|keys| - 1];
      NameHitsIff(init, text, ids, id);
      assert forall i :: 0 <= i < |init| ==> init[i] == keys[i];
    }
  }

  /** An id is detected exactly when a word of the text, without punctuation, is one of its
      names, or one of its names occurs in the text. */
  lemma DetectedIff(text: string, reg: Registry, id: string)
    requires reg.Valid()
    ensures id in Detected(text, reg) <==>
      (exists i :: 0 <= i < |Words(text)| && Keep(Words(text)[i], NonPunctuation) in reg.ids && reg.ids[Keep(Words(text)[i], NonPunctuation)] == id)
      || (exists k :: k in reg.ids && IsSubstring(k, text) && reg.ids[k] == id)
  {
    TokenHitsIff(Words(text), reg.ids, id);
    NameHitsIff(reg.keys, text, reg.ids, id);
    if exists k :: k in reg.ids && IsSubstring(k, text) && reg.ids[k] == id {
      var k :| k in reg.ids && IsSubstring(k, text) && reg.ids[k] == id;
      var i :| 0 <= i < |reg.keys| && reg.keys[i] == k;
    }
  }

  /** Every detected id is an id of the table. */
  lemma DetectedFromTable(text: string, reg: Registry)
    requires reg.Valid()
    ensures forall x :: x in Detected(text, reg) ==> x in reg.ids.Values
  {
  }

  /** The result is empty exactly when no character was detected. */
  lemma ResolveEmptyIff(text: string, reg: Registry)
    requires reg.Valid()
    ensures Resolve(text, reg) == "" <==> Detected(text, reg) == []
  {
    var p := Prefixed(Detected(text, reg), "#");
    assert forall i :: 0 <= i < |p| ==> p[i][0] == '#';
    JoinSpaceEmpty(p);
  }

  /** With whitespace-free ids, splitting the result gives back the detected ids, each marked "#". */
  lemma ResolveWords(text: string, reg: Registry)
    requires reg.Valid()
    requires forall k :: k in reg.ids ==> AllIn(reg.ids[k], NonSpace)
    ensures Words(Resolve(text, reg)) == Prefixed(Detected(text, reg), "#")
  {
    var d := Detected(text, reg);
    var p := Prefixed(d, "#");
    forall i | 0 <= i < |p|
      ensures p[i] != [] && AllIn(p[i], NonSpace)
    {
      assert d[i] in d;
      var k :| k in reg.ids && reg.ids[k] == d[i];
      assert p[i] == "#" + d[i];
    }
    WordsOfJoinSpace(p);
  }

  /** A name that lost all its characters is stored as "", which occurs in every text: its
      character is detected in every stage direction. */
  lemma EmptyNameAlwaysMatches(text: string, reg: Registry)
    requires reg.Valid() && "" in reg.ids
    ensures reg.ids[""] in Detected(text, reg)
  {
    assert OccursAt(text, "", 0);
    DetectedIff(text, reg, reg.ids[""]);
  }
}
