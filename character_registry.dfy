/** The table from character names to character ids that readPersonList builds from the
    cast list (lines 53-78). */
module CharacterRegistry {
  import opened Text
  import opened OrderedSet

  /** A person or personGrp element of the cast list: its xml:id and the texts of its
      persName and name descendants, in document order. */
  datatype Person = Person(id: string, names: seq<string>)

  /** A token of the part-of-speech tagger: its text and its coarse tag ("DET", "PRON", "VERB", ...). */
  datatype Token = Token(text: string, pos: string)

  /** The part-of-speech tagger, an opaque function of the text. */
  type Tagger = string -> seq<Token>

  /** One assignment `persNameID[name] = id`. */
  datatype Entry = Entry(name: string, id: string)

  /** A Python dict from names to ids: its keys in insertion order and its mapping. */
  datatype Registry = Registry(keys: seq<string>, ids: map<string, string>)
  {
    /** The key list lists each key of the mapping exactly once. */
    ghost predicate Valid() {
      NoDup(keys) && forall k :: k in ids <==> k in keys
    }

    /** `d[k] = v`: a new key goes to the end, an existing key keeps its place and gets the new value. */
    function Put(k: string, v: string): (r: Registry)
      ensures Valid() ==> r.Valid()
      ensures k in r.ids && r.ids[k] == v
      ensures forall k' :: k' != k ==> (k' in r.ids <==> k' in ids) && (k' in ids ==> r.ids[k'] == ids[k'])
      ensures Valid() ==> r.keys == Insert(keys, k)
    {
      Registry(if k in ids then keys else keys + [k], ids[k := v])
    }
  }

  const Empty := Registry([], map[])

  /** The article test of line 73: more than one token, the first tagged as determiner or pronoun. */
  predicate StartsWithArticle(tokens: seq<Token>) {
    |tokens| > 1 && (tokens[0].pos == "DET" || tokens[0].pos == "PRON")
  }

  /** A name lower-cased with the punctuation deleted (lines 69-70). */
  function Cleaned(text: string): (r: string)
    ensures AllIn(r, NonPunctuation) && |r| <= |text|
  {
    Keep(Lower(text), NonPunctuation)
  }

  /** The key under which a name is stored (lines 69-74): cleaned, and when the tagger sees a
      leading article, with every occurrence of the article's text deleted and the ends stripped. */
  function NormalizeName(text: string, tag: Tagger): (name: string)
    ensures AllIn(name, NonPunctuation)
    ensures !StartsWithArticle(tag(Cleaned(text))) ==> name == Cleaned(text)
    ensures StartsWithArticle(tag(Cleaned(text))) ==> name == [] || (!IsSpace(name[0]) && !IsSpace(name[|name| - 1]))
    ensures StartsWithArticle(tag(Cleaned(text))) ==> name == Strip(Remove(Cleaned(text), tag(Cleaned(text))[0].text))
  {
    var name := Cleaned(text);
    var tokens := tag(name);
    if StartsWithArticle(tokens) then
      RemoveKeeps(name, tokens[0].text, NonPunctuation);
      var r := Strip(Remove(name, tokens[0].text));
      StripKeeps(Remove(name, tokens[0].text), NonPunctuation);
      r
    else name
  }

  /** Deleting occurrences of a pattern keeps every remaining character. */
  lemma {:induction false} RemoveKeeps(s: string, p: string, k: CharClass)
    requires AllIn(s, k)
    ensures AllIn(Remove(s, p), k)
    decreases |s|
  {
    if p == [] || |s| < |p| {
    } else if s[..|p|] == p {
      RemoveKeeps(s[|p|..], p, k);
    } else {
      RemoveKeeps(s[1..], p, k);
    }
  }

  /** Stripping keeps a slice of the string, so every remaining character. */
  lemma StripKeeps(s: string, k: CharClass)
    requires AllIn(s, k)
    ensures AllIn(Strip(s), k)
  {
    var r := Strip(s);
    var i :| 0 <= i <= |s| - |r| && r == s[i..i + |r|] && AllIn(s[..i], Space) && AllIn(s[i + |r|..], Space);
    forall j | 0 <= j < |r| ensures In(r[j], k) {
      assert r[j] == s[i + j];
    }
  }

  /** The assignments made for one person, in the order the inner loop makes them. */
  function NameEntries(p: Person, tag: Tagger): (r: seq<Entry>)
    ensures |r| == |p.names|
    ensures forall j :: 0 <= j < |r| ==> r[j] == Entry(NormalizeName(p.names[j], tag), p.id)
  {
    seq(|p.names|, j requires 0 <= j < |p.names| => Entry(NormalizeName(p.names[j], tag), p.id))
  }

  /** The assignments made for the whole cast list, in order. */
  function Entries(people: seq<Person>, tag: Tagger): seq<Entry>
  {
    if people == [] then []
    else Entries(people[..|people| - 1], tag) + NameEntries(people[|people| - 1], tag)
  }

  /** The dict obtained by making the assignments one after the other on an empty dict. */
  function Build(es: seq<Entry>): (r: Registry)
    ensures r.Valid()
  {
    if es == [] then Empty
    else Build(es[..|es| - 1]).Put(es[|es| - 1].name, es[|es| - 1].id)
  }

  function Names(es: seq<Entry>): (r: seq<string>)
    ensures |r| == |es| && forall i :: 0 <= i < |es| ==> r[i] == es[i].name
  {
    seq(|es|, i requires 0 <= i < |es| => es[i].name)
  }

  /** readPersonList (lines 53-78): the nested loops over persons and their names fill the dict. */
  method ReadPersonList(people: seq<Person>, tag: Tagger) returns (persNameID: Registry)
    ensures persNameID == Build(Entries(people, tag))
  {
    persNameID := Empty;
    for i := 0 to |people|
      invariant persNameID == Build(Entries(people[..i], tag))
    {
      var person := people[i];
      var id := person.id;
      ghost var before := Entries(people[..i], tag);
      ghost var added := NameEntries(person, tag);
      assert before + added[..0] == before;
      for j := 0 to |person.names|
        invariant persNameID == Build(before + added[..j])
      {
        var name := Lower(person.names[j]);
        name := Keep(name, NonPunctuation);
        var nameTokens := tag(name);
        if |nameTokens| > 1 && (nameTokens[0].pos == "DET" || nameTokens[0].pos == "PRON") {
          name := Strip(Remove(name, nameTokens[0].text));
        }
        assert added[j] == Entry(name, id);
        BuildStep(before, added, j);
        persNameID := persNameID.Put(name, id);
      }
      assert people[..i + 1][..i] == people[..i];
      assert added[..|person.names|] == added;
    }
    assert people[..|people|] == people;
  }

  /** One more assignment taken from `added` is one more Put. */
  lemma BuildStep(before: seq<Entry>, added: seq<Entry>, j: nat)
    requires j < |added|
    ensures Build(before + added[..j + 1]) == Build(before + added[..j]).Put(added[j].name, added[j].id)
  {
    assert before + added[..j + 1] == (before + added[..j]) + [added[j]];
  }

  /** Every assigned name is a key, and nothing else is. */
  lemma {:induction false} BuildKeys(es: seq<Entry>)
    ensures Build(es).keys == Dedup(Names(es))
  {
    if es != [] {
      var init, e := es[..|es| - 1], es[|es| - 1];
      BuildKeys(init);
      assert Build(es).keys == Insert(Build(init).keys, e.name);
      assert Names(es) == Names(init) + [e.name] by {
        NamesSnoc(es);
      }
      DedupSnoc(Names(init), e.name);
    }
  }

  lemma NamesSnoc(es: seq<Entry>)
    requires es != []
    ensures Names(es) == Names(es[..|es| - 1]) + [es[|es| - 1].name]
  {
    var l, r := Names(es), Names(es[..|es| - 1]) + [es[|es| - 1].name];
    assert |l| == |r|;
    forall i | 0 <= i < |l| ensures l[i] == r[i] {
    }
  }

  /** The last assignment to a name wins: its id is the one stored, whatever came before. */
  lemma {:induction false} LastWins(es: seq<Entry>, i: nat)
    requires i < |es| && forall j :: i < j < |es| ==> es[j].name != es[i].name
    ensures es[i].name in Build(es).ids && Build(es).ids[es[i].name] == es[i].id
  {
    if i < |es| - 1 {
      LastWins(es[..|es| - 1], i);
    }
  }

  /** A name is a key exactly when some assignment used it. */
  lemma {:induction false} KeyIffAssigned(es: seq<Entry>, k: string)
    ensures k in Build(es).ids <==> Assigned(es, k)
  {
    if es != [] {
      var init := es[..|es| - 1];
      KeyIffAssigned(init, k);
      assert k in Build(es).ids <==> k == es[|es| - 1].name || k in Build(init).ids;
      AssignedSnoc(es, k);
    }
  }

  /** Some assignment of `es` uses the name `k`. */
  predicate Assigned(es: seq<Entry>, k: string) {
    exists i :: 0 <= i < |es| && es[i].name == k
  }

  /** A name is assigned in `es` exactly when it is its last name or it is assigned before. */
  lemma AssignedSnoc(es: seq<Entry>, k: string)
    requires es != []
    ensures Assigned(es, k) <==> k == es[|es| - 1].name || Assigned(es[..|es| - 1], k)
  {
    var init := es[..|es| - 1];
    if Assigned(init, k) {
      var i :| 0 <= i < |init| && init[i].name == k;
      assert es[i].name == k;
    }
    if Assigned(es, k) {
      var i :| 0 <= i < |es| && es[i].name == k;
      if i < |init| {
        assert init[i].name == k;
      }
    }
  }

  /** Every stored id is the id of a person whose names were read. */
  lemma {:induction false} IdsComeFromPeople(people: seq<Person>, tag: Tagger, k: string)
    requires k in Build(Entries(people, tag)).ids
    ensures exists p :: p in people && Build(Entries(people, tag)).ids[k] == p.id
  {
    var es := Entries(people, tag);
    KeyIffAssigned(es, k);
    var i :| 0 <= i < |es| && es[i].name == k;
    var last := LastIndex(es, i);
    LastWins(es, last);
    EntryFromPerson(people, tag, last);
  }

  /** The position of the last assignment with the same name as assignment `i`. */
  function LastIndex(es: seq<Entry>, i: nat): (j: nat)
    requires i < |es|
    ensures i <= j < |es| && es[j].name == es[i].name
    ensures forall m :: j < m < |es| ==> es[m].name != es[j].name
    decreases |es| - i
  {
    if forall m :: i < m < |es| ==> es[m].name != es[i].name then i
    else
      var m :| i < m < |es| && es[m].name == es[i].name;
      LastIndex(es, m)
  }

  /** Every assignment carries the id of some person of the list. */
  lemma {:induction false} EntryFromPerson(people: seq<Person>, tag: Tagger, i: nat)
    requires i < |Entries(people, tag)|
    ensures exists p :: p in people && Entries(people, tag)[i].id == p.id
  {
    var init, p := people[..|people| - 1], people[|people| - 1];
    if i < |Entries(init, tag)| {
      EntryFromPerson(init, tag, i);
      var q :| q in init && Entries(init, tag)[i].id == q.id;
      assert q in people;
    } else {
      assert Entries(people, tag)[i] == NameEntries(p, tag)[i - |Entries(init, tag)|];
    }
  }

  /** The tagger that reads "die dienerin" as article plus noun. */
  function ArticleNoun(s: string): seq<Token> {
    [Token("die", "DET"), Token("dienerin", "NOUN")]
  }

  /** Removing the article deletes every occurrence of its text, inside words too:
      "Die Dienerin" is stored as "nerin". */
  /** When the cleaned name is the article, a space and the rest `w`, the key is `w` stripped with
      every occurrence of the article deleted from it, not just the leading one (lines 71-74). */
  lemma ArticleRemovedEverywhere(text: string, tag: Tagger, a: string, w: string)
    requires StartsWithArticle(tag(Cleaned(text))) && a == tag(Cleaned(text))[0].text
    requires a != [] && !IsSpace(a[0]) && Cleaned(text) == a + " " + w
    ensures NormalizeName(text, tag) == Strip(Remove(w, a))
  {
    RemoveLeadingWord(a, w);
    StripLeadingSpace(Remove(w, a));
  }

  /** An article that occurs again in the rest of the name, first at `i`, is cut out there too. */
  lemma ArticleCutFromLaterWord(text: string, tag: Tagger, a: string, w: string, i: nat)
    requires StartsWithArticle(tag(Cleaned(text))) && a == tag(Cleaned(text))[0].text
    requires a != [] && !IsSpace(a[0]) && Cleaned(text) == a + " " + w
    requires OccursAt(w, a, i) && forall j :: 0 <= j < i ==> !OccursAt(w, a, j)
    ensures NormalizeName(text, tag) == Strip(w[..i] + Remove(w[i + |a|..], a))
  {
    ArticleRemovedEverywhere(text, tag, a, w);
    RemoveLeftmost(w, a, i);
  }

  /** An article that does not occur again leaves the rest of the name as it is, stripped. */
  lemma ArticleOnlyInFront(text: string, tag: Tagger, a: string, w: string)
    requires StartsWithArticle(tag(Cleaned(text))) && a == tag(Cleaned(text))[0].text
    requires a != [] && !IsSpace(a[0]) && Cleaned(text) == a + " " + w
    requires !IsSubstring(a, w)
    ensures NormalizeName(text, tag) == Strip(w)
  {
    ArticleRemovedEverywhere(text, tag, a, w);
    RemoveAbsent(w, a);
  }

  lemma ArticleRemovedInsideWords()
    ensures NormalizeName("Die Dienerin", ArticleNoun) == "nerin"
  {
    CleanedExample();
    RemoveExample();
    StripExample();
  }

  lemma CleanedExample()
    ensures Cleaned("Die Dienerin") == "die dienerin"
  {
    var s := "Die Dienerin";
    assert Lower(s) == "die dienerin" by {
      assert forall i :: 0 <= i < |s| ==> Lower(s)[i] == "die dienerin"[i];
    }
    KeepAll("die dienerin", NonPunctuation);
  }

  lemma RemoveExample()
    ensures Remove("die dienerin", "die") == " nerin"
  {
    RemoveNoArticle();
    RemoveArticleInWord();
    RemoveLeadingArticle();
  }

  lemma RemoveLeadingArticle()
    ensures Remove("die dienerin", "die") == " " + Remove("dienerin", "die")
  {
    assert Remove("die dienerin", "die") == Remove(" dienerin", "die");
    assert Remove(" dienerin", "die") == " " + Remove("dienerin", "die");
  }

  lemma RemoveArticleInWord()
    ensures Remove("dienerin", "die") == Remove("nerin", "die")
  {
  }

  lemma RemoveNoArticle()
    ensures Remove("nerin", "die") == "nerin"
  {
    assert Remove("in", "die") == "in";
    assert Remove("rin", "die") == "r" + Remove("in", "die");
    assert Remove("erin", "die") == "e" + Remove("rin", "die");
    assert Remove("nerin", "die") == "n" + Remove("erin", "die");
  }

  lemma StripExample()
    ensures Strip(" nerin") == "nerin"
  {
  }
}
