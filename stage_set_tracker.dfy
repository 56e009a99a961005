/** removePersons and addPersons (lines 109-170), which update the string of characters on
    stage, exactly as they are written, next to the set difference and union they describe. */
module StageSetTracker {
  import opened Text
  import opened OrderedSet

  /** Iterating over a string: its characters, each as a string of length one. */
  function Chars(s: string): (r: seq<string>)
    ensures |r| == |s| && forall i :: 0 <= i < |s| ==> r[i] == [s[i]]
  {
    seq(|s|, i requires 0 <= i < |s| => [s[i]])
  }

  /** `[x for x in xs if x not in listed]`, membership in a list. */
  function Unlisted(xs: seq<string>, listed: seq<string>): (r: seq<string>)
    ensures forall x :: x in r <==> x in xs && x !in listed
    ensures NoDup(xs) ==> NoDup(r)
  {
    if xs == [] then []
    else
      var init, x := xs[..|xs| - 1], xs[|xs| - 1];
      assert forall y :: y in xs <==> y in init || y == x by {
        assert xs == init + [x];
      }
      Unlisted(init, listed) + (if x in listed then [] else [x])
  }

  /** `[x for x in xs if x not in text]`, the substring test on a string. */
  function Absent(xs: seq<string>, text: string): (r: seq<string>)
    ensures forall x :: x in r <==> x in xs && !IsSubstring(x, text)
  {
    if xs == [] then []
    else
      var init, x := xs[..|xs| - 1], xs[|xs| - 1];
      assert forall y :: y in xs <==> y in init || y == x by {
        assert xs == init + [x];
      }
      Absent(init, text) + (if IsSubstring(x, text) then [] else [x])
  }

  /** The loop of lines 157-158: every character of `s` is added to the set. */
  method AddEach(personSet: seq<string>, s: string) returns (r: seq<string>)
    ensures r == InsertAll(personSet, Chars(s))
  {
    r := personSet;
    for i := 0 to |s|
      invariant r == InsertAll(personSet, Chars(s[..i]))
    {
      var person := [s[i]];
      assert Chars(s[..i + 1]) == Chars(s[..i]) + [person];
      InsertAllSnoc(personSet, Chars(s[..i]), person);
      r := Insert(r, person);
    }
    assert s[..|s|] == s;
  }

  /** The loop of lines 127-129: each character of `s` that is not an element of `listed` is added. */
  method AddUnlisted(personSet: seq<string>, s: string, listed: seq<string>) returns (r: seq<string>)
    ensures r == InsertAll(personSet, Unlisted(Chars(s), listed))
  {
    r := personSet;
    for i := 0 to |s|
      invariant r == InsertAll(personSet, Unlisted(Chars(s[..i]), listed))
    {
      var person := [s[i]];
      UnlistedStep(personSet, s, i, listed);
      if person !in listed {
        r := Insert(r, person);
      }
    }
    assert s[..|s|] == s;
  }

  /** The loop of lines 160-162: each character of `s` that does not occur in `text` is added. */
  method AddAbsent(personSet: seq<string>, s: string, text: string) returns (r: seq<string>)
    ensures r == InsertAll(personSet, Absent(Chars(s), text))
  {
    r := personSet;
    for i := 0 to |s|
      invariant r == InsertAll(personSet, Absent(Chars(s[..i]), text))
    {
      var person := [s[i]];
      AbsentStep(personSet, s, i, text);
      if !IsSubstring(person, text) {
        r := Insert(r, person);
      }
    }
    assert s[..|s|] == s;
  }

  /** One more character of `s` in the loop of AddUnlisted. */
  lemma UnlistedStep(personSet: seq<string>, s: string, i: nat, listed: seq<string>)
    requires i < |s|
    ensures InsertAll(personSet, Unlisted(Chars(s[..i + 1]), listed)) ==
      if [s[i]] in listed then InsertAll(personSet, Unlisted(Chars(s[..i]), listed))
      else Insert(InsertAll(personSet, Unlisted(Chars(s[..i]), listed)), [s[i]])
  {
    var before := Chars(s[..i]);
    assert Chars(s[..i + 1]) == before + [[s[i]]];
    assert (before + [[s[i]]])[..i] == before;
    if [s[i]] in listed {
      assert Unlisted(Chars(s[..i + 1]), listed) == Unlisted(before, listed);
    } else {
      assert Unlisted(Chars(s[..i + 1]), listed) == Unlisted(before, listed) + [[s[i]]];
      InsertAllSnoc(personSet, Unlisted(before, listed), [s[i]]);
    }
  }

  /** One more character of `s` in the loop of AddAbsent. */
  lemma AbsentStep(personSet: seq<string>, s: string, i: nat, text: string)
    requires i < |s|
    ensures InsertAll(personSet, Absent(Chars(s[..i + 1]), text)) ==
      if IsSubstring([s[i]], text) then InsertAll(personSet, Absent(Chars(s[..i]), text))
      else Insert(InsertAll(personSet, Absent(Chars(s[..i]), text)), [s[i]])
  {
    var before := Chars(s[..i]);
    assert Chars(s[..i + 1]) == before + [[s[i]]];
    assert (before + [[s[i]]])[..i] == before;
    if IsSubstring([s[i]], text) {
      assert Absent(Chars(s[..i + 1]), text) == Absent(before, text);
    } else {
      assert Absent(Chars(s[..i + 1]), text) == Absent(before, text) + [[s[i]]];
      InsertAllSnoc(personSet, Absent(before, text), [s[i]]);
    }
  }

  /** Prefixing with "" changes nothing. */
  lemma PrefixedEmpty(items: seq<string>)
    ensures Prefixed(items, "") == items
  {
    assert forall i :: 0 <= i < |items| ==> "" + items[i] == items[i];
  }

  /** removePersons (lines 109-137) as written: the list of present persons is replaced by ""
      before the loop that should filter it, so the loop runs over no character and the
      result is always "". */
  method RemovePersons(presentPersons: string, gonePersons: string) returns (persons: string)
    ensures persons == ""
  {
    var gone := Words(gonePersons);
    var personSet: seq<string> := [];
    persons := "";
    personSet := AddUnlisted(personSet, persons, gone);
    assert Chars(persons) == [];
    persons := JoinLoop(personSet, "");
  }

  /** What addPersons returns: the distinct characters of the arriving string, in first
      occurrence order, joined by single spaces. */
  function AddedAsWritten(arrived: string): string {
    JoinSpace(Dedup(Chars(arrived)))
  }

  /** addPersons (lines 140-170) as written: the present persons are replaced by "" and the
      loop runs over the characters of the arriving string, none of which occurs in "". */
  method AddPersons(presentPersons: string, arrivedPersons: string) returns (persons: string)
    ensures persons == AddedAsWritten(arrivedPersons)
  {
    var personSet: seq<string> := [];
    persons := "";
    personSet := AddEach(personSet, persons);
    assert Chars(persons) == [];
    personSet := AddAbsent(personSet, arrivedPersons, persons);
    AbsentFromEmpty(Chars(arrivedPersons));
    persons := JoinLoop(personSet, "");
    PrefixedEmpty(personSet);
  }

  /** No non-empty string occurs in "". */
  lemma {:induction false} AbsentFromEmpty(xs: seq<string>)
    requires forall i :: 0 <= i < |xs| ==> xs[i] != []
    ensures Absent(xs, "") == xs
  {
    if xs != [] {
      AbsentFromEmpty(xs[..|xs| - 1]);
      assert !IsSubstring(xs[|xs| - 1], "");
      assert xs == xs[..|xs| - 1] + [xs[|xs| - 1]];
    }
  }

  /** Joining one-character strings with " " puts them at the even positions and spaces at the
      odd ones. */
  lemma {:induction false} JoinSingles(xs: seq<string>)
    requires forall i :: 0 <= i < |xs| ==> |xs[i]| == 1
    ensures |JoinSpace(xs)| == if xs == [] then 0 else 2 * |xs| - 1
    ensures forall i :: 0 <= i < |xs| ==> JoinSpace(xs)[2 * i] == xs[i][0]
    ensures forall i :: 0 <= i < |xs| - 1 ==> JoinSpace(xs)[2 * i + 1] == ' '
  {
    if |xs| > 1 {
      var init := xs[..|xs| - 1];
      JoinSingles(init);
      assert forall i :: 0 <= i < |init| ==> init[i] == xs[i];
    }
  }

  /** addPersons ignores who is present and returns each distinct character of the arriving
      string once, in first occurrence order, separated by single spaces; '#' and ' ' included. */
  lemma AddedAsWrittenIsDistinctChars(arrived: string)
    ensures var d := Dedup(Chars(arrived));
      NoDup(d)
      && (forall i :: 0 <= i < |d| ==> |d[i]| == 1 && d[i][0] in arrived)
      && (forall i :: 0 <= i < |arrived| ==> [arrived[i]] in d)
      && |AddedAsWritten(arrived)| == (if d == [] then 0 else 2 * |d| - 1)
      && (forall i :: 0 <= i < |d| ==> AddedAsWritten(arrived)[2 * i] == d[i][0])
      && (forall i :: 0 <= i < |d| - 1 ==> AddedAsWritten(arrived)[2 * i + 1] == ' ')
  {
    var d := Dedup(Chars(arrived));
    forall i | 0 <= i < |d|
      ensures |d[i]| == 1 && d[i][0] in arrived
    {
      assert d[i] in Chars(arrived);
    }
    assert forall i :: 0 <= i < |arrived| ==> Chars(arrived)[i] in Chars(arrived);
    JoinSingles(d);
  }

  /** The set union addPersons describes: present persons, then arriving ones, each once. */
  function Union(current: string, arriving: string): string {
    JoinSpace(Dedup(Words(current) + Words(arriving)))
  }

  /** The set difference removePersons describes: present persons that are not leaving. */
  function Difference(current: string, leaving: string): string {
    JoinSpace(Unlisted(Dedup(Words(current)), Words(leaving)))
  }

  /** Splitting a space-joined list of words gives the words back. */
  lemma WordsOfWordList(ws: seq<string>, s: string)
    requires forall w :: w in ws ==> w in Words(s)
    ensures Words(JoinSpace(ws)) == ws
  {
    forall i | 0 <= i < |ws|
      ensures ws[i] != [] && AllIn(ws[i], NonSpace)
    {
      assert ws[i] in ws;
      var j :| 0 <= j < |Words(s)| && Words(s)[j] == ws[i];
    }
    WordsOfJoinSpace(ws);
  }

  /** A person is present after the union exactly when present before or arriving. */
  lemma UnionMembers(current: string, arriving: string, w: string)
    ensures w in Words(Union(current, arriving)) <==> w in Words(current) || w in Words(arriving)
    ensures NoDup(Words(Union(current, arriving)))
  {
    var ws := Dedup(Words(current) + Words(arriving));
    forall x | x in ws
      ensures x in Words(current + " " + arriving)
    {
      SegmentsSplit(current, ' ', arriving, NonSpace);
      assert current + " " + arriving == current + [' '] + arriving;
    }
    WordsOfWordList(ws, current + " " + arriving);
  }

  /** A person is present after the difference exactly when present before and not leaving. */
  lemma DifferenceMembers(current: string, leaving: string, w: string)
    ensures w in Words(Difference(current, leaving)) <==> w in Words(current) && w !in Words(leaving)
    ensures NoDup(Words(Difference(current, leaving)))
  {
    WordsOfWordList(Unlisted(Dedup(Words(current)), Words(leaving)), current);
  }

  /** Whoever arrives is present afterwards, even if they had just left:
      add(remove(S, M), M) contains M. */
  lemma ArrivingArePresent(s: string, m: string)
    ensures forall w :: w in Words(m) ==> w in Words(Union(Difference(s, m), m))
  {
    forall w | w in Words(m)
      ensures w in Words(Union(Difference(s, m), m))
    {
      UnionMembers(Difference(s, m), m, w);
    }
  }

  /** Whoever leaves is absent afterwards, even if they had just arrived:
      remove(add(S, M), M) and M have nothing in common. */
  lemma LeavingAreAbsent(s: string, m: string)
    ensures forall w :: w in Words(m) ==> w !in Words(Difference(Union(s, m), m))
  {
    forall w | w in Words(m)
      ensures w !in Words(Difference(Union(s, m), m))
    {
      DifferenceMembers(Union(s, m), m, w);
    }
  }

  /** As written, addPersons breaks the id "#k" into "#" and "k": the arriving "#k" is not on
      stage afterwards, whereas the union puts it there. */
  lemma AddAsWrittenSplitsIds()
    ensures AddedAsWritten("#k") == "# k"
    ensures "#k" !in Words(AddedAsWritten("#k"))
    ensures Words(Union("", "#k")) == ["#k"]
  {
    AddedHashK();
    SplitHashK();
    UnionHashK();
  }

  lemma SplitHashK()
    ensures Words(AddedAsWritten("#k")) == ["#", "k"]
  {
    AddedHashK();
    WordsOfJoinSpace(["#", "k"]);
  }

  lemma AddedHashK()
    ensures Dedup(Chars("#k")) == ["#", "k"]
    ensures AddedAsWritten("#k") == JoinSpace(["#", "k"]) == "# k"
  {
    assert Chars("#k") == ["#", "k"];
    DedupOfDistinct(["#", "k"]);
  }

  lemma UnionHashK()
    ensures Words(Union("", "#k")) == ["#k"]
  {
    SegmentsOfRun("#k", NonSpace);
    assert Words("") + Words("#k") == ["#k"];
    DedupOfDistinct(["#k"]);
    WordsOfJoinSpace(["#k"]);
  }

  /** As written, removePersons returns "" even when someone stays; the difference keeps them. */
  lemma RemoveAsWrittenDropsStayers()
    ensures Words(Difference("#a #b", "#b")) == ["#a"]
  {
    assert AllIn("#a", NonSpace) && AllIn("#b", NonSpace);
    DifferenceOfPair("#a", "#b");
    assert "#a" + " " + "#b" == "#a #b";
  }

  /** Of two different persons on stage, the one not leaving stays. */
  lemma DifferenceOfPair(a: string, b: string)
    requires a != b && a != [] && b != [] && AllIn(a, NonSpace) && AllIn(b, NonSpace)
    ensures Words(Difference(a + " " + b, b)) == [a]
  {
    assert Words(a + " " + b) == [a, b] by {
      SegmentsSplit(a, ' ', b, NonSpace);
      assert a + " " + b == a + [' '] + b;
      SegmentsOfRun(a, NonSpace);
      SegmentsOfRun(b, NonSpace);
    }
    SegmentsOfRun(b, NonSpace);
    DedupOfDistinct([a, b]);
    assert Unlisted([a, b], [b]) == [a] by {
      assert [a, b][..1] == [a] && [a][..0] == [];
      assert a !in [b] && b in [b];
      assert Unlisted([a], [b]) == [a];
      assert Unlisted([a, b], [b]) == Unlisted([a], [b]) + [];
    }
    SegmentsOfRun(a, NonSpace);
  }
}
