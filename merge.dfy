/**
 merge.py: gather the words of the old and the new dictionary, normalise
 them, drop the empty ones and write the union as one sorted list.
 */
module Merge {
  import opened Ordering
  import opened Normalize
  import opened Dictionaries

  /** `extract_old_words`: the distinct words of a bare list or of an
      object's "words" list; any other shape contributes nothing. */
  function ExtractOldWords(d: OldDict): (r: set<string>)
    ensures d.OtherShape? ==> r == {}
    ensures !d.OtherShape? ==> forall w :: w in r <==> w in d.words
  {
    if d.OtherShape? then {} else Elems(d.words)
  }

  /** The union of `g` over the entries, entry after entry. */
  ghost function UnionOver(entries: seq<Entry>, g: Entry -> set<string>): set<string>
    decreases |entries|
  {
    if entries == [] then {}
    else UnionOver(entries[..|entries| - 1], g) + g(entries[|entries| - 1])
  }

  lemma {:induction false} UnionOverMembers(entries: seq<Entry>, g: Entry -> set<string>, w: string)
    ensures w in UnionOver(entries, g) <==> exists i :: 0 <= i < |entries| && w in g(entries[i])
    decreases |entries|
  {
    if entries != [] {
      var n := |entries| - 1;
      var init := entries[..n];
      UnionOverMembers(init, g, w);
      if w in UnionOver(init, g) {
        var i :| 0 <= i < n && w in g(init[i]);
        assert entries[i] == init[i];
      }
      if exists i :: 0 <= i < |entries| && w in g(entries[i]) {
        var i :| 0 <= i < |entries| && w in g(entries[i]);
        if i < n {
          assert init[i] == entries[i];
        }
      }
    }
  }

  /** The words a list of entries contributes. */
  ghost function NewWords(entries: seq<Entry>): set<string>
  {
    UnionOver(entries, EntryWords)
  }

  lemma NewWordsSnoc(entries: seq<Entry>, i: nat)
    requires i < |entries|
    ensures NewWords(entries[..i + 1]) == NewWords(entries[..i]) + EntryWords(entries[i])
  {
    assert entries[..i + 1][..i] == entries[..i];
  }

  /** A word is among the new words exactly when some entry contributes it. */
  lemma NewWordsMembers(entries: seq<Entry>, w: string)
    ensures w in NewWords(entries) <==> exists i :: 0 <= i < |entries| && w in EntryWords(entries[i])
  {
    UnionOverMembers(entries, EntryWords, w);
  }

  /** `extract_new_words`: nothing when "words" is missing, otherwise every
      normalised non-empty root and form of every entry. */
  method ExtractNewWords(d: NewDict) returns (words: set<string>)
    ensures d.words.None? ==> words == {}
    ensures d.words.Some? ==> words == NewWords(d.words.value)
  {
    words := {};
    if d.words.None? {
      return;
    }
    var entries := d.words.value;
    for i := 0 to |entries|
      invariant words == NewWords(entries[..i])
    {
      var entry := entries[i];
      var forms := entry.FormsOrEmpty();
      var root := CleanWord(entry.RootOrEmpty());
      if root != [] {
        words := words + {root};
      }
      CleanedAddOne({}, entry.RootOrEmpty());
      assert Cleaned({}) == {};
      assert {} + {entry.RootOrEmpty()} == {entry.RootOrEmpty()} + Elems(forms[..0]);
      for j := 0 to |forms|
        invariant words == NewWords(entries[..i]) + Cleaned({entry.RootOrEmpty()} + Elems(forms[..j]))
      {
        var cleaned := CleanWord(forms[j]);
        if cleaned != [] {
          words := words + {cleaned};
        }
        ElemsPrefix(forms, j);
        assert {entry.RootOrEmpty()} + Elems(forms[..j + 1])
            == ({entry.RootOrEmpty()} + Elems(forms[..j])) + {forms[j]};
        CleanedAddOne({entry.RootOrEmpty()} + Elems(forms[..j]), forms[j]);
      }
      assert forms[..|forms|] == forms;
      NewWordsSnoc(entries, i);
    }
    assert entries[..|entries|] == entries;
  }

  /** One of the two loops of the merge block: add the normal form of each
      word of `words` to `merged`, skipping those that normalise to "". */
  method AddCleaned(merged: set<string>, words: set<string>) returns (result: set<string>)
    ensures result == merged + Cleaned(words)
  {
    result := merged;
    var done: set<string> := {};
    var rest := words;
    while rest != {}
      invariant rest + done == words
      invariant result == merged + Cleaned(done)
      decreases |rest|
    {
      var w :| w in rest;
      var cleaned := CleanWord(w);
      if cleaned != [] {
        result := result + {cleaned};
      }
      CleanedAddOne(done, w);
      done := done + {w};
      rest := rest - {w};
    }
  }

  /** The merge block of `main`: normalise every old and new word, keep the
      non-empty ones, and list their union in ascending order. */
  method MergeWords(oldWords: set<string>, newWords: set<string>) returns (mergedList: seq<string>)
    ensures Ascending(mergedList)
    ensures forall i :: 0 <= i < |mergedList| ==> mergedList[i] != []
    ensures forall w :: w in mergedList <==> w in Cleaned(oldWords + newWords)
  {
    var merged := AddCleaned({}, oldWords);
    merged := AddCleaned(merged, newWords);
    CleanedUnion(oldWords, newWords);
    mergedList := SortStrings(merged);
    forall i | 0 <= i < |mergedList|
      ensures mergedList[i] != []
    {
      assert mergedList[i] in merged;
      CleanedMember(oldWords + newWords, mergedList[i]);
    }
  }

  /** Lines 83-108 of `main` once both files have loaded: the output list
      holds exactly the normal forms of the old words and the words the new
      entries contribute, ascending, none empty. */
  method MergeDictionaries(oldDict: OldDict, newDict: NewDict) returns (mergedList: seq<string>)
    ensures Ascending(mergedList)
    ensures forall i :: 0 <= i < |mergedList| ==> mergedList[i] != []
    ensures forall w :: w in mergedList <==>
      w in Cleaned(ExtractOldWords(oldDict))
      || (newDict.words.Some? && w in NewWords(newDict.words.value))
  {
    var oldWords := ExtractOldWords(oldDict);
    var newWords := ExtractNewWords(newDict);
    NewWordsAreClean(if newDict.words.Some? then newDict.words.value else []);
    CleanedOfClean(newWords);
    CleanedUnion(oldWords, newWords);
    mergedList := MergeWords(oldWords, newWords);
  }

  /** The new words are already normal forms, so normalising them again in
      the merge block changes nothing. */
  lemma {:induction false} NewWordsAreClean(entries: seq<Entry>)
    ensures forall w :: w in NewWords(entries) ==> w != [] && Clean(w) == w
    decreases |entries|
  {
    if entries != [] {
      NewWordsAreClean(entries[..|entries| - 1]);
      var last := entries[|entries| - 1];
      CleanedElements({last.RootOrEmpty()} + Elems(last.FormsOrEmpty()));
    }
  }
}
