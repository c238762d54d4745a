/**
 create_root_forms_map.py: map each normalised root of the new dictionary
 to the sorted list of its forms, then overlay the old dictionary's words
 as roots of their own.
 */
module RootForms {
  import opened Ordering
  import opened Normalize
  import opened Dictionaries
  import Merge

  /** The key an entry is stored under: its normalised root, possibly "". */
  function RootKey(e: Entry): string
  {
    Clean(e.RootOrEmpty())
  }

  /** Store `val(e)` under `key(e)` for each entry in turn, so that a later
      entry replaces an earlier one with the same key. The facts about it
      below hold for every `key` and `val`. */
  ghost function StoreAll(entries: seq<Entry>, key: Entry -> string, val: Entry -> set<string>): map<string, set<string>>
    decreases |entries|
  {
    if entries == [] then map[]
    else
      var last := entries[|entries| - 1];
      StoreAll(entries[..|entries| - 1], key, val)[key(last) := val(last)]
  }

  lemma StoreAllSnoc(entries: seq<Entry>, i: nat, key: Entry -> string, val: Entry -> set<string>)
    requires i < |entries|
    ensures StoreAll(entries[..i + 1], key, val) == StoreAll(entries[..i], key, val)[key(entries[i]) := val(entries[i])]
  {
    assert entries[..i + 1][..i] == entries[..i];
  }

  lemma {:induction false} StoreAllKeys(entries: seq<Entry>, key: Entry -> string, val: Entry -> set<string>, k: string)
    ensures k in StoreAll(entries, key, val) <==> exists i :: 0 <= i < |entries| && key(entries[i]) == k
    decreases |entries|
  {
    if entries != [] {
      var n := |entries| - 1;
      var init := entries[..n];
      StoreAllKeys(init, key, val, k);
      if k in StoreAll(init, key, val) {
        var i :| 0 <= i < n && key(init[i]) == k;
        assert entries[i] == init[i];
      }
      if exists i :: 0 <= i < |entries| && key(entries[i]) == k {
        var i :| 0 <= i < |entries| && key(entries[i]) == k;
        if i < n {
          assert init[i] == entries[i];
        }
      }
    }
  }

  lemma {:induction false} StoreAllLast(entries: seq<Entry>, key: Entry -> string, val: Entry -> set<string>, i: nat)
    requires i < |entries|
    requires forall j :: i < j < |entries| ==> key(entries[j]) != key(entries[i])
    ensures key(entries[i]) in StoreAll(entries, key, val)
    ensures StoreAll(entries, key, val)[key(entries[i])] == val(entries[i])
    decreases |entries|
  {
    var n := |entries| - 1;
    if i < n {
      var init := entries[..n];
      forall j | i < j < |init|
        ensures key(init[j]) != key(init[i])
      {
        assert init[j] == entries[j];
      }
      StoreAllLast(init, key, val, i);
    }
  }

  lemma {:induction false} StoreAllValues(entries: seq<Entry>, key: Entry -> string, val: Entry -> set<string>, k: string)
    requires k in StoreAll(entries, key, val)
    ensures exists i :: 0 <= i < |entries| && key(entries[i]) == k && StoreAll(entries, key, val)[k] == val(entries[i])
    decreases |entries|
  {
    var n := |entries| - 1;
    var last := entries[n];
    var init := entries[..n];
    if key(last) != k {
      StoreAllValues(init, key, val, k);
      var i :| 0 <= i < n && key(init[i]) == k && StoreAll(init, key, val)[k] == val(init[i]);
      assert init[i] == entries[i];
    }
  }

  /** Stage 1 read as a specification: each entry's key mapped to the set of
      words it contributes, a later entry replacing an earlier one. */
  ghost function Stage1(entries: seq<Entry>): map<string, set<string>>
  {
    StoreAll(entries, RootKey, EntryWords)
  }

  /** The keys after stage 1 are exactly the entries' normalised roots. */
  lemma Stage1Keys(entries: seq<Entry>, k: string)
    ensures k in Stage1(entries) <==> exists i :: 0 <= i < |entries| && RootKey(entries[i]) == k
  {
    StoreAllKeys(entries, RootKey, EntryWords, k);
  }

  /** Last write wins: the words stored under a key are those of the last
      entry with that key. */
  lemma LastWriteWins(entries: seq<Entry>, i: nat)
    requires i < |entries|
    requires forall j :: i < j < |entries| ==> RootKey(entries[j]) != RootKey(entries[i])
    ensures RootKey(entries[i]) in Stage1(entries)
    ensures Stage1(entries)[RootKey(entries[i])] == EntryWords(entries[i])
  {
    StoreAllLast(entries, RootKey, EntryWords, i);
  }

  /** The list stored under each key is sorted without duplicates, holds no
      empty string, and holds the key itself unless the key is "". */
  ghost predicate WellFormed(m: map<string, seq<string>>)
  {
    forall k :: k in m ==>
      && Ascending(m[k])
      && (forall j :: 0 <= j < |m[k]| ==> m[k][j] != [])
      && (k != [] ==> k in m[k])
  }

  /** An entry's words never include "", and include its key unless that
      is "". */
  lemma EntryWordsHoldKey(e: Entry)
    ensures [] !in EntryWords(e)
    ensures RootKey(e) != [] ==> RootKey(e) in EntryWords(e)
  {
    EntryWordsMembers(e, []);
    EntryWordsMembers(e, RootKey(e));
  }

  /** After stage 1 no stored set holds "", and every non-empty key is in
      its own set. */
  lemma Stage1SelfListed(entries: seq<Entry>, k: string)
    requires k in Stage1(entries)
    ensures [] !in Stage1(entries)[k]
    ensures k != [] ==> k in Stage1(entries)[k]
  {
    StoreAllValues(entries, RootKey, EntryWords, k);
    var i :| 0 <= i < |entries| && RootKey(entries[i]) == k && Stage1(entries)[k] == EntryWords(entries[i]);
    EntryWordsHoldKey(entries[i]);
  }

  /** The forms list an entry yields, once its empty strings are dropped
      and it is made a set, is the set of words the entry contributes. */
  lemma KeptFormsAreEntryWords(e: Entry, forms: seq<string>)
    requires forall w :: w in forms <==>
      w == Clean(e.RootOrEmpty()) || exists f :: f in e.FormsOrEmpty() && Clean(f) == w
    ensures (set f | f in forms && f != []) == EntryWords(e)
  {
    forall w
      ensures w in forms && w != [] <==> w in EntryWords(e)
    {
      EntryWordsMembers(e, w);
    }
  }

  /** Lines 40-48 of `main`, the body of the stage 1 loop: normalise the
      root and the forms, add the root to the forms when absent, drop empty
      strings, deduplicate and sort. */
  method EntryForms(entry: Entry) returns (root: string, sortedForms: seq<string>)
    requires entry.root.Some?
    ensures root == RootKey(entry)
    ensures SortedListOf(sortedForms, EntryWords(entry))
  {
    var rawForms := entry.FormsOrEmpty();
    root := CleanWord(entry.root.value);
    var forms := seq(|rawForms|, j requires 0 <= j < |rawForms| => Clean(rawForms[j]));
    if root !in forms {
      forms := forms + [root];
    }
    forall w | w in forms
      ensures w == root || exists f :: f in rawForms && Clean(f) == w
    {
      if w != root {
        var j :| 0 <= j < |rawForms| && forms[j] == w;
        assert rawForms[j] in rawForms;
      }
    }
    forall f | f in rawForms
      ensures Clean(f) in forms
    {
      var j :| 0 <= j < |rawForms| && rawForms[j] == f;
      assert forms[j] == Clean(f);
    }
    var kept := set f | f in forms && f != [];
    KeptFormsAreEntryWords(entry, forms);
    sortedForms := SortStrings(kept);
  }

  /** Lines 34-50 of `main`: store each entry's sorted forms under its
      normalised root, a later entry replacing an earlier one. */
  method BuildRootMap(entries: seq<Entry>) returns (rootMap: map<string, seq<string>>)
    requires forall i :: 0 <= i < |entries| ==> entries[i].root.Some?
    ensures rootMap.Keys == Stage1(entries).Keys
    ensures forall k :: k in rootMap ==> SortedListOf(rootMap[k], Stage1(entries)[k])
    ensures WellFormed(rootMap)
  {
    rootMap := map[];
    for i := 0 to |entries|
      invariant rootMap.Keys == Stage1(entries[..i]).Keys
      invariant forall k :: k in rootMap ==> SortedListOf(rootMap[k], Stage1(entries[..i])[k])
    {
      var root, sortedForms := EntryForms(entries[i]);
      rootMap := rootMap[root := sortedForms];
      StoreAllSnoc(entries, i, RootKey, EntryWords);
    }
    assert entries[..|entries|] == entries;
    forall k | k in rootMap
      ensures (forall j :: 0 <= j < |rootMap[k]| ==> rootMap[k][j] != []) && (k != [] ==> k in rootMap[k])
    {
      Stage1SelfListed(entries, k);
    }
  }

  /** Lines 58-61 of `main`: the old word list, chosen by shape. */
  function SelectOldWords(d: OldDict): seq<string>
  {
    match d
    case WordsWrapper(ws) => ws
    case FlatList(ws) => ws
    case OtherShape => []
  }

  /** Both scripts read the same words out of the old dictionary. */
  lemma SelectOldWordsAgrees(d: OldDict)
    ensures Elems(SelectOldWords(d)) == Merge.ExtractOldWords(d)
  {
  }

  /** `m` is `rootMap` after the overlay of the normal forms `seen`. */
  ghost predicate OverlaidBy(rootMap: map<string, seq<string>>, seen: set<string>, m: map<string, seq<string>>)
  {
    && m.Keys == rootMap.Keys + seen
    && (forall k :: k in rootMap ==>
         m[k] == if k in seen && k !in rootMap[k] then rootMap[k] + [k] else rootMap[k])
    && (forall k :: k in m && k !in rootMap ==> m[k] == [k])
  }

  /** One step of the overlay loop, for a non-empty normal form `w`. */
  lemma OverlayStep(rootMap: map<string, seq<string>>, seen: set<string>, m: map<string, seq<string>>, w: string)
    requires OverlaidBy(rootMap, seen, m)
    ensures w !in m ==> OverlaidBy(rootMap, seen + {w}, m[w := [w]])
    ensures w in m && w !in m[w] ==> OverlaidBy(rootMap, seen + {w}, m[w := m[w] + [w]])
    ensures w in m && w in m[w] ==> OverlaidBy(rootMap, seen + {w}, m)
  {
    if w in m && w in m[w] && w in rootMap && w !in seen {
      assert m[w] == rootMap[w];
    }
  }

  /** Lines 63-75 of `main`: each old word that normalises to a non-empty
      `w` becomes the key `w` mapped to `[w]` when `w` is not yet a key,
      and otherwise has `w` appended to the list under `w` when absent. */
  method OverlayOldWords(rootMap: map<string, seq<string>>, oldWords: seq<string>) returns (m: map<string, seq<string>>)
    ensures m.Keys == rootMap.Keys + Cleaned(Elems(oldWords))
    ensures forall k :: k in rootMap ==>
      m[k] == if k in Cleaned(Elems(oldWords)) && k !in rootMap[k] then rootMap[k] + [k] else rootMap[k]
    ensures forall k :: k in m && k !in rootMap ==> m[k] == [k]
  {
    m := rootMap;
    ghost var seen: set<string> := {};
    for i := 0 to |oldWords|
      invariant seen == Cleaned(Elems(oldWords[..i]))
      invariant OverlaidBy(rootMap, seen, m)
    {
      var cleaned := CleanWord(oldWords[i]);
      ElemsPrefix(oldWords, i);
      CleanedAddOne(Elems(oldWords[..i]), oldWords[i]);
      if cleaned == [] {
        continue;
      }
      OverlayStep(rootMap, seen, m, cleaned);
      if cleaned !in m {
        m := m[cleaned := [cleaned]];
      } else if cleaned !in m[cleaned] {
        m := m[cleaned := m[cleaned] + [cleaned]];
      }
      seen := seen + {cleaned};
    }
    assert oldWords[..|oldWords|] == oldWords;
  }

  /** On a well-formed map the overlay leaves every existing list as it
      is (the append never fires), adds only singleton lists, and so keeps
      the map well-formed. */
  lemma OverlayKeepsWellFormed(rootMap: map<string, seq<string>>, oldWords: seq<string>, m: map<string, seq<string>>)
    requires WellFormed(rootMap)
    requires m.Keys == rootMap.Keys + Cleaned(Elems(oldWords))
    requires forall k :: k in rootMap ==>
      m[k] == if k in Cleaned(Elems(oldWords)) && k !in rootMap[k] then rootMap[k] + [k] else rootMap[k]
    requires forall k :: k in m && k !in rootMap ==> m[k] == [k]
    ensures forall k :: k in rootMap ==> m[k] == rootMap[k]
    ensures WellFormed(m)
  {
    forall k | k in rootMap
      ensures m[k] == rootMap[k]
    {
      if k in Cleaned(Elems(oldWords)) {
        CleanedMember(Elems(oldWords), k);
      }
    }
    forall k | k in m && k !in rootMap
      ensures k != []
    {
      CleanedMember(Elems(oldWords), k);
    }
  }

  /** Lines 34-75 of `main` once both files have loaded. */
  method BuildRootFormsMap(newDict: NewDict, oldDict: OldDict) returns (rootMap: map<string, seq<string>>)
    requires newDict.words.Some?
    requires forall i :: 0 <= i < |newDict.words.value| ==> newDict.words.value[i].root.Some?
    ensures rootMap.Keys == Stage1(newDict.words.value).Keys + Cleaned(Elems(SelectOldWords(oldDict)))
    ensures WellFormed(rootMap)
    ensures forall k :: k in Stage1(newDict.words.value) ==> SortedListOf(rootMap[k], Stage1(newDict.words.value)[k])
    ensures forall k :: k in rootMap && k !in Stage1(newDict.words.value) ==> rootMap[k] == [k]
  {
    var entries := newDict.words.value;
    var stage1 := BuildRootMap(entries);
    var oldWords := SelectOldWords(oldDict);
    rootMap := OverlayOldWords(stage1, oldWords);
    OverlayKeepsWellFormed(stage1, oldWords, rootMap);
  }
}
