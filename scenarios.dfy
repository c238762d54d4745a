/**
 Worked inputs for both scripts, each pinned down by the contracts of the
 model: what the output must be for a small old and new dictionary.
 */
module Scenarios {
  import opened Ordering
  import opened Normalize
  import opened Dictionaries
  import opened RootForms
  import opened Merge

  /** A word is plain when it holds no punctuation mark and no whitespace. */
  predicate Plain(s: string)
  {
    forall i :: 0 <= i < |s| ==> !IsMark(s[i]) && !IsSpace(s[i])
  }

  /** A word with no punctuation mark and no whitespace is its own normal form. */
  lemma CleanPlain(s: string)
    requires Plain(s)
    ensures Clean(s) == s
  {
    WithoutNone(s, Punctuation);
    StripUnchanged(s);
  }

  /** An entry whose root is a lone full stop is stored under the key "",
      mapped to its forms. */
  lemma EmptyRootStored()
    ensures var m := Stage1([Entry(Some("\U{1362}"), Some(["\U{1200}"]))]);
      [] in m && m[[]] == {"\U{1200}"}
  {
    var e := Entry(Some("\U{1362}"), Some(["\U{1200}"]));
    CleanEmptyIff("\U{1362}");
    CleanPlain("\U{1200}");
    LastWriteWins([e], 0);
    forall w
      ensures w in EntryWords(e) <==> w == "\U{1200}"
    {
      EntryWordsMembers(e, w);
    }
  }

  /** An entry with a non-empty plain root and one non-empty plain form
      contributes exactly those two words. */
  lemma PairWords(root: string, form: string)
    requires Plain(root) && Plain(form) && root != [] && form != []
    ensures EntryWords(Entry(Some(root), Some([form]))) == {root, form}
  {
    var e := Entry(Some(root), Some([form]));
    CleanPlain(root);
    CleanPlain(form);
    forall w
      ensures w in EntryWords(e) <==> w == root || w == form
    {
      EntryWordsMembers(e, w);
    }
  }

  /** An entry with a plain root and one plain form, the form below the
      root: stage 1 stores the form first and the root second. */
  lemma {:induction false} FormBeforeRoot(root: string, form: string, forms: seq<string>)
    requires Plain(root) && Plain(form)
    requires form != [] && Below(form, root)
    requires var m := Stage1([Entry(Some(root), Some([form]))]);
      root in m && SortedListOf(forms, m[root])
    ensures forms == [form, root]
  {
    var e := Entry(Some(root), Some([form]));
    assert root != [];
    PairWords(root, form);
    CleanPlain(root);
    LastWriteWins([e], 0);
    assert SortedListOf([form, root], {root, form});
    SortedListUnique(forms, [form, root], {root, form});
  }

  /** The root "ፍቅር" (love) with the form "ፍቅረኛ" (lover): stage 1 stores
      ["ፍቅረኛ", "ፍቅር"], because U+1228 (ረ) precedes U+122D (ር). */
  lemma RootFormsOrder(root: string, form: string, forms: seq<string>)
    requires root == "\U{134D}\U{1245}\U{122D}" && form == "\U{134D}\U{1245}\U{1228}\U{129B}"
    requires var m := Stage1([Entry(Some(root), Some([form]))]);
      root in m && SortedListOf(forms, m[root])
    ensures forms == [form, root]
  {
    FiqirFacts(root, form);
    FormBeforeRoot(root, form, forms);
  }

  /** A proper prefix comes first. */
  lemma {:induction false} BelowPrefix(a: string, b: string)
    requires |a| < |b| && a == b[..|a|]
    ensures Below(a, b)
    decreases |a|
  {
    if a != [] {
      assert a[0] == b[0];
      BelowPrefix(a[1..], b[1..]);
    }
  }

  /** A plain word followed by the Ethiopic wordspace normalises to the
      plain word. */
  lemma CleanDropsTrailingMark(s: string)
    requires Plain(s)
    ensures Clean(s + ['\U{1361}']) == s
  {
    WithoutAppend(s, ['\U{1361}'], Punctuation);
    WithoutNone(s, Punctuation);
    assert Without(['\U{1361}'], Punctuation) == [];
    StripUnchanged(s);
  }

  /** An old list of a plain word with a trailing wordspace and another
      plain word normalises to the two plain words. */
  lemma OldPairCleaned(a: string, b: string)
    requires Plain(a) && Plain(b) && a != [] && b != []
    ensures Cleaned(ExtractOldWords(FlatList([a + ['\U{1361}'], b]))) == {a, b}
  {
    var marked := a + ['\U{1361}'];
    assert ExtractOldWords(FlatList([marked, b])) == {marked} + {b};
    CleanDropsTrailingMark(a);
    CleanPlain(b);
    CleanedAddOne({}, marked);
    assert Cleaned({}) == {};
    assert {} + {marked} == {marked};
    CleanedAddOne({marked}, b);
  }

  /** One entry contributes its own words and nothing more. */
  lemma SingleEntryWords(e: Entry)
    ensures NewWords([e]) == EntryWords(e)
  {
    NewWordsSnoc([e], 0);
    assert [e][..1] == [e] && [e][..0] == [];
  }

  /** Old words "ሰላም፡" (peace, with a wordspace) and "ፍቅር", one new entry
      with root "ሰላም" and form "ሰላምታ" (greeting): the merged list is
      ["ሰላም", "ሰላምታ", "ፍቅር"]. Its requires are what `MergeDictionaries`
      ensures for these inputs. */
  lemma MergedListExample(salam: string, salamta: string, fiqir: string, mergedList: seq<string>)
    requires salam == "\U{1230}\U{120B}\U{121D}" && salamta == salam + "\U{1273}"
    requires fiqir == "\U{134D}\U{1245}\U{122D}"
    requires Ascending(mergedList)
    requires forall w :: w in mergedList <==>
      w in Cleaned(ExtractOldWords(FlatList([salam + ['\U{1361}'], fiqir])))
      || w in NewWords([Entry(Some(salam), Some([salamta]))])
    ensures mergedList == [salam, salamta, fiqir]
  {
    var e := Entry(Some(salam), Some([salamta]));
    SalamFacts(salam, salamta, fiqir);
    assert Plain(fiqir);
    OldPairCleaned(salam, fiqir);
    SingleEntryWords(e);
    PairWords(salam, salamta);
    assert SortedListOf([salam, salamta, fiqir], {salam, salamta, fiqir});
    SortedListUnique(mergedList, [salam, salamta, fiqir], {salam, salamta, fiqir});
  }

  /** A new dictionary with one plain root and one plain form below it, and
      an old list with one other plain word: the contract of
      `BuildRootFormsMap` fixes the whole map. */
  lemma {:induction false} OneEntryOneOldWord(root: string, form: string, oldWord: string, rootMap: map<string, seq<string>>)
    requires Plain(root) && Plain(form) && Plain(oldWord)
    requires form != [] && oldWord != [] && oldWord != root && Below(form, root)
    requires var entries := [Entry(Some(root), Some([form]))];
      && rootMap.Keys == Stage1(entries).Keys + Cleaned(Elems(SelectOldWords(FlatList([oldWord]))))
      && (forall k :: k in Stage1(entries) ==> SortedListOf(rootMap[k], Stage1(entries)[k]))
      && (forall k :: k in rootMap && k !in Stage1(entries) ==> rootMap[k] == [k])
    ensures rootMap == map[root := [form, root], oldWord := [oldWord]]
  {
    var e := Entry(Some(root), Some([form]));
    CleanPlain(root);
    CleanPlain(oldWord);
    forall k
      ensures k in Stage1([e]) <==> k == root
    {
      Stage1Keys([e], k);
    }
    assert Cleaned(Elems(SelectOldWords(FlatList([oldWord])))) == {oldWord} by {
      assert Elems([oldWord]) == {} + {oldWord};
      assert Cleaned({}) == {};
      CleanedAddOne({}, oldWord);
    }
    FormBeforeRoot(root, form, rootMap[root]);
  }

  /** "ፍቅር" and "ፍቅረኛ" are plain, and "ፍቅረኛ" sorts below "ፍቅር". */
  lemma FiqirFacts(fiqir: string, fiqregna: string)
    requires fiqir == "\U{134D}\U{1245}\U{122D}" && fiqregna == "\U{134D}\U{1245}\U{1228}\U{129B}"
    ensures Plain(fiqir) && Plain(fiqregna) && Below(fiqregna, fiqir)
  {
    assert fiqregna[0] == fiqir[0] && fiqregna[1] == fiqir[1];
    assert fiqregna[1..][1..] == fiqregna[2..] && fiqir[1..][1..] == fiqir[2..];
  }

  /** "ሰላም" and "ሰላምታ" are plain, "ሰላም" sorts below "ሰላምታ", and both
      sort below any word starting with "ፍ". */
  lemma SalamFacts(salam: string, salamta: string, fiqir: string)
    requires salam == "\U{1230}\U{120B}\U{121D}" && salamta == salam + "\U{1273}"
    requires fiqir != [] && fiqir[0] == '\U{134D}'
    ensures Plain(salam) && Plain(salamta)
    ensures Below(salam, salamta) && Below(salamta, fiqir) && Below(salam, fiqir)
  {
    BelowPrefix(salam, salamta);
  }

  /** The root "ፍቅር" with the form "ፍቅረኛ", and the old word "ሰላም": the
      map is {"ፍቅር": ["ፍቅረኛ", "ፍቅር"], "ሰላም": ["ሰላም"]}. The requires are
      what `BuildRootFormsMap` ensures for these inputs. */
  lemma RootFormsExample(fiqir: string, fiqregna: string, salam: string, rootMap: map<string, seq<string>>)
    requires fiqir == "\U{134D}\U{1245}\U{122D}" && fiqregna == "\U{134D}\U{1245}\U{1228}\U{129B}"
    requires salam == "\U{1230}\U{120B}\U{121D}"
    requires var entries := [Entry(Some(fiqir), Some([fiqregna]))];
      && rootMap.Keys == Stage1(entries).Keys + Cleaned(Elems(SelectOldWords(FlatList([salam]))))
      && (forall k :: k in Stage1(entries) ==> SortedListOf(rootMap[k], Stage1(entries)[k]))
      && (forall k :: k in rootMap && k !in Stage1(entries) ==> rootMap[k] == [k])
    ensures rootMap == map[fiqir := [fiqregna, fiqir], salam := [salam]]
  {
    FiqirFacts(fiqir, fiqregna);
    assert Plain(salam) && salam[0] != fiqir[0];
    OneEntryOneOldWord(fiqir, fiqregna, salam, rootMap);
  }
}
