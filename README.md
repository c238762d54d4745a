# Amharic keyboard word lists, modelled in Dafny

The repository holds two one-shot scripts that build the word lists of an
Amharic mobile keyboard.

- `merge.py` reads an old word list and a new root/forms dictionary. It
  normalises every word, keeps the non-empty ones, and writes their union as
  one sorted list.
- `create_root_forms_map.py` reads the same two files. It maps each
  normalised root of the new dictionary to the sorted list of its forms.
  Then it overlays the old words, so that an old word not yet a key becomes
  its own root.

Both scripts share the normaliser `clean_word`. It deletes the six Ethiopic
punctuation marks U+1361 to U+1366 (wordspace, full stop, comma, semicolon,
colon, preface colon), then strips whitespace from both ends as Python's
`str.strip()` does. The function is identical in the two files
(`merge.py:17-21`, `create_root_forms_map.py:10-14`), so it is modelled once,
as `Normalize.Clean` and the method `Normalize.CleanWord`.

The project has six modules, one file each:

- `Ordering` (`ordering.dfy`): code-point lexicographic order (`Below`) and
  Python's `sorted` on a set of strings (`SortStrings`), with the proof that
  the sorted listing of a set is unique.
- `Normalize` (`normalize.dfy`): the normaliser and its properties, and
  `Cleaned(ws)`, the set of non-empty normal forms of a set of words.
- `Dictionaries` (`dictionaries.dfy`): the two parsed input files as
  datatypes, and `EntryWords(e)`, the words one new-dictionary entry
  contributes.
- `Merge` (`merge.dfy`): `merge.py`.
- `RootForms` (`root_forms.dfy`): `create_root_forms_map.py`.
- `Scenarios` (`scenarios.dfy`): small worked inputs whose outputs follow
  from the contracts above.

The parsed JSON is modelled as follows.

- The old dictionary is `FlatList(words)` (a JSON array), `WordsWrapper(words)`
  (an object with a `"words"` key) or `OtherShape`.
- A new-dictionary entry has an optional root and optional forms; `None` is
  a key missing from the object.
- The dictionaries the scripts build are Dafny `map` and `set` values held in
  method locals. Every list stored in `root_map` is built fresh for its key,
  so no two keys share a list, and an in-place `append` is a map update.
- Iteration over a Python `set` visits the elements in an order the model
  does not fix: the loops pick an arbitrary remaining element with `:|`.

Two consequences of the code are worth stating on their own.

- An entry whose root normalises to "" is stored under the key "", mapped
  to its non-empty normalised forms, so a key of the root/forms map can be
  empty (`RootForms.Stage1Keys`, `Scenarios.EmptyRootStored`).
- `sorted` orders by code point. Because U+1228 (ረ) precedes U+122D (ር),
  the root "ፍቅር" with the form "ፍቅረኛ" is stored as `["ፍቅረኛ", "ፍቅር"]`
  (`Scenarios.RootFormsOrder`), and with the old word "ሰላም" the whole map
  is `{"ፍቅር": ["ፍቅረኛ", "ፍቅር"], "ሰላም": ["ሰላም"]}`
  (`Scenarios.RootFormsExample`).

## Model

| member | source | states |
|---|---|---|
| Ordering.BelowIrreflexive | merge.py:108 | The order `sorted` uses never puts a string below itself. |
| Ordering.BelowAsymmetric | merge.py:108 | No two strings are each below the other. |
| Ordering.BelowTransitive | merge.py:108 | The order is transitive. |
| Ordering.BelowTotal | merge.py:108 | Any two different strings are ordered one way or the other. |
| Ordering.LeastExists | merge.py:108 | Every non-empty finite set of strings has a least element. |
| Ordering.SortStrings | merge.py:108 | `sorted` on a set: every member exactly once, strictly ascending, and as many elements as the set has. |
| Ordering.SortedListUnique | create_root_forms_map.py:48 | Two strictly ascending listings of one set are equal, so the sorted output depends only on the set. |
| Normalize.WithoutMembers | merge.py:18-19 | After the `replace` pass, the word holds exactly its characters that are not among the deleted marks. |
| Normalize.WithoutOneMore | merge.py:18-19 | Deleting one more mark from a word already cleared of some marks equals deleting all of those marks at once. |
| Normalize.StripSpec | merge.py:21 | `strip()` returns a contiguous slice of its input: everything cut off either end is whitespace, and neither end of the result is whitespace. |
| Normalize.StripEmptyIff | merge.py:21 | `strip()` gives "" exactly when every character is whitespace. |
| Normalize.StripUnchanged | merge.py:21 | A string whose ends are not whitespace is left as it is. |
| Normalize.CleanWord | merge.py:17-21 | The loop over the six marks followed by `strip()` computes the normal form `Clean(word)`. |
| Normalize.CleanSpec | merge.py:17-21 | A normalised word holds no punctuation mark, only characters of the original word, and no whitespace at either end. |
| Normalize.CleanIdempotent | merge.py:17-21 | Normalising twice gives the same word as normalising once. |
| Normalize.CleanEmptyIff | merge.py:17-21 | A word normalises to "" exactly when every character is a mark or whitespace. |
| Normalize.NonEmptyImageMember | merge.py:96-106 | A word is among the non-empty images of a set under a map exactly when it is non-empty and the image of some member. |
| Normalize.CleanedMember | merge.py:96-106 | A word is among the kept normal forms of a set exactly when it is non-empty and the normal form of some member. |
| Normalize.CleanedAddOne | merge.py:97-100 | Processing one more word adds its normal form when that is non-empty, and nothing otherwise. |
| Normalize.CleanedUnion | merge.py:96-106 | Normalising a union equals the union of the two normalised sets. |
| Normalize.CleanedElements | merge.py:96-106 | Every kept normal form is non-empty and is its own normal form. |
| Normalize.CleanedOfClean | merge.py:102-106 | Normalising a set of non-empty normal forms returns the set unchanged. |
| Dictionaries.EntryWordsMembers | merge.py:58-67 | A word comes from an entry exactly when it is non-empty and is the normal form of the entry's root (default "") or of one of its forms (default none). |
| Merge.ExtractOldWords | merge.py:38-47 | A bare list or a `{"words": …}` object yields exactly the set of its words; any other shape yields the empty set. |
| Merge.UnionOverMembers | merge.py:58-67 | A word is in the union over the entries exactly when some entry contributes it. |
| Merge.NewWordsMembers | merge.py:58-67 | A word is among the new words exactly when some entry contributes it. |
| Merge.ExtractNewWords | merge.py:50-69 | With no `"words"` key the result is empty. Otherwise it is exactly the union of the entries' words: normalised non-empty roots (missing root read as "") and forms (missing forms read as none). |
| Merge.NewWordsAreClean | merge.py:58-67 | Every new word is non-empty and already normalised, so the merge block's second normalisation leaves it unchanged. |
| Merge.AddCleaned | merge.py:96-100 | One normalising loop of the merge block adds exactly the non-empty normal forms of its words to the set. |
| Merge.MergeWords | merge.py:94-108 | The merged list is strictly ascending (sorted, no duplicates), holds no "", and holds exactly the non-empty normal forms of the old and new words. |
| Merge.MergeDictionaries | merge.py:83-108 | End to end: the output list is strictly ascending, holds no "", and holds exactly the normalised old words and the new entries' words. |
| RootForms.StoreAllKeys | create_root_forms_map.py:39-50 | After storing each entry under its key, the keys are exactly the entries' keys. |
| RootForms.StoreAllLast | create_root_forms_map.py:39-50 | The value under a key is the one stored by the last entry with that key. |
| RootForms.StoreAllValues | create_root_forms_map.py:39-50 | Every stored value is the value of some entry with that key. |
| RootForms.Stage1Keys | create_root_forms_map.py:39-50 | The keys after stage 1 are exactly the normalised roots of the entries, "" included. |
| RootForms.LastWriteWins | create_root_forms_map.py:39-50 | Duplicate roots: the words stored under a root are those of the last entry with that root. |
| RootForms.EntryWordsHoldKey | create_root_forms_map.py:43-48 | An entry's words never include "", and include the normalised root unless it is "". |
| RootForms.Stage1SelfListed | create_root_forms_map.py:43-50 | After stage 1 no stored set holds "", and every non-empty key is in its own set. |
| RootForms.KeptFormsAreEntryWords | create_root_forms_map.py:41-48 | The normalised forms with the root added, empties dropped and deduplicated, are exactly the entry's words. |
| RootForms.EntryForms | create_root_forms_map.py:40-48 | One loop body of stage 1 returns the normalised root and the sorted list of the entry's words. |
| RootForms.BuildRootMap | create_root_forms_map.py:34-50 | Stage 1 has the same keys as the last-write-wins specification, each list is the sorted listing of the specified set, and the map is well formed: lists ascending, no "", each non-empty key in its own list. |
| RootForms.SelectOldWordsAgrees | create_root_forms_map.py:58-61 | The old word list chosen by shape holds the same words as `extract_old_words` in `merge.py`. |
| RootForms.OverlayStep | create_root_forms_map.py:63-75 | One overlay step for a non-empty normal form inserts `[w]`, appends `w`, or changes nothing, keeping the overlay relation. |
| RootForms.OverlayOldWords | create_root_forms_map.py:63-75 | The keys afterwards are the old keys plus the non-empty normalised old words. An existing list gains its key at the end only when the key is an old word's normal form and is absent from the list; otherwise it is unchanged. A new key maps to exactly `[w]`. |
| RootForms.OverlayKeepsWellFormed | create_root_forms_map.py:69-75 | On a well-formed map the append never fires: every existing list is unchanged, and the result stays well formed. |
| RootForms.BuildRootFormsMap | create_root_forms_map.py:34-75 | The final keys are the stage 1 keys plus the normalised old words. Each stage 1 key keeps the sorted listing of its last entry's words, each other key maps to `[w]`, and every list is ascending with no "" and holds its non-empty key. |
| Scenarios.CleanPlain | merge.py:17-21 | A word with no mark and no whitespace is its own normal form. |
| Scenarios.CleanDropsTrailingMark | merge.py:17-21 | A plain word followed by the wordspace U+1361 normalises to the plain word. |
| Scenarios.EmptyRootStored | create_root_forms_map.py:39-50 | An entry whose root is a lone full stop is stored under the key "", mapped to its forms. |
| Scenarios.FormBeforeRoot | create_root_forms_map.py:39-50 | A plain root with one plain form that sorts below it is stored as `[form, root]`. |
| Scenarios.RootFormsOrder | create_root_forms_map.py:48 | Root "ፍቅር" with form "ፍቅረኛ" is stored as `["ፍቅረኛ", "ፍቅር"]`. |
| Scenarios.OneEntryOneOldWord | create_root_forms_map.py:34-75 | One entry with a plain root and a plain form below it, and one other plain old word: the final map is exactly `{root: [form, root], old: [old]}`. |
| Scenarios.RootFormsExample | create_root_forms_map.py:34-75 | Root "ፍቅር" with form "ፍቅረኛ" and old word "ሰላም" give exactly `{"ፍቅር": ["ፍቅረኛ", "ፍቅር"], "ሰላም": ["ሰላም"]}`. |
| Scenarios.MergedListExample | merge.py:94-108 | Old words "ሰላም፡", "ፍቅር" and new entry "ሰላም" with form "ሰላምታ" merge to `["ሰላም", "ሰላምታ", "ፍቅር"]`. |

## Left out

- `load_json` in both files (`merge.py:24-35`, `create_root_forms_map.py:16-21`): checking that a file exists, reading it and parsing JSON are I/O. The model starts from the parsed values, and the early return when a file is missing is not modelled.
- Writing the output with `json.dump` (`merge.py:117-118`, `create_root_forms_map.py:83-84`): serialisation by a library.
- Every `print` message.
- JSON values of other types where the scripts expect strings or lists: non-string words, a `"forms"` value that is a string, a new dictionary that is not an object. Word lists are `seq<string>`.
- The `KeyError` raised at `create_root_forms_map.py:39` (no `"words"` key) and at line 40 (an entry without `"root"`): these are preconditions of `RootForms.BuildRootFormsMap`, `RootForms.BuildRootMap` and `RootForms.EntryForms`.
- Whitespace: `Normalize.IsSpace` is the fixed set of characters for which Python 3's `str.isspace()` holds. A change to that table in another Python version is not followed.
- `sorted`: only its result is modelled, by a selection of the least remaining element (`Ordering.SortStrings`). The sorted listing of a set is unique (`Ordering.SortedListUnique`), so this determines the output; the algorithm Python uses is not modelled.
- `RootForms.BuildRootMap`, `RootForms.OverlayOldWords`, `RootForms.BuildRootFormsMap`: the key order of `root_map` is not modelled. Python keeps a dict's keys in first-insertion order (an overwritten key at `create_root_forms_map.py:50` keeps its place, a new key at line 70 goes last), and `json.dump` writes them in that order; a Dafny `map` has no order, so the model fixes the output's keys and lists but not the order in which the file lists them.
- Object identity of the lists in `root_map`: the map holds values and `append` is a map update. The scripts never share a list between two keys, so nothing observable is lost.
- The order in which Python iterates a set: it is left open. The merge block's result is a set union, so it does not depend on that order.
