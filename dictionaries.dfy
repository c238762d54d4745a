/**
 The two parsed input files, as both scripts see them once `json.load`
 has run, and the words one new-dictionary entry contributes.
 */
module Dictionaries {
  import opened Normalize

  datatype Option<T> = None | Some(value: T)

  /** The old dictionary: a bare list of words, an object holding a
      "words" list, or any other JSON value. */
  datatype OldDict = FlatList(words: seq<string>) | WordsWrapper(words: seq<string>) | OtherShape

  /** One entry of the new dictionary; `None` is a key absent from the
      JSON object. */
  datatype Entry = Entry(root: Option<string>, forms: Option<seq<string>>)
  {
    /** `entry.get("root", "")` */
    function RootOrEmpty(): string
    {
      if root.Some? then root.value else ""
    }

    /** `entry.get("forms", [])` */
    function FormsOrEmpty(): seq<string>
    {
      if forms.Some? then forms.value else []
    }
  }

  /** The new dictionary: an object whose "words" key, when present,
      holds the entries. */
  datatype NewDict = NewDict(words: Option<seq<Entry>>)

  function Elems(s: seq<string>): set<string>
  {
    set x | x in s
  }

  lemma ElemsPrefix(s: seq<string>, i: nat)
    requires i < |s|
    ensures Elems(s[..i + 1]) == Elems(s[..i]) + {s[i]}
  {
  }

  /** The words an entry contributes: its root and its forms, each
      normalised, the empty ones dropped. */
  ghost function EntryWords(e: Entry): set<string>
  {
    Cleaned({e.RootOrEmpty()} + Elems(e.FormsOrEmpty()))
  }

  lemma EntryWordsMembers(e: Entry, w: string)
    ensures w in EntryWords(e) <==>
      w != [] && (w == Clean(e.RootOrEmpty()) || exists f :: f in e.FormsOrEmpty() && Clean(f) == w)
  {
    var raw := {e.RootOrEmpty()} + Elems(e.FormsOrEmpty());
    CleanedMember(raw, w);
    if w in EntryWords(e) {
      var v :| v in raw && Clean(v) == w;
      if v != e.RootOrEmpty() {
        assert v in e.FormsOrEmpty();
      }
    } else if w != [] && w != Clean(e.RootOrEmpty()) {
      forall f | f in e.FormsOrEmpty()
        ensures Clean(f) != w
      {
        assert f in raw;
      }
    }
  }
}
