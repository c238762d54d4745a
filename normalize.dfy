/**
 The word normaliser `clean_word`: delete every Ethiopic punctuation mark,
 then strip surrounding whitespace the way Python's `str.strip()` does.

 The functions here carry no postconditions of their own: every fact about
 them is a lemma, so that a mention of `Clean` elsewhere costs the solver
 one unfolding and nothing more.
 */
module Normalize {

  /** The six marks the normaliser deletes, in the order it deletes them:
      wordspace, full stop, comma, semicolon, colon, preface colon. */
  const Punctuation: seq<char> := ['\U{1361}', '\U{1362}', '\U{1363}', '\U{1364}', '\U{1365}', '\U{1366}']

  predicate IsMark(c: char)
  {
    c in Punctuation
  }

  /** The characters Python 3's `str.strip()` removes when given no
      argument: exactly those for which `str.isspace()` holds. */
  predicate IsSpace(c: char)
  {
    || ('\t' <= c <= '\r')
    || ('\U{1c}' <= c <= ' ')
    || c == '\U{85}' || c == '\U{a0}' || c == '\U{1680}'
    || ('\U{2000}' <= c <= '\U{200a}')
    || c == '\U{2028}' || c == '\U{2029}' || c == '\U{202f}' || c == '\U{205f}' || c == '\U{3000}'
  }

  /** `s` with every character that occurs in `ps` deleted and the rest kept
      in order; `Without(s, [p])` is Python's `s.replace(p, "")`. */
  function Without(s: string, ps: seq<char>): string
    decreases |s|
  {
    if s == [] then []
    else (if s[0] in ps then [] else [s[0]]) + Without(s[1..], ps)
  }

  /** Filtering keeps exactly the characters that are not in `ps`. */
  lemma {:induction false} WithoutMembers(s: string, ps: seq<char>)
    ensures forall c :: c in Without(s, ps) <==> c in s && c !in ps
    decreases |s|
  {
    if s != [] {
      WithoutMembers(s[1..], ps);
      assert s == [s[0]] + s[1..];
    }
  }

  /** Filtering distributes over concatenation. */
  lemma {:induction false} WithoutAppend(a: string, b: string, ps: seq<char>)
    ensures Without(a + b, ps) == Without(a, ps) + Without(b, ps)
    decreases |a|
  {
    if a != [] {
      assert (a + b)[1..] == a[1..] + b;
      WithoutAppend(a[1..], b, ps);
    } else {
      assert a + b == b;
    }
  }

  /** Deleting one more character from an already filtered string is the
      same as filtering by the longer list in one pass. */
  lemma {:induction false} WithoutOneMore(s: string, ps: seq<char>, p: char)
    ensures Without(Without(s, ps), [p]) == Without(s, ps + [p])
    decreases |s|
  {
    if s != [] {
      WithoutOneMore(s[1..], ps, p);
      var head := if s[0] in ps then [] else [s[0]];
      assert Without(s, ps) == head + Without(s[1..], ps);
      WithoutAppend(head, Without(s[1..], ps), [p]);
    }
  }

  /** Filtering a string that holds none of the characters changes nothing. */
  lemma {:induction false} WithoutNone(s: string, ps: seq<char>)
    requires forall c :: c in s ==> c !in ps
    ensures Without(s, ps) == s
    decreases |s|
  {
    if s != [] {
      WithoutNone(s[1..], ps);
      assert s == [s[0]] + s[1..];
    }
  }

  /** Python's `str.lstrip()`. */
  function StripLeading(s: string): string
    decreases |s|
  {
    if s != [] && IsSpace(s[0]) then StripLeading(s[1..]) else s
  }

  /** Python's `str.rstrip()`. */
  function StripTrailing(s: string): string
    decreases |s|
  {
    if s != [] && IsSpace(s[|s| - 1]) then StripTrailing(s[..|s| - 1]) else s
  }

  /** `lstrip()` keeps a suffix, drops only whitespace, and stops at the
      first character that is not whitespace. */
  lemma {:induction false} StripLeadingSpec(s: string)
    ensures |StripLeading(s)| <= |s| && StripLeading(s) == s[|s| - |StripLeading(s)|..]
    ensures forall i :: 0 <= i < |s| - |StripLeading(s)| ==> IsSpace(s[i])
    ensures StripLeading(s) == [] || !IsSpace(StripLeading(s)[0])
    decreases |s|
  {
    if s != [] && IsSpace(s[0]) {
      StripLeadingSpec(s[1..]);
    }
  }

  /** `rstrip()` keeps a prefix, drops only whitespace, and stops at the
      last character that is not whitespace. */
  lemma {:induction false} StripTrailingSpec(s: string)
    ensures |StripTrailing(s)| <= |s| && StripTrailing(s) == s[..|StripTrailing(s)|]
    ensures forall i :: |StripTrailing(s)| <= i < |s| ==> IsSpace(s[i])
    ensures StripTrailing(s) == [] || !IsSpace(StripTrailing(s)[|StripTrailing(s)| - 1])
    decreases |s|
  {
    if s != [] && IsSpace(s[|s| - 1]) {
      StripTrailingSpec(s[..|s| - 1]);
    }
  }

  /** Python's `str.strip()`: drop the whitespace at both ends. */
  function Strip(s: string): string
  {
    StripTrailing(StripLeading(s))
  }

  /** `r` is the slice `s[i..i + |r|]` and everything around it is whitespace. */
  ghost predicate SliceBetweenSpaces(s: string, r: string, i: int)
  {
    0 <= i <= |s| - |r| && r == s[i..i + |r|]
    && (forall k :: 0 <= k < i ==> IsSpace(s[k]))
    && (forall k :: i + |r| <= k < |s| ==> IsSpace(s[k]))
  }

  /** What `strip()` keeps is a middle slice with only whitespace around
      it, and neither end of that slice is whitespace. */
  lemma StripSpec(s: string)
    ensures SliceBetweenSpaces(s, Strip(s), |s| - |StripLeading(s)|)
    ensures Strip(s) == [] || (!IsSpace(Strip(s)[0]) && !IsSpace(Strip(s)[|Strip(s)| - 1]))
  {
    var left := StripLeading(s);
    StripLeadingSpec(s);
    StripTrailingSpec(left);
    var r := Strip(s);
    if r != [] {
      assert r[0] == left[0];
    }
  }

  /** `strip()` returns "" exactly for all-whitespace input. */
  lemma StripEmptyIff(s: string)
    ensures Strip(s) == [] <==> forall k :: 0 <= k < |s| ==> IsSpace(s[k])
  {
    var i := |s| - |StripLeading(s)|;
    StripSpec(s);
    if Strip(s) != [] {
      assert s[i] == Strip(s)[0];
    } else {
      forall k | 0 <= k < |s|
        ensures IsSpace(s[k])
      {
        assert k < i || i <= k;
      }
    }
  }

  /** A string already free of edge whitespace is its own `strip()`. */
  lemma StripUnchanged(s: string)
    requires s == [] || (!IsSpace(s[0]) && !IsSpace(s[|s| - 1]))
    ensures Strip(s) == s
  {
  }

  /** The normaliser as a function of the word: marks deleted first, then
      the edges stripped. */
  function Clean(word: string): string
  {
    Strip(Without(word, Punctuation))
  }

  /** `clean_word`: one pass of `replace(p, "")` per mark, then `strip()`. */
  method CleanWord(word: string) returns (r: string)
    ensures r == Clean(word)
  {
    var w := word;
    WithoutNone(word, []);
    for i := 0 to |Punctuation|
      invariant w == Without(word, Punctuation[..i])
    {
      WithoutOneMore(word, Punctuation[..i], Punctuation[i]);
      assert Punctuation[..i + 1] == Punctuation[..i] + [Punctuation[i]];
      w := Without(w, [Punctuation[i]]);
    }
    assert Punctuation[..|Punctuation|] == Punctuation;
    r := Strip(w);
  }

  /** A normalised word holds no punctuation mark and only characters of
      the original word, and neither of its ends is whitespace. */
  lemma CleanSpec(word: string)
    ensures forall c :: c in Clean(word) ==> !IsMark(c) && c in word
    ensures Clean(word) == [] || (!IsSpace(Clean(word)[0]) && !IsSpace(Clean(word)[|Clean(word)| - 1]))
  {
    var kept := Without(word, Punctuation);
    WithoutMembers(word, Punctuation);
    StripSpec(kept);
    var i := |kept| - |StripLeading(kept)|;
    forall c | c in Clean(word)
      ensures c in kept
    {
      var j :| 0 <= j < |Clean(word)| && Clean(word)[j] == c;
      assert kept[i + j] == c;
    }
  }

  /** Normalising twice gives the same word as normalising once. */
  lemma CleanIdempotent(word: string)
    ensures Clean(Clean(word)) == Clean(word)
  {
    var once := Clean(word);
    CleanSpec(word);
    WithoutNone(once, Punctuation);
    StripUnchanged(once);
  }

  /** A word normalises to the empty string exactly when each of its
      characters is a punctuation mark or whitespace. */
  lemma CleanEmptyIff(word: string)
    ensures Clean(word) == [] <==> forall i :: 0 <= i < |word| ==> IsMark(word[i]) || IsSpace(word[i])
  {
    var kept := Without(word, Punctuation);
    WithoutMembers(word, Punctuation);
    StripEmptyIff(kept);
    if Clean(word) == [] {
      forall i | 0 <= i < |word| && !IsMark(word[i])
        ensures IsSpace(word[i])
      {
        assert word[i] in kept;
        var k :| 0 <= k < |kept| && kept[k] == word[i];
      }
    } else {
      var k :| 0 <= k < |kept| && !IsSpace(kept[k]);
      assert kept[k] in kept;
      var i :| 0 <= i < |word| && word[i] == kept[k];
      assert !IsMark(word[i]) && !IsSpace(word[i]);
    }
  }

  /** The non-empty values `f` takes on `ws`. The facts about it below hold
      for every `f`, so they are proved without looking inside `Clean`. */
  ghost function NonEmptyImage(ws: set<string>, f: string -> string): set<string>
    decreases |ws|
  {
    if ws == {} then {}
    else
      var w :| w in ws;
      NonEmptyImage(ws - {w}, f) + (if f(w) != [] then {f(w)} else {})
  }

  lemma {:induction false} NonEmptyImageMember(ws: set<string>, f: string -> string, x: string)
    ensures x in NonEmptyImage(ws, f) <==> x != [] && exists v :: v in ws && f(v) == x
    decreases |ws|
  {
    if ws != {} {
      var w :| w in ws && NonEmptyImage(ws, f) == NonEmptyImage(ws - {w}, f) + (if f(w) != [] then {f(w)} else {});
      NonEmptyImageMember(ws - {w}, f, x);
      if x != [] && exists v :: v in ws && f(v) == x {
        var v :| v in ws && f(v) == x;
        if v != w {
          assert v in ws - {w};
        }
      }
    }
  }

  lemma NonEmptyImageAddOne(ws: set<string>, w: string, f: string -> string)
    ensures NonEmptyImage(ws + {w}, f) == NonEmptyImage(ws, f) + (if f(w) != [] then {f(w)} else {})
  {
    forall x
      ensures x in NonEmptyImage(ws + {w}, f) <==> x in NonEmptyImage(ws, f) + (if f(w) != [] then {f(w)} else {})
    {
      NonEmptyImageMember(ws + {w}, f, x);
      NonEmptyImageMember(ws, f, x);
      if x in NonEmptyImage(ws + {w}, f) && x != f(w) {
        var v :| v in ws + {w} && f(v) == x;
        assert v in ws;
      }
    }
  }

  lemma NonEmptyImageUnion(a: set<string>, b: set<string>, f: string -> string)
    ensures NonEmptyImage(a + b, f) == NonEmptyImage(a, f) + NonEmptyImage(b, f)
  {
    forall x
      ensures x in NonEmptyImage(a + b, f) <==> x in NonEmptyImage(a, f) + NonEmptyImage(b, f)
    {
      NonEmptyImageMember(a + b, f, x);
      NonEmptyImageMember(a, f, x);
      NonEmptyImageMember(b, f, x);
      if x in NonEmptyImage(a + b, f) {
        var v :| v in a + b && f(v) == x;
        if v in a {
          assert exists u :: u in a && f(u) == x;
        } else {
          assert exists u :: u in b && f(u) == x;
        }
      }
    }
  }

  /** The normalised, non-empty words of `ws`: what both scripts keep of a
      collection of raw words. */
  ghost function Cleaned(ws: set<string>): set<string>
  {
    NonEmptyImage(ws, Clean)
  }

  /** A word is kept exactly when it is non-empty and the normal form of
      some word of `ws`. */
  lemma CleanedMember(ws: set<string>, x: string)
    ensures x in Cleaned(ws) <==> x != [] && exists v :: v in ws && Clean(v) == x
  {
    NonEmptyImageMember(ws, Clean, x);
  }

  /** Adding one raw word adds its normal form, unless that is empty. */
  lemma CleanedAddOne(ws: set<string>, w: string)
    ensures Cleaned(ws + {w}) == Cleaned(ws) + (if Clean(w) != [] then {Clean(w)} else {})
  {
    NonEmptyImageAddOne(ws, w, Clean);
  }

  lemma CleanedUnion(a: set<string>, b: set<string>)
    ensures Cleaned(a + b) == Cleaned(a) + Cleaned(b)
  {
    NonEmptyImageUnion(a, b, Clean);
  }

  /** Every word kept is non-empty and already in normal form. */
  lemma CleanedElements(ws: set<string>)
    ensures forall x :: x in Cleaned(ws) ==> x != [] && Clean(x) == x
  {
    forall x | x in Cleaned(ws)
      ensures x != [] && Clean(x) == x
    {
      CleanedMember(ws, x);
      var v :| v in ws && Clean(v) == x;
      CleanIdempotent(v);
    }
  }

  /** A set of non-empty normal forms is left as it is. */
  lemma CleanedOfClean(ws: set<string>)
    requires forall w :: w in ws ==> w != [] && Clean(w) == w
    ensures Cleaned(ws) == ws
  {
    forall x
      ensures x in Cleaned(ws) <==> x in ws
    {
      CleanedMember(ws, x);
    }
  }
}
