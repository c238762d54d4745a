/**
 Code-point lexicographic order on strings, the order Python's `sorted`
 uses for `str`, and a model of `sorted` applied to a set of strings.
 */
module Ordering {

  /** Strictly-less in lexicographic order by code point: a proper prefix
      comes first, otherwise the first differing character decides. */
  predicate Below(a: string, b: string)
    decreases |a|
  {
    if a == [] then b != []
    else if b == [] then false
    else if a[0] == b[0] then Below(a[1..], b[1..])
    else a[0] < b[0]
  }

  lemma {:induction false} BelowIrreflexive(a: string)
    ensures !Below(a, a)
    decreases |a|
  {
    if a != [] {
      BelowIrreflexive(a[1..]);
    }
  }

  lemma {:induction false} BelowAsymmetric(a: string, b: string)
    ensures !(Below(a, b) && Below(b, a))
    decreases |a|
  {
    if a != [] && b != [] && a[0] == b[0] {
      BelowAsymmetric(a[1..], b[1..]);
    }
  }

  lemma {:induction false} BelowTransitive(a: string, b: string, c: string)
    requires Below(a, b) && Below(b, c)
    ensures Below(a, c)
    decreases |a|
  {
    if a != [] && a[0] == b[0] && b[0] == c[0] {
      BelowTransitive(a[1..], b[1..], c[1..]);
    }
  }

  lemma {:induction false} BelowTotal(a: string, b: string)
    requires a != b
    ensures Below(a, b) || Below(b, a)
    decreases |a|
  {
    if a != [] && b != [] && a[0] == b[0] {
      assert a == [a[0]] + a[1..] && b == [b[0]] + b[1..];
      BelowTotal(a[1..], b[1..]);
    }
  }

  /** Strictly ascending: sorted and free of duplicates. */
  predicate Ascending(s: seq<string>)
  {
    forall i, j :: 0 <= i < j < |s| ==> Below(s[i], s[j])
  }

  /** `r` is what `sorted` returns for the set `s`: its elements in ascending order. */
  ghost predicate SortedListOf(r: seq<string>, s: set<string>)
  {
    Ascending(r) && (forall x :: x in r <==> x in s)
  }

  /** Every non-empty finite set of strings has a least element. */
  lemma {:induction false} LeastExists(s: set<string>)
    requires s != {}
    ensures exists m :: m in s && forall y :: y in s && y != m ==> Below(m, y)
    decreases |s|
  {
    var x :| x in s;
    var rest := s - {x};
    assert forall y :: y in s && y != x ==> y in rest;
    if rest != {} {
      LeastExists(rest);
      var m :| m in rest && forall y :: y in rest && y != m ==> Below(m, y);
      if Below(m, x) {
        forall y | y in s && y != m
          ensures Below(m, y)
        {
          if y != x {
            assert y in rest;
          }
        }
      } else {
        BelowTotal(m, x);
        forall y | y in s && y != x
          ensures Below(x, y)
        {
          if y != m {
            assert y in rest;
            BelowTransitive(x, m, y);
          }
        }
      }
    }
  }

  /** Python's `sorted` applied to a set of strings: the set's members,
      each once, in ascending code-point order. */
  method SortStrings(s: set<string>) returns (r: seq<string>)
    ensures SortedListOf(r, s)
    ensures |r| == |s|
  {
    r := [];
    var rest := s;
    while rest != {}
      invariant rest <= s
      invariant Ascending(r)
      invariant forall x :: x in r <==> x in s && x !in rest
      invariant forall i, y :: 0 <= i < |r| && y in rest ==> Below(r[i], y)
      invariant |r| + |rest| == |s|
      decreases |rest|
    {
      LeastExists(rest);
      var m :| m in rest && forall y :: y in rest && y != m ==> Below(m, y);
      r := r + [m];
      rest := rest - {m};
    }
  }

  /** A set has exactly one sorted listing, so the output of `sorted` is
      determined by the set alone. */
  lemma {:induction false} SortedListUnique(a: seq<string>, b: seq<string>, s: set<string>)
    requires SortedListOf(a, s) && SortedListOf(b, s)
    ensures a == b
    decreases |a|
  {
    assert b != [] ==> b[0] in s;
    if a == [] {
      assert s == {};
    } else {
      assert b != [] by { assert a[0] in s; }
      if a[0] != b[0] {
        assert a[0] in b;
        var j :| 0 <= j < |b| && b[j] == a[0];
        assert b[0] in a;
        var i :| 0 <= i < |a| && a[i] == b[0];
        assert Below(b[0], a[0]) by { assert 0 < j; }
        assert Below(a[0], b[0]) by { assert 0 < i; }
        BelowAsymmetric(a[0], b[0]);
      } else {
        var s' := s - {a[0]};
        forall x
          ensures x in a[1..] <==> x in s'
        {
          if x in a[1..] {
            var i :| 1 <= i < |a| && a[i] == x;
            BelowIrreflexive(x);
            assert Below(a[0], a[i]);
          }
        }
        forall x
          ensures x in b[1..] <==> x in s'
        {
          if x in b[1..] {
            var i :| 1 <= i < |b| && b[i] == x;
            BelowIrreflexive(x);
            assert Below(b[0], b[i]);
          }
        }
        SortedListUnique(a[1..], b[1..], s');
        assert a == [a[0]] + a[1..] && b == [b[0]] + b[1..];
      }
    }
  }
}
