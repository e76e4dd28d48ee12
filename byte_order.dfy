/**
 * Unsigned byte-lexicographic order on byte strings, as Node's `Buffer.compare`
 * computes it, and the canonical (strictly ascending) listing of a finite set of
 * byte strings that sorting a duplicate-free array with that comparator yields.
 */
module ByteOrder {

  newtype byte = x: int | 0 <= x < 256

  /** Buffer.compare(a, b): -1, 0 or 1, deciding at the first differing byte;
      a proper prefix sorts before the longer string. */
  function Compare(a: seq<byte>, b: seq<byte>): (r: int)
    ensures -1 <= r <= 1
    ensures r == 0 ==> |a| == |b|
  {
    if |a| == 0 && |b| == 0 then 0
    else if |a| == 0 then -1
    else if |b| == 0 then 1
    else if a[0] < b[0] then -1
    else if a[0] > b[0] then 1
    else Compare(a[1..], b[1..])
  }

  predicate Le(a: seq<byte>, b: seq<byte>) {
    Compare(a, b) <= 0
  }

  predicate Lt(a: seq<byte>, b: seq<byte>) {
    Compare(a, b) < 0
  }

  /** Swapping the arguments negates the comparison. */
  lemma {:induction false} CompareFlip(a: seq<byte>, b: seq<byte>)
    ensures Compare(b, a) == -Compare(a, b)
  {
    if |a| > 0 && |b| > 0 && a[0] == b[0] {
      CompareFlip(a[1..], b[1..]);
    }
  }

  /** The comparison reports 0 exactly for byte-identical strings. */
  lemma {:induction false} CompareZeroIffEqual(a: seq<byte>, b: seq<byte>)
    ensures Compare(a, b) == 0 <==> a == b
  {
    if |a| > 0 && |b| > 0 && a[0] == b[0] {
      CompareZeroIffEqual(a[1..], b[1..]);
      assert a == [a[0]] + a[1..];
      assert b == [b[0]] + b[1..];
    }
  }

  lemma {:induction false} CompareTransitive(a: seq<byte>, b: seq<byte>, c: seq<byte>)
    requires Le(a, b) && Le(b, c)
    ensures Le(a, c)
  {
    if |a| > 0 && |b| > 0 && |c| > 0 && a[0] == b[0] && b[0] == c[0] {
      CompareTransitive(a[1..], b[1..], c[1..]);
    }
  }

  /** Lt is a strict total order: transitive, and between distinct strings one way only. */
  lemma LtTransitive(a: seq<byte>, b: seq<byte>, c: seq<byte>)
    requires Lt(a, b) && Lt(b, c)
    ensures Lt(a, c)
  {
    CompareTransitive(a, b, c);
    if Compare(a, c) == 0 {
      CompareZeroIffEqual(a, c);
      CompareFlip(a, b);
    }
  }

  lemma LtTotal(a: seq<byte>, b: seq<byte>)
    ensures a == b || Lt(a, b) || Lt(b, a)
    ensures !(Lt(a, b) && Lt(b, a))
    ensures Lt(a, b) ==> a != b
  {
    CompareFlip(a, b);
    CompareZeroIffEqual(a, b);
  }

  ghost predicate StrictlySorted(s: seq<seq<byte>>) {
    forall i, j :: 0 <= i < j < |s| ==> Lt(s[i], s[j])
  }

  ghost predicate Distinct<T>(s: seq<T>) {
    forall i, j :: 0 <= i < j < |s| ==> s[i] != s[j]
  }

  ghost function Elems<T>(s: seq<T>): set<T> {
    set x | x in s
  }

  /** A strictly ascending sequence repeats nothing. */
  lemma StrictlySortedIsDistinct(s: seq<seq<byte>>)
    requires StrictlySorted(s)
    ensures Distinct(s)
  {
    forall i, j | 0 <= i < j < |s| ensures s[i] != s[j] {
      LtTotal(s[i], s[j]);
    }
  }

  ghost predicate IsLeast(m: seq<byte>, S: set<seq<byte>>) {
    m in S && forall y {:trigger Le(m, y)} :: y in S ==> Le(m, y)
  }

  lemma {:induction false} LeastExists(S: set<seq<byte>>)
    requires S != {}
    ensures exists m :: IsLeast(m, S)
    decreases |S|
  {
    var x :| x in S;
    CompareZeroIffEqual(x, x);
    if S != {x} {
      LeastExists(S - {x});
      var m :| IsLeast(m, S - {x});
      if Le(x, m) {
        forall y | y in S ensures Le(x, y) {
          if y != x {
            CompareTransitive(x, m, y);
          }
        }
        assert IsLeast(x, S);
      } else {
        CompareFlip(x, m);
        assert IsLeast(m, S);
      }
    } else {
      assert IsLeast(x, S);
    }
  }

  lemma LeastUnique(m: seq<byte>, n: seq<byte>, S: set<seq<byte>>)
    requires IsLeast(m, S) && IsLeast(n, S)
    ensures m == n
  {
    assert Le(m, n) && Le(n, m);
    CompareFlip(m, n);
    CompareZeroIffEqual(m, n);
  }

  /** The elements of S in strictly ascending order: the least one first. */
  ghost function Canonical(S: set<seq<byte>>): seq<seq<byte>>
    decreases |S|
  {
    if S == {} then []
    else
      LeastExists(S);
      var m :| IsLeast(m, S);
      [m] + Canonical(S - {m})
  }

  lemma CanonicalUnfold(S: set<seq<byte>>, m: seq<byte>)
    requires IsLeast(m, S)
    ensures Canonical(S) == [m] + Canonical(S - {m})
  {
    var c := Canonical(S)[0];
    assert IsLeast(c, S) && Canonical(S) == [c] + Canonical(S - {c});
    LeastUnique(c, m, S);
  }

  /** Canonical(S) lists exactly the members of S, each once. */
  lemma {:induction false} CanonicalElems(S: set<seq<byte>>)
    ensures Elems(Canonical(S)) == S
    ensures |Canonical(S)| == |S|
    decreases |S|
  {
    if S != {} {
      LeastExists(S);
      var m :| IsLeast(m, S);
      CanonicalUnfold(S, m);
      CanonicalElems(S - {m});
      assert Elems(Canonical(S)) == {m} + Elems(Canonical(S - {m}));
    }
  }

  /** Canonical(S) is strictly ascending. */
  lemma {:induction false} CanonicalIsSorted(S: set<seq<byte>>)
    ensures StrictlySorted(Canonical(S))
    decreases |S|
  {
    if S != {} {
      LeastExists(S);
      var m :| IsLeast(m, S);
      CanonicalUnfold(S, m);
      var rest := Canonical(S - {m});
      CanonicalIsSorted(S - {m});
      CanonicalElems(S - {m});
      var c := [m] + rest;
      forall i, j | 0 <= i < j < |c| ensures Lt(c[i], c[j]) {
        if i == 0 {
          var y := rest[j - 1];
          assert y in Elems(rest);
          assert y in S && y != m;
          assert Le(m, y);
          CompareZeroIffEqual(m, y);
        } else {
          assert c[i] == rest[i - 1] && c[j] == rest[j - 1];
        }
      }
    }
  }

  /** The head of a strictly ascending sequence is the least of its elements. */
  lemma SortedHeadIsLeast(s: seq<seq<byte>>)
    requires StrictlySorted(s) && |s| > 0
    ensures IsLeast(s[0], Elems(s))
  {
    CompareZeroIffEqual(s[0], s[0]);
  }

  /** Dropping the head of a duplicate-free sequence drops exactly that element. */
  lemma ElemsOfTail(s: seq<seq<byte>>)
    requires Distinct(s) && |s| > 0
    ensures Elems(s[1..]) == Elems(s) - {s[0]}
  {
    forall y | y in s[1..] ensures y != s[0] {
      var j :| 0 <= j < |s[1..]| && s[1..][j] == y;
      assert s[j + 1] == y;
    }
    assert s == [s[0]] + s[1..];
  }

  /** Any strictly ascending listing of a set is its canonical listing: sorting
      a duplicate-free collection has exactly one outcome. */
  lemma {:induction false} SortedIsCanonical(s: seq<seq<byte>>)
    requires StrictlySorted(s)
    ensures s == Canonical(Elems(s))
    decreases |s|
  {
    if |s| > 0 {
      SortedHeadIsLeast(s);
      CanonicalUnfold(Elems(s), s[0]);
      StrictlySortedIsDistinct(s);
      ElemsOfTail(s);
      SortedIsCanonical(s[1..]);
      assert s == [s[0]] + s[1..];
    }
  }

  /** Two strictly ascending listings of the same set are identical. */
  lemma SortedUnique(s: seq<seq<byte>>, t: seq<seq<byte>>)
    requires StrictlySorted(s) && StrictlySorted(t)
    requires Elems(s) == Elems(t)
    ensures s == t
  {
    SortedIsCanonical(s);
    SortedIsCanonical(t);
  }
}
