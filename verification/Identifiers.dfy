/** Identifiers and their order. */
module Identifiers {

  /** A text column; wrapping it keeps equality on rows cheap. */
  datatype Id = Id(text: string)

  predicate IsNameChar(c: char) {
    'a' <= c <= 'z' || 'A' <= c <= 'Z' || '0' <= c <= '9' || c == '.' || c == '_' || c == '-'
  }

  predicate IsIdentifier(id: Id) {
    1 <= |id.text| <= 96 && forall c | c in id.text :: IsNameChar(c)
  }

  /** Lexicographic order on text. */
  predicate AtMost(a: string, b: string) {
    a == "" || (b != "" && (a[0] < b[0] || (a[0] == b[0] && AtMost(a[1..], b[1..]))))
  }

  function Insert(x: Id, s: seq<Id>): (r: seq<Id>)
    ensures multiset(r) == multiset(s) + multiset{x} && |r| == |s| + 1
  {
    if s == [] then [x]
    else if AtMost(x.text, s[0].text) then [x] + s
    else
      assert s == [s[0]] + s[1..];
      [s[0]] + Insert(x, s[1..])
  }

  function Sorted(s: seq<Id>): (r: seq<Id>)
    ensures multiset(r) == multiset(s) && |r| == |s|
  {
    if s == [] then []
    else
      assert s == [s[0]] + s[1..];
      Insert(s[0], Sorted(s[1..]))
  }

  lemma {:induction false} AtMostIsTotal(a: string, b: string)
    ensures AtMost(a, b) || AtMost(b, a)
    ensures AtMost(a, b) && AtMost(b, a) ==> a == b
  {
    if a != "" && b != "" {
      AtMostIsTotal(a[1..], b[1..]);
      if a[0] == b[0] && a[1..] == b[1..] {
        assert a == [a[0]] + a[1..] == [b[0]] + b[1..] == b;
      }
    }
  }

  lemma {:induction false} AtMostIsTransitive(a: string, b: string, c: string)
    requires AtMost(a, b) && AtMost(b, c)
    ensures AtMost(a, c)
  {
    if a != "" && a[0] == b[0] && b[0] == c[0] {
      AtMostIsTransitive(a[1..], b[1..], c[1..]);
    }
  }

  /** One text is at most another if it is a beginning of it, or smaller at the first place where they differ. */
  lemma {:induction false} AtMostExactly(a: string, b: string)
    ensures AtMost(a, b) <==> a <= b || exists i :: 0 <= i < |a| && i < |b| && a[..i] == b[..i] && a[i] < b[i]
  {
    if a != "" && b != "" && a[0] == b[0] {
      var x, y := a[1..], b[1..];
      AtMostExactly(x, y);
      if x <= y {
        assert a == [a[0]] + x && b == [a[0]] + y;
      }
      if i :| 0 <= i < |x| && i < |y| && x[..i] == y[..i] && x[i] < y[i] {
        assert a[..i + 1] == [a[0]] + x[..i] && b[..i + 1] == [a[0]] + y[..i];
        assert a[i + 1] < b[i + 1];
      }
      if i :| 0 <= i < |a| && i < |b| && a[..i] == b[..i] && a[i] < b[i] {
        assert x[..i - 1] == a[..i][1..] == b[..i][1..] == y[..i - 1];
        assert x[i - 1] < y[i - 1];
      }
      if a <= b {
        assert x == a[1..] && x <= y;
      }
    } else if a != "" && b != "" && a[0] < b[0] {
      assert a[..0] == b[..0];
    } else if a != "" && b != "" {
      forall i | 0 < i < |a| && i < |b|
        ensures a[..i] != b[..i]
      {
        assert a[..i][0] == a[0] && b[..i][0] == b[0];
      }
    }
  }

  predicate Ordered(s: seq<Id>) {
    forall i, j | 0 <= i < j < |s| :: AtMost(s[i].text, s[j].text)
  }

  lemma {:induction false} InsertOrdered(x: Id, s: seq<Id>)
    requires Ordered(s)
    ensures Ordered(Insert(x, s))
  {
    if s != [] {
      AtMostIsTotal(x.text, s[0].text);
      if AtMost(x.text, s[0].text) {
        forall j | 0 <= j < |s|
          ensures AtMost(x.text, s[j].text)
        {
          if j > 0 {
            AtMostIsTransitive(x.text, s[0].text, s[j].text);
          }
        }
      } else {
        var rest := Insert(x, s[1..]);
        InsertOrdered(x, s[1..]);
        forall y | y in rest
          ensures AtMost(s[0].text, y.text)
        {
          assert y in multiset(rest);
          if y != x {
            assert y in s[1..];
          }
        }
      }
    }
  }

  lemma {:induction false} SortedOrdered(s: seq<Id>)
    ensures Ordered(Sorted(s))
  {
    if s != [] {
      SortedOrdered(s[1..]);
      InsertOrdered(s[0], Sorted(s[1..]));
    }
  }

  lemma FirstIsLeast(s: seq<Id>, r: seq<Id>)
    requires Ordered(s) && s != [] && r != [] && multiset(s) == multiset(r)
    ensures AtMost(s[0].text, r[0].text)
  {
    hide AtMost;
    assert r[0] in multiset(s);
    AtMostIsTotal(s[0].text, s[0].text);
  }

  lemma {:induction false} OrderedUnique(s: seq<Id>, r: seq<Id>)
    requires Ordered(s) && Ordered(r) && multiset(s) == multiset(r)
    ensures s == r
  {
    if s == [] || r == [] {
      assert |multiset(s)| == |s| && |multiset(r)| == |r|;
    } else {
      hide AtMost;
      FirstIsLeast(s, r);
      FirstIsLeast(r, s);
      AtMostIsTotal(s[0].text, r[0].text);
      assert s[0] == r[0];
      assert s == [s[0]] + s[1..] && r == [r[0]] + r[1..];
      assert multiset(s[1..]) == multiset(s) - multiset{s[0]} == multiset(r) - multiset{r[0]} == multiset(r[1..]);
      OrderedUnique(s[1..], r[1..]);
    }
  }

  /** Sorting forgets the order it was given. */
  lemma SortedCanonical(s: seq<Id>, r: seq<Id>)
    requires multiset(s) == multiset(r)
    ensures Sorted(s) == Sorted(r)
  {
    SortedOrdered(s);
    SortedOrdered(r);
    OrderedUnique(Sorted(s), Sorted(r));
  }

  predicate NoDuplicates(s: seq<Id>) {
    forall i, j | 0 <= i < j < |s| :: s[i] != s[j]
  }
}
