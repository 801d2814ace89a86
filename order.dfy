/** Ruby's `String#<=>` on the keys and file names the tools sort: byte-wise
    lexicographic order, which for code points is the same as comparing
    characters one by one (UTF-8 preserves code-point order). */
module StringOrder {

  /** `a` sorts before or equal to `b`. */
  predicate Below(a: string, b: string)
    decreases |a|
  {
    a == [] || (b != [] && (a[0] < b[0] || (a[0] == b[0] && Below(a[1..], b[1..]))))
  }

  lemma {:induction false} BelowReflexive(a: string)
    ensures Below(a, a)
    decreases |a|
  {
    if a != [] { BelowReflexive(a[1..]); }
  }

  lemma {:induction false} BelowAntisymmetric(a: string, b: string)
    requires Below(a, b) && Below(b, a)
    ensures a == b
    decreases |a|
  {
    if a != [] && b != [] && a[0] == b[0] {
      BelowAntisymmetric(a[1..], b[1..]);
      assert a == [a[0]] + a[1..] && b == [b[0]] + b[1..];
    }
  }

  lemma {:induction false} BelowTransitive(a: string, b: string, c: string)
    requires Below(a, b) && Below(b, c)
    ensures Below(a, c)
    decreases |a|
  {
    if a != [] && b != [] && c != [] && a[0] == b[0] && b[0] == c[0] {
      BelowTransitive(a[1..], b[1..], c[1..]);
    }
  }

  lemma {:induction false} BelowTotal(a: string, b: string)
    ensures Below(a, b) || Below(b, a)
    decreases |a|
  {
    if a != [] && b != [] && a[0] == b[0] {
      BelowTotal(a[1..], b[1..]);
    }
  }

  predicate Sorted(s: seq<string>)
  {
    forall i, j :: 0 <= i < j < |s| ==> Below(s[i], s[j])
  }

  predicate Distinct(s: seq<string>)
  {
    forall i, j :: 0 <= i < j < |s| ==> s[i] != s[j]
  }

  predicate IsLeast(x: string, xs: set<string>)
  {
    x in xs && forall y :: y in xs ==> Below(x, y)
  }

  lemma {:induction false} LeastExists(xs: set<string>)
    requires xs != {}
    ensures exists x :: IsLeast(x, xs)
    decreases |xs|
  {
    var y :| y in xs;
    if xs == {y} {
      BelowReflexive(y);
      assert IsLeast(y, xs);
    } else {
      LeastExists(xs - {y});
      var z :| IsLeast(z, xs - {y});
      BelowTotal(y, z);
      if Below(y, z) {
        forall w | w in xs ensures Below(y, w) {
          if w == y { BelowReflexive(y); } else { BelowTransitive(y, z, w); }
        }
        assert IsLeast(y, xs);
      } else {
        assert IsLeast(z, xs);
      }
    }
  }

  lemma LeastUnique(xs: set<string>)
    ensures forall a, b :: IsLeast(a, xs) && IsLeast(b, xs) ==> a == b
  {
    forall a, b | IsLeast(a, xs) && IsLeast(b, xs) ensures a == b {
      BelowAntisymmetric(a, b);
    }
  }

  /** The smallest string of a non-empty set. */
  function Least(xs: set<string>): (x: string)
    requires xs != {}
    ensures IsLeast(x, xs)
  {
    LeastExists(xs);
    LeastUnique(xs);
    var x :| IsLeast(x, xs);
    x
  }

  /** The elements of `xs` in ascending order (Ruby `.sort` of distinct strings). */
  function SortedSet(xs: set<string>): (s: seq<string>)
    ensures |s| == |xs|
    ensures forall x :: x in xs <==> x in s
    ensures Sorted(s) && Distinct(s)
    decreases |xs|
  {
    if xs == {} then []
    else
      var x := Least(xs);
      var rest := SortedSet(xs - {x});
      PrependLeast(x, xs, rest);
      [x] + rest
  }

  lemma PrependLeast(x: string, xs: set<string>, rest: seq<string>)
    requires IsLeast(x, xs) && Sorted(rest) && Distinct(rest)
    requires forall y :: y in rest ==> y in xs - {x}
    ensures Sorted([x] + rest) && Distinct([x] + rest)
  {
    var s := [x] + rest;
    forall i, j | 0 <= i < j < |s| ensures Below(s[i], s[j]) && s[i] != s[j] {
      assert s[j] == rest[j - 1] && rest[j - 1] in rest;
      if i > 0 {
        assert s[i] == rest[i - 1];
      }
    }
  }

  /** `Hash#keys.sort` */
  function SortedKeys<V>(m: map<string, V>): (s: seq<string>)
    ensures |s| == |m|
    ensures forall k :: k in m <==> k in s
    ensures Sorted(s) && Distinct(s)
  {
    SortedSet(m.Keys)
  }
}
