/** Lexicographic order on strings and the sorted listing of a set of
    paths, standing in for `sort` with `localeCompare`. */
module Order {

  /** `a` sorts strictly before `b`, character by character. */
  predicate LexLess(a: string, b: string)
    decreases |a|
  {
    if a == [] then b != []
    else b != [] && (a[0] < b[0] || (a[0] == b[0] && LexLess(a[1..], b[1..])))
  }

  lemma {:induction false} LexIrreflexive(a: string)
    ensures !LexLess(a, a)
    decreases |a|
  {
    if a != [] {
      LexIrreflexive(a[1..]);
    }
  }

  lemma {:induction false} LexTransitive(a: string, b: string, c: string)
    requires LexLess(a, b) && LexLess(b, c)
    ensures LexLess(a, c)
    decreases |a|
  {
    if a != [] && a[0] == b[0] && b[0] == c[0] {
      LexTransitive(a[1..], b[1..], c[1..]);
    }
  }

  lemma {:induction false} LexTotal(a: string, b: string)
    ensures a == b || LexLess(a, b) || LexLess(b, a)
    decreases |a|
  {
    if a != [] && b != [] && a[0] == b[0] {
      LexTotal(a[1..], b[1..]);
      assert a == [a[0]] + a[1..] && b == [b[0]] + b[1..];
    }
  }

  lemma LexAsymmetric(a: string, b: string)
    requires LexLess(a, b)
    ensures !LexLess(b, a)
  {
    if LexLess(b, a) {
      LexTransitive(a, b, a);
      LexIrreflexive(a);
    }
  }

  function Elements(s: seq<string>): set<string> {
    set x | x in s
  }

  lemma ElementsEmpty(s: seq<string>)
    ensures Elements(s) == {} <==> s == []
  {
    if s != [] { assert s[0] in Elements(s); }
  }

  /** Each element sorts strictly before every later one. */
  predicate StrictlySorted(s: seq<string>) {
    forall i, j :: 0 <= i < j < |s| ==> LexLess(s[i], s[j])
  }

  predicate IsLeast(m: string, s: set<string>) {
    m in s && forall x :: x in s && x != m ==> LexLess(m, x)
  }

  /** Every non-empty finite set of strings has a least element. */
  lemma {:induction false} HasLeast(s: set<string>)
    requires s != {}
    ensures exists m :: IsLeast(m, s)
    decreases s
  {
    var y :| y in s;
    if s == {y} {
      assert IsLeast(y, s);
    } else {
      HasLeast(s - {y});
      var m' :| IsLeast(m', s - {y});
      LexTotal(y, m');
      if LexLess(y, m') {
        forall x | x in s && x != y ensures LexLess(y, x) {
          if x != m' { LexTransitive(y, m', x); }
        }
        assert IsLeast(y, s);
      } else {
        assert IsLeast(m', s);
      }
    }
  }

  lemma LeastUnique(s: set<string>)
    ensures forall m, m' :: IsLeast(m, s) && IsLeast(m', s) ==> m == m'
  {
    forall m, m' | IsLeast(m, s) && IsLeast(m', s) ensures m == m' {
      if m != m' { LexAsymmetric(m, m'); }
    }
  }

  /** Putting a least element in front of a sorted listing of the rest keeps
      it sorted. */
  lemma ConsSorted(m: string, rest: seq<string>, s: set<string>)
    requires IsLeast(m, s) && StrictlySorted(rest) && Elements(rest) == s - {m}
    ensures StrictlySorted([m] + rest) && Elements([m] + rest) == s
  {
    var r := [m] + rest;
    forall x ensures x in Elements(r) <==> x in s {
      assert x in Elements(r) <==> x == m || x in rest;
      assert x in Elements(rest) <==> x in rest;
    }
    forall i, j | 0 <= i < j < |r| ensures LexLess(r[i], r[j]) {
      if i == 0 {
        assert r[j] == rest[j - 1] && rest[j - 1] in Elements(rest);
      } else {
        assert r[i] == rest[i - 1] && r[j] == rest[j - 1];
      }
    }
  }

  /** The element of `s` that sorts first. */
  function Least(s: set<string>): (m: string)
    requires s != {}
    ensures IsLeast(m, s)
  {
    HasLeast(s);
    LeastUnique(s);
    var m :| IsLeast(m, s);
    m
  }

  /** The paths of `s` in ascending order. */
  function SortedPaths(s: set<string>): seq<string>
    decreases s
  {
    if s == {} then [] else [Least(s)] + SortedPaths(s - {Least(s)})
  }

  /** It lists each element of `s` once, in ascending order. */
  lemma {:induction false} SortedPathsShape(s: set<string>)
    ensures Elements(SortedPaths(s)) == s && |SortedPaths(s)| == |s| && StrictlySorted(SortedPaths(s))
    decreases s
  {
    if s != {} {
      SortedPathsShape(s - {Least(s)});
      ConsSorted(Least(s), SortedPaths(s - {Least(s)}), s);
    }
  }

  /** A set has exactly one strictly sorted listing. */
  lemma {:induction false} SortedUnique(a: seq<string>, b: seq<string>)
    requires StrictlySorted(a) && StrictlySorted(b)
    requires Elements(a) == Elements(b)
    ensures a == b
    decreases |a|
  {
    if a != [] && b != [] {
      assert a[0] in Elements(b) && b[0] in Elements(a);
      var ja :| 0 <= ja < |a| && a[ja] == b[0];
      var jb :| 0 <= jb < |b| && b[jb] == a[0];
      assert ja > 0 ==> LexLess(a[0], b[0]);
      assert jb > 0 ==> LexLess(b[0], a[0]);
      LexIrreflexive(a[0]);
      LexIrreflexive(b[0]);
      if ja > 0 && jb > 0 { LexAsymmetric(a[0], b[0]); }
      assert a[0] == b[0];
      forall x ensures x in Elements(a[1..]) <==> x in Elements(b[1..]) {
        LexIrreflexive(x);
        if x in Elements(a[1..]) {
          var i :| 0 <= i < |a[1..]| && a[1..][i] == x;
          assert LexLess(a[0], a[i + 1]);
          assert x in Elements(b);
          var k :| 0 <= k < |b| && b[k] == x;
          assert k != 0;
          assert b[1..][k - 1] == x;
        }
        if x in Elements(b[1..]) {
          var i :| 0 <= i < |b[1..]| && b[1..][i] == x;
          assert LexLess(b[0], b[i + 1]);
          assert x in Elements(a);
          var k :| 0 <= k < |a| && a[k] == x;
          assert k != 0;
          assert a[1..][k - 1] == x;
        }
      }
      SortedUnique(a[1..], b[1..]);
      assert a == [a[0]] + a[1..] && b == [b[0]] + b[1..];
    } else {
      ElementsEmpty(a);
      ElementsEmpty(b);
    }
  }
}
