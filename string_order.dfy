/** Python's ordering of strings (code point by code point, a proper prefix
    first), and the two minimum selections `suggest_correction` makes: the
    smallest distance key and the smallest string of a bucket. */
module StringOrder {

  /** `a < b` on Python strings. */
  predicate LexLess(a: string, b: string)
    decreases |a|
  {
    |b| > 0 && (|a| == 0 || a[0] < b[0] || (a[0] == b[0] && LexLess(a[1..], b[1..])))
  }

  lemma {:induction false} LexLessIrreflexive(a: string)
    ensures !LexLess(a, a)
    decreases |a|
  {
    if |a| > 0 {
      LexLessIrreflexive(a[1..]);
    }
  }

  lemma {:induction false} LexLessTransitive(a: string, b: string, c: string)
    requires LexLess(a, b) && LexLess(b, c)
    ensures LexLess(a, c)
    decreases |a|
  {
    if |a| > 0 && a[0] == b[0] && b[0] == c[0] {
      LexLessTransitive(a[1..], b[1..], c[1..]);
    }
  }

  /** Two different strings are always ordered one way or the other. */
  lemma {:induction false} LexLessTotal(a: string, b: string)
    requires a != b
    ensures LexLess(a, b) || LexLess(b, a)
    decreases |a|
  {
    if |a| > 0 && |b| > 0 && a[0] == b[0] {
      assert a == [a[0]] + a[1..] && b == [b[0]] + b[1..];
      LexLessTotal(a[1..], b[1..]);
    }
  }

  /** The first element of the sorted bucket: the string every other one
      follows. */
  method Smallest(strings: set<string>) returns (m: string)
    requires strings != {}
    ensures m in strings
    ensures forall y :: y in strings && y != m ==> LexLess(m, y)
  {
    m :| m in strings;
    var rest := strings - {m};
    while rest != {}
      invariant m in strings && rest <= strings
      invariant forall y :: y in strings - rest && y != m ==> LexLess(m, y)
      decreases rest
    {
      var y :| y in rest;
      rest := rest - {y};
      if LexLess(y, m) {
        forall z | z in strings - rest && z != y
          ensures LexLess(y, z)
        {
          if z != m {
            LexLessTransitive(y, m, z);
          }
        }
        m := y;
      } else if y != m {
        LexLessTotal(y, m);
      }
    }
  }

  /** Some element of a non-empty set. */
  method Pick<T>(s: set<T>) returns (x: T)
    requires s != {}
    ensures x in s
  {
    x :| x in s;
  }

  /** `min` of a non-empty set of integer keys. */
  method Least(distances: set<int>) returns (m: int)
    requires distances != {}
    ensures m in distances
    ensures forall k :: k in distances ==> m <= k
  {
    m := Pick(distances);
    var rest := distances - {m};
    while rest != {}
      invariant m in distances && rest <= distances
      invariant forall k :: k in distances && k !in rest ==> m <= k
      decreases rest
    {
      var d := Pick(rest);
      rest := rest - {d};
      if d < m {
        m := d;
      }
    }
  }
}
