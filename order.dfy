/**
 * The order Python's `list.sort()` uses on the registry's course lists:
 * `str` compares lexicographically by code point (a proper prefix sorts
 * first), and a `(course, grade)` tuple compares its course names first and
 * its grades only when the names are equal.
 */
module Order {

  /** One completed course as the registry stores it: the pair (course, grade). */
  type Enrollment = (string, int)

  /** Python's `a <= b` on `str`. */
  predicate StrLe(a: string, b: string)
  {
    if a == [] then true
    else if b == [] then false
    else if a[0] != b[0] then a[0] < b[0]
    else StrLe(a[1..], b[1..])
  }

  /** Python's `x <= y` on a `(str, int)` tuple. */
  predicate Le(x: Enrollment, y: Enrollment)
  {
    if x.0 == y.0 then x.1 <= y.1 else StrLe(x.0, y.0)
  }

  lemma {:induction false} StrLeReflexive(a: string)
    ensures StrLe(a, a)
  {
    if a != [] {
      StrLeReflexive(a[1..]);
    }
  }

  lemma {:induction false} StrLeTotal(a: string, b: string)
    ensures StrLe(a, b) || StrLe(b, a)
  {
    if a != [] && b != [] && a[0] == b[0] {
      StrLeTotal(a[1..], b[1..]);
    }
  }

  lemma {:induction false} StrLeAntisymmetric(a: string, b: string)
    requires StrLe(a, b) && StrLe(b, a)
    ensures a == b
  {
    if a != [] && b != [] {
      StrLeAntisymmetric(a[1..], b[1..]);
      assert a == [a[0]] + a[1..] && b == [b[0]] + b[1..];
    }
  }

  lemma {:induction false} StrLeTransitive(a: string, b: string, c: string)
    requires StrLe(a, b) && StrLe(b, c)
    ensures StrLe(a, c)
  {
    if a != [] && a[0] == b[0] && b[0] == c[0] {
      StrLeTransitive(a[1..], b[1..], c[1..]);
    }
  }

  lemma LeReflexive(x: Enrollment)
    ensures Le(x, x)
  {
  }

  lemma LeTotal(x: Enrollment, y: Enrollment)
    ensures Le(x, y) || Le(y, x)
  {
    StrLeTotal(x.0, y.0);
  }

  lemma LeAntisymmetric(x: Enrollment, y: Enrollment)
    requires Le(x, y) && Le(y, x)
    ensures x == y
  {
    if x.0 != y.0 {
      StrLeAntisymmetric(x.0, y.0);
    }
  }

  lemma LeTransitive(x: Enrollment, y: Enrollment, z: Enrollment)
    requires Le(x, y) && Le(y, z)
    ensures Le(x, z)
  {
    if x.0 != y.0 && y.0 != z.0 {
      StrLeTransitive(x.0, y.0, z.0);
      if x.0 == z.0 {
        StrLeAntisymmetric(x.0, y.0);
      }
    }
  }
}
