/** Python's ordering of `str` values: lexicographic by code point, a proper
    prefix sorting first. `sorted`, `list.sort` and `max` on strings use it. */
module StringOrder {

  /** `a <= b` on Python strings. */
  predicate Le(a: string, b: string)
  {
    if |a| == 0 then true
    else if |b| == 0 then false
    else if a[0] != b[0] then a[0] < b[0]
    else Le(a[1..], b[1..])
  }

  /** `a < b` on Python strings. */
  predicate Lt(a: string, b: string)
  {
    Le(a, b) && a != b
  }

  lemma {:induction false} LeReflexive(a: string)
    ensures Le(a, a)
    decreases |a|
  {
    if |a| > 0 {
      LeReflexive(a[1..]);
    }
  }

  lemma {:induction false} LeAntisymmetric(a: string, b: string)
    requires Le(a, b) && Le(b, a)
    ensures a == b
    decreases |a|
  {
    if |a| > 0 {
      LeAntisymmetric(a[1..], b[1..]);
      assert a == [a[0]] + a[1..];
      assert b == [b[0]] + b[1..];
    }
  }

  lemma {:induction false} LeTransitive(a: string, b: string, c: string)
    requires Le(a, b) && Le(b, c)
    ensures Le(a, c)
    decreases |a|
  {
    if |a| > 0 && a[0] == b[0] && b[0] == c[0] {
      LeTransitive(a[1..], b[1..], c[1..]);
    }
  }

  lemma {:induction false} LeTotal(a: string, b: string)
    ensures Le(a, b) || Le(b, a)
    decreases |a|
  {
    if |a| > 0 && |b| > 0 && a[0] == b[0] {
      LeTotal(a[1..], b[1..]);
    }
  }

  /** Comparing two strings that start with blocks of the same length is
      decided by the blocks, and by the remainders when the blocks agree. */
  lemma {:induction false} LeAppend(a: string, x: string, b: string, y: string)
    requires |a| == |b|
    ensures Le(a + x, b + y) <==> (if a == b then Le(x, y) else Le(a, b))
    decreases |a|
  {
    if |a| > 0 {
      assert (a + x)[0] == a[0] && (b + y)[0] == b[0];
      assert (a + x)[1..] == a[1..] + x;
      assert (b + y)[1..] == b[1..] + y;
      LeAppend(a[1..], x, b[1..], y);
      if a[0] == b[0] && a[1..] == b[1..] {
        assert a == [a[0]] + a[1..] && b == [b[0]] + b[1..];
      }
    } else {
      assert a + x == x && b + y == y;
    }
  }

  /** The greatest string of a non-empty list: the last element once the list
      is sorted. */
  function Max(xs: seq<string>): (m: string)
    requires |xs| > 0
    ensures m in xs
    ensures forall x :: x in xs ==> Le(x, m)
  {
    if |xs| == 1 then
      LeReflexive(xs[0]);
      xs[0]
    else
      var rest := Max(xs[1..]);
      assert xs == [xs[0]] + xs[1..];
      if Le(xs[0], rest) then
        rest
      else
        LeTotal(xs[0], rest);
        LeReflexive(xs[0]);
        assert forall x :: x in xs[1..] ==> Le(x, xs[0]) by {
          forall x | x in xs[1..]
            ensures Le(x, xs[0])
          {
            LeTransitive(x, rest, xs[0]);
          }
        }
        xs[0]
  }

  /** Any two greatest elements of a list coincide: the maximum is unique. */
  lemma MaxUnique(xs: seq<string>, m: string)
    requires m in xs && forall x :: x in xs ==> Le(x, m)
    ensures |xs| > 0 && m == Max(xs)
  {
    LeAntisymmetric(m, Max(xs));
  }

  predicate StrictlySorted(xs: seq<string>)
  {
    forall i, j :: 0 <= i < j < |xs| ==> Lt(xs[i], xs[j])
  }

  /** The least element of a non-empty set of strings. */
  function Least(s: set<string>): (m: string)
    requires s != {}
    ensures m in s
    ensures forall x :: x in s ==> Le(m, x)
  {
    LeastExists(s);
    LeastIsUnique(s);
    var m :| m in s && forall x :: x in s ==> Le(m, x);
    m
  }

  lemma {:induction false} LeastExists(s: set<string>)
    requires s != {}
    ensures exists m :: m in s && forall x :: x in s ==> Le(m, x)
    decreases |s|
  {
    var y :| y in s;
    var others := s - {y};
    if others == {} {
      forall x | x in s
        ensures Le(y, x)
      {
        assert x !in others;
        LeReflexive(y);
      }
    } else {
      LeastExists(others);
      var m :| m in others && forall x :: x in others ==> Le(m, x);
      if Le(m, y) {
        forall x | x in s
          ensures Le(m, x)
        {
          if x != y {
            assert x in others;
          }
        }
        assert m in s;
      } else {
        LeTotal(m, y);
        forall x | x in s
          ensures Le(y, x)
        {
          if x == y {
            LeReflexive(y);
          } else {
            assert x in others;
            LeTransitive(y, m, x);
          }
        }
      }
    }
  }

  lemma LeastIsUnique(s: set<string>)
    ensures forall m, n ::
              m in s && n in s && (forall x :: x in s ==> Le(m, x)) && (forall x :: x in s ==> Le(n, x))
              ==> m == n
  {
    forall m, n | m in s && n in s && (forall x :: x in s ==> Le(m, x)) && (forall x :: x in s ==> Le(n, x))
      ensures m == n
    {
      LeAntisymmetric(m, n);
    }
  }

  /** The elements of a set in ascending order: `sorted(list(s))`. */
  function SortedSet(s: set<string>): (r: seq<string>)
    ensures forall x :: x in r <==> x in s
    ensures |r| == |s|
    ensures StrictlySorted(r)
    decreases |s|
  {
    if s == {} then []
    else
      var m := Least(s);
      var rest := SortedSet(s - {m});
      assert forall i :: 0 <= i < |rest| ==> Lt(m, rest[i]) by {
        forall i | 0 <= i < |rest|
          ensures Lt(m, rest[i])
        {
          assert rest[i] in s - {m};
        }
      }
      SortedCons(m, rest);
      var r := [m] + rest;
      assert forall x :: x in r <==> x == m || x in rest;
      r
  }

  /** A strictly sorted sequence stays so with a smaller element in front. */
  lemma SortedCons(m: string, rest: seq<string>)
    requires StrictlySorted(rest)
    requires forall i :: 0 <= i < |rest| ==> Lt(m, rest[i])
    ensures StrictlySorted([m] + rest)
  {
    var r := [m] + rest;
    forall i, j | 0 <= i < j < |r|
      ensures Lt(r[i], r[j])
    {
      assert r[j] == rest[j - 1];
      if i > 0 {
        assert r[i] == rest[i - 1];
      }
    }
  }
}
