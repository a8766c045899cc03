/**
  The order in which the store lists documents that share a view key: by
  document id, compared character by character. Listing a finite set of ids
  in this order is what turns the store's map of documents into the row
  sequence a view query returns.
 */
module IdOrder {
  import opened Json

  /** Lexicographic `a <= b` on ids. */
  predicate LexLe(a: Id, b: Id)
    decreases |a|
  {
    |a| == 0 || (|b| != 0 && (a[0] < b[0] || (a[0] == b[0] && LexLe(a[1..], b[1..]))))
  }

  lemma {:induction false} LexLeReflexive(a: Id)
    ensures LexLe(a, a)
    decreases |a|
  {
    if |a| != 0 {
      LexLeReflexive(a[1..]);
    }
  }

  lemma {:induction false} LexLeTotal(a: Id, b: Id)
    ensures LexLe(a, b) || LexLe(b, a)
    decreases |a|
  {
    if |a| != 0 && |b| != 0 && a[0] == b[0] {
      LexLeTotal(a[1..], b[1..]);
    }
  }

  lemma {:induction false} LexLeAntisymmetric(a: Id, b: Id)
    requires LexLe(a, b) && LexLe(b, a)
    ensures a == b
    decreases |a|
  {
    if |a| != 0 {
      assert |b| != 0 && a[0] == b[0];
      LexLeAntisymmetric(a[1..], b[1..]);
      assert a == [a[0]] + a[1..] && b == [b[0]] + b[1..];
    }
  }

  lemma {:induction false} LexLeTransitive(a: Id, b: Id, c: Id)
    requires LexLe(a, b) && LexLe(b, c)
    ensures LexLe(a, c)
    decreases |a|
  {
    if |a| != 0 && a[0] == b[0] && b[0] == c[0] {
      LexLeTransitive(a[1..], b[1..], c[1..]);
    }
  }

  /** Every finite non-empty set of ids has a least element. */
  lemma {:induction false} LeastExists(s: set<Id>)
    requires s != {}
    ensures exists m :: m in s && forall x :: x in s ==> LexLe(m, x)
    decreases s
  {
    var y :| y in s;
    LexLeReflexive(y);
    if s != {y} {
      LeastExists(s - {y});
      var m :| m in s - {y} && forall x :: x in s - {y} ==> LexLe(m, x);
      LexLeTotal(m, y);
      if LexLe(m, y) {
        assert forall x :: x in s ==> LexLe(m, x);
      } else {
        forall x | x in s
          ensures LexLe(y, x)
        {
          if x != y {
            LexLeTransitive(y, m, x);
          }
        }
      }
    }
  }

  lemma LexLeAntisymmetricAll()
    ensures forall a, b :: LexLe(a, b) && LexLe(b, a) ==> a == b
  {
    forall a, b | LexLe(a, b) && LexLe(b, a)
      ensures a == b
    {
      LexLeAntisymmetric(a, b);
    }
  }

  /** The least id of a non-empty set: the id of the first row. */
  function Least(s: set<Id>): (m: Id)
    requires s != {}
    ensures m in s
    ensures forall x :: x in s ==> LexLe(m, x)
  {
    LeastExists(s);
    LexLeAntisymmetricAll();
    var m :| m in s && forall x :: x in s ==> LexLe(m, x);
    m
  }

  /** The ids of `s`, each once, in ascending order. */
  function InOrder(s: set<Id>): (r: seq<Id>)
    ensures |r| == |s|
    ensures forall i :: 0 <= i < |r| ==> r[i] in s
    ensures forall x :: x in s ==> x in r
    ensures forall i, j :: 0 <= i < j < |r| ==> LexLe(r[i], r[j]) && r[i] != r[j]
    ensures s != {} ==> r[0] == Least(s)
    decreases |s|
  {
    if s == {} then []
    else
      var m := Least(s);
      [m] + InOrder(s - {m})
  }
}
