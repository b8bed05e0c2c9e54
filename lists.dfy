/** Small facts about duplicate-free sequences, used for the open list and the maze's visited list. */
module Lists {

  predicate NoDup<T(==)>(s: seq<T>)
  {
    forall i, j | 0 <= i < j < |s| :: s[i] != s[j]
  }

  function Last<T>(s: seq<T>): T
    requires s != []
  {
    s[|s| - 1]
  }

  function Reverse<T>(s: seq<T>): (r: seq<T>)
    ensures |r| == |s|
    ensures forall i | 0 <= i < |s| :: r[i] == s[|s| - 1 - i]
  {
    seq(|s|, i requires 0 <= i < |s| => s[|s| - 1 - i])
  }

  /** Removing one position of a duplicate-free sequence removes exactly that element. */
  lemma RemoveAtNoDup<T>(s: seq<T>, k: nat)
    requires NoDup(s) && k < |s|
    ensures NoDup(s[..k] + s[k + 1..])
    ensures forall x :: x in s[..k] + s[k + 1..] <==> x in s && x != s[k]
  {
    var r := s[..k] + s[k + 1..];
    assert forall i | 0 <= i < |r| :: r[i] == if i < k then s[i] else s[i + 1];
    forall x
      ensures x in r <==> x in s && x != s[k]
    {
      if x in s && x != s[k] {
        var i :| 0 <= i < |s| && s[i] == x;
        assert r[if i < k then i else i - 1] == x;
      }
    }
  }

  /** Appending an element that is not present keeps a sequence duplicate-free. */
  lemma AppendNoDup<T>(s: seq<T>, x: T)
    requires NoDup(s) && x !in s
    ensures NoDup(s + [x])
  {
  }

  lemma AppendAssoc<T>(a: seq<T>, b: seq<T>, c: seq<T>)
    ensures (a + b) + c == a + (b + c)
  {
  }

  /** A duplicate-free sequence is no longer than any set holding its elements. */
  lemma NoDupLength<T>(s: seq<T>, bound: set<T>)
    requires NoDup(s)
    requires forall x | x in s :: x in bound
    ensures |s| <= |bound|
    decreases |s|
  {
    if s != [] {
      var x := Last(s);
      var t := s[..|s| - 1];
      assert forall y | y in t :: y in bound - {x} by {
        forall y | y in t
          ensures y in bound - {x}
        {
          var i :| 0 <= i < |t| && t[i] == y;
          assert s[i] == y && s[|s| - 1] == x;
        }
      }
      NoDupLength(t, bound - {x});
    }
  }
}
