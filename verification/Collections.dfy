/** Facts about sequences without repetition and about finite sets of numbers. */
module Collections {

  predicate Distinct<T(==)>(s: seq<T>) {
    forall i, j | 0 <= i < j < |s| :: s[i] != s[j]
  }

  function ToSet<T>(s: seq<T>): set<T> {
    set x | x in s
  }

  function Reverse<T>(s: seq<T>): (r: seq<T>)
    ensures |r| == |s| && forall i | 0 <= i < |s| :: r[i] == s[|s| - 1 - i]
  {
    if s == [] then [] else Reverse(s[1..]) + [s[0]]
  }

  lemma ReverseHas<T>(s: seq<T>, x: T)
    ensures x in Reverse(s) <==> x in s
  {
    var r := Reverse(s);
    if x in s {
      var i :| 0 <= i < |s| && s[i] == x;
      assert r[|s| - 1 - i] == x;
    }
  }

  /** A set of numbers that is not empty has a greatest member. */
  lemma {:induction false} MaxExists(s: set<nat>)
    requires s != {}
    ensures exists m :: m in s && forall n | n in s :: n <= m
    decreases s
  {
    var m :| m in s;
    var rest := s - {m};
    if rest == {} {
      assert forall n | n in s :: n == m by {
        forall n | n in s ensures n == m {
          assert n in rest || n == m;
        }
      }
    } else {
      MaxExists(rest);
      var r :| r in rest && forall n | n in rest :: n <= r;
      var top := if m <= r then r else m;
      forall n | n in s ensures n <= top {
        assert n in rest || n == m;
      }
      assert top in s;
    }
  }

  /** ... and a least one. */
  lemma LeastExists(s: set<nat>)
    requires s != {}
    ensures exists m :: m in s && forall n | n in s :: m <= n
  {
    var m :| m in s;
    LeastExistsBelow(s, m);
  }

  lemma LeastExistsBelow(s: set<nat>, m: nat)
    requires m in s
    ensures exists m :: m in s && forall n | n in s :: m <= n
  {
    if k :| k in s && k < m {
      LeastExistsBelow(s, k);
    }
  }
}
