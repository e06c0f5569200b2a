/**
 Ordered access to the keys of a map: the in-order iteration, first key and floor key
 a balanced-tree map offers.
 */
module OrderedKeys {

  predicate IsLeast(s: set<nat>, m: nat) {
    m in s && forall x :: x in s ==> m <= x
  }

  predicate IsGreatest(s: set<nat>, m: nat) {
    m in s && forall x :: x in s ==> x <= m
  }

  function Least(s: set<nat>): (m: nat)
    requires s != {}
    ensures m in s && forall x :: x in s ==> m <= x
  {
    LeastExists(s);
    var m :| IsLeast(s, m);
    m
  }

  function Greatest(s: set<nat>): (m: nat)
    requires s != {}
    ensures m in s && forall x :: x in s ==> x <= m
  {
    GreatestExists(s);
    var m :| IsGreatest(s, m);
    m
  }

  lemma LeastExists(s: set<nat>)
    requires s != {}
    ensures exists m :: IsLeast(s, m)
  {
    var y :| y in s;
    var rest := s - {y};
    assert s == {y} + rest;
    if rest == {} {
      assert IsLeast(s, y);
    } else {
      LeastExists(rest);
      var m :| IsLeast(rest, m);
      assert IsLeast(s, if y <= m then y else m);
    }
  }

  lemma GreatestExists(s: set<nat>)
    requires s != {}
    ensures exists m :: IsGreatest(s, m)
  {
    var y :| y in s;
    var rest := s - {y};
    assert s == {y} + rest;
    if rest == {} {
      assert IsGreatest(s, y);
    } else {
      GreatestExists(rest);
      var m :| IsGreatest(rest, m);
      assert IsGreatest(s, if y <= m then m else y);
    }
  }

  ghost predicate StrictlyAscending(ks: seq<nat>) {
    forall i, j :: 0 <= i < j < |ks| ==> ks[i] < ks[j]
  }

  function Elements(ks: seq<nat>): set<nat> {
    set i | i in ks
  }

  /** The elements of `s` in ascending order, each exactly once. */
  function Sorted(s: set<nat>): (ks: seq<nat>)
    ensures StrictlyAscending(ks)
    ensures forall x :: x in ks <==> x in s
    decreases |s|
  {
    if s == {} then [] else [Least(s)] + Sorted(s - {Least(s)})
  }

  lemma PrefixElements(ks: seq<nat>, n: nat)
    requires StrictlyAscending(ks) && n <= |ks|
    ensures Elements(ks[..0]) == {} && Elements(ks[..|ks|]) == Elements(ks)
    ensures n < |ks| ==> ks[n] !in Elements(ks[..n]) && ks[n] in Elements(ks)
    ensures n < |ks| ==> Elements(ks[..n + 1]) == Elements(ks[..n]) + {ks[n]}
  {
    assert ks[..|ks|] == ks;
  }

  lemma SortedElements(s: set<nat>)
    ensures Elements(Sorted(s)) == s && StrictlyAscending(Sorted(s))
  {
  }
}
