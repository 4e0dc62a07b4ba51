/** Finite sets of integers: least and greatest elements, and the set listed
    in ascending or descending order. The table's ids and display orders are
    such sets. */
module IntSets {

  /** A non-empty set has an element. */
  lemma Inhabited(s: set<int>)
    requires s != {}
    ensures exists y :: y in s
  {
    if forall y :: y !in s {
      assert false;
    }
  }

  lemma {:induction false} HasLeast(s: set<int>)
    requires s != {}
    ensures exists m :: m in s && forall x | x in s :: m <= x
    decreases |s|
  {
    Inhabited(s);
    var y :| y in s;
    var rest := s - {y};
    if rest == {} {
      assert s == {y};
      assert y in s && forall x | x in s :: y <= x;
    } else {
      HasLeast(rest);
      var m :| m in rest && forall x | x in rest :: m <= x;
      var least := if y < m then y else m;
      forall x | x in s ensures least <= x {
        if x != y { assert x in rest; }
      }
      assert least in s;
    }
  }

  lemma {:induction false} HasGreatest(s: set<int>)
    requires s != {}
    ensures exists m :: m in s && forall x | x in s :: x <= m
    decreases |s|
  {
    Inhabited(s);
    var y :| y in s;
    var rest := s - {y};
    if rest == {} {
      assert s == {y};
      assert y in s && forall x | x in s :: x <= y;
    } else {
      HasGreatest(rest);
      var m :| m in rest && forall x | x in rest :: x <= m;
      var greatest := if m < y then y else m;
      forall x | x in s ensures x <= greatest {
        if x != y { assert x in rest; }
      }
      assert greatest in s;
    }
  }

  /** A position at which `x` occurs in `s`. */
  lemma {:induction false} IndexOf(s: seq<int>, x: int) returns (i: nat)
    requires x in s
    ensures i < |s| && s[i] == x
  {
    if s[0] == x {
      i := 0;
    } else {
      assert x in s[1..];
      var j := IndexOf(s[1..], x);
      i := j + 1;
    }
  }

  function Least(s: set<int>): (m: int)
    requires s != {}
    ensures m in s
    ensures forall x | x in s :: m <= x
  {
    HasLeast(s);
    var m :| m in s && forall x | x in s :: m <= x;
    m
  }

  function Greatest(s: set<int>): (m: int)
    requires s != {}
    ensures m in s
    ensures forall x | x in s :: x <= m
  {
    HasGreatest(s);
    var m :| m in s && forall x | x in s :: x <= m;
    m
  }

  /** The least element of `s` followed by the rest of `s` in ascending
      order lists `s` in ascending order. */
  lemma ConsAscending(s: set<int>, m: int, rest: seq<int>)
    requires m in s && forall x | x in s :: m <= x
    requires |rest| == |s - {m}|
    requires forall i | 0 <= i < |rest| :: rest[i] in s - {m}
    requires forall x | x in s - {m} :: x in rest
    requires forall i, j | 0 <= i < j < |rest| :: rest[i] < rest[j]
    ensures |[m] + rest| == |s|
    ensures forall i | 0 <= i < |[m] + rest| :: ([m] + rest)[i] in s
    ensures forall x | x in s :: x in [m] + rest
    ensures forall i, j | 0 <= i < j < |[m] + rest| :: ([m] + rest)[i] < ([m] + rest)[j]
  {
    var r := [m] + rest;
    forall i, j | 0 <= i < j < |r| ensures r[i] < r[j] {
      assert r[j] == rest[j - 1] && r[j] in s - {m};
      if i > 0 {
        assert r[i] == rest[i - 1];
      }
    }
    forall x | x in s ensures x in r {
      if x != m {
        assert x in rest;
      }
    }
  }

  /** The greatest element of `s` followed by the rest of `s` in descending
      order lists `s` in descending order. */
  lemma ConsDescending(s: set<int>, m: int, rest: seq<int>)
    requires m in s && forall x | x in s :: x <= m
    requires |rest| == |s - {m}|
    requires forall i | 0 <= i < |rest| :: rest[i] in s - {m}
    requires forall x | x in s - {m} :: x in rest
    requires forall i, j | 0 <= i < j < |rest| :: rest[i] > rest[j]
    ensures |[m] + rest| == |s|
    ensures forall i | 0 <= i < |[m] + rest| :: ([m] + rest)[i] in s
    ensures forall x | x in s :: x in [m] + rest
    ensures forall i, j | 0 <= i < j < |[m] + rest| :: ([m] + rest)[i] > ([m] + rest)[j]
  {
    var r := [m] + rest;
    forall i, j | 0 <= i < j < |r| ensures r[i] > r[j] {
      assert r[j] == rest[j - 1] && r[j] in s - {m};
      if i > 0 {
        assert r[i] == rest[i - 1];
      }
    }
    forall x | x in s ensures x in r {
      if x != m {
        assert x in rest;
      }
    }
  }

  /** The elements of `s` in strictly ascending order. */
  function Ascending(s: set<int>): (r: seq<int>)
    ensures |r| == |s|
    ensures forall i | 0 <= i < |r| :: r[i] in s
    ensures forall x | x in s :: x in r
    ensures forall i, j | 0 <= i < j < |r| :: r[i] < r[j]
    decreases |s|
  {
    if s == {} then []
    else
      var m := Least(s);
      var rest := Ascending(s - {m});
      ConsAscending(s, m, rest);
      [m] + rest
  }

  /** The elements of `s` in strictly descending order. */
  function Descending(s: set<int>): (r: seq<int>)
    ensures |r| == |s|
    ensures forall i | 0 <= i < |r| :: r[i] in s
    ensures forall x | x in s :: x in r
    ensures forall i, j | 0 <= i < j < |r| :: r[i] > r[j]
    decreases |s|
  {
    if s == {} then []
    else
      var m := Greatest(s);
      var rest := Descending(s - {m});
      ConsDescending(s, m, rest);
      [m] + rest
  }

  /** The elements of `s` in the order `arrival` first lists them, followed
      by the elements `arrival` leaves out, ascending. Entries of `arrival`
      outside `s`, and repeated entries, are skipped. */
  function Arrange(s: set<int>, arrival: seq<int>): (r: seq<int>)
    ensures |r| == |s|
    ensures forall i | 0 <= i < |r| :: r[i] in s
    ensures forall x | x in s :: x in r
    ensures forall i, j | 0 <= i < j < |r| :: r[i] != r[j]
    decreases |arrival|
  {
    if arrival == [] then
      var r := Ascending(s);
      assert forall i, j | 0 <= i < j < |r| :: r[i] < r[j];
      r
    else if arrival[0] in s then
      var a := arrival[0];
      var rest := Arrange(s - {a}, arrival[1..]);
      assert forall x | x in s && x != a :: x in rest;
      [a] + rest
    else Arrange(s, arrival[1..])
  }

  /** A listing of `s` that names each element once is kept as it is. */
  lemma {:induction false} ArrangeListing(s: set<int>, arrival: seq<int>)
    requires forall i, j | 0 <= i < j < |arrival| :: arrival[i] != arrival[j]
    requires forall i | 0 <= i < |arrival| :: arrival[i] in s
    requires forall x | x in s :: x in arrival
    ensures Arrange(s, arrival) == arrival
    decreases |arrival|
  {
    if arrival != [] {
      var a := arrival[0];
      var tail := arrival[1..];
      assert forall i | 0 <= i < |tail| :: tail[i] == arrival[i + 1];
      forall x | x in s - {a} ensures x in tail {
        var i :| 0 <= i < |arrival| && arrival[i] == x;
        assert i > 0;
        assert tail[i - 1] == x;
      }
      ArrangeListing(s - {a}, tail);
      assert arrival == [a] + tail;
    }
  }
}
