/**
 * Reassembly of the result table. Finished units of work store their results
 * in a map keyed by request index, in whatever order they complete; the batch
 * returns the table's values read out in ascending key order.
 */
module Reassembly {
  import opened Retrying

  /** The indices of a request list of length `n`. */
  function Range(n: nat): (s: set<nat>)
    ensures forall i: nat :: i in s <==> i < n
    ensures |s| == n
  {
    if n == 0 then {} else Range(n - 1) + {n - 1}
  }

  ghost predicate Increasing(ks: seq<nat>)
  {
    forall i, j :: 0 <= i < j < |ks| ==> ks[i] < ks[j]
  }

  lemma {:induction false} LeastExists(s: set<nat>)
    requires s != {}
    ensures exists m :: m in s && forall x :: x in s ==> m <= x
  {
    var y :| y in s;
    if s != {y} {
      var rest := s - {y};
      LeastExists(rest);
      var m :| m in rest && forall x :: x in rest ==> m <= x;
      var least := if y < m then y else m;
      forall x | x in s
        ensures least <= x
      {
        if x != y {
          assert x in rest;
        }
      }
      assert least in s;
    } else {
      assert forall x :: x in s ==> y <= x;
    }
  }

  /** The smallest key of a nonempty key set. */
  function Least(s: set<nat>): (m: nat)
    requires s != {}
    ensures m in s && forall x :: x in s ==> m <= x
  {
    LeastExists(s);
    var m :| m in s && forall x :: x in s ==> m <= x; m
  }

  /** The keys of a table in ascending order, as sorting its items orders them. */
  function SortedKeys(s: set<nat>): (ks: seq<nat>)
    ensures |ks| == |s|
    ensures forall k :: k in ks <==> k in s
    ensures Increasing(ks)
    decreases s
  {
    if s == {} then []
    else
      var m := Least(s);
      [m] + SortedKeys(s - {m})
  }

  /** The table's values read out in ascending key order. */
  function Readout<R>(table: map<nat, R>): (vs: seq<R>)
    ensures |vs| == |table|
  {
    var ks := SortedKeys(table.Keys);
    assert |table.Keys| == |table|;
    seq(|ks|, i requires 0 <= i < |ks| => table[ks[i]])
  }

  /** Between positions i <= j an increasing sequence of keys climbs by at least j - i. */
  lemma {:induction false} IncreasingGap(ks: seq<nat>, i: nat, j: nat)
    requires Increasing(ks)
    requires i <= j < |ks|
    ensures ks[j] - ks[i] >= j - i
    decreases j - i
  {
    if i < j {
      IncreasingGap(ks, i + 1, j);
    }
  }

  /** An increasing list of n keys whose last key is below n is 0, 1, ..., n-1. */
  lemma PositionIsKey(ks: seq<nat>, i: nat)
    requires Increasing(ks)
    requires i < |ks| && ks[|ks| - 1] < |ks|
    ensures ks[i] == i
  {
    IncreasingGap(ks, 0, i);
    IncreasingGap(ks, i, |ks| - 1);
  }

  /** The sorted key set {0, ..., n-1} is 0, 1, ..., n-1. */
  lemma RangeSortsToIdentity(n: nat)
    ensures |SortedKeys(Range(n))| == n
    ensures forall i :: 0 <= i < n ==> SortedKeys(Range(n))[i] == i
  {
    var ks := SortedKeys(Range(n));
    if n > 0 {
      assert ks[n - 1] in Range(n);
      forall i | 0 <= i < n
        ensures ks[i] == i
      {
        PositionIsKey(ks, i);
      }
    }
  }

  /**
   * A table holding exactly the keys 0, ..., n-1 reads out as the list whose
   * element i is the entry under key i.
   */
  lemma ReadoutOfFullTable<R>(table: map<nat, R>, n: nat)
    requires table.Keys == Range(n)
    ensures |Readout(table)| == n
    ensures forall i :: 0 <= i < n ==> Readout(table)[i] == table[i]
  {
    RangeSortsToIdentity(n);
  }

  lemma FirstIsMember(s: seq<nat>)
    requires s != []
    ensures s[0] in s
  {
  }

  /** The first of an increasing list is its least member. */
  lemma HeadIsLeast(a: seq<nat>, x: nat)
    requires Increasing(a) && a != [] && x in a
    ensures a[0] <= x
  {
    var i :| 0 <= i < |a| && a[i] == x;
    assert i == 0 || a[0] < a[i];
  }

  /** Dropping the head of an increasing list drops exactly that member. */
  lemma TailMembers(a: seq<nat>, x: nat)
    requires Increasing(a) && a != []
    ensures Increasing(a[1..])
    ensures x in a[1..] <==> x in a && x != a[0]
  {
    if x in a && x != a[0] {
      var i :| 0 <= i < |a| && a[i] == x;
      assert a[1..][i - 1] == x;
    }
  }

  /** Two increasing key lists with the same members are equal: sorting has one answer. */
  lemma {:induction false} IncreasingUnique(a: seq<nat>, b: seq<nat>)
    requires Increasing(a) && Increasing(b)
    requires forall k :: k in a <==> k in b
    ensures a == b
    decreases |a|
  {
    if a == [] {
      if b != [] {
        FirstIsMember(b);
        assert false;
      }
    } else if b == [] {
      FirstIsMember(a);
      assert false;
    } else {
      FirstIsMember(a);
      FirstIsMember(b);
      HeadIsLeast(a, b[0]);
      HeadIsLeast(b, a[0]);
      forall x
        ensures x in a[1..] <==> x in b[1..]
      {
        TailMembers(a, x);
        TailMembers(b, x);
      }
      TailMembers(a, 0);
      TailMembers(b, 0);
      IncreasingUnique(a[1..], b[1..]);
      assert a == [a[0]] + a[1..];
      assert b == [b[0]] + b[1..];
    }
  }

  /**
   * A table missing the single index j below n reads out one element short:
   * entries before j keep their positions, and every later entry moves one
   * position down, so position i >= j holds the entry under key i + 1.
   */
  lemma MissingKeyShifts<R>(table: map<nat, R>, n: nat, j: nat)
    requires j < n
    requires forall k: nat :: k in table <==> k < n && k != j
    ensures |Readout(table)| == n - 1
    ensures forall i :: 0 <= i < j ==> Readout(table)[i] == table[i]
    ensures forall i :: j <= i < n - 1 ==> Readout(table)[i] == table[i + 1]
  {
    var ks := SortedKeys(table.Keys);
    SkipSorts(table.Keys, n, j);
    forall i | 0 <= i < j
      ensures Readout(table)[i] == table[i]
    {
      ShiftAt(table, ks, i);
    }
    forall i | j <= i < n - 1
      ensures Readout(table)[i] == table[i + 1]
    {
      ShiftAt(table, ks, i);
    }
  }

  lemma ShiftAt<R>(table: map<nat, R>, ks: seq<nat>, i: nat)
    requires SortedKeys(table.Keys) == ks
    requires i < |ks|
    ensures |Readout(table)| == |ks|
    ensures ks[i] in table
    ensures Readout(table)[i] == table[ks[i]]
  {
    ReadoutAt(table, i);
  }

  /** Position i of the readout holds the entry under the i-th smallest key. */
  lemma ReadoutAt<R>(table: map<nat, R>, i: nat)
    requires i < |table|
    ensures |SortedKeys(table.Keys)| == |table|
    ensures Readout(table)[i] == table[SortedKeys(table.Keys)[i]]
  {
    assert |table.Keys| == |table|;
  }

  /** The keys 0..n-1 without j, in ascending order. */
  function Skip(n: nat, j: nat): (e: seq<nat>)
    requires j < n
    ensures |e| == n - 1
    ensures forall i :: 0 <= i < j ==> e[i] == i
    ensures forall i :: j <= i < n - 1 ==> e[i] == i + 1
  {
    seq(n - 1, i requires 0 <= i < n - 1 => if i < j then i else i + 1)
  }

  lemma SkipSorts(s: set<nat>, n: nat, j: nat)
    requires j < n
    requires forall k: nat :: k in s <==> k < n && k != j
    ensures SortedKeys(s) == Skip(n, j)
  {
    var e := Skip(n, j);
    forall x
      ensures x in e <==> x in s
    {
      if x in s {
        if x < j {
          assert e[x] == x;
        } else {
          assert e[x - 1] == x;
        }
      }
    }
    IncreasingUnique(SortedKeys(s), e);
  }

  /**
   * The table a batch ends with once every unit of work has finished: an entry
   * under index i exactly when the handler succeeded on request i.
   */
  function Succeeded<Q, R, E>(reqList: seq<Q>, handler: Q -> Attempt<R, E>): (m: map<nat, R>)
    ensures forall i: nat :: i in m <==> i < |reqList| && handler(reqList[i]).Ok?
    ensures forall i :: i in m ==> m[i] == handler(reqList[i]).value
  {
    map i: nat | i < |reqList| && handler(reqList[i]).Ok? :: handler(reqList[i]).value
  }

  /**
   * The table after units of work finished in the order `order`: each one
   * whose handler succeeded stores its result under its own index, and a
   * failed one stores nothing.
   */
  function Collect<Q, R, E>(order: seq<nat>, reqList: seq<Q>, handler: Q -> Attempt<R, E>): (table: map<nat, R>)
    requires forall k :: 0 <= k < |order| ==> order[k] < |reqList|
    ensures forall i :: i in table <==> i in order && i < |reqList| && handler(reqList[i]).Ok?
    ensures forall i :: i in table ==> table[i] == handler(reqList[i]).value
  {
    if order == [] then map[]
    else
      var last := order[|order| - 1];
      var earlier := Collect(order[..|order| - 1], reqList, handler);
      match handler(reqList[last])
      case Ok(v) => earlier[last := v]
      case Fail(_) => earlier
  }

  /**
   * Whatever order the units of work complete in, once every index has
   * completed the table is the same: the successful results under their indices.
   */
  lemma AnyCompletionOrder<Q, R, E>(order: seq<nat>, reqList: seq<Q>, handler: Q -> Attempt<R, E>)
    requires forall k :: 0 <= k < |order| ==> order[k] < |reqList|
    requires forall i :: 0 <= i < |reqList| ==> i in order
    ensures Collect(order, reqList, handler) == Succeeded(reqList, handler)
  {
    var table, full := Collect(order, reqList, handler), Succeeded(reqList, handler);
    assert forall i :: i in table <==> i in full;
  }

  /** When every handler call succeeds the readout is every result, in input order. */
  lemma AllSucceededInOrder<Q, R, E>(reqList: seq<Q>, handler: Q -> Attempt<R, E>)
    requires forall i :: 0 <= i < |reqList| ==> handler(reqList[i]).Ok?
    ensures |Readout(Succeeded(reqList, handler))| == |reqList|
    ensures forall i :: 0 <= i < |reqList| ==> Readout(Succeeded(reqList, handler))[i] == handler(reqList[i]).value
  {
    var table := Succeeded(reqList, handler);
    assert table.Keys == Range(|reqList|);
    ReadoutOfFullTable(table, |reqList|);
  }

  /**
   * When the handler fails on request j alone the readout is one element
   * short, and every result after position j sits one position too early.
   */
  lemma OneFailureShifts<Q, R, E>(reqList: seq<Q>, handler: Q -> Attempt<R, E>, j: nat)
    requires j < |reqList| && handler(reqList[j]).Fail?
    requires forall i :: 0 <= i < |reqList| && i != j ==> handler(reqList[i]).Ok?
    ensures |Readout(Succeeded(reqList, handler))| == |reqList| - 1
    ensures forall i :: 0 <= i < j ==> Readout(Succeeded(reqList, handler))[i] == handler(reqList[i]).value
    ensures forall i :: j <= i < |reqList| - 1 ==> Readout(Succeeded(reqList, handler))[i] == handler(reqList[i + 1]).value
  {
    var table := Succeeded(reqList, handler);
    forall k: nat
      ensures k in table <==> k < |reqList| && k != j
    {
      if k < |reqList| && k != j {
        assert handler(reqList[k]).Ok?;
      }
    }
    MissingKeyShifts(table, |reqList|, j);
  }

  /** A concrete batch: the middle one of three requests fails, and the third result takes its place. */
  lemma MiddleFailureShifts()
    ensures Readout(Succeeded<int, int, string>([10, 11, 12], (q: int) => if q == 11 then Fail("timeout") else Ok(q))) == [10, 12]
  {
    var h := (q: int) => if q == 11 then Fail("timeout") else Ok(q);
    OneFailureShifts<int, int, string>([10, 11, 12], h, 1);
  }

  /** When every handler call fails the readout is empty. */
  lemma NoneSucceededReadsEmpty<Q, R, E>(reqList: seq<Q>, handler: Q -> Attempt<R, E>)
    requires forall i :: 0 <= i < |reqList| ==> handler(reqList[i]).Fail?
    ensures Readout(Succeeded(reqList, handler)) == []
  {
    assert Succeeded(reqList, handler) == map[];
  }

  lemma SubsetSize(a: set<nat>, b: set<nat>)
    requires a <= b
    ensures |a| <= |b|
  {
    assert b == a + (b - a);
  }

  /** The readout has one element per request exactly when no handler call failed. */
  lemma FullLengthIffAllSucceeded<Q, R, E>(reqList: seq<Q>, handler: Q -> Attempt<R, E>)
    ensures |Readout(Succeeded(reqList, handler))| == |reqList| <==>
            forall i :: 0 <= i < |reqList| ==> handler(reqList[i]).Ok?
  {
    var table := Succeeded(reqList, handler);
    if i :| 0 <= i < |reqList| && handler(reqList[i]).Fail? {
      SubsetSize(table.Keys, Range(|reqList|) - {i});
      assert |table.Keys| == |table|;
    } else {
      AllSucceededInOrder(reqList, handler);
    }
  }
}
