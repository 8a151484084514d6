/** Collapsing a sequence of rows into a map keyed by a column, the way
    every `HashMap.put` loop of MeshJoinProcessor.java does it: a later row
    with the same key overwrites an earlier one. Shared by the transaction
    segmenter (keyed by order id) and the dimension partitions (keyed by
    customer id or product id). */
module Keyed {

  /** Row `i` is the last row carrying its key. */
  ghost predicate LastOf<V>(rows: seq<V>, keyOf: V -> int, i: int)
    requires 0 <= i < |rows|
  {
    forall j :: i < j < |rows| ==> keyOf(rows[j]) != keyOf(rows[i])
  }

  /** The keys that occur in `rows`. */
  function KeySet<V>(rows: seq<V>, keyOf: V -> int): set<int>
  {
    set i | 0 <= i < |rows| :: keyOf(rows[i])
  }

  /** The map built by putting every row, in order, under its key. */
  function LastWins<V>(rows: seq<V>, keyOf: V -> int): map<int, V>
  {
    if |rows| == 0 then map[]
    else LastWins(rows[..|rows| - 1], keyOf)[keyOf(rows[|rows| - 1]) := rows[|rows| - 1]]
  }

  /** The collapsed map holds exactly the keys that occur in `rows`, each
      under a row carrying that key, and has at most one entry per row. */
  lemma {:induction false} LastWinsKeys<V>(rows: seq<V>, keyOf: V -> int)
    ensures LastWins(rows, keyOf).Keys == KeySet(rows, keyOf)
    ensures |LastWins(rows, keyOf)| <= |rows|
    ensures forall k :: k in LastWins(rows, keyOf) ==> keyOf(LastWins(rows, keyOf)[k]) == k
  {
    if |rows| > 0 {
      var pre := rows[..|rows| - 1];
      LastWinsKeys(pre, keyOf);
      assert forall i :: 0 <= i < |pre| ==> pre[i] == rows[i];
      assert KeySet(rows, keyOf) == KeySet(pre, keyOf) + {keyOf(rows[|rows| - 1])} by {
        forall k | k in KeySet(rows, keyOf) ensures k in KeySet(pre, keyOf) + {keyOf(rows[|rows| - 1])} {
          var i :| 0 <= i < |rows| && keyOf(rows[i]) == k;
          if i < |pre| { assert keyOf(pre[i]) == k; }
        }
      }
    }
  }

  /** Putting one more row of a slice updates the map at that row's key. */
  lemma LastWinsExtend<V>(rows: seq<V>, keyOf: V -> int, lo: nat, hi: nat)
    requires lo <= hi < |rows|
    ensures LastWins(rows[lo..hi + 1], keyOf) == LastWins(rows[lo..hi], keyOf)[keyOf(rows[hi]) := rows[hi]]
  {
    assert rows[lo..hi + 1][..hi - lo] == rows[lo..hi];
  }

  /** Last write wins: each key maps to the last row that carries it. */
  lemma {:induction false} LastWinsLast<V>(rows: seq<V>, keyOf: V -> int, i: int)
    requires 0 <= i < |rows| && LastOf(rows, keyOf, i)
    ensures keyOf(rows[i]) in LastWins(rows, keyOf) && LastWins(rows, keyOf)[keyOf(rows[i])] == rows[i]
  {
    var n := |rows|;
    if i < n - 1 {
      var pre := rows[..n - 1];
      assert pre[i] == rows[i];
      assert forall j :: i < j < |pre| ==> pre[j] == rows[j];
      LastWinsLast(pre, keyOf, i);
      assert keyOf(rows[n - 1]) != keyOf(rows[i]);
    }
  }

  /** Every value of the collapsed map is the last row carrying its key. */
  lemma {:induction false} LastWinsFrom<V>(rows: seq<V>, keyOf: V -> int, k: int)
    requires k in LastWins(rows, keyOf)
    ensures exists i :: 0 <= i < |rows| && LastOf(rows, keyOf, i) && rows[i] == LastWins(rows, keyOf)[k]
  {
    var n := |rows|;
    var pre := rows[..n - 1];
    var last := rows[n - 1];
    var m' := LastWins(pre, keyOf);
    assert LastWins(rows, keyOf) == m'[keyOf(last) := last];
    LastWinsKeys(pre, keyOf);
    if k == keyOf(last) {
      assert LastOf(rows, keyOf, n - 1);
    } else {
      assert k in m';
      LastWinsFrom(pre, keyOf, k);
      var i :| 0 <= i < |pre| && LastOf(pre, keyOf, i) && pre[i] == m'[k];
      assert rows[i] == pre[i] && keyOf(pre[i]) == k;
      forall j | i < j < n
        ensures keyOf(rows[j]) != k
      {
        if j < n - 1 {
          assert rows[j] == pre[j];
        }
      }
      assert LastOf(rows, keyOf, i);
    }
  }

  /** The rows that survive collapsing (no later row has their key), in
      their original order. */
  function Survivors<V>(rows: seq<V>, keyOf: V -> int): seq<V>
  {
    if |rows| == 0 then []
    else if exists j :: 1 <= j < |rows| && keyOf(rows[j]) == keyOf(rows[0]) then Survivors(rows[1..], keyOf)
    else [rows[0]] + Survivors(rows[1..], keyOf)
  }

  /** Collapsing never lengthens: there are at most as many survivors as
      rows. */
  lemma {:induction false} SurvivorsShorter<V>(rows: seq<V>, keyOf: V -> int)
    ensures |Survivors(rows, keyOf)| <= |rows|
  {
    if |rows| > 0 {
      SurvivorsShorter(rows[1..], keyOf);
    }
  }

  /** Dropping the first row shifts `LastOf` by one position. */
  lemma LastOfTail<V>(rows: seq<V>, keyOf: V -> int)
    requires |rows| > 0
    ensures forall i :: 1 <= i < |rows| ==> (LastOf(rows, keyOf, i) <==> LastOf(rows[1..], keyOf, i - 1))
  {
    forall i | 1 <= i < |rows|
      ensures LastOf(rows, keyOf, i) <==> LastOf(rows[1..], keyOf, i - 1)
    {
      assert forall j :: i < j < |rows| ==> rows[j] == rows[1..][j - 1];
    }
  }

  /** Every survivor is the last row carrying its key. */
  lemma {:induction false} SurvivorsAreLast<V>(rows: seq<V>, keyOf: V -> int)
    ensures forall a :: 0 <= a < |Survivors(rows, keyOf)| ==>
              exists i :: 0 <= i < |rows| && LastOf(rows, keyOf, i) && rows[i] == Survivors(rows, keyOf)[a]
  {
    if |rows| > 0 {
      var rest := rows[1..];
      var q := Survivors(rest, keyOf);
      var s := Survivors(rows, keyOf);
      SurvivorsAreLast(rest, keyOf);
      LastOfTail(rows, keyOf);
      forall a | 0 <= a < |q|
        ensures exists i :: 0 <= i < |rows| && LastOf(rows, keyOf, i) && rows[i] == q[a]
      {
        var i :| 0 <= i < |rest| && LastOf(rest, keyOf, i) && rest[i] == q[a];
        assert rows[i + 1] == q[a] && LastOf(rows, keyOf, i + 1);
      }
      if s != q {
        assert !exists j :: 1 <= j < |rows| && keyOf(rows[j]) == keyOf(rows[0]);
        assert s == [rows[0]] + q;
        assert LastOf(rows, keyOf, 0);
        forall a | 0 <= a < |s|
          ensures exists i :: 0 <= i < |rows| && LastOf(rows, keyOf, i) && rows[i] == s[a]
        {
          if a > 0 {
            assert s[a] == q[a - 1];
          }
        }
      }
    } else {
      assert Survivors(rows, keyOf) == [];
    }
  }

  /** Every last row of its key survives. */
  lemma {:induction false} LastRowsSurvive<V>(rows: seq<V>, keyOf: V -> int)
    ensures forall i :: 0 <= i < |rows| && LastOf(rows, keyOf, i) ==> rows[i] in Survivors(rows, keyOf)
  {
    if |rows| > 0 {
      var rest := rows[1..];
      var q := Survivors(rest, keyOf);
      LastRowsSurvive(rest, keyOf);
      LastOfTail(rows, keyOf);
      forall i | 0 <= i < |rows| && LastOf(rows, keyOf, i)
        ensures rows[i] in Survivors(rows, keyOf)
      {
        if i == 0 {
          assert !exists j :: 1 <= j < |rows| && keyOf(rows[j]) == keyOf(rows[0]);
        } else {
          assert rows[i] == rest[i - 1] && LastOf(rest, keyOf, i - 1);
          assert rows[i] in q;
        }
      }
    }
  }

  /** No two survivors share a key. */
  lemma {:induction false} SurvivorsDistinct<V>(rows: seq<V>, keyOf: V -> int)
    ensures forall a, b :: 0 <= a < b < |Survivors(rows, keyOf)| ==>
              keyOf(Survivors(rows, keyOf)[a]) != keyOf(Survivors(rows, keyOf)[b])
  {
    if |rows| > 0 {
      var rest := rows[1..];
      var q := Survivors(rest, keyOf);
      var s := Survivors(rows, keyOf);
      SurvivorsDistinct(rest, keyOf);
      if s != q {
        assert !exists j :: 1 <= j < |rows| && keyOf(rows[j]) == keyOf(rows[0]);
        assert s == [rows[0]] + q;
        SurvivorsAreLast(rest, keyOf);
        forall a | 0 <= a < |q|
          ensures keyOf(q[a]) != keyOf(rows[0])
        {
          var i :| 0 <= i < |rest| && LastOf(rest, keyOf, i) && rest[i] == q[a];
          assert rows[i + 1] == q[a];
        }
        forall a, b | 0 <= a < b < |s|
          ensures keyOf(s[a]) != keyOf(s[b])
        {
          assert s[b] == q[b - 1];
          if a > 0 {
            assert s[a] == q[a - 1];
          }
        }
      }
    } else {
      assert Survivors(rows, keyOf) == [];
    }
  }

  /** `q` lists every value of `m` exactly once, each under its own key. */
  ghost predicate Enumerates<V>(q: seq<V>, m: map<int, V>, keyOf: V -> int)
  {
    && (forall i :: 0 <= i < |q| ==> keyOf(q[i]) in m && m[keyOf(q[i])] == q[i])
    && (forall k :: k in m ==> m[k] in q)
    && (forall a, b :: 0 <= a < b < |q| ==> keyOf(q[a]) != keyOf(q[b]))
  }

  /** The surviving rows enumerate the collapsed map. */
  lemma SurvivorsEnumerate<V>(rows: seq<V>, keyOf: V -> int)
    ensures Enumerates(Survivors(rows, keyOf), LastWins(rows, keyOf), keyOf)
  {
    var q := Survivors(rows, keyOf);
    var m := LastWins(rows, keyOf);
    SurvivorsAreLast(rows, keyOf);
    LastRowsSurvive(rows, keyOf);
    SurvivorsDistinct(rows, keyOf);
    LastWinsKeys(rows, keyOf);
    forall i | 0 <= i < |q|
      ensures keyOf(q[i]) in m && m[keyOf(q[i])] == q[i]
    {
      var j :| 0 <= j < |rows| && LastOf(rows, keyOf, j) && rows[j] == q[i];
      LastWinsLast(rows, keyOf, j);
    }
    forall k | k in m
      ensures m[k] in q
    {
      LastWinsFrom(rows, keyOf, k);
      var j :| 0 <= j < |rows| && LastOf(rows, keyOf, j) && rows[j] == m[k];
    }
  }

  /** Values whose keys are distinct and all drawn from `S` number at most
      `|S|`. */
  lemma {:induction false} DistinctKeysBound<V>(q: seq<V>, keyOf: V -> int, S: set<int>)
    requires forall i :: 0 <= i < |q| ==> keyOf(q[i]) in S
    requires forall a, b :: 0 <= a < b < |q| ==> keyOf(q[a]) != keyOf(q[b])
    ensures |q| <= |S|
  {
    if |q| > 0 {
      var n := |q| - 1;
      var x := keyOf(q[n]);
      var q' := q[..n];
      var S' := S - {x};
      forall i | 0 <= i < |q'|
        ensures keyOf(q'[i]) in S'
      {
        assert q'[i] == q[i];
      }
      DistinctKeysBound(q', keyOf, S');
      assert S == S' + {x};
    }
  }

  /** A queue that enumerates a map is no longer than the map. */
  lemma EnumeratesBound<V>(q: seq<V>, m: map<int, V>, keyOf: V -> int)
    requires Enumerates(q, m, keyOf)
    ensures |q| <= |m|
  {
    DistinctKeysBound(q, keyOf, m.Keys);
  }
}
