/** The rotating dimension buffers of `meshJoin` (`loadCustomerPartition`,
    `loadProductPartition` and the refresh blocks that call them). A buffer
    holds one window of a source table, keyed by the table's id column, and
    the offset at which the next window starts. */
module Partition {
  import opened Keyed

  datatype Buffer<V> = Buffer(contents: map<int, V>, offset: nat)

  /** The buffer at engine start: empty, reading from the first row. */
  function EmptyBuffer<V>(): Buffer<V>
  {
    Buffer(map[], 0)
  }

  /** The rows `LIMIT offset, limit` returns: the table from row `offset`
      on, at most `limit` rows. */
  function Window<V>(table: seq<V>, offset: nat, limit: nat): (w: seq<V>)
    ensures |w| <= limit
    ensures |w| == limit || offset + |w| >= |table|
    ensures forall i :: 0 <= i < |w| ==> offset + i < |table| && w[i] == table[offset + i]
  {
    if offset >= |table| then []
    else if offset + limit <= |table| then table[offset..offset + limit]
    else table[offset..]
  }

  /** A freshly loaded partition: the window's rows keyed by id. */
  function LoadPartition<V>(table: seq<V>, keyOf: V -> int, offset: nat, limit: nat): (m: map<int, V>)
    ensures |m| <= limit
    ensures m.Keys == set i | offset <= i < |table| && i < offset + limit :: keyOf(table[i])
    ensures forall k :: k in m ==> keyOf(m[k]) == k
    ensures forall k :: k in m ==> exists i :: offset <= i < |table| && i < offset + limit && table[i] == m[k]
  {
    var w := Window(table, offset, limit);
    LastWinsKeys(w, keyOf);
    var m := LastWins(w, keyOf);
    assert m.Keys == set i | offset <= i < |table| && i < offset + limit :: keyOf(table[i]) by {
      forall k | k in set i | offset <= i < |table| && i < offset + limit :: keyOf(table[i])
        ensures k in m
      {
        var i :| offset <= i < |table| && i < offset + limit && keyOf(table[i]) == k;
        assert keyOf(w[i - offset]) == k;
      }
    }
    forall k | k in m
      ensures exists i :: offset <= i < |table| && i < offset + limit && table[i] == m[k]
    {
      LastWinsFrom(w, keyOf, k);
      var j :| 0 <= j < |w| && LastOf(w, keyOf, j) && w[j] == m[k];
      assert table[offset + j] == m[k];
    }
    m
  }

  /** The offset after a refresh: advanced by `limit`, back to 0 once it
      reaches the table's row count. */
  function NextOffset(offset: nat, limit: nat, rowCount: nat): (o: nat)
    ensures o == 0 || o == offset + limit
    ensures o < rowCount || o == 0
    ensures offset + limit < rowCount ==> o != 0 || offset + limit == 0
  {
    if offset + limit >= rowCount then 0 else offset + limit
  }

  /** Replaces the buffer with the window at its offset and rotates the
      offset. The old contents play no part: a refresh never merges. */
  function Refresh<V>(table: seq<V>, keyOf: V -> int, b: Buffer<V>, limit: nat): (b': Buffer<V>)
    ensures b'.contents == LoadPartition(table, keyOf, b.offset, limit)
    ensures |b'.contents| <= limit
    ensures |table| == 0 ==> b'.contents == map[]
    ensures b'.offset == NextOffset(b.offset, limit, |table|)
  {
    Buffer(LoadPartition(table, keyOf, b.offset, limit), NextOffset(b.offset, limit, |table|))
  }

  /** The refresh-on-miss policy: the buffer is reloaded only when `key` is
      not in it; on a hit both the contents and the offset stay as they
      are. */
  function EnsureBuffered<V>(table: seq<V>, keyOf: V -> int, b: Buffer<V>, limit: nat, key: int): (b': Buffer<V>)
    ensures key in b.contents ==> b' == b
    ensures key !in b.contents ==> b' == Refresh(table, keyOf, b, limit)
  {
    if key in b.contents then b else Refresh(table, keyOf, b, limit)
  }

  /** The offset invariant of a rotating buffer: a multiple of the partition
      size, and inside the table unless it is 0. */
  ghost predicate Aligned(offset: nat, limit: nat, rowCount: nat)
  {
    limit > 0 && offset % limit == 0 && (offset == 0 || offset < rowCount)
  }

  /** A refresh keeps the offset aligned, and the offset stays strictly
      below the row count of a non-empty table. */
  lemma RefreshKeepsAligned<V>(table: seq<V>, keyOf: V -> int, b: Buffer<V>, limit: nat)
    requires Aligned(b.offset, limit, |table|)
    ensures Aligned(Refresh(table, keyOf, b, limit).offset, limit, |table|)
    ensures |table| > 0 ==> Refresh(table, keyOf, b, limit).offset < |table|
  {
    var o := NextOffset(b.offset, limit, |table|);
    if o != 0 {
      MultipleStep(b.offset, limit);
    }
  }

  /** What the engine keeps true of a buffer between lookups: an aligned
      offset, at most `limit` entries, and every entry a row of the table
      filed under that row's own id. */
  ghost predicate BufferInv<V>(table: seq<V>, keyOf: V -> int, b: Buffer<V>, limit: nat)
  {
    && Aligned(b.offset, limit, |table|)
    && |b.contents| <= limit
    && forall k :: k in b.contents ==> exists i :: 0 <= i < |table| && table[i] == b.contents[k] && keyOf(table[i]) == k
  }

  /** Looking a key up, refreshing on a miss, keeps the buffer invariant. */
  lemma EnsureBufferedKeepsInv<V>(table: seq<V>, keyOf: V -> int, b: Buffer<V>, limit: nat, key: int)
    requires BufferInv(table, keyOf, b, limit)
    ensures BufferInv(table, keyOf, EnsureBuffered(table, keyOf, b, limit, key), limit)
  {
    if key !in b.contents {
      RefreshKeepsAligned(table, keyOf, b, limit);
      var b' := Refresh(table, keyOf, b, limit);
      forall k | k in b'.contents
        ensures exists i :: 0 <= i < |table| && table[i] == b'.contents[k] && keyOf(table[i]) == k
      {
        var i :| b.offset <= i < |table| && i < b.offset + limit && table[i] == b'.contents[k];
      }
    }
  }

  /** A buffer that keeps the invariant files every row under its own id. */
  lemma BufferKeyed<V>(table: seq<V>, keyOf: V -> int, b: Buffer<V>, limit: nat)
    requires BufferInv(table, keyOf, b, limit)
    ensures forall k :: k in b.contents ==> keyOf(b.contents[k]) == k
  {
    forall k | k in b.contents
      ensures keyOf(b.contents[k]) == k
    {
      var i :| 0 <= i < |table| && table[i] == b.contents[k] && keyOf(table[i]) == k;
    }
  }

  /** A buffer that keeps the invariant only ever holds ids of the table:
      a key the table lacks is never found, however often it refreshes. */
  lemma BufferedKeysInTable<V>(table: seq<V>, keyOf: V -> int, b: Buffer<V>, limit: nat, key: int)
    requires BufferInv(table, keyOf, b, limit)
    requires key !in KeySet(table, keyOf)
    ensures key !in EnsureBuffered(table, keyOf, b, limit, key).contents
  {
    EnsureBufferedKeepsInv(table, keyOf, b, limit, key);
  }

  // Arithmetic helpers for the offset arithmetic.

  lemma MulAtLeast(x: int, l: int)
    requires x >= 1 && l > 0
    ensures x * l >= l
  {
  }

  lemma MulMonotone(x: int, y: int, l: int)
    requires x <= y && l > 0
    ensures x * l <= y * l
  {
    if x < y {
      MulAtLeast(y - x, l);
      assert y * l - x * l == (y - x) * l;
    }
  }

  lemma ModOfMultiple(j: int, l: int)
    requires l > 0
    ensures (j * l) % l == 0
  {
    var r := (j * l) % l;
    var d := (j * l) / l;
    assert j * l == d * l + r;
    assert (j - d) * l == r;
    if j - d >= 1 {
      MulAtLeast(j - d, l);
    } else if j - d <= -1 {
      assert (d - j) * l == -r;
      MulAtLeast(d - j, l);
    }
  }

  lemma MultipleStep(a: nat, l: nat)
    requires l > 0 && a % l == 0
    ensures (a + l) % l == 0
  {
    var q := a / l;
    assert a == q * l;
    assert a + l == (q + 1) * l;
    ModOfMultiple(q + 1, l);
  }

  /** Number of windows a table of `rowCount` rows is cut into. */
  function WindowCount(rowCount: nat, limit: nat): nat
    requires limit > 0
  {
    (rowCount + limit - 1) / limit
  }

  /** The last window starts inside the table and reaches its end. */
  lemma WindowCountBounds(rowCount: nat, limit: nat)
    requires limit > 0 && rowCount > 0
    ensures WindowCount(rowCount, limit) >= 1
    ensures (WindowCount(rowCount, limit) - 1) * limit < rowCount <= WindowCount(rowCount, limit) * limit
  {
    var p := WindowCount(rowCount, limit);
    var r := (rowCount + limit - 1) % limit;
    assert rowCount + limit - 1 == p * limit + r;
    assert (p - 1) * limit == p * limit - limit;
  }

  /** The window a row falls in, and the window an aligned offset starts. */
  lemma WindowOf(i: nat, limit: nat, rowCount: nat)
    requires limit > 0 && i < rowCount
    ensures i / limit < WindowCount(rowCount, limit)
    ensures (i / limit) * limit <= i < (i / limit) * limit + limit
  {
    var p := WindowCount(rowCount, limit);
    WindowCountBounds(rowCount, limit);
    var w := i / limit;
    assert i == w * limit + i % limit;
    if w >= p {
      MulMonotone(p, w, limit);
    }
  }

  lemma AlignedWindow(offset: nat, limit: nat, rowCount: nat) returns (j: nat)
    requires Aligned(offset, limit, rowCount) && rowCount > 0
    ensures j < WindowCount(rowCount, limit) && offset == j * limit
  {
    j := offset / limit;
    WindowOf(offset, limit, rowCount);
    assert offset == j * limit + offset % limit;
  }

  lemma RowWindow(i: nat, limit: nat, rowCount: nat) returns (w: nat)
    requires limit > 0 && i < rowCount
    ensures w < WindowCount(rowCount, limit) && w * limit <= i < w * limit + limit
  {
    w := i / limit;
    WindowOf(i, limit, rowCount);
  }

  /** One rotation step in window-index terms. */
  lemma NextWindow(w: nat, limit: nat, rowCount: nat)
    requires limit > 0 && rowCount > 0 && w < WindowCount(rowCount, limit)
    ensures w + 1 < WindowCount(rowCount, limit) ==> NextOffset(w * limit, limit, rowCount) == (w + 1) * limit
    ensures w + 1 == WindowCount(rowCount, limit) ==> NextOffset(w * limit, limit, rowCount) == 0
  {
    var p := WindowCount(rowCount, limit);
    WindowCountBounds(rowCount, limit);
    assert w * limit + limit == (w + 1) * limit;
    if w + 1 < p {
      MulMonotone(w + 1, p - 1, limit);
    }
  }

  /** The buffer after `t` refreshes. */
  function RefreshN<V>(table: seq<V>, keyOf: V -> int, b: Buffer<V>, limit: nat, t: nat): Buffer<V>
  {
    if t == 0 then b else Refresh(table, keyOf, RefreshN(table, keyOf, b, limit, t - 1), limit)
  }

  /** Window index after `t` refreshes starting from window `j` of `p`. */
  function Rotated(j: nat, p: nat, t: nat): nat
  {
    if j + t < p then j + t else j + t - p
  }

  /** The offset after `t` refreshes. */
  function Rotate(offset: nat, limit: nat, rowCount: nat, t: nat): nat
  {
    if t == 0 then offset else NextOffset(Rotate(offset, limit, rowCount, t - 1), limit, rowCount)
  }

  lemma {:induction false} RefreshNRotates<V>(table: seq<V>, keyOf: V -> int, b: Buffer<V>, limit: nat, t: nat)
    ensures RefreshN(table, keyOf, b, limit, t).offset == Rotate(b.offset, limit, |table|, t)
  {
    if t > 0 {
      RefreshNRotates(table, keyOf, b, limit, t - 1);
    }
  }

  /** Each refresh of an aligned buffer moves to the next window, and from
      the last window back to the first; after one full cycle the offset is
      back where it started. */
  lemma {:induction false} RotateCycles(j: nat, limit: nat, rowCount: nat, t: nat)
    requires limit > 0 && rowCount > 0
    requires j < WindowCount(rowCount, limit) && t <= WindowCount(rowCount, limit)
    ensures t < WindowCount(rowCount, limit) ==>
              Rotate(j * limit, limit, rowCount, t) == Rotated(j, WindowCount(rowCount, limit), t) * limit
    ensures t == WindowCount(rowCount, limit) ==> Rotate(j * limit, limit, rowCount, t) == j * limit
  {
    if t > 0 {
      RotateCycles(j, limit, rowCount, t - 1);
      NextWindow(Rotated(j, WindowCount(rowCount, limit), t - 1), limit, rowCount);
    }
  }

  /** `x % p` is the remainder of any split of `x` into `p`-blocks. */
  lemma ModUnique(x: int, d: int, p: int, r: int)
    requires p > 0 && x == d * p + r && 0 <= r < p
    ensures x % p == r
  {
    var d', r' := x / p, x % p;
    assert x == d' * p + r';
    assert (d - d') * p == r' - r;
    if d - d' >= 1 {
      MulAtLeast(d - d', p);
    } else if d - d' <= -1 {
      assert (d' - d) * p == r - r';
      MulAtLeast(d' - d, p);
    }
  }

  /** Counting on by one, modulo `p`. */
  lemma ModSucc(x: nat, p: nat)
    requires p > 0
    ensures (x + 1) % p == if x % p + 1 < p then x % p + 1 else 0
  {
    var d, r := x / p, x % p;
    assert x == d * p + r;
    if r + 1 < p {
      ModUnique(x + 1, d, p, r + 1);
    } else {
      assert x + 1 == (d + 1) * p + 0;
      ModUnique(x + 1, d + 1, p, 0);
    }
  }

  /** The closed form of rotation for any number of refreshes: `t`
      refreshes from window `j` of `p` land on window `(j + t) mod p`, so
      from offset 0 the offset after `t` refreshes is `(t mod p) * limit`. */
  lemma {:induction false} RotateForever(j: nat, limit: nat, rowCount: nat, t: nat)
    requires limit > 0 && rowCount > 0 && j < WindowCount(rowCount, limit)
    ensures Rotate(j * limit, limit, rowCount, t) == ((j + t) % WindowCount(rowCount, limit)) * limit
  {
    var p := WindowCount(rowCount, limit);
    if t == 0 {
      ModUnique(j, 0, p, j);
    } else {
      RotateForever(j, limit, rowCount, t - 1);
      var w := (j + t - 1) % p;
      NextWindow(w, limit, rowCount);
      ModSucc(j + t - 1, p);
    }
  }

  /** Within one cycle the rotation reaches the window of every row. */
  lemma RotationReaches(offset: nat, limit: nat, rowCount: nat, i: nat)
    returns (t: nat)
    requires Aligned(offset, limit, rowCount) && i < rowCount
    ensures t < WindowCount(rowCount, limit)
    ensures Rotate(offset, limit, rowCount, t) <= i < Rotate(offset, limit, rowCount, t) + limit
  {
    var p := WindowCount(rowCount, limit);
    var j := AlignedWindow(offset, limit, rowCount);
    var w := RowWindow(i, limit, rowCount);
    t := if w >= j then w - j else w + p - j;
    RotateCycles(j, limit, rowCount, t);
    assert Rotated(j, p, t) == w;
  }

  /** Rotation never loses a row: within one full cycle of refreshes,
      starting from any aligned offset, every row of a non-empty table is
      loaded into the buffer. */
  lemma EveryRowIsVisited<V>(table: seq<V>, keyOf: V -> int, b: Buffer<V>, limit: nat, i: nat)
    requires Aligned(b.offset, limit, |table|)
    requires i < |table|
    ensures exists t :: 1 <= t <= WindowCount(|table|, limit) &&
              keyOf(table[i]) in RefreshN(table, keyOf, b, limit, t).contents
  {
    var t := RotationReaches(b.offset, limit, |table|, i);
    RefreshNRotates(table, keyOf, b, limit, t);
    var prev := RefreshN(table, keyOf, b, limit, t);
    var loaded := LoadPartition(table, keyOf, prev.offset, limit);
    assert keyOf(table[i]) in loaded;
    assert RefreshN(table, keyOf, b, limit, t + 1).contents == loaded;
  }
}
