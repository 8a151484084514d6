/** The time dimension (`populateTimeTable`): one set-based insert that
    adds a time row for every distinct (time id, order date) pair of the
    source transactions whose date is not NULL and whose time id the
    warehouse does not have yet. Day, month and year are taken from the
    date; the quarter comes from the month ranges of the SQL CASE. */
module TimeDimension {
  import opened Results
  import opened Records

  /** The quarter of a month: 1 for months 1-3, 2 for 4-6, 3 for 7-9, 4 for
      10-12, and NULL for anything else. */
  function Quarter(month: int): (q: Option<int>)
    ensures q.Some? <==> 1 <= month <= 12
    ensures q.Some? ==> 1 <= q.value <= 4
    ensures q.Some? ==> q.value == (month - 1) / 3 + 1
    ensures q.Some? ==> 3 * q.value - 2 <= month <= 3 * q.value
  {
    if 1 <= month <= 3 then Some(1)
    else if 4 <= month <= 6 then Some(2)
    else if 7 <= month <= 9 then Some(3)
    else if 10 <= month <= 12 then Some(4)
    else None
  }

  /** The time row derived from a time id and a date. */
  function DeriveTime(timeId: int, d: Date): TimeRow
  {
    TimeRow(timeId, d, d.day, d.month, d.year, Quarter(d.month))
  }

  /** A transaction contributes a row when its date is not NULL and its time
      id is not yet in the table (the NOT IN sub-query sees the table as it
      was before the insert). */
  predicate IsCandidate(t: Transaction, existing: map<int, TimeRow>)
  {
    t.orderDate.Some? && t.timeId !in existing
  }

  function CandidateRow(t: Transaction): TimeRow
    requires t.orderDate.Some?
  {
    DeriveTime(t.timeId, t.orderDate.value)
  }

  /** Two candidates from position `from` on share a time id but not a
      date: SELECT DISTINCT keeps both, and the insert breaks the time
      table's primary key. */
  predicate TimeKeyClash(txs: seq<Transaction>, existing: map<int, TimeRow>, from: nat)
  {
    exists i, j :: from <= i < j < |txs| && IsCandidate(txs[i], existing) && IsCandidate(txs[j], existing)
      && txs[i].timeId == txs[j].timeId && txs[i].orderDate != txs[j].orderDate
  }

  /** A candidate from position `from` on disagrees with a row already
      collected for its time id. */
  predicate AccClash(txs: seq<Transaction>, existing: map<int, TimeRow>, acc: map<int, TimeRow>, from: nat)
  {
    exists i :: from <= i < |txs| && IsCandidate(txs[i], existing) && txs[i].timeId in acc
      && acc[txs[i].timeId] != CandidateRow(txs[i])
  }

  /** Collects the candidate rows of `txs[from..]` on top of `acc`;
      identical candidates collapse (DISTINCT), differing ones under one id
      fail. */
  function CollectTimeRows(txs: seq<Transaction>, existing: map<int, TimeRow>, acc: map<int, TimeRow>, from: nat)
    : Result<map<int, TimeRow>, Fault>
    decreases |txs| - from
  {
    if from >= |txs| then Ok(acc)
    else
      var t := txs[from];
      if !IsCandidate(t, existing) then CollectTimeRows(txs, existing, acc, from + 1)
      else if t.timeId in acc && acc[t.timeId] != CandidateRow(t) then Err(DuplicateTimeKey(t.timeId))
      else CollectTimeRows(txs, existing, acc[t.timeId := CandidateRow(t)], from + 1)
  }

  /** Collecting fails exactly when two candidates, or a candidate and an
      already collected row, disagree under one time id. */
  lemma {:induction false} CollectFailsIffClash(txs: seq<Transaction>, existing: map<int, TimeRow>,
                                                acc: map<int, TimeRow>, from: nat)
    ensures CollectTimeRows(txs, existing, acc, from).Err?
        <==> AccClash(txs, existing, acc, from) || TimeKeyClash(txs, existing, from)
    decreases |txs| - from
  {
    if from < |txs| {
      var t := txs[from];
      if !IsCandidate(t, existing) {
        CollectFailsIffClash(txs, existing, acc, from + 1);
        SkipStep(txs, existing, acc, from);
      } else if t.timeId in acc && acc[t.timeId] != CandidateRow(t) {
        assert AccClash(txs, existing, acc, from);
      } else {
        CollectFailsIffClash(txs, existing, acc[t.timeId := CandidateRow(t)], from + 1);
        ClashStep(txs, existing, acc, from);
      }
    }
  }

  lemma SkipStep(txs: seq<Transaction>, existing: map<int, TimeRow>, acc: map<int, TimeRow>, from: nat)
    requires from < |txs| && !IsCandidate(txs[from], existing)
    ensures AccClash(txs, existing, acc, from) == AccClash(txs, existing, acc, from + 1)
    ensures TimeKeyClash(txs, existing, from) == TimeKeyClash(txs, existing, from + 1)
  {
  }

  /** Moving a candidate that agrees with `acc` into `acc` keeps the clash
      condition. */
  lemma ClashStep(txs: seq<Transaction>, existing: map<int, TimeRow>, acc: map<int, TimeRow>, from: nat)
    requires from < |txs| && IsCandidate(txs[from], existing)
    requires txs[from].timeId in acc ==> acc[txs[from].timeId] == CandidateRow(txs[from])
    ensures AccClash(txs, existing, acc, from) || TimeKeyClash(txs, existing, from)
        <==> AccClash(txs, existing, acc[txs[from].timeId := CandidateRow(txs[from])], from + 1)
             || TimeKeyClash(txs, existing, from + 1)
  {
    var t := txs[from];
    var acc' := acc[t.timeId := CandidateRow(t)];
    if AccClash(txs, existing, acc, from) {
      var i :| from <= i < |txs| && IsCandidate(txs[i], existing) && txs[i].timeId in acc
        && acc[txs[i].timeId] != CandidateRow(txs[i]);
      assert acc'[txs[i].timeId] != CandidateRow(txs[i]);
    }
    if TimeKeyClash(txs, existing, from) {
      var i, j :| from <= i < j < |txs| && IsCandidate(txs[i], existing) && IsCandidate(txs[j], existing)
        && txs[i].timeId == txs[j].timeId && txs[i].orderDate != txs[j].orderDate;
      if i == from {
        assert acc'[txs[j].timeId] != CandidateRow(txs[j]);
      }
    }
    if AccClash(txs, existing, acc', from + 1) {
      var i :| from + 1 <= i < |txs| && IsCandidate(txs[i], existing) && txs[i].timeId in acc'
        && acc'[txs[i].timeId] != CandidateRow(txs[i]);
      if txs[i].timeId == t.timeId {
        assert txs[from].orderDate != txs[i].orderDate;
        assert TimeKeyClash(txs, existing, from);
      } else {
        assert AccClash(txs, existing, acc, from);
      }
    }
  }

  /** A successful collection keeps what `acc` held, adds only candidate
      rows, and holds the derived row of every candidate. */
  lemma {:induction false} CollectOk(txs: seq<Transaction>, existing: map<int, TimeRow>,
                                     acc: map<int, TimeRow>, from: nat)
    requires CollectTimeRows(txs, existing, acc, from).Ok?
    ensures var m := CollectTimeRows(txs, existing, acc, from).value;
      forall k :: k in acc ==> k in m && m[k] == acc[k]
    ensures var m := CollectTimeRows(txs, existing, acc, from).value;
      forall k :: k in m && k !in acc ==>
        exists i :: from <= i < |txs| && IsCandidate(txs[i], existing) && txs[i].timeId == k && m[k] == CandidateRow(txs[i])
    ensures var m := CollectTimeRows(txs, existing, acc, from).value;
      forall i :: from <= i < |txs| && IsCandidate(txs[i], existing) ==>
        txs[i].timeId in m && m[txs[i].timeId] == CandidateRow(txs[i])
    decreases |txs| - from
  {
    if from < |txs| {
      var t := txs[from];
      var m := CollectTimeRows(txs, existing, acc, from).value;
      if !IsCandidate(t, existing) {
        CollectOk(txs, existing, acc, from + 1);
      } else {
        var acc' := acc[t.timeId := CandidateRow(t)];
        CollectOk(txs, existing, acc', from + 1);
        assert m == CollectTimeRows(txs, existing, acc', from + 1).value;
        forall k | k in m && k !in acc
          ensures exists i :: from <= i < |txs| && IsCandidate(txs[i], existing) && txs[i].timeId == k
                    && m[k] == CandidateRow(txs[i])
        {
          if k == t.timeId {
            assert m[k] == CandidateRow(txs[from]);
          }
        }
      }
    }
  }

  /** With no candidate left, collecting returns `acc` unchanged. */
  lemma {:induction false} CollectNothing(txs: seq<Transaction>, existing: map<int, TimeRow>,
                                          acc: map<int, TimeRow>, from: nat)
    requires forall i :: from <= i < |txs| ==> !IsCandidate(txs[i], existing)
    ensures CollectTimeRows(txs, existing, acc, from) == Ok(acc)
    decreases |txs| - from
  {
    if from < |txs| {
      CollectNothing(txs, existing, acc, from + 1);
    }
  }

  /** `populateTimeTable` against the current time table `times`. It fails
      only on a primary-key clash; otherwise existing rows are untouched,
      every added row is the derived row of a transaction whose time id was
      absent and whose date is not NULL, and afterwards every dated
      transaction's time id is present. */
  function PopulateTimeTable(txs: seq<Transaction>, times: map<int, TimeRow>): (r: Result<map<int, TimeRow>, Fault>)
    ensures r.Err? <==> TimeKeyClash(txs, times, 0)
    ensures r.Ok? ==> forall k :: k in times ==> k in r.value && r.value[k] == times[k]
    ensures r.Ok? ==> forall k :: k in r.value && k !in times ==>
              exists i :: 0 <= i < |txs| && IsCandidate(txs[i], times) && txs[i].timeId == k
                && r.value[k] == CandidateRow(txs[i])
    ensures r.Ok? ==> forall i :: 0 <= i < |txs| && txs[i].orderDate.Some? ==> txs[i].timeId in r.value
  {
    CollectFailsIffClash(txs, times, map[], 0);
    var collected := CollectTimeRows(txs, times, map[], 0);
    if collected.Err? then Err(collected.error)
    else
      CollectOk(txs, times, map[], 0);
      Ok(times + collected.value)
  }

  /** Re-running the insert after it succeeded inserts nothing. */
  lemma PopulateTimeIdempotent(txs: seq<Transaction>, times: map<int, TimeRow>)
    requires PopulateTimeTable(txs, times).Ok?
    ensures PopulateTimeTable(txs, PopulateTimeTable(txs, times).value) == Ok(PopulateTimeTable(txs, times).value)
  {
    var t' := PopulateTimeTable(txs, times).value;
    CollectNothing(txs, t', map[], 0);
    assert t' + map[] == t';
  }
}
