/** `INSERT OR REPLACE INTO marks` (server.js:204-211) seen through the
    table's UNIQUE(student_id, subject_code, assessment_type, academic_year)
    key: what each key stores, and what a list of records does to that. */
module Upsert {
  import opened Schema
  import opened Rows

  /** The marks table as a map from its UNIQUE key to the values stored under it. */
  function MarkView(rows: seq<Mark>): (view: map<MarkKey, MarkData>)
  {
    if rows == [] then map[]
    else
      var last := rows[|rows| - 1];
      MarkView(rows[..|rows| - 1])[MarkKeyOf(last) := MarkDataOf(last)]
  }

  /** A record that passes the NOT NULL checks and carries key `k`. */
  predicate Touches(rec: MarkInput, k: MarkKey)
  {
    rec.Complete() && rec.Key() == k
  }

  /** The keys of the records that pass the NOT NULL checks. */
  function CompleteKeys(recs: seq<MarkInput>): (ks: set<MarkKey>)
  {
    set i | 0 <= i < |recs| && recs[i].Complete() :: recs[i].Key()
  }

  lemma CompleteKeysSnoc(recs: seq<MarkInput>)
    requires recs != []
    ensures CompleteKeys(recs) == CompleteKeys(recs[..|recs| - 1]) +
              (if recs[|recs| - 1].Complete() then {recs[|recs| - 1].Key()} else {})
  {
    var n := |recs|;
    var prefix := recs[..n - 1];
    forall k | k in CompleteKeys(recs)
      ensures k in CompleteKeys(prefix) || (recs[n - 1].Complete() && k == recs[n - 1].Key()) {
      var i :| 0 <= i < n && recs[i].Complete() && recs[i].Key() == k;
      if i < n - 1 { assert prefix[i] == recs[i]; }
    }
    forall k | k in CompleteKeys(prefix) ensures k in CompleteKeys(recs) {
      var i :| 0 <= i < n - 1 && prefix[i].Complete() && prefix[i].Key() == k;
      assert recs[i] == prefix[i];
    }
  }

  /** Reference definition of the bulk upsert on the keyed view: the records in
      list order, each complete one overwriting its key, each incomplete one
      skipped. No stored key is ever removed. */
  function ApplyRecords(view: map<MarkKey, MarkData>, recs: seq<MarkInput>): (r: map<MarkKey, MarkData>)
    ensures forall k :: k in view ==> k in r
  {
    if recs == [] then view
    else
      var before := ApplyRecords(view, recs[..|recs| - 1]);
      var last := recs[|recs| - 1];
      if last.Complete() then before[last.Key() := last.Data()] else before
  }

  /** After the records, the stored keys are the old ones and those of the complete records. */
  lemma {:induction false} ApplyRecordsKeys(view: map<MarkKey, MarkData>, recs: seq<MarkInput>)
    ensures ApplyRecords(view, recs).Keys == view.Keys + CompleteKeys(recs)
  {
    if recs == [] {
      assert CompleteKeys(recs) == {};
    } else {
      ApplyRecordsKeys(view, recs[..|recs| - 1]);
      CompleteKeysSnoc(recs);
    }
  }

  lemma ViewAppend(rows: seq<Mark>, m: Mark)
    ensures MarkView(rows + [m]) == MarkView(rows)[MarkKeyOf(m) := MarkDataOf(m)]
  {
    assert (rows + [m])[..|rows|] == rows;
  }

  /** Deleting the rows of key `k` removes exactly `k` from the view. */
  lemma {:induction false} ViewDrop(rows: seq<Mark>, k: MarkKey)
    ensures MarkView(Drop(rows, MarkKeyOf, k)) == MarkView(rows) - {k}
  {
    if rows != [] {
      var prefix := rows[..|rows| - 1];
      var last := rows[|rows| - 1];
      var d := Drop(prefix, MarkKeyOf, k);
      ViewDrop(prefix, k);
      assert MarkView(rows) == MarkView(prefix)[MarkKeyOf(last) := MarkDataOf(last)];
      if MarkKeyOf(last) == k {
        assert Drop(rows, MarkKeyOf, k) == d + [];
        assert d + [] == d;
        UpdateThenRemove(MarkView(prefix), k, MarkDataOf(last));
      } else {
        assert Drop(rows, MarkKeyOf, k) == d + [last];
        ViewAppend(d, last);
        RemoveThenUpdate(MarkView(prefix), k, MarkKeyOf(last), MarkDataOf(last));
      }
    }
  }

  lemma UpdateThenRemove<K, V>(m: map<K, V>, k: K, v: V)
    ensures m[k := v] - {k} == m - {k}
  {
  }

  lemma RemoveThenUpdate<K, V>(m: map<K, V>, k: K, other: K, v: V)
    requires other != k
    ensures (m - {k})[other := v] == m[other := v] - {k}
  {
  }

  /** One replacing insert overwrites its key in the view and touches no other key. */
  lemma UpsertView(rows: seq<Mark>, m: Mark)
    ensures MarkView(Drop(rows, MarkKeyOf, MarkKeyOf(m)) + [m]) == MarkView(rows)[MarkKeyOf(m) := MarkDataOf(m)]
  {
    ViewAppend(Drop(rows, MarkKeyOf, MarkKeyOf(m)), m);
    ViewDrop(rows, MarkKeyOf(m));
  }

  /** One `stmt.run` of a complete record, on the view: its key now stores its values. */
  lemma UpsertRecordView(rows: seq<Mark>, rec: MarkInput, id: int, now: nat)
    requires rec.Complete()
    ensures MarkView(Drop(rows, MarkKeyOf, rec.Key()) + [rec.Row(id, now)]) == MarkView(rows)[rec.Key() := rec.Data()]
  {
    var row := rec.Row(id, now);
    assert MarkKeyOf(row) == rec.Key() && MarkDataOf(row) == rec.Data();
    UpsertView(rows, row);
  }

  /** Under the UNIQUE key, the view holds exactly the values of the row carrying each key. */
  lemma {:induction false} ViewOfDistinct(rows: seq<Mark>, i: int)
    requires DistinctBy(rows, MarkKeyOf)
    requires 0 <= i < |rows|
    ensures MarkKeyOf(rows[i]) in MarkView(rows) && MarkView(rows)[MarkKeyOf(rows[i])] == MarkDataOf(rows[i])
  {
    var n := |rows|;
    if i < n - 1 {
      var prefix := rows[..n - 1];
      assert DistinctBy(prefix, MarkKeyOf);
      assert prefix[i] == rows[i];
      ViewOfDistinct(prefix, i);
      assert MarkKeyOf(rows[i]) != MarkKeyOf(rows[n - 1]);
    }
  }

  /** The stored value of a key is that of the last complete record carrying it. */
  lemma {:induction false} LastRecordWins(view: map<MarkKey, MarkData>, recs: seq<MarkInput>, i: int)
    requires 0 <= i < |recs| && recs[i].Complete()
    requires forall j :: i < j < |recs| ==> !Touches(recs[j], recs[i].Key())
    ensures recs[i].Key() in ApplyRecords(view, recs)
    ensures ApplyRecords(view, recs)[recs[i].Key()] == recs[i].Data()
  {
    var n := |recs|;
    var prefix := recs[..n - 1];
    if i < n - 1 {
      assert prefix[i] == recs[i];
      forall j | i < j < |prefix| ensures !Touches(prefix[j], prefix[i].Key()) {
        assert prefix[j] == recs[j];
      }
      LastRecordWins(view, prefix, i);
      assert !Touches(recs[n - 1], recs[i].Key());
    }
  }

  /** A key no complete record carries keeps what it stored before. */
  lemma {:induction false} UntouchedKeyKept(view: map<MarkKey, MarkData>, recs: seq<MarkInput>, k: MarkKey)
    requires forall j :: 0 <= j < |recs| ==> !Touches(recs[j], k)
    ensures k in ApplyRecords(view, recs) <==> k in view
    ensures k in view ==> ApplyRecords(view, recs)[k] == view[k]
  {
    if recs != [] {
      var prefix := recs[..|recs| - 1];
      forall j | 0 <= j < |prefix| ensures !Touches(prefix[j], k) {
        assert prefix[j] == recs[j];
      }
      UntouchedKeyKept(view, prefix, k);
      assert !Touches(recs[|recs| - 1], k);
    }
  }

  /** After a bulk upsert, the key of the last complete record with that key is
      stored by exactly one row, and that row holds the record's values. */
  lemma StoredRowIsLastRecord(before: seq<Mark>, after: seq<Mark>, recs: seq<MarkInput>, i: int)
    requires DistinctBy(after, MarkKeyOf)
    requires MarkView(after) == ApplyRecords(MarkView(before), recs)
    requires 0 <= i < |recs| && recs[i].Complete()
    requires forall j :: i < j < |recs| ==> !Touches(recs[j], recs[i].Key())
    ensures exists p :: 0 <= p < |after| && MarkKeyOf(after[p]) == recs[i].Key()
    ensures forall p :: 0 <= p < |after| && MarkKeyOf(after[p]) == recs[i].Key() ==> MarkDataOf(after[p]) == recs[i].Data()
    ensures forall p, q :: (0 <= p < |after| && 0 <= q < |after| &&
              MarkKeyOf(after[p]) == recs[i].Key() && MarkKeyOf(after[q]) == recs[i].Key()) ==> p == q
  {
    LastRecordWins(MarkView(before), recs, i);
    ViewKeys(after);
    var k := recs[i].Key();
    assert k in KeysOf(after, MarkKeyOf);
    forall p | 0 <= p < |after| && MarkKeyOf(after[p]) == k ensures MarkDataOf(after[p]) == recs[i].Data() {
      ViewOfDistinct(after, p);
    }
  }

  /** The keys of the view are the keys present in the table. */
  lemma {:induction false} ViewKeys(rows: seq<Mark>)
    ensures MarkView(rows).Keys == KeysOf(rows, MarkKeyOf)
  {
    if rows != [] {
      var n := |rows|;
      var prefix := rows[..n - 1];
      ViewKeys(prefix);
      forall k ensures k in KeysOf(rows, MarkKeyOf) <==> k in KeysOf(prefix, MarkKeyOf) || k == MarkKeyOf(rows[n - 1]) {
        if k in KeysOf(rows, MarkKeyOf) {
          var p :| 0 <= p < n && MarkKeyOf(rows[p]) == k;
          if p < n - 1 { assert MarkKeyOf(prefix[p]) == k; }
        }
        if k in KeysOf(prefix, MarkKeyOf) {
          var p :| 0 <= p < n - 1 && MarkKeyOf(prefix[p]) == k;
          assert MarkKeyOf(rows[p]) == k;
        }
        if k == MarkKeyOf(rows[n - 1]) {
          assert MarkKeyOf(rows[n - 1]) in KeysOf(rows, MarkKeyOf);
        }
      }
    }
  }
}
