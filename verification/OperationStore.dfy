/** The mutable side of the replicated records: views updated record by record, and the durable
    operation log with its winners table. Membership, catalog and desired state are each one such
    view and one such store, under their own rules. */
module OperationStore {
  import opened Ledger

  class RecordView<K(==), R(==)> {
    var records: map<K, R>
    var recordIds: set<R>

    ghost function Contents(): View<K, R>
      reads this
    {
      View(records, recordIds)
    }

    constructor ()
      ensures Contents() == View(map[], {})
    {
      records, recordIds := map[], {};
    }

    method Apply(rules: Rules<K, R>, p: Provenance, record: R) returns (verdict: Verdict)
      modifies this
      ensures verdict == Judge(rules, old(Contents()), p, record)
      ensures Contents() == Absorb(rules, old(Contents()), record, verdict)
    {
      var unverified := rules.check(p, record);
      if unverified.Some? { return Rejected(unverified.value); }
      if record in recordIds { return Duplicate; }
      var stale := rules.early(records, record);
      if stale.Some? { return Rejected(stale.value); }
      var slot := rules.slot(record);
      if slot in records && AtMost(rules.rank(record), rules.rank(records[slot])) {
        recordIds := recordIds + {record};
        return Superseded;
      }
      var refused := rules.late(records, record);
      if refused.Some? { return Rejected(refused.value); }
      recordIds := recordIds + {record};
      records := records[slot := record];
      return Applied;
    }
  }

  /** Replays a log into a fresh view, failing on the first record that is refused. */
  method FromRecords<K(==), R(==)>(rules: Rules<K, R>, log: seq<R>) returns (result: Replayed<K, R>)
    ensures result == Replay(rules, log)
  {
    var view := new RecordView<K, R>();
    for i := 0 to |log|
      invariant Replay(rules, log[..i]) == Ok(view.Contents())
    {
      assert log[..i+1][..i] == log[..i];
      var verdict := view.Apply(rules, Verified, log[i]);
      if verdict.Rejected? {
        ErrorIsKept(rules, log, i + 1);
        return Err(verdict.error);
      }
    }
    assert log[..|log|] == log;
    return Ok(View(view.records, view.recordIds));
  }

  lemma {:induction false} ErrorIsKept<K, R>(rules: Rules<K, R>, log: seq<R>, n: nat)
    requires n <= |log| && Replay(rules, log[..n]).Err?
    ensures Replay(rules, log) == Replay(rules, log[..n])
    decreases |log|
  {
    if n == |log| {
      assert log[..n] == log;
    } else {
      assert log[..|log|-1][..n] == log[..n];
      ErrorIsKept(rules, log[..|log|-1], n);
    }
  }

  class OperationLog<K(==), R(==)> {
    var operations: seq<R>
    var winners: map<K, R>

    ghost function Contents(): Store<K, R>
      reads this
    {
      Store(operations, winners)
    }

    constructor ()
      ensures Contents() == Store([], map[])
    {
      operations, winners := [], map[];
    }

    /** Verifies one record against the replayed log and makes it durable: the operation and, if it
        won, its table row change together, and nothing changes on a refusal. */
    method Apply(rules: Rules<K, R>, p: Provenance, record: R) returns (verdict: Verdict)
      modifies this
      ensures verdict == Submit(rules, old(Contents()), p, record)
      ensures Contents() == Write(rules, old(Contents()), record, verdict)
    {
      if record in operations { return Duplicate; }
      var replayed := FromRecords(rules, operations);
      if replayed.Err? { return Rejected(replayed.error); }
      var view := new RecordView<K, R>();
      view.records, view.recordIds := replayed.view.records, replayed.view.ids;
      verdict := view.Apply(rules, p, record);
      if verdict.Applied? {
        winners := winners[rules.slot(record) := record];
      }
      if verdict.Applied? || verdict.Superseded? {
        operations := operations + [record];
      }
    }

    /** Deletes every operation that is no current winner and counts the deletions. */
    method CompactOperations() returns (removed: nat)
      modifies this
      ensures Contents() == Compact(old(Contents()))
      ensures removed == |old(operations)| - |operations|
    {
      var kept := [];
      removed := 0;
      for i := 0 to |operations|
        invariant operations == old(operations) && winners == old(winners)
        invariant kept == Keep(operations[..i], winners.Values) && removed + |kept| == i
      {
        assert operations[..i+1][..i] == operations[..i];
        if operations[i] in winners.Values {
          kept := kept + [operations[i]];
        } else {
          removed := removed + 1;
          assert kept + [] == kept;
        }
      }
      assert operations[..|operations|] == operations;
      operations := kept;
    }
  }
}
