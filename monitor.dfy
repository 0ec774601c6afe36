/**
 * The extraction monitor: remembers the row-change counters last seen for the
 * source database and tells whether a freshly read set of counters differs.
 */
module StateMonitor {

  /** The counters a new monitor starts from: nothing inserted, updated or deleted. */
  const INITIAL_STATE: map<string, int> := map["tup_inserted" := 0, "tup_updated" := 0, "tup_deleted" := 0]

  /** Two counter dictionaries differ when their keys differ or some shared key has another value. */
  predicate Differs(a: map<string, int>, b: map<string, int>) {
    a.Keys != b.Keys || exists k :: k in a && k in b && a[k] != b[k]
  }

  /** Dictionary inequality is exactly a difference in keys or in some value. */
  lemma DiffersIsInequality(a: map<string, int>, b: map<string, int>)
    ensures Differs(a, b) <==> a != b
  {
    if !Differs(a, b) {
      assert forall k :: k in a <==> k in b;
      assert forall k :: k in a ==> a[k] == b[k];
    }
  }

  class Monitor {
    /** The bucket the extracted files are written to. */
    var s3BucketName: string
    /** The last counters seen. */
    var state: map<string, int>

    constructor (s3BucketName: string)
      ensures this.s3BucketName == s3BucketName
      ensures state == INITIAL_STATE
    {
      this.s3BucketName := s3BucketName;
      state := INITIAL_STATE;
    }

    /** Whether the source changed; the monitor always answers yes. */
    method HasChanged() returns (changed: bool)
      ensures changed
    {
      changed := true;
    }

    /** Whether `newState` differs from the counters last seen: some key or some counter differs. */
    method HasStateChanged(newState: map<string, int>) returns (changed: bool)
      ensures changed <==> Differs(state, newState)
      ensures !changed ==> newState.Keys == state.Keys && forall k :: k in state ==> newState[k] == state[k]
    {
      DiffersIsInequality(state, newState);
      changed := state != newState;
    }
  }

  /**
   * A fresh monitor reports no change for all-zero counters, and a change once
   * rows have been inserted and deleted.
   */
  method FreshMonitorChecks() returns (same: bool, changed: bool)
    ensures !same && changed
  {
    var m := new Monitor("test-bucket");
    same := m.HasStateChanged(map["tup_inserted" := 0, "tup_updated" := 0, "tup_deleted" := 0]);
    var after := map["tup_inserted" := 2, "tup_updated" := 0, "tup_deleted" := 2];
    assert after["tup_inserted"] != m.state["tup_inserted"];
    changed := m.HasStateChanged(after);
  }
}
