/** The transactional table (`GenericTable`), seen from one transaction context.
    The committed map is shared; `changed` and `deleted` form the context's
    pending overlay. Each operation is a pure function from the old state to the
    new state and the value returned (or the exception thrown). */
module GenericTable {
  import opened Wrappers
  import opened ValidityChecker

  /** A table as one context sees it: the committed map, the context's pending
      changes and pending deletions, and whether every change is pushed at once. */
  datatype Table<V> = Table(committed: map<string, V>, changed: map<string, V>, deleted: set<string>, autoCommit: bool)

  /** What the persistence hook `storeOnCommit` does when `commit` calls it. */
  datatype StoreOutcome =
    | Stored             // the committed map reached the disk
    | StoreIOFailure     // it throws IOException, which `commit` lets escape
    | StoreCheckFailure  // it throws ValidityCheckFailedException, which `commit` wraps in a RuntimeException

  /** The state after an operation together with what it returned or threw. */
  datatype Step<V, R> = Step(table: Table<V>, result: Result<R>)

  /** The construction of a table: nothing committed, nothing pending. */
  function NewTable<V>(autoCommit: bool): (t: Table<V>)
    ensures t.committed == map[] && t.changed == map[] && t.deleted == {} && t.autoCommit == autoCommit
    ensures View(t) == map[] && Disjoint(t) && DiffCount(t) == 0
  {
    Table(map[], map[], {}, autoCommit)
  }

  /** The overlay never marks a key both changed and deleted. */
  predicate Disjoint<V>(t: Table<V>)
  {
    t.changed.Keys !! t.deleted
  }

  /** The table as this context sees it: the committed map, overridden by the
      pending changes, minus the pending deletions. */
  function View<V>(t: Table<V>): map<string, V>
  {
    (t.committed + t.changed) - t.deleted
  }

  /** The lookup order of `get`: a pending deletion hides the key, then a pending
      change wins, then the committed value, else null. */
  function Lookup<V>(t: Table<V>, key: string): Option<V>
  {
    if key in t.deleted then None
    else if key in t.changed then Some(t.changed[key])
    else if key in t.committed then Some(t.committed[key])
    else None
  }

  /** `get(key)`. */
  function Get<V>(t: Table<V>, key: Option<string>): (r: Result<Option<V>>)
    ensures !KeyValid(key) ==> r == Err(IllegalArgument)
    ensures KeyValid(key) ==> r == Ok(Find(View(t), key.value))
  {
    if !KeyValid(key) then Err(IllegalArgument) else Ok(Lookup(t, key.value))
  }

  /** `pushChanges()`: write every pending change into the committed map, then
      drop every pending deletion from it. The overlay itself stays. */
  function PushChanges<V>(t: Table<V>): (r: Table<V>)
    ensures r.changed == t.changed && r.deleted == t.deleted && r.autoCommit == t.autoCommit
    ensures forall k :: Find(r.committed, k) == Lookup(t, k)
    ensures View(r) == View(t)
  {
    t.(committed := (t.committed + t.changed) - t.deleted)
  }

  /** `put(key, value)`: validate, remember the effective value, record the
      change, clear any deletion mark, and push at once in auto-commit mode. */
  function Put<V>(t: Table<V>, key: Option<string>, value: Option<V>): (r: Step<V, Option<V>>)
    ensures !KeyValid(key) || !ValueValid(value) ==> r == Step(t, Err(IllegalArgument))
    ensures KeyValid(key) && ValueValid(value) ==>
              var k, v := key.value, value.value;
              && r.result == Ok(Find(View(t), k))
              && r.table.changed == t.changed[k := v]
              && r.table.deleted == t.deleted - {k}
              && View(r.table) == View(t)[k := v]
              && r.table.autoCommit == t.autoCommit
              && (!t.autoCommit ==> r.table.committed == t.committed)
              && (t.autoCommit ==> r.table.committed == View(r.table))
    ensures Disjoint(t) ==> Disjoint(r.table)
  {
    if !KeyValid(key) || !ValueValid(value) then Step(t, Err(IllegalArgument))
    else
      var k := key.value;
      var returnValue := Lookup(t, k);
      var local := t.(changed := t.changed[k := value.value], deleted := t.deleted - {k});
      PutView(t, k, value.value);
      Step(if t.autoCommit then PushChanges(local) else local, Ok(returnValue))
  }

  /** `remove(key)`: validate, remember the effective value, mark the key
      deleted only if it is committed, always drop its pending change, and push
      at once in auto-commit mode. */
  function Remove<V>(t: Table<V>, key: Option<string>): (r: Step<V, Option<V>>)
    ensures !KeyValid(key) ==> r == Step(t, Err(IllegalArgument))
    ensures KeyValid(key) ==>
              var k := key.value;
              && r.result == Ok(Find(View(t), k))
              && r.table.changed == t.changed - {k}
              && r.table.deleted == (if k in t.committed then t.deleted + {k} else t.deleted)
              && View(r.table) == View(t) - {k}
              && r.table.autoCommit == t.autoCommit
              && (!t.autoCommit ==> r.table.committed == t.committed)
              && (t.autoCommit ==> r.table.committed == View(r.table))
    ensures Disjoint(t) ==> Disjoint(r.table)
  {
    if !KeyValid(key) then Step(t, Err(IllegalArgument))
    else
      var k := key.value;
      var returnValue := Lookup(t, k);
      var marked := if k in t.committed then t.deleted + {k} else t.deleted;
      var local := t.(changed := t.changed - {k}, deleted := marked);
      RemoveView(t, k);
      Step(if t.autoCommit then PushChanges(local) else local, Ok(returnValue))
  }

  /** Recording a change and clearing its deletion mark sets the key in the view. */
  lemma PutView<V>(t: Table<V>, k: string, v: V)
    ensures View(t.(changed := t.changed[k := v], deleted := t.deleted - {k})) == View(t)[k := v]
  {
  }

  /** Dropping a change and marking a committed key deleted removes the key from the view. */
  lemma RemoveView<V>(t: Table<V>, k: string)
    ensures var marked := if k in t.committed then t.deleted + {k} else t.deleted;
            View(t.(changed := t.changed - {k}, deleted := marked)) == View(t) - {k}
  {
  }

  /** Pending changes that differ from (or are absent from) the committed map,
      among the given keys. */
  function ChangedDiffsAmong<V(==)>(t: Table<V>, keys: set<string>): set<string>
  {
    set k | k in keys && k in t.changed && (k !in t.committed || t.changed[k] != t.committed[k])
  }

  /** Pending deletions of committed keys, among the given keys. */
  function DeletedDiffsAmong<V>(t: Table<V>, keys: set<string>): set<string>
  {
    set k | k in keys && k in t.deleted && k in t.committed
  }

  /** The count `getDiffCount` arrives at: changed entries absent from or unequal
      to the committed map, plus deleted keys present in it. */
  function DiffCount<V(==)>(t: Table<V>): nat
  {
    |ChangedDiffsAmong(t, t.changed.Keys)| + |DeletedDiffsAmong(t, t.deleted)|
  }

  /** `getDiffCount()` as the source runs it: one pass over the pending changes
      and one over the pending deletions. */
  method GetDiffCount<V(==)>(t: Table<V>) returns (diffCount: nat)
    ensures diffCount == DiffCount(t)
  {
    var changedCount := CountChangedDiffs(t);
    var deletedCount := CountDeletedDiffs(t);
    diffCount := changedCount + deletedCount;
  }

  /** The first pass of `getDiffCount`. */
  method CountChangedDiffs<V(==)>(t: Table<V>) returns (count: nat)
    ensures count == |ChangedDiffsAmong(t, t.changed.Keys)|
  {
    count := 0;
    var pending := t.changed.Keys;
    ghost var seen: set<string> := {};
    while pending != {}
      invariant pending + seen == t.changed.Keys && pending !! seen
      invariant count == |ChangedDiffsAmong(t, seen)|
      decreases |pending|
    {
      var k :| k in pending;
      ChangedDiffsStep(t, seen, k);
      if k !in t.committed || t.changed[k] != t.committed[k] {
        count := count + 1;
      }
      pending := pending - {k};
      seen := seen + {k};
    }
  }

  /** The second pass of `getDiffCount`. */
  method CountDeletedDiffs<V>(t: Table<V>) returns (count: nat)
    ensures count == |DeletedDiffsAmong(t, t.deleted)|
  {
    count := 0;
    var pending := t.deleted;
    ghost var seen: set<string> := {};
    while pending != {}
      invariant pending + seen == t.deleted && pending !! seen
      invariant count == |DeletedDiffsAmong(t, seen)|
      decreases |pending|
    {
      var k :| k in pending;
      DeletedDiffsStep(t, seen, k);
      if k in t.committed {
        count := count + 1;
      }
      pending := pending - {k};
      seen := seen + {k};
    }
  }

  /** Visiting one more pending change adds one to the count exactly when it is a difference. */
  lemma ChangedDiffsStep<V>(t: Table<V>, seen: set<string>, k: string)
    requires k !in seen && k in t.changed
    ensures |ChangedDiffsAmong(t, seen + {k})|
              == |ChangedDiffsAmong(t, seen)| + (if k !in t.committed || t.changed[k] != t.committed[k] then 1 else 0)
  {
    var before := ChangedDiffsAmong(t, seen);
    assert k !in before;
    if k !in t.committed || t.changed[k] != t.committed[k] {
      assert ChangedDiffsAmong(t, seen + {k}) == before + {k};
    } else {
      assert ChangedDiffsAmong(t, seen + {k}) == before;
    }
  }

  /** Visiting one more pending deletion adds one to the count exactly when the key is committed. */
  lemma DeletedDiffsStep<V>(t: Table<V>, seen: set<string>, k: string)
    requires k !in seen && k in t.deleted
    ensures |DeletedDiffsAmong(t, seen + {k})|
              == |DeletedDiffsAmong(t, seen)| + (if k in t.committed then 1 else 0)
  {
    var before := DeletedDiffsAmong(t, seen);
    assert k !in before;
    if k in t.committed {
      assert DeletedDiffsAmong(t, seen + {k}) == before + {k};
    } else {
      assert DeletedDiffsAmong(t, seen + {k}) == before;
    }
  }

  /** `rollback()`: report the diff count, then discard the overlay. */
  function Rollback<V(==)>(t: Table<V>): (r: (Table<V>, nat))
    ensures r.1 == DiffCount(t)
    ensures r.0.committed == t.committed && r.0.autoCommit == t.autoCommit
    ensures r.0.changed == map[] && r.0.deleted == {}
    ensures View(r.0) == t.committed
  {
    (t.(changed := map[], deleted := {}), DiffCount(t))
  }

  /** `commit()`: count the differences, merge the overlay into the committed
      map, persist, and only then clear the overlay. When persisting throws, the
      merge has already happened but the overlay is kept. */
  function Commit<V(==)>(t: Table<V>, store: StoreOutcome): (r: Step<V, nat>)
    ensures r.table.committed == View(t)
    ensures r.table.autoCommit == t.autoCommit
    ensures View(r.table) == View(t)
    ensures store == Stored ==>
              && r.result == Ok(DiffCount(t))
              && r.table.changed == map[] && r.table.deleted == {}
    ensures store == StoreIOFailure ==> r.result == Err(IO)
    ensures store == StoreCheckFailure ==> r.result == Err(Runtime)
    ensures store != Stored ==> r.table.changed == t.changed && r.table.deleted == t.deleted
    ensures Disjoint(t) ==> Disjoint(r.table)
  {
    var diffNum := DiffCount(t);
    var merged := PushChanges(t);
    match store
    case Stored => Step(merged.(changed := map[], deleted := {}), Ok(diffNum))
    case StoreIOFailure => Step(merged, Err(IO))
    case StoreCheckFailure => Step(merged, Err(Runtime))
  }

  // ---------------------------------------------------------------------------
  // Diff accounting

  /** The keys on which two maps disagree: present in one only, or mapped to different values. */
  function Differing<V(==)>(a: map<string, V>, b: map<string, V>): set<string>
  {
    set k | k in a.Keys + b.Keys && Find(a, k) != Find(b, k)
  }

  /** With a disjoint overlay, the diff count is exactly the number of keys on
      which this context's view disagrees with the committed map. */
  lemma DiffCountMeasuresView<V>(t: Table<V>)
    requires Disjoint(t)
    ensures DiffCount(t) == |Differing(t.committed, View(t))|
  {
    DifferencesSplit(t);
    assert ChangedDiffsAmong(t, t.changed.Keys) !! DeletedDiffsAmong(t, t.deleted);
  }

  /** The keys where the view and the committed map disagree are the differing
      pending changes together with the deleted committed keys. */
  lemma DifferencesSplit<V>(t: Table<V>)
    requires Disjoint(t)
    ensures Differing(t.committed, View(t))
              == ChangedDiffsAmong(t, t.changed.Keys) + DeletedDiffsAmong(t, t.deleted)
  {
    var changedDiffs := ChangedDiffsAmong(t, t.changed.Keys);
    var deletedDiffs := DeletedDiffsAmong(t, t.deleted);
    var all := Differing(t.committed, View(t));
    forall k | k in all ensures k in changedDiffs + deletedDiffs {
      if k in t.deleted {
        assert k in deletedDiffs;
      } else {
        assert k in t.changed;
      }
    }
    forall k | k in changedDiffs ensures k in all {
      assert k !in t.deleted;
    }
    forall k | k in deletedDiffs ensures k in all {
      assert Find(View(t), k) == None;
    }
  }

  /** With a disjoint overlay, nothing is pending exactly when the view is the committed map. */
  lemma DiffCountZeroIffClean<V>(t: Table<V>)
    requires Disjoint(t)
    ensures DiffCount(t) == 0 <==> View(t) == t.committed
  {
    DiffCountMeasuresView(t);
    var all := Differing(t.committed, View(t));
    if View(t) == t.committed {
      assert all == {};
    }
    if all == {} {
      assert forall k :: Find(t.committed, k) == Find(View(t), k) by {
        forall k ensures Find(t.committed, k) == Find(View(t), k) {
          if k in t.committed.Keys + View(t).Keys {
            assert k !in all;
          }
        }
      }
      assert View(t).Keys == t.committed.Keys by {
        forall k ensures k in View(t) <==> k in t.committed {
          assert Find(t.committed, k) == Find(View(t), k);
        }
      }
    }
    if DiffCount(t) == 0 {
      assert all == {};
    }
  }

  /** Putting back the committed value of a key removes that key from the
      differences and leaves every other difference as it was. */
  lemma PutCommittedValueContributesNothing<V>(t: Table<V>, k: string)
    requires Disjoint(t) && !t.autoCommit && KeyValid(Some(k)) && k in t.committed
    ensures DiffCount(Put(t, Some(k), Some(t.committed[k])).table)
              == |Differing(t.committed, View(t)) - {k}|
  {
    var t' := Put(t, Some(k), Some(t.committed[k])).table;
    DiffCountMeasuresView(t');
    DifferingAgreeAt(t.committed, View(t), k);
  }

  /** Making two maps agree at a key removes just that key from their differences. */
  lemma DifferingAgreeAt<V>(a: map<string, V>, b: map<string, V>, k: string)
    requires k in a
    ensures Differing(a, b[k := a[k]]) == Differing(a, b) - {k}
  {
  }

  /** In auto-commit mode every successful put or remove leaves nothing pending. */
  lemma AutoCommitLeavesNothingPending<V>(t: Table<V>, key: Option<string>, value: Option<V>)
    requires t.autoCommit && Disjoint(t)
    ensures DiffCount(Put(t, key, value).table) == 0 || Put(t, key, value).result.Err?
    ensures DiffCount(Remove(t, key).table) == 0 || Remove(t, key).result.Err?
  {
    if KeyValid(key) && ValueValid(value) {
      DiffCountZeroIffClean(Put(t, key, value).table);
    }
    if KeyValid(key) {
      DiffCountZeroIffClean(Remove(t, key).table);
    }
  }

  /** A successful commit leaves nothing pending, so committing again reports zero. */
  lemma CommitThenNothingPending<V>(t: Table<V>)
    requires Disjoint(t)
    ensures DiffCount(Commit(t, Stored).table) == 0
    ensures Rollback(Commit(t, Stored).table).1 == 0
  {
    var t' := Commit(t, Stored).table;
    DiffCountZeroIffClean(t');
  }

  // ---------------------------------------------------------------------------
  // Same-context reads after writes

  /** A removed key reads as absent, even when it is committed. */
  lemma RemoveThenGet<V>(t: Table<V>, k: string)
    requires KeyValid(Some(k))
    ensures Get(Remove(t, Some(k)).table, Some(k)) == Ok(None)
  {
  }

  /** A put value is read back, even after an earlier removal. */
  lemma RemovePutGet<V>(t: Table<V>, k: string, v: V)
    requires KeyValid(Some(k))
    ensures Get(Put(Remove(t, Some(k)).table, Some(k), Some(v)).table, Some(k)) == Ok(Some(v))
  {
  }

  /** A put followed by a removal reads as absent. */
  lemma PutRemoveGet<V>(t: Table<V>, k: string, v: V)
    requires KeyValid(Some(k))
    ensures Get(Remove(Put(t, Some(k), Some(v)).table, Some(k)).table, Some(k)) == Ok(None)
  {
  }
}
