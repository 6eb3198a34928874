/** The `deleteNewRevisions` maintenance script: select every revision
    stamped after the cutoff (optionally only those of the listed pages),
    report how many there are, and, when confirmed, delete them together
    with the `ip_changes` rows that reference them, commit, and ask the
    framework to purge text rows no revision uses any more. */
module DeleteNewRevisions {
  import opened Timestamps
  import opened WikiDb

  /** The WHERE clause of the selection: `rev_timestamp > '20190809000000'`,
      and `rev_page IN pageIds` when page ids were given. */
  predicate IsNew(r: Revision, pageIds: seq<nat>)
  {
    InScope(r.page, pageIds) && Less(Cutoff, r.timestamp)
  }

  /** The ids the selection collects, in result-set order. */
  function NewRevIds(revs: seq<Revision>, pageIds: seq<nat>): (ids: seq<nat>)
    ensures |ids| <= |revs|
  {
    if revs == [] then []
    else
      var init, last := revs[..|revs| - 1], revs[|revs| - 1];
      NewRevIds(init, pageIds) + (if IsNew(last, pageIds) then [last.id] else [])
  }

  /** The selection holds exactly the ids of the new revisions in scope. */
  lemma {:induction false} NewRevIdsSelects(revs: seq<Revision>, pageIds: seq<nat>)
    ensures forall id :: id in NewRevIds(revs, pageIds) <==>
      exists r :: r in revs && r.id == id && IsNew(r, pageIds)
  {
    if revs != [] {
      var init, last := revs[..|revs| - 1], revs[|revs| - 1];
      NewRevIdsSelects(init, pageIds);
      assert revs == init + [last];
      assert forall r :: r in revs <==> r in init || r == last;
    }
  }

  /** The selection query and the loop that gathers `$newRevs`. */
  method SelectNewRevisions(revs: seq<Revision>, pageIds: seq<nat>) returns (newRevs: seq<nat>)
    ensures newRevs == NewRevIds(revs, pageIds)
  {
    newRevs := [];
    for i := 0 to |revs|
      invariant newRevs == NewRevIds(revs[..i], pageIds)
    {
      var row := revs[i];
      if IsNew(row, pageIds) {
        newRevs := newRevs + [row.id];
      }
      assert revs[..i + 1][..i] == revs[..i];
    }
    assert revs[..|revs|] == revs;
  }

  /** doDelete: the whole script. `count` is the number it reports. The
      deletions happen only when confirmed and something was found; the
      commit always happens, and the text purge follows it whenever the run
      was confirmed, even if nothing was found. */
  method DoDelete(db: Database, delete: bool, pageIds: seq<nat>) returns (count: nat)
    modifies db
    ensures count == |NewRevIds(old(db.revisions), pageIds)|
    ensures var ids := NewRevIds(old(db.revisions), pageIds);
      if delete && count > 0 then
        db.revisions == WithoutRevisions(old(db.revisions), ids) &&
        db.ipChanges == WithoutIpChanges(old(db.ipChanges), ids)
      else
        db.revisions == old(db.revisions) && db.ipChanges == old(db.ipChanges)
    ensures db.pages == old(db.pages)
    ensures db.log == old(db.log) + [Begin, Commit] + (if delete then [PurgeRedundantText] else [])
  {
    db.BeginTransaction();
    var newRevs := SelectNewRevisions(db.revisions, pageIds);
    count := |newRevs|;
    if delete && count != 0 {
      DeleteSelected(db, newRevs);
    }
    db.CommitTransaction();
    if delete {
      db.PurgeRedundantTextCall();
    }
  }

  /** The two DELETE statements: the revision rows with the given ids and
      the `ip_changes` rows that reference them. */
  method DeleteSelected(db: Database, ids: seq<nat>)
    modifies db
    ensures db.revisions == WithoutRevisions(old(db.revisions), ids)
    ensures db.ipChanges == WithoutIpChanges(old(db.ipChanges), ids)
    ensures db.pages == old(db.pages) && db.log == old(db.log)
  {
    db.DeleteRevisions(ids);
    db.DeleteIpChanges(ids);
  }

  /** Two confirmed runs in a row: the second finds nothing and changes no
      table. */
  method ConfirmedPurgeTwice(db: Database, pageIds: seq<nat>) returns (first: nat, second: nat)
    modifies db
    ensures second == 0
    ensures first == |NewRevIds(old(db.revisions), pageIds)|
    ensures var ids := NewRevIds(old(db.revisions), pageIds);
      db.revisions == WithoutRevisions(old(db.revisions), ids) &&
      db.ipChanges == WithoutIpChanges(old(db.ipChanges), ids)
  {
    ghost var revs0, ips0 := db.revisions, db.ipChanges;
    first := DoDelete(db, true, pageIds);
    if first == 0 {
      WithoutNoRevisions(revs0);
      WithoutNoIpChanges(ips0);
    }
    PurgeIsIdempotent(revs0, pageIds);
    second := DoDelete(db, true, pageIds);
  }

  // ---------------------------------------------------------------------
  // Properties of a confirmed run.

  /** No selected revision remains, and no `ip_changes` row references one. */
  lemma ConfirmedPurgeRemovesSelection(revs: seq<Revision>, ips: seq<IpChange>, pageIds: seq<nat>)
    ensures var ids := NewRevIds(revs, pageIds);
      (forall r :: r in WithoutRevisions(revs, ids) ==> !IsNew(r, pageIds)) &&
      (forall c :: c in WithoutIpChanges(ips, ids) ==> c.revId !in ids)
  {
    var ids := NewRevIds(revs, pageIds);
    NewRevIdsSelects(revs, pageIds);
    WithoutRevisionsKeeps(revs, ids);
    WithoutIpChangesKeeps(ips, ids);
  }

  /** Nothing else changes: a revision stamped at or before the cutoff, or
      belonging to a page outside the list, survives; so does every
      `ip_changes` row of a surviving revision. Relies on rev_id being the
      primary key, since the deletion is by id. */
  lemma PurgeKeepsUnselected(revs: seq<Revision>, ips: seq<IpChange>, pageIds: seq<nat>)
    requires UniqueRevIds(revs)
    ensures var ids := NewRevIds(revs, pageIds);
      forall r :: r in revs && !IsNew(r, pageIds) ==>
        r in WithoutRevisions(revs, ids) &&
        forall c :: c in ips && c.revId == r.id ==> c in WithoutIpChanges(ips, ids)
  {
    var ids := NewRevIds(revs, pageIds);
    NewRevIdsSelects(revs, pageIds);
    WithoutRevisionsKeeps(revs, ids);
    WithoutIpChangesKeeps(ips, ids);
  }

  /** A second confirmed run selects nothing, so it deletes nothing. */
  lemma PurgeIsIdempotent(revs: seq<Revision>, pageIds: seq<nat>)
    ensures NewRevIds(WithoutRevisions(revs, NewRevIds(revs, pageIds)), pageIds) == []
  {
    var kept := WithoutRevisions(revs, NewRevIds(revs, pageIds));
    ConfirmedPurgeRemovesSelection(revs, [], pageIds);
    NothingNewSelectsNothing(kept, pageIds);
  }

  lemma {:induction false} NothingNewSelectsNothing(revs: seq<Revision>, pageIds: seq<nat>)
    requires forall r :: r in revs ==> !IsNew(r, pageIds)
    ensures NewRevIds(revs, pageIds) == []
  {
    if revs != [] {
      var init := revs[..|revs| - 1];
      assert forall r :: r in init ==> r in revs;
      NothingNewSelectsNothing(init, pageIds);
      assert revs[|revs| - 1] in revs;
    }
  }

  /** An empty page list selects every revision after the cutoff, and a
      non-empty list only narrows that selection. */
  lemma PageListOnlyNarrows(revs: seq<Revision>, pageIds: seq<nat>)
    ensures forall r :: r in revs && Less(Cutoff, r.timestamp) ==> r.id in NewRevIds(revs, [])
    ensures forall id :: id in NewRevIds(revs, pageIds) ==> id in NewRevIds(revs, [])
  {
    NewRevIdsSelects(revs, pageIds);
    NewRevIdsSelects(revs, []);
    forall id | id in NewRevIds(revs, pageIds) ensures id in NewRevIds(revs, []) {
      var r :| r in revs && r.id == id && IsNew(r, pageIds);
      assert IsNew(r, []);
    }
  }

  /** A revision stamped exactly at the cutoff is not purged. */
  lemma CutoffStampIsNotNew(r: Revision, pageIds: seq<nat>)
    requires r.timestamp == Cutoff
    ensures !IsNew(r, pageIds)
  {
    LessIrreflexive(Cutoff);
  }

  /** Revisions 10 (August 1), 11 (August 10) and 12 (September 1, 2019)
      of page 5. */
  const ExampleRevisions: seq<Revision> :=
    [Revision(10, 5, "20190801000000"), Revision(11, 5, "20190810000000"),
     Revision(12, 5, "20190901000000")]

  /** Of the example's revisions only 11 and 12 are new. */
  lemma ExampleNewness()
    ensures !IsNew(ExampleRevisions[0], [])
    ensures IsNew(ExampleRevisions[1], []) && IsNew(ExampleRevisions[2], [])
  {
    var revs := ExampleRevisions;
    AugustFirstIsBeforeCutoff();
    AugustTenthIsAfterCutoff();
    SeptemberFirstIsAfterCutoff();
    BeforeCutoffIsNotNew(revs[0], []);
  }

  /** A revision stamped before the cutoff is never new. */
  lemma BeforeCutoffIsNotNew(r: Revision, pageIds: seq<nat>)
    requires Less(r.timestamp, Cutoff)
    ensures !IsNew(r, pageIds)
  {
    LessTrichotomy(r.timestamp, Cutoff);
  }

  /** Selecting over one more row appends its id exactly when it is new. */
  lemma NewRevIdsAppend(init: seq<Revision>, last: Revision, pageIds: seq<nat>)
    ensures NewRevIds(init + [last], pageIds) ==
      NewRevIds(init, pageIds) + (if IsNew(last, pageIds) then [last.id] else [])
  {
    assert (init + [last])[..|init|] == init;
  }

  /** Over three rows of which only the first is old, the selection is
      the other two ids, in order. */
  lemma SelectLastTwo(r0: Revision, r1: Revision, r2: Revision)
    requires !IsNew(r0, []) && IsNew(r1, []) && IsNew(r2, [])
    ensures NewRevIds([r0, r1, r2], []) == [r1.id, r2.id]
  {
    NewRevIdsAppend([], r0, []);
    assert [] + [r0] == [r0];
    NewRevIdsAppend([r0], r1, []);
    assert [r0] + [r1] == [r0, r1];
    NewRevIdsAppend([r0, r1], r2, []);
    assert [r0, r1] + [r2] == [r0, r1, r2];
  }

  lemma ExampleSelection()
    ensures NewRevIds(ExampleRevisions, []) == [11, 12]
  {
    var revs := ExampleRevisions;
    ExampleNewness();
    SelectLastTwo(revs[0], revs[1], revs[2]);
    assert [revs[0], revs[1], revs[2]] == revs;
  }

  /** On the example a confirmed purge deletes 11 and 12 and keeps 10. */
  lemma PurgeExample()
    ensures var ids := NewRevIds(ExampleRevisions, []);
      ids == [11, 12] && WithoutRevisions(ExampleRevisions, ids) == [ExampleRevisions[0]]
  {
    ExampleSelection();
    ExampleDeletion();
  }

  lemma ExampleDeletion()
    ensures WithoutRevisions(ExampleRevisions, [11, 12]) == [ExampleRevisions[0]]
  {
    var revs := ExampleRevisions;
    assert revs[1..][1..] == revs[2..];
    assert WithoutRevisions(revs[2..], [11, 12]) == [];
  }
}
