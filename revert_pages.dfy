/** The `revertPagesToOldRevisions` maintenance script: for every page (or
    every listed page) find the revision of that page with the greatest
    timestamp before the cutoff and, when confirmed, point the page's
    `page_latest` at it; commit only when confirmed. */
module RevertPagesToOldRevisions {
  import opened Timestamps
  import opened WikiDb
  import opened Options
  import DeleteNewRevisions

  /** The WHERE clause of the per-page query: `rev_page = pageId AND
      rev_timestamp < '20190809000000'`. */
  predicate IsCandidate(r: Revision, pageId: nat)
  {
    r.page == pageId && Less(r.timestamp, Cutoff)
  }

  /** The per-page query, ordered by timestamp descending and limited to one
      row. Among several rows sharing the greatest timestamp the database
      may return any; the model returns the first in table order, and the
      contract promises only that no candidate is later. */
  function LatestBefore(revs: seq<Revision>, pageId: nat): (found: Option<Revision>)
    ensures found.Some? ==> found.value in revs && IsCandidate(found.value, pageId)
    ensures found.Some? ==> forall q :: q in revs && IsCandidate(q, pageId) ==>
      !Less(found.value.timestamp, q.timestamp)
    ensures found.None? <==> forall q :: q in revs ==> !IsCandidate(q, pageId)
  {
    if revs == [] then None
    else
      var rest := LatestBefore(revs[1..], pageId);
      var q := revs[0];
      assert forall x :: x in revs <==> x == q || x in revs[1..];
      LessIsTransitive();
      if !IsCandidate(q, pageId) then rest
      else if rest.Some? && Less(q.timestamp, rest.value.timestamp) then rest
      else if rest.Some? then
        LessIrreflexive(q.timestamp);
        LessTrichotomy(q.timestamp, rest.value.timestamp);
        Some(q)
      else
        LessIrreflexive(q.timestamp);
        Some(q)
  }

  /** PHP's `if ( $oldRev )`: no row, or a rev_id of 0, counts as not
      found. */
  predicate Found(oldRev: Option<Revision>)
  {
    oldRev.Some? && oldRev.value.id != 0
  }

  /** The page ids the page query returns, in table order. */
  function ScopedPageIds(pages: seq<Page>, pageIds: seq<nat>): (ids: seq<nat>)
    ensures forall id :: id in ids <==> InScope(id, pageIds) && exists p :: p in pages && p.id == id
  {
    if pages == [] then []
    else
      assert forall x :: x in pages <==> x == pages[0] || x in pages[1..];
      (if InScope(pages[0].id, pageIds) then [pages[0].id] else []) + ScopedPageIds(pages[1..], pageIds)
  }

  /** One page after a confirmed run processed it. */
  function RevertedPage(p: Page, revs: seq<Revision>): Page
  {
    var oldRev := LatestBefore(revs, p.id);
    if Found(oldRev) then p.(latest := oldRev.value.id) else p
  }

  /** The `page` table after a confirmed run. */
  function RevertedPages(pages: seq<Page>, revs: seq<Revision>, pageIds: seq<nat>): (after: seq<Page>)
    ensures |after| == |pages|
  {
    seq(|pages|, k requires 0 <= k < |pages| =>
      if InScope(pages[k].id, pageIds) then RevertedPage(pages[k], revs) else pages[k])
  }

  /** doRevert: the whole script. The page rows change only when the run is
      confirmed, and then exactly as `RevertedPages` says; the revision and
      ip_changes tables never change; the transaction is committed only when
      the run is confirmed. */
  method DoRevert(db: Database, delete: bool, pageIds: seq<nat>)
    modifies db
    ensures db.revisions == old(db.revisions) && db.ipChanges == old(db.ipChanges)
    ensures db.pages == if delete then RevertedPages(old(db.pages), old(db.revisions), pageIds)
                        else old(db.pages)
    ensures db.log == old(db.log) + [Begin] + (if delete then [Commit] else [])
  {
    ghost var pages0, revs0, ips0, log0 := db.pages, db.revisions, db.ipChanges, db.log;
    db.BeginTransaction();
    var selected := ScopedPageIds(db.pages, pageIds);
    for i := 0 to |selected|
      invariant db.revisions == revs0 && db.ipChanges == ips0 && db.log == log0 + [Begin]
      invariant |db.pages| == |pages0|
      invariant forall k :: 0 <= k < |pages0| ==>
        db.pages[k] == if delete && pages0[k].id in selected[..i] then RevertedPage(pages0[k], revs0)
                       else pages0[k]
    {
      var pageId := selected[i];
      var oldRev := LatestBefore(db.revisions, pageId);
      if Found(oldRev) {
        if delete {
          db.UpdatePageLatest(pageId, oldRev.value.id);
        }
      }
      assert selected[..i + 1] == selected[..i] + [pageId];
    }
    assert selected[..|selected|] == selected;
    if delete {
      db.CommitTransaction();
      forall k | 0 <= k < |pages0|
        ensures db.pages[k] == RevertedPages(pages0, revs0, pageIds)[k]
      {
        assert pages0[k].id in selected <==> InScope(pages0[k].id, pageIds) by {
          assert pages0[k] in pages0;
        }
      }
    }
  }

  /** Two confirmed runs in a row: the second assigns every page the value
      the first did. */
  method ConfirmedRevertTwice(db: Database, pageIds: seq<nat>)
    modifies db
    ensures db.revisions == old(db.revisions)
    ensures db.pages == RevertedPages(old(db.pages), old(db.revisions), pageIds)
  {
    ghost var pages0 := db.pages;
    DoRevert(db, true, pageIds);
    RevertIsIdempotent(pages0, db.revisions, pageIds);
    DoRevert(db, true, pageIds);
  }

  // ---------------------------------------------------------------------
  // Properties of a confirmed run.

  /** Each page keeps its id. A page outside the list, or one with no
      revision before the cutoff, keeps its pointer. A processed page whose
      query found a revision points at a revision of that page stamped
      before the cutoff, and no revision of that page before the cutoff is
      later. */
  lemma RevertChoosesLatestBefore(pages: seq<Page>, revs: seq<Revision>, pageIds: seq<nat>, k: nat)
    requires k < |pages|
    ensures var p, p' := pages[k], RevertedPages(pages, revs, pageIds)[k];
      p'.id == p.id &&
      (!InScope(p.id, pageIds) ==> p' == p) &&
      ((forall q :: q in revs ==> !IsCandidate(q, p.id)) ==> p' == p) &&
      (InScope(p.id, pageIds) && Found(LatestBefore(revs, p.id)) ==>
        exists r :: r in revs && r.id == p'.latest && IsCandidate(r, p.id) &&
          forall q :: q in revs && IsCandidate(q, p.id) ==> !Less(r.timestamp, q.timestamp))
  {
    var p := pages[k];
    var oldRev := LatestBefore(revs, p.id);
    if InScope(p.id, pageIds) && Found(oldRev) {
      assert oldRev.value in revs;
    }
  }

  /** Running the revert again over its own result changes nothing. */
  lemma RevertIsIdempotent(pages: seq<Page>, revs: seq<Revision>, pageIds: seq<nat>)
    ensures RevertedPages(RevertedPages(pages, revs, pageIds), revs, pageIds) ==
            RevertedPages(pages, revs, pageIds)
  {
    var once := RevertedPages(pages, revs, pageIds);
    forall k | 0 <= k < |pages|
      ensures RevertedPages(once, revs, pageIds)[k] == once[k]
    {
      assert once[k].id == pages[k].id;
    }
  }

  /** If every page pointed at one of its own revisions before, it still
      does afterwards. */
  lemma RevertKeepsPagesResolved(pages: seq<Page>, revs: seq<Revision>, pageIds: seq<nat>)
    requires PagesResolve(pages, revs)
    ensures PagesResolve(RevertedPages(pages, revs, pageIds), revs)
  {
    var after := RevertedPages(pages, revs, pageIds);
    forall p' | p' in after
      ensures exists r :: r in revs && r.id == p'.latest && r.page == p'.id
    {
      var k :| 0 <= k < |after| && after[k] == p';
      var p := pages[k];
      assert p in pages;
      var oldRev := LatestBefore(revs, p.id);
      if InScope(p.id, pageIds) && Found(oldRev) {
        assert oldRev.value in revs && oldRev.value.id == p'.latest;
      }
    }
  }

  /** Revert first, then purge, over the same pages: a processed page whose
      revert found a revision still points at an existing revision of its
      own, because that revision is older than the cutoff and the purge
      keeps it. */
  lemma PurgeAfterRevertKeepsPointers(pages: seq<Page>, revs: seq<Revision>, pageIds: seq<nat>, k: nat)
    requires UniqueRevIds(revs)
    requires k < |pages|
    requires InScope(pages[k].id, pageIds) && Found(LatestBefore(revs, pages[k].id))
    ensures var p' := RevertedPages(pages, revs, pageIds)[k];
      var kept := WithoutRevisions(revs, DeleteNewRevisions.NewRevIds(revs, pageIds));
      exists r :: r in kept && r.id == p'.latest && r.page == p'.id
  {
    var r := LatestBefore(revs, pages[k].id).value;
    LessTrichotomy(r.timestamp, Cutoff);
    assert !DeleteNewRevisions.IsNew(r, pageIds);
    DeleteNewRevisions.PurgeKeepsUnselected(revs, [], pageIds);
  }

  /** A revision stamped exactly at the cutoff is neither a purge target
      nor a revert target: the purge compares with `>`, the revert with
      `<`. Every other timestamp is exactly one of the two. */
  lemma CutoffBoundary(r: Revision, pageIds: seq<nat>)
    ensures r.timestamp == Cutoff ==>
      !DeleteNewRevisions.IsNew(r, pageIds) && !IsCandidate(r, r.page)
    ensures r.timestamp != Cutoff ==>
      (Less(Cutoff, r.timestamp) <==> !Less(r.timestamp, Cutoff))
  {
    LessIrreflexive(Cutoff);
    LessTrichotomy(r.timestamp, Cutoff);
  }

  /** A page whose query answers a revision with rev_id 0 is treated as
      not found by the truthiness test, and keeps its pointer. */
  lemma RevisionZeroIsNotFound(pages: seq<Page>, revs: seq<Revision>, pageIds: seq<nat>, k: nat)
    requires k < |pages|
    requires LatestBefore(revs, pages[k].id).Some? && LatestBefore(revs, pages[k].id).value.id == 0
    ensures RevertedPages(pages, revs, pageIds)[k] == pages[k]
  {
  }

  /** Over three rows of one page of which only the first is older than the
      cutoff, the first is the latest before it. */
  lemma OnlyFirstIsCandidate(r0: Revision, r1: Revision, r2: Revision, pageId: nat)
    requires IsCandidate(r0, pageId) && !IsCandidate(r1, pageId) && !IsCandidate(r2, pageId)
    ensures LatestBefore([r0, r1, r2], pageId) == Some(r0)
  {
    assert [r0, r1, r2][1..] == [r1, r2] && [r1, r2][1..] == [r2] && [r2][1..] == [];
  }

  /** A processed page whose query found a revision with a non-zero id is
      pointed at that revision, and nothing else about it changes. */
  lemma RevertOnePage(pages: seq<Page>, revs: seq<Revision>, pageIds: seq<nat>, k: nat, r: Revision)
    requires k < |pages| && InScope(pages[k].id, pageIds)
    requires LatestBefore(revs, pages[k].id) == Some(r) && r.id != 0
    ensures RevertedPages(pages, revs, pageIds)[k] == pages[k].(latest := r.id)
  {
  }

  /** Of the example's revisions only the first is older than the cutoff. */
  lemma ExampleCandidates()
    ensures var revs := DeleteNewRevisions.ExampleRevisions;
      IsCandidate(revs[0], 5) && !IsCandidate(revs[1], 5) && !IsCandidate(revs[2], 5)
  {
    DeleteNewRevisions.ExampleNewness();
    var revs := DeleteNewRevisions.ExampleRevisions;
    LessTrichotomy(Cutoff, revs[0].timestamp);
    LessTrichotomy(Cutoff, revs[1].timestamp);
    LessTrichotomy(Cutoff, revs[2].timestamp);
  }

  /** On revisions 10 (August 1), 11 (August 10) and 12 (September 1, 2019)
      of page 5, a confirmed revert points page 5 at revision 10. */
  lemma RevertExample(latest: nat)
    ensures RevertedPages([Page(5, latest)], DeleteNewRevisions.ExampleRevisions, []) == [Page(5, 10)]
  {
    var revs := DeleteNewRevisions.ExampleRevisions;
    ExampleCandidates();
    OnlyFirstIsCandidate(revs[0], revs[1], revs[2], 5);
    assert [revs[0], revs[1], revs[2]] == revs;
    RevertSinglePage(Page(5, latest), revs, revs[0]);
  }

  /** The one-page table of RevertExample, with its values left open. */
  lemma RevertSinglePage(p: Page, revs: seq<Revision>, r: Revision)
    requires LatestBefore(revs, p.id) == Some(r) && r.id != 0
    ensures RevertedPages([p], revs, []) == [Page(p.id, r.id)]
  {
    RevertOnePage([p], revs, [], 0, r);
  }

  // ---------------------------------------------------------------------
  // Pages created after the cutoff.

  /** A page whose every revision is new keeps its pointer through the
      revert, since there is no earlier revision to point at, and the purge
      then deletes the revision it points at: the page row is left
      dangling. */
  lemma NewPageDangles(p: Page, r: Revision)
    requires r.page == p.id && r.id == p.latest && DeleteNewRevisions.IsNew(r, [])
    ensures PagesResolve([p], [r])
    ensures RevertedPages([p], [r], []) == [p]
    ensures !PagesResolve(RevertedPages([p], [r], []),
                          WithoutRevisions([r], DeleteNewRevisions.NewRevIds([r], [])))
  {
    assert r in [r] && p in [p];
    LessTrichotomy(Cutoff, r.timestamp);
    NoCandidateKeepsPage(p, r);
    OnlyRevisionIsPurged(r);
  }

  lemma NoCandidateKeepsPage(p: Page, r: Revision)
    requires !IsCandidate(r, p.id)
    ensures RevertedPages([p], [r], []) == [p]
  {
    assert [r][1..] == [];
  }

  lemma OnlyRevisionIsPurged(r: Revision)
    requires DeleteNewRevisions.IsNew(r, [])
    ensures WithoutRevisions([r], DeleteNewRevisions.NewRevIds([r], [])) == []
  {
    DeleteNewRevisions.NewRevIdsAppend([], r, []);
    assert [] + [r] == [r];
  }

  /** Page 5 created on September 1, 2019, with revision 12 as its only
      revision, is left pointing at a deleted revision. */
  lemma PageCreatedAfterCutoffDangles()
    ensures var r := DeleteNewRevisions.ExampleRevisions[2];
      !PagesResolve(RevertedPages([Page(5, 12)], [r], []),
                    WithoutRevisions([r], DeleteNewRevisions.NewRevIds([r], [])))
  {
    DeleteNewRevisions.ExampleNewness();
    NewPageDangles(Page(5, 12), DeleteNewRevisions.ExampleRevisions[2]);
  }

  /** The `page` table after a revert and a purge over the same page ids,
      when a processed page whose query found no revision is removed as
      well: such a page did not exist at the cutoff. */
  function RolledBackPages(pages: seq<Page>, revs: seq<Revision>, pageIds: seq<nat>): (after: seq<Page>)
    ensures |after| <= |pages|
  {
    if pages == [] then []
    else
      var p := pages[0];
      var head := if !InScope(p.id, pageIds) then [p]
                  else if Found(LatestBefore(revs, p.id)) then [RevertedPage(p, revs)]
                  else [];
      head + RolledBackPages(pages[1..], revs, pageIds)
  }

  /** One page that the rollback keeps still points at one of its own
      revisions after the purge. */
  lemma RolledBackPageResolves(p: Page, revs: seq<Revision>, pageIds: seq<nat>)
    requires UniqueRevIds(revs)
    requires exists r :: r in revs && r.id == p.latest && r.page == p.id
    requires !InScope(p.id, pageIds) || Found(LatestBefore(revs, p.id))
    ensures var p' := if InScope(p.id, pageIds) then RevertedPage(p, revs) else p;
      exists r :: r in WithoutRevisions(revs, DeleteNewRevisions.NewRevIds(revs, pageIds)) &&
        r.id == p'.latest && r.page == p'.id
  {
    var kept := WithoutRevisions(revs, DeleteNewRevisions.NewRevIds(revs, pageIds));
    DeleteNewRevisions.PurgeKeepsUnselected(revs, [], pageIds);
    if InScope(p.id, pageIds) {
      var r := LatestBefore(revs, p.id).value;
      DeleteNewRevisions.BeforeCutoffIsNotNew(r, pageIds);
      assert r in kept;
    } else {
      var r :| r in revs && r.id == p.latest && r.page == p.id;
      assert !DeleteNewRevisions.IsNew(r, pageIds);
      assert r in kept;
    }
  }

  /** With pages created after the cutoff removed, revert and purge
      together keep every page pointing at one of its own revisions. */
  lemma {:induction false} RollbackKeepsPagesResolved(pages: seq<Page>, revs: seq<Revision>, pageIds: seq<nat>)
    requires UniqueRevIds(revs) && PagesResolve(pages, revs)
    ensures PagesResolve(RolledBackPages(pages, revs, pageIds),
                         WithoutRevisions(revs, DeleteNewRevisions.NewRevIds(revs, pageIds)))
  {
    if pages != [] {
      var p := pages[0];
      assert p in pages;
      assert PagesResolve(pages[1..], revs) by {
        forall q | q in pages[1..] ensures exists r :: r in revs && r.id == q.latest && r.page == q.id {
          assert q in pages;
        }
      }
      RollbackKeepsPagesResolved(pages[1..], revs, pageIds);
      if !InScope(p.id, pageIds) || Found(LatestBefore(revs, p.id)) {
        RolledBackPageResolves(p, revs, pageIds);
      }
    }
  }
}
