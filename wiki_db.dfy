/** The part of a MediaWiki database the two maintenance scripts touch: the
    `revision`, `ip_changes` and `page` tables, held in memory, and the
    primary-database handle through which the scripts query and change them
    inside one transaction. Each table is a sequence of rows in the order a
    result set returns them. */
module WikiDb {
  import opened Timestamps
  import opened Options

  /** A `revision` row: rev_id, rev_page, rev_timestamp. */
  datatype Revision = Revision(id: nat, page: nat, timestamp: Timestamp)

  /** An `ip_changes` row, keyed by the revision it records (ipc_rev_id). */
  datatype IpChange = IpChange(revId: nat, hex: string)

  /** A `page` row: page_id and the current-revision pointer page_latest. */
  datatype Page = Page(id: nat, latest: nat)

  /** What the scripts ask of the framework besides queries, in order. */
  datatype Event = Begin | Commit | PurgeRedundantText

  /** Page-id scoping shared by both scripts: an empty list of page ids
      puts no restriction on the query; otherwise the id must be listed. */
  predicate InScope(pageId: nat, pageIds: seq<nat>)
  {
    |pageIds| == 0 || pageId in pageIds
  }

  /** rev_id is the primary key of `revision`. */
  ghost predicate UniqueRevIds(revs: seq<Revision>)
  {
    forall i, j :: 0 <= i < j < |revs| ==> revs[i].id != revs[j].id
  }

  /** Every `ip_changes` row points at an existing revision. */
  ghost predicate IpChangesResolve(revs: seq<Revision>, ips: seq<IpChange>)
  {
    forall c :: c in ips ==> exists r :: r in revs && r.id == c.revId
  }

  /** Every page's page_latest names an existing revision of that page. */
  ghost predicate PagesResolve(pages: seq<Page>, revs: seq<Revision>)
  {
    forall p :: p in pages ==> exists r :: r in revs && r.id == p.latest && r.page == p.id
  }

  /** The `revision` table after `DELETE FROM revision WHERE rev_id IN ids`. */
  function WithoutRevisions(revs: seq<Revision>, ids: seq<nat>): (kept: seq<Revision>)
    ensures |kept| <= |revs|
  {
    if revs == [] then []
    else
      var rest := WithoutRevisions(revs[1..], ids);
      if revs[0].id in ids then rest else [revs[0]] + rest
  }

  /** The `ip_changes` table after `DELETE FROM ip_changes WHERE ipc_rev_id IN ids`. */
  function WithoutIpChanges(ips: seq<IpChange>, ids: seq<nat>): (kept: seq<IpChange>)
    ensures |kept| <= |ips|
  {
    if ips == [] then []
    else
      var rest := WithoutIpChanges(ips[1..], ids);
      if ips[0].revId in ids then rest else [ips[0]] + rest
  }

  /** The `page` table after `UPDATE page SET page_latest = revId WHERE page_id = pageId`. */
  function WithLatest(pages: seq<Page>, pageId: nat, revId: nat): (updated: seq<Page>)
    ensures |updated| == |pages|
    ensures forall k :: 0 <= k < |pages| ==>
      updated[k] == if pages[k].id == pageId then Page(pageId, revId) else pages[k]
  {
    seq(|pages|, k requires 0 <= k < |pages| =>
      if pages[k].id == pageId then pages[k].(latest := revId) else pages[k])
  }

  /** Pointing a page at one of its own revisions keeps every page
      resolved. */
  lemma WithLatestKeepsResolved(pages: seq<Page>, revs: seq<Revision>, pageId: nat, revId: nat)
    requires PagesResolve(pages, revs)
    requires exists r :: r in revs && r.id == revId && r.page == pageId
    ensures PagesResolve(WithLatest(pages, pageId, revId), revs)
  {
    var updated := WithLatest(pages, pageId, revId);
    forall p' | p' in updated ensures exists r :: r in revs && r.id == p'.latest && r.page == p'.id {
      var k :| 0 <= k < |updated| && updated[k] == p';
      assert pages[k] in pages;
    }
  }

  /** The primary-database handle: the three tables and the log of
      transaction and purge events. */
  class Database {
    var revisions: seq<Revision>
    var ipChanges: seq<IpChange>
    var pages: seq<Page>
    var log: seq<Event>

    constructor (revisions: seq<Revision>, ipChanges: seq<IpChange>, pages: seq<Page>)
      ensures this.revisions == revisions && this.ipChanges == ipChanges && this.pages == pages
      ensures log == []
    {
      this.revisions := revisions;
      this.ipChanges := ipChanges;
      this.pages := pages;
      log := [];
    }

    method BeginTransaction()
      modifies this`log
      ensures log == old(log) + [Begin]
    {
      log := log + [Begin];
    }

    method CommitTransaction()
      modifies this`log
      ensures log == old(log) + [Commit]
    {
      log := log + [Commit];
    }

    /** The framework's text-table garbage collection; only the call is
        recorded. */
    method PurgeRedundantTextCall()
      modifies this`log
      ensures log == old(log) + [PurgeRedundantText]
    {
      log := log + [PurgeRedundantText];
    }

    method DeleteRevisions(ids: seq<nat>)
      modifies this`revisions
      ensures revisions == WithoutRevisions(old(revisions), ids)
    {
      revisions := WithoutRevisions(revisions, ids);
    }

    method DeleteIpChanges(ids: seq<nat>)
      modifies this`ipChanges
      ensures ipChanges == WithoutIpChanges(old(ipChanges), ids)
    {
      ipChanges := WithoutIpChanges(ipChanges, ids);
    }

    method UpdatePageLatest(pageId: nat, revId: nat)
      modifies this`pages
      ensures pages == WithLatest(old(pages), pageId, revId)
    {
      pages := WithLatest(pages, pageId, revId);
    }
  }

  /** The rows the revision DELETE keeps are exactly those whose id is not
      listed. */
  lemma {:induction false} WithoutRevisionsKeeps(revs: seq<Revision>, ids: seq<nat>)
    ensures forall r :: r in WithoutRevisions(revs, ids) <==> r in revs && r.id !in ids
  {
    if revs != [] {
      WithoutRevisionsKeeps(revs[1..], ids);
      assert forall r :: r in revs <==> r == revs[0] || r in revs[1..];
    }
  }

  /** The same for the `ip_changes` DELETE. */
  lemma {:induction false} WithoutIpChangesKeeps(ips: seq<IpChange>, ids: seq<nat>)
    ensures forall c :: c in WithoutIpChanges(ips, ids) <==> c in ips && c.revId !in ids
  {
    if ips != [] {
      WithoutIpChangesKeeps(ips[1..], ids);
      assert forall c :: c in ips <==> c == ips[0] || c in ips[1..];
    }
  }

  /** Deleting by an empty id list changes neither table. */
  lemma {:induction false} WithoutNoRevisions(revs: seq<Revision>)
    ensures WithoutRevisions(revs, []) == revs
  {
    if revs != [] {
      WithoutNoRevisions(revs[1..]);
    }
  }

  lemma {:induction false} WithoutNoIpChanges(ips: seq<IpChange>)
    ensures WithoutIpChanges(ips, []) == ips
  {
    if ips != [] {
      WithoutNoIpChanges(ips[1..]);
    }
  }

  // ---------------------------------------------------------------------
  // Referential integrity across the deletions.

  /** Deleting a set of revisions together with the `ip_changes` rows that
      reference them leaves no `ip_changes` row dangling. */
  lemma DeletionKeepsIpChangesResolved(revs: seq<Revision>, ips: seq<IpChange>, ids: seq<nat>)
    requires IpChangesResolve(revs, ips)
    ensures IpChangesResolve(WithoutRevisions(revs, ids), WithoutIpChanges(ips, ids))
  {
    var revs', ips' := WithoutRevisions(revs, ids), WithoutIpChanges(ips, ids);
    WithoutRevisionsKeeps(revs, ids);
    WithoutIpChangesKeeps(ips, ids);
    forall c | c in ips' ensures exists r :: r in revs' && r.id == c.revId {
      var r :| r in revs && r.id == c.revId;
      assert r in revs';
    }
  }

  /** Deleting revisions alone, without their `ip_changes` rows, can leave a
      dangling row: this is why the purge deletes both. */
  lemma DeletingRevisionsAloneCanDangle()
    ensures var revs, ips := [Revision(7, 1, "20200101000000")], [IpChange(7, "7F000001")];
      IpChangesResolve(revs, ips) && !IpChangesResolve(WithoutRevisions(revs, [7]), ips)
  {
    var revs, ips := [Revision(7, 1, "20200101000000")], [IpChange(7, "7F000001")];
    assert revs[0] in revs;
    assert WithoutRevisions(revs, [7]) == [];
    assert ips[0] in ips;
  }
}
