# Reverting a MediaWiki to its state of August 9, 2019

This project models a small toolkit for rolling a MediaWiki back to a given date, and for scraping a wiki into local files.

The rollback uses two maintenance scripts:

- `deleteNewRevisions.php` deletes every revision stamped after `20190809000000`, optionally only for the listed pages. Together with each revision it deletes the `ip_changes` rows that point at it. It commits, and then, on a confirmed run, asks the framework to purge text rows that no revision uses any more.
- `revertPagesToOldRevisions.php` goes over the pages, or over the listed pages. For each one it finds the latest revision stamped before the cutoff and, on a confirmed run, points `page_latest` at it.

The scraper uses two Python scripts:

- `script.py` downloads pages and revision histories into files named after sanitised titles, and images into files named after the sanitised last segment of their URL. It then builds an XML dump and recovers the titles from the page and revisions file names.
- `getalltitles.py` follows the `allpages` continuation of the MediaWiki API and writes every title to a file, one per line.

The Dafny model has six modules:

- `Timestamps` compares the quoted 14-digit timestamps (`YYYYMMDDhhmmss`) the way the database compares strings, byte by byte. It also proves that, for equal-width digit strings, this order is the numeric order.
- `WikiDb` holds the `revision`, `ip_changes` and `page` tables as sequences of rows, in result-set order. The `Database` class is the primary-database handle. Its methods are the DELETE and UPDATE statements and the transaction events, which are recorded in a log.
- `DeleteNewRevisions` covers `doDelete`:
  - the selection is the function `NewRevIds`, with the selection loop proved against it;
  - the script itself is a module-level method that takes the `Database` handle, and its contract states the whole new state;
  - the lemmas cover what a confirmed run removes, what it keeps, and that a second run does nothing.
- `RevertPagesToOldRevisions` covers `doRevert`:
  - the per-page query `ORDER BY rev_timestamp DESC LIMIT 1` is the function `LatestBefore`;
  - the loop over the pages is a method proved against `RevertedPages`;
  - the lemmas cover the choice of revision, the untouched pages, idempotence, and how the script interacts with the purge, including the pages created after the cutoff that the two scripts leave pointing at a deleted revision.
- `Scraper` covers the file-name side of `script.py`. That is `sanitize_filename`, the page, revisions and image file names, and the titles the XML dump recovers from them. `getalltitles.py` has an identical `sanitize_filename`, and the model defines it once, here.
- `AllTitles` covers `fetch_all_titles`, with the API's answers given as a sequence of responses, and the titles file.

## Model

| member | source | states |
|---|---|---|
| Timestamps.LessTrichotomy | deleteNewRevisions.php:64 | the string comparison on timestamps is a strict total order: two stamps are equal or exactly one is smaller, never both |
| Timestamps.LessIsNumericOrder | deleteNewRevisions.php:64 | on digit strings of one length, the string order is the numeric order of the numbers they spell (both directions) |
| Timestamps.CutoffComparisonIsNumeric | revertPagesToOldRevisions.php:63 | for a 14-digit stamp, `> '20190809000000'` and `< '20190809000000'` are the chronological comparisons with the cutoff |
| Timestamps.IsoStampSortsBeforeCutoff | revertPagesToOldRevisions.php:63 | without the fixed-width format the comparison is not chronological: `2019-08-10` sorts before the cutoff |
| WikiDb.WithoutRevisionsKeeps | deleteNewRevisions.php:81-84 | `DELETE FROM revision WHERE rev_id IN ids` keeps exactly the rows whose id is not listed |
| WikiDb.WithoutIpChangesKeeps | deleteNewRevisions.php:85-88 | `DELETE FROM ip_changes WHERE ipc_rev_id IN ids` keeps exactly the rows whose revision id is not listed |
| WikiDb.WithLatestKeepsResolved | revertPagesToOldRevisions.php:75-80 | when every page points at one of its own revisions, the UPDATE that points a page at another of its own revisions keeps that so for every page |
| WikiDb.Database.UpdatePageLatest | revertPagesToOldRevisions.php:75-80 | the `page` table becomes `WithLatest` of the old table; no other table changes |
| WikiDb.WithoutNoRevisions | deleteNewRevisions.php:79-84 | deleting by an empty id list leaves the `revision` table as it was |
| WikiDb.DeletionKeepsIpChangesResolved | deleteNewRevisions.php:79-90 | if every `ip_changes` row referenced an existing revision, it still does after both deletions by the same ids |
| WikiDb.DeletingRevisionsAloneCanDangle | deleteNewRevisions.php:85-88 | deleting a revision without its `ip_changes` row leaves that row dangling |
| DeleteNewRevisions.NewRevIdsSelects | deleteNewRevisions.php:53-66 | an id is selected exactly when some revision with that id is stamped strictly after the cutoff and its page is in scope (every page when no ids were given) |
| DeleteNewRevisions.SelectNewRevisions | deleteNewRevisions.php:68-71 | the `foreach` gathering `$newRevs` yields the selection `NewRevIds`, in result-set order |
| DeleteNewRevisions.DoDelete | deleteNewRevisions.php:44-97 | the count is the number of selected ids; both tables lose exactly the selected ids when confirmed and the count is non-zero, and are unchanged otherwise; pages never change; the log is begin, commit, then the text purge only when confirmed (even with count 0) |
| DeleteNewRevisions.DeleteSelected | deleteNewRevisions.php:81-88 | the two DELETE statements remove the listed ids from `revision` and `ip_changes` and change nothing else |
| DeleteNewRevisions.ConfirmedPurgeTwice | deleteNewRevisions.php:61-90 | two confirmed runs in a row: the second reports 0, and the tables are as the first run left them |
| DeleteNewRevisions.ConfirmedPurgeRemovesSelection | deleteNewRevisions.php:81-88 | after a confirmed run, no remaining revision is new and in scope, and no remaining `ip_changes` row references a selected id |
| DeleteNewRevisions.PurgeKeepsUnselected | deleteNewRevisions.php:64-88 | with rev_id as primary key, every revision that is not new or not in scope survives, and so do its `ip_changes` rows |
| DeleteNewRevisions.PurgeIsIdempotent | deleteNewRevisions.php:61-79 | after a confirmed run the selection over the remaining revisions is empty |
| DeleteNewRevisions.NothingNewSelectsNothing | deleteNewRevisions.php:61-71 | if no revision is new and in scope, the selection is empty |
| DeleteNewRevisions.PageListOnlyNarrows | deleteNewRevisions.php:53-57 | with no page ids every revision after the cutoff is selected, and a page list only narrows that selection |
| DeleteNewRevisions.CutoffStampIsNotNew | deleteNewRevisions.php:64 | a revision stamped exactly at the cutoff is not selected (the comparison is strict) |
| DeleteNewRevisions.BeforeCutoffIsNotNew | deleteNewRevisions.php:64 | a revision stamped before the cutoff is never selected |
| DeleteNewRevisions.NewRevIdsAppend | deleteNewRevisions.php:68-71 | one more row in the result set appends its id exactly when it is new |
| DeleteNewRevisions.SelectLastTwo | deleteNewRevisions.php:61-71 | over three rows of which only the first is old, the selection is the ids of the other two, in order |
| DeleteNewRevisions.ExampleSelection | deleteNewRevisions.php:61-71 | on revisions of August 1, August 10 and September 1, 2019, the last two are selected |
| DeleteNewRevisions.PurgeExample | deleteNewRevisions.php:61-88 | on that example a confirmed run deletes 11 and 12 and keeps 10 |
| RevertPagesToOldRevisions.LatestBefore | revertPagesToOldRevisions.php:58-68 | the query answers a revision of the page stamped strictly before the cutoff, with no such revision later; it answers nothing exactly when the page has no such revision |
| RevertPagesToOldRevisions.ScopedPageIds | revertPagesToOldRevisions.php:33-48 | the pages processed are all pages when no ids were given, and otherwise exactly the pages whose id is listed |
| RevertPagesToOldRevisions.DoRevert | revertPagesToOldRevisions.php:29-94 | `revision` and `ip_changes` never change; on a confirmed run the `page` table becomes `RevertedPages` of the old tables, and on a dry run it is unchanged; the commit happens only when confirmed |
| RevertPagesToOldRevisions.ConfirmedRevertTwice | revertPagesToOldRevisions.php:52-89 | two confirmed runs in a row leave the pages as the first run did |
| RevertPagesToOldRevisions.RevertChoosesLatestBefore | revertPagesToOldRevisions.php:52-85 | each page keeps its id; a page out of scope, or one with no revision before the cutoff, keeps its pointer; a processed page whose query found a revision points at a revision of its own, stamped before the cutoff, with none of its revisions before the cutoff later |
| RevertPagesToOldRevisions.RevertIsIdempotent | revertPagesToOldRevisions.php:58-80 | reverting the reverted pages again changes nothing |
| RevertPagesToOldRevisions.RevertKeepsPagesResolved | revertPagesToOldRevisions.php:70-80 | if every page pointed at one of its own revisions, it still does |
| RevertPagesToOldRevisions.PurgeAfterRevertKeepsPointers | revertPagesToOldRevisions.php:58-80 | after a revert, a purge over the same pages keeps the revision that each processed page whose query found a revision now points at |
| RevertPagesToOldRevisions.CutoffBoundary | revertPagesToOldRevisions.php:63 | a revision stamped exactly at the cutoff is neither purged (`>`) nor a revert target (`<`); every other stamp is exactly one of the two |
| RevertPagesToOldRevisions.RevisionZeroIsNotFound | revertPagesToOldRevisions.php:70 | in any table, any scope and at any position, a page whose latest candidate has rev_id 0 is treated as not found and keeps its pointer |
| RevertPagesToOldRevisions.OnlyFirstIsCandidate | revertPagesToOldRevisions.php:58-68 | among three rows of which only the first is before the cutoff, the query answers the first |
| RevertPagesToOldRevisions.RevertOnePage | revertPagesToOldRevisions.php:70-80 | in any table, a processed page at any position whose query found a revision with a non-zero id is pointed at it, its id unchanged |
| RevertPagesToOldRevisions.RevertExample | revertPagesToOldRevisions.php:52-85 | on revisions of August 1, August 10 and September 1, 2019, page 5 is pointed at the August 1 revision |
| RevertPagesToOldRevisions.NewPageDangles | revertPagesToOldRevisions.php:82-84 | a page whose only revision is new points at it before the run, keeps that pointer through the revert, and no longer points at any revision after the purge |
| RevertPagesToOldRevisions.PageCreatedAfterCutoffDangles | revertPagesToOldRevisions.php:82-84 | page 5 whose only revision 12 is stamped September 1, 2019 is left pointing at a deleted revision |
| RevertPagesToOldRevisions.RollbackKeepsPagesResolved | revertPagesToOldRevisions.php:70-84 | with the processed pages that have no revision before the cutoff removed, revert and purge together keep every page pointing at one of its own revisions |
| Scraper.Sanitize | script.py:16-18 | the result has the title's length, each of `/ : * ? " < > \|` becomes `_`, and every other character stays where it was |
| Scraper.SanitizedIsClean | script.py:18 | no forbidden character survives sanitising |
| Scraper.SanitizeFixesExactlyClean | script.py:18 | sanitising leaves a title unchanged exactly when it has no forbidden character |
| Scraper.SanitizeIsIdempotent | getalltitles.py:6-7 | sanitising twice is sanitising once (the same definition serves both scripts) |
| Scraper.SanitizeKeepsBackslash | script.py:18 | a backslash is not among the replaced characters |
| Scraper.SanitizeMerges | script.py:46-54 | two different titles can share a file name, so the second is skipped as already present |
| Scraper.LastSegment | script.py:75 | `url.split('/')[-1]` is a suffix of the URL with no slash, preceded by a slash whenever it is not the whole URL |
| Scraper.ImageFileNameIsClean | script.py:75 | the image file name is as long as the last URL segment and has no forbidden character, a slash included |
| Scraper.ImagePathNamesTheFile | script.py:111-114 | the `/images/<name>` path in the dump ends in the file name the scraper wrote |
| Scraper.ReplaceAfterPatternFreePrefix | script.py:91 | `replace` on a pattern-free prefix followed by the pattern keeps the prefix and continues after the pattern |
| Scraper.ReplaceShortens | script.py:91 | `replace(pattern, '')` on a string holding the pattern removes at least one pattern's length |
| Scraper.ReplaceSuffixRoundTrip | script.py:89-91 | appending a suffix and then removing every occurrence gives the string back exactly when it has no occurrence of its own |
| Scraper.PageTitleRoundTrip | script.py:89-91 | the page file ends in `.json`, and the dump recovers the sanitised title exactly when that title does not contain `.json` |
| Scraper.RevisionsTitleRoundTrip | script.py:100-102 | the revisions file ends in `_revisions.json`, and the dump recovers the sanitised title exactly when that title does not contain `_revisions.json` |
| Scraper.PageTitleLoss | script.py:91 | a clean title made of a stem and `.json` is written to a file with the suffix twice, and the dump names the page after the stem alone |
| Scraper.RevisionsTitleLoss | script.py:102 | the same for revisions and `_revisions.json` |
| Scraper.DataJsonTitleLoss | script.py:91 | the page `Data.json` is dumped as `Data` |
| Scraper.SanitizeSlashJoined | script.py:18 | a slash between two clean parts is the one character sanitising changes, into `_` |
| Scraper.SlashedTitleLoss | script.py:100-102 | a title `<stem>/revisions.json` is written to `<stem>_revisions.json_revisions.json`, and the dump names the page after the stem alone |
| Scraper.LogRevisionsTitleLoss | script.py:102 | the revisions of `Log/revisions.json` are written to `Log_revisions.json_revisions.json` and dumped as `Log` |
| Scraper.StripSuffix | script.py:90-91 | removing only a trailing suffix: the result followed by the suffix is the name when it ends in the suffix, and the name is kept otherwise |
| Scraper.StrippedTitlesRoundTrip | script.py:89-102 | with suffix stripping, the dump recovers every sanitised title from its page file and its revisions file |
| AllTitles.FetchAllTitles | getalltitles.py:10-27 | the loop makes one request per response until the first response without `continue`; the first request has no `apcontinue`, each later one carries the previous response's value; the titles are those responses' titles concatenated in order |
| AllTitles.WriteTitles | getalltitles.py:34-36 | the text written is `TitlesFile` of the titles: each title followed by a newline, in order |
| AllTitles.TitlesFileAppend | getalltitles.py:35-36 | one more title adds its line at the end of the file |
| AllTitles.TitlesFileRoundTrip | getalltitles.py:34-36 | reading the file back line by line gives the titles, in order, as long as no title contains a newline |

## Left out

- Database connection, the query-builder API and transaction rollback. The tables are sequences, and a transaction is only the begin and commit events in the log.
- `purgeRedundantText` (deleteNewRevisions.php:95) is a framework call; only the call and its place after the commit are recorded.
- Option parsing and output text. The declared `page_id` option is never read; page ids come from the positional arguments, which are taken as naturals. `$pageConds` in deleteNewRevisions.php is built but never used.
- RevertPagesToOldRevisions.LatestBefore: when several revisions share the greatest timestamp the database may return any of them; the model returns the first in table order, and its contract promises only that no candidate is later. The idempotence of two confirmed reverts relies on that fixed choice.
- Timestamps: the stored stamps are not required to be 14 digits. The comparisons are modelled on arbitrary strings, and only `CutoffComparisonIsNumeric` assumes the fixed width.
- All HTTP requests, JSON parsing and URL construction in the Python scripts. `fetch_all_titles` receives its responses as a sequence, and a response without `query.allpages` is not modelled.
- AllTitles.FetchAllTitles: a response is either without `continue` or with `continue.apcontinue`; a `continue` without `apcontinue`, on which the source raises a KeyError (getalltitles.py:22), is not modelled.
- AllTitles.FetchAllTitles: the continuation value is put into the URL without encoding (getalltitles.py:23), so an `&`, `#` or `+` in it reaches the server altered; "each request carries the previous value" holds for the request before it is written into a URL.
- AllTitles.FetchAllTitles: requires that some response carries no continuation. A server that continues forever makes the source loop forever, which the model does not capture.
- Filesystem effects: creating the directories, the `os.path.exists` skip checks, file writes, and the order `os.listdir` returns. The model states only the names the files get and the titles recovered from them.
- Building and writing the XML tree with ElementTree, and the JSON content placed in it.
- Concurrency between runs of the scripts.

## Findings

| source | as written | input that shows it | evidently intended | confidence | as-written member | corrected member |
|---|---|---|---|---|---|---|
| script.py:91 | `filename.replace('.json', '')` removes every `.json` in the file name | a page titled `Data.json` is saved as `Data.json.json` and dumped with the title `Data` | strip only the trailing `.json` | not executed | Scraper.PageTitleLoss | Scraper.StrippedTitlesRoundTrip |
| script.py:102 | `filename.replace('_revisions.json', '')` removes every `_revisions.json` in the file name | the revisions of a page titled `Log/revisions.json` are saved as `Log_revisions.json_revisions.json` and dumped with the title `Log` | strip only the trailing `_revisions.json` | not executed | Scraper.LogRevisionsTitleLoss | Scraper.StrippedTitlesRoundTrip |
| revertPagesToOldRevisions.php:82-84 | a processed page with no revision before the cutoff is left as it is, while deleteNewRevisions.php:81-84 deletes all its revisions and never touches `page` | page 5 whose only revision 12 is stamped `20190901000000`, with `page_latest` 12, keeps pointing at revision 12, which the purge deletes | a page created after the cutoff does not survive the rollback, so every remaining page points at one of its revisions | not executed | RevertPagesToOldRevisions.PageCreatedAfterCutoffDangles | RevertPagesToOldRevisions.RollbackKeepsPagesResolved |
