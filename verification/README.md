# webtrees family trees, modelled in Dafny

This project models two parts of webtrees, a PHP application for genealogy.

The first is the `Tree` class (`app/Tree.php`). One tree owns a cached copy of
its preferences and of its users' preferences, and three privacy maps built
from its `default_resn` rows. Its operations are:

- the chunked GEDCOM import;
- the streaming GEDCOM export;
- allocation of new xrefs (record identifiers) that are unique across all trees;
- the four record-creation methods, which insert a pending change;
- deletion of a tree's genealogy data, or of the whole tree;
- the fallback chain that picks the "most significant" individual of a tree.

The second is the submitter page request handler
(`app/Http/RequestHandlers/SubmitterPage.php`). It orders a submitter's facts
by a fixed tag order, and redirects to the canonical URL when the xref or slug
of the request is not the submitter's own.

Modules, one per file:

- `Wrappers`: Option and Result.
- `Strings`: PHP's string helpers, `(string)` and `(int)` casts and truthiness.
- `Privacy`: the RESN to access-level table and the constructor's classification of rows.
- `GedcomImport`: the import splitter, as a function of the blocks read.
- `GedcomExport`: the export row order and the writes made to the stream.
- `XrefAllocation`: the candidate numbers of the xref allocator.
- `RecordCreation`: the placeholder rewrite and CHAN block.
- `Storage`: the database tables, in a `Database` class whose three fields group the genealogy tables, the per-tree settings tables and the site settings.
- `Trees`: the `Tree` class.
- `SubmitterPage`: the handler.

Code that changes state step by step is written as imperative methods of the
`Tree` and `Database` classes. Each method is proved against a specification
function or predicate, such as `GenealogyDeleted`, `ImportChunks`, `Writes`,
`FirstFreeCandidate` or `FirstFound`. The properties of those functions are
proved as lemmas. The submitter page is pure, so it is modelled as functions.

## Model

| member | source | states |
|---|---|---|
| Privacy.ResnAccess | app/Tree.php:48-53 | exactly the four RESN values `none`, `privacy`, `confidential` and `hidden` have an access level |
| Trees.Tree.constructor | app/Tree.php:86-114 | the three privacy maps are the fold of the tree's default_resn rows; both caches start empty and consistent with the tables |
| Privacy.ClassifySetsOnlyItsTarget | app/Tree.php:102-112 | a row sets the entry chosen by which of xref and tag_type are null, and no other entry |
| Privacy.LastRuleWins | app/Tree.php:100-113 | each privacy-map entry holds the level of the last row aimed at it; with no such row there is no entry |
| Privacy.LastRuleExists | app/Tree.php:100-113 | a target has an entry exactly when some row aims at it |
| Trees.PreferenceWrittenIdempotent | app/Tree.php:136-152 | writing the same preference value twice writes the row and its log line once |
| Trees.Tree.GetPreference | app/Tree.php:162-172 | returns the stored value, or the default for an absent name; the cache is loaded only when empty and then equals the table |
| Trees.Tree.SetPreference | app/Tree.php:136-152 | afterwards the preference reads back as the new value and every other preference is unchanged; an unchanged value writes nothing; otherwise one setting row and one log line are written |
| Trees.Tree.GetUserPreference | app/Tree.php:263-276 | returns the stored per-user value or the default; the user's cache entry is loaded when absent and other users' entries are kept |
| Trees.Tree.SetUserPreference | app/Tree.php:233-254 | the per-user preference reads back as the new value and all other (user, name) pairs are unchanged; an unchanged value writes nothing |
| Trees.Tree.HasPendingEdit | app/Tree.php:305-311 | true exactly when the change rows filtered to this tree and status pending are not empty, as the exists query asks |
| Trees.Tree.DeletedTreeHasNoPendingEdit | app/Tree.php:305-311 | once the genealogy rows of the tree are gone, no change of the tree is pending |
| Trees.Tree.DeleteGenealogyData | app/Tree.php:352-374 | the genealogy tables become GenealogyDeleted of the old ones, which leaves no row of the tree except media, media files and OBJE links when keep_media holds |
| Storage.GenealogyDeletedEmpties | app/Tree.php:352-374 | after the deletion no genealogy table holds a row of the tree, apart from the media rows that keep_media preserves |
| Storage.GenealogyDeletedKeepsOtherTrees | app/Tree.php:352-374 | the rows of every other tree are kept: record rows of all five record tables with their values, the place, place-link, name, date, link and media-file rows, and the other trees' chunk and change rows in their order |
| Storage.GenealogyDeletedIdempotent | app/Tree.php:352-374 | deleting a second time changes nothing |
| Storage.Database.KeptMediaIsAllThatRemains | app/Tree.php:364-373 | with keep_media only media records of the tree are left to export |
| Storage.Database.DeletedTreeIsEmpty | app/Tree.php:352-374 | after a full deletion the tree exports no record and has no individual |
| Trees.Tree.Delete | app/Tree.php:318-340 | DEFAULT_GEDCOM is cleared exactly when it names this tree; the genealogy tables are deleted without keeping media; every settings, block, block_setting, privacy, counter, log and gedcom row of the tree is gone, and nothing else changes |
| Trees.Tree.DeleteConfiguration | app/Tree.php:327-339 | the block_setting, block, user_gedcom_setting, gedcom_setting, module_privacy, hit_counter, default_resn, log and gedcom deletes leave exactly SettingsDeleted of the old tables |
| Storage.SettingsDeletedEmpties | app/Tree.php:327-339 | after the settings deletion no configuration table holds a row of the tree, and a block_setting row survives only when its block did not belong to the tree before |
| Storage.Database.SelectExportRows | app/Tree.php:387-413 | returns the rows of the five record tables of the tree, without HEAD and TRLR, ordered by kind rank, then xref length, then xref |
| Storage.Database.ExportRowKeysDistinct | app/Tree.php:404-413 | within one tree a kind rank and an xref pick out one row |
| GedcomExport.SortedUnique | app/Tree.php:411-413 | two sorted sequences of the same rows are equal, so an export is reproducible |
| Trees.Tree.ExportGedcom | app/Tree.php:383-425 | the writes are the flushing of the reformatted header and records in export order; together they spell header, records, trailer; every write but the last is longer than 65535 bytes; the last ends with the trailer |
| Trees.Tree.WriteRows | app/Tree.php:414-424 | the loop's writes are Writes of the header and the reformatted rows: they concatenate to header, records and trailer, every write but the last is longer than 65535, and the last ends with the trailer |
| GedcomExport.WritesText | app/Tree.php:414-424 | the concatenated writes are the buffer, every piece in order, then `0 TRLR` and the line terminator |
| GedcomExport.WritesFlushOnlyWhenFull | app/Tree.php:417-420 | a write made inside the loop is always longer than the flush limit |
| GedcomExport.LastWriteEndsWithTrailer | app/Tree.php:424 | the final write ends with the trailer |
| Trees.Tree.ImportGedcomFile | app/Tree.php:435-472 | the tree's genealogy data is deleted (keeping media as keep_media says), gedcom_filename and imported are set, and then the chunks of ImportChunks are appended to gedcom_chunk in order; the configuration tables and the log change only by those two preference writes |
| Trees.Tree.StoreChunks | app/Tree.php:441-469 | the loop appends exactly the chunks ImportChunks gives for the blocks read, then the remainder |
| Trees.Tree.ConsumeBlock | app/Tree.php:449-464 | one turn of the loop is one application of Step: the block is appended and, when a cut is found, the chunk before it is stored and the rest carried over |
| Trees.Tree.InsertChunk | app/Tree.php:458-461 | one gedcom_chunk row is appended for this tree and no other table changes |
| GedcomImport.LastBoundary | app/Tree.php:451-456 | the backward scan finds the last level-0 line at index 1 or more, 0 when there is none, and -1 for an empty buffer |
| GedcomImport.Boundary | app/Tree.php:451-456 | -1 exactly for empty data; otherwise the last cut, with no cut after it, or 0 when there is no cut at all |
| GedcomImport.StepPreservesText | app/Tree.php:449-464 | one turn of the loop moves text from the buffer to the stored chunks and loses none |
| GedcomImport.ImportRoundTrip | app/Tree.php:448-469 | the stored chunks, concatenated in order, give back the whole file |
| GedcomImport.ImportChunksAtRecordBoundaries | app/Tree.php:448-469 | every chunk but the last is empty or ends with a line break, and every chunk after a non-empty one starts with '0' |
| GedcomImport.CarriedBufferHasNoCut | app/Tree.php:448-464 | the carried-over buffer never holds a level-0 line at index 1 or more |
| GedcomImport.NoCutKeepsBuffer | app/Tree.php:457-464 | a buffer with no cut is carried over whole and nothing is stored |
| GedcomImport.CutStoresPrefix | app/Tree.php:457-464 | when there is a cut, the stored chunk ends with a line break and the new buffer starts with '0' |
| GedcomImport.StepWellCut | app/Tree.php:448-465 | every turn of the loop keeps the chunk shape above |
| Trees.Tree.GetNewXref | app/Tree.php:523-556 | the xref is the first candidate not used in any tree or change, and next_xref is set to its number, which is above the old counter |
| Storage.Database.XrefExists | app/Tree.php:544-550 | the six existence queries, or-ed, hold exactly when the xref is used by a record of any tree or by a change |
| Strings.ParseInt | app/Tree.php:535 | `(int)` of a string is negative only after a minus sign, and 0 when no sign or digit follows the leading white space |
| Trees.Tree.FirstUnusedXref | app/Tree.php:533-551 | the do-while loop ends on the first unused candidate, base + floor(1.01^k) |
| XrefAllocation.FreeFromSomeTry | app/Tree.php:534-551 | from some try on no candidate is used, so the allocator's loop ends |
| XrefAllocation.Bernoulli | app/Tree.php:539 | 1.01^k is at least 1 + k/100 |
| XrefAllocation.CandidateAboveBase | app/Tree.php:535 | every candidate is above the stored counter |
| XrefAllocation.CandidateMonotone | app/Tree.php:535-539 | candidates never decrease |
| XrefAllocation.CandidateGrows | app/Tree.php:535-539 | candidates grow without bound |
| XrefAllocation.FirstFreeCandidateUnique | app/Tree.php:534-551 | one counter value and one used set give one xref |
| XrefAllocation.FirstFreeCandidateAboveBase | app/Tree.php:553 | the stored counter reads back as a number above the old one |
| Strings.IntRoundTrip | app/Tree.php:535-553 | `(int)` of `(string)` of a number gives the number back |
| Strings.IntToStringInjective | app/Tree.php:541 | distinct numbers never make the same xref |
| XrefAllocation.XrefHasNoAt | app/Tree.php:489 | an allocated xref holds no '@', so it can stand between the placeholder's two '@' |
| Trees.Tree.Create | app/Tree.php:482-516 | without the placeholder prefix: the error and nothing changed; otherwise a new xref and one change row with empty old text and the rewritten text. Without auto-accept the record is returned pending, the genealogy is the old one plus that pending row, and the tree then has a pending edit. With auto-accept the record holds the text and the genealogy is `accept` applied to the old one plus that row |
| Trees.Tree.CreateRecord | app/Tree.php:482-516 | as Create, with prefix '0 @@ ' and a truthiness test of the auto-accept preference |
| Trees.Tree.CreateFamily | app/Tree.php:566-600 | as Create, with prefix '0 @@ FAM' and the test `=== '1'` |
| Trees.Tree.CreateIndividual | app/Tree.php:610-644 | as Create, with prefix '0 @@ INDI' and the test `=== '1'` |
| Trees.Tree.CreateMediaObject | app/Tree.php:654-688 | as Create, with prefix '0 @@ OBJE' and the test `=== '1'` |
| RecordCreation.WithXrefReplacesPlaceholder | app/Tree.php:489 | the rewrite only puts the xref between the two '@' of the placeholder |
| RecordCreation.XrefReadBack | app/Tree.php:488-492 | the xref of a created record can be read back from its text |
| RecordCreation.PlaceholderRestored | app/Tree.php:489-492 | removing the xref and the CHAN block gives back the input |
| RecordCreation.SpecificKindsAgreeWithGeneric | app/Tree.php:568-574 | the three specific methods accept only input createRecord accepts, and rewrite it the same way |
| RecordCreation.AutoAcceptTestsDiffer | app/Tree.php:507 | createRecord and the other three disagree exactly on preference values other than "", "0" and "1" |
| Trees.Tree.SignificantIndividual | app/Tree.php:698-746 | the result is the first individual found along the chain: xref, family spouse or child, user default, user account, PEDIGREE_ROOT_ID, smallest i_id; else the placeholder individual |
| Trees.FirstFoundIsFirst | app/Tree.php:706-745 | the chain returns the first lookup that found someone, after only failed ones, and the placeholder only when every lookup failed |
| Trees.FirstFoundChain | app/Tree.php:706-745 | the first-found rule is the same as the source's run of if-null tests |
| Storage.Database.MinIndividualXref | app/Tree.php:733-735 | returns the smallest i_id of the tree in collation order, or "" when the tree has no individual |
| Storage.MinXrefUnique | app/Tree.php:733-735 | the smallest xref is unique |
| SubmitterPage.ArraySearch | app/Http/RequestHandlers/SubmitterPage.php:118-119 | a tag has a key exactly when it is identical to a FACT_ORDER entry; the key is that entry's 1-based position |
| SubmitterPage.SortKey | app/Http/RequestHandlers/SubmitterPage.php:118-119 | a listed tag's key is its position from 1 to 11; any other tag gets PHP_INT_MAX |
| SubmitterPage.SortKeyOfListed | app/Http/RequestHandlers/SubmitterPage.php:49-61 | NAME sorts as 1, ADDR as 2, and so on up to CHAN as 11 |
| SubmitterPage.SortKeyIsCaseSensitive | app/Http/RequestHandlers/SubmitterPage.php:118 | the comparison is strict: "NAME" is 1 but "name" is PHP_INT_MAX |
| SubmitterPage.Compare | app/Http/RequestHandlers/SubmitterPage.php:117-121 | the sign of the result is the order of the two keys |
| SubmitterPage.SortFacts | app/Http/RequestHandlers/SubmitterPage.php:114-123 | a permutation of the facts in which the comparator never answers 1 for a pair in order |
| SubmitterPage.ListedBeforeUnlisted | app/Http/RequestHandlers/SubmitterPage.php:114-123 | in any sequence the comparator accepts as sorted, such as SortFacts' result, every fact with a listed tag comes before every fact with an unlisted tag |
| SubmitterPage.ListedInFactOrder | app/Http/RequestHandlers/SubmitterPage.php:114-123 | in such a sequence, facts with listed tags come out in FACT_ORDER's order |
| SubmitterPage.Handle | app/Http/RequestHandlers/SubmitterPage.php:81-107 | an access-check error passes through; a 301 redirect to the submitter's URL exactly when the xref or the slug differs; otherwise the submitter page with the sorted facts and the submitter's name as title |

## Left out

- Streams and I/O: the import reads its file as a sequence of blocks, and the export returns the sequence of writes it makes. Closing the stream, end-of-file detection and write failures are not modelled.
- The database layer: transactions, the row lock that getNewXref takes, concurrent allocators, `chunk(1000)` batching and `UNION` duplicate removal are not modelled. Xref order in the database collation is modelled as plain lexicographic order on characters. The six existence queries behind `XrefExists`, the record and setting lookups, and the `xref` comparisons use exact string equality, while a case-insensitive database collation would also match xrefs that differ only in case.
- `$increment *= 1.01` works on IEEE doubles. The model uses exact real numbers.
- Foreign calls are parameters: the record factories (`findIndividual`, `findFamily`), the record reformatting and GEDCOM header of the export, the date and time, and the signed-in user with their auto-accept preference.
- `Log`, `Site` and `Auth` are not part of this model. A log call becomes a row appended to the log table, and a site preference becomes a map entry. `Auth::PRIV_*` become an enumeration.
- Trees.Tree.Create, Trees.Tree.CreateRecord, Trees.Tree.CreateFamily, Trees.Tree.CreateIndividual, Trees.Tree.CreateMediaObject: `PendingChangesService::acceptRecord` is not part of this model. It is the `accept` parameter, so with auto-accept the contract says only that the genealogy is whatever `accept` makes of the old genealogy plus the new change row. It does not say whether a pending edit remains or which record table is written.
- Trees.Tree.constructor: it requires every RESN value of the tree's rows to be one of the four known values, as the table's column type demands. For any other value the source would store a null access level.
- GEDCOM line terminator: `Gedcom::EOL` is taken to be "\r\n". `app/Gedcom.php` is not part of this model.
- SubmitterPage.Handle: the submitter factory and `Auth::checkSubmitterAccess` are given as one parameter, the submitter or the error raised. View rendering is reduced to the template name and its data.
- SubmitterPage.SortFacts: `Collection::sort` keeps the keys of the collection and does not promise an order among facts with equal keys. The model returns a plain sequence and fixes one such order.
- `name`, `title`, `id` and the privacy-map getters only read a field, and are left out. `rowMapper` builds a Tree from a database row; the constructor stands for it. `canAcceptChanges` (a call into Auth) and `mediaFilesystem` (a filesystem wrapper) are left out.
- Bytes and characters: PHP strings are byte strings, so `strlen($buffer) > 65535`, `read(65536)`, `$file_data[$pos]` and SQL `LENGTH(xref)` count bytes. The model's strings are sequences of characters and counts one character as one byte. For non-ASCII text the flush points of the export, the block boundaries of the import and the xref-length order can therefore differ from the source.
- Integer width: `$num` and `next_xref` are 64-bit PHP integers; the model uses unbounded integers, so the overflow of a counter near PHP_INT_MAX is not modelled.
- Strings.ParseInt: models `(int)` of a string as optional white space, an optional sign and decimal digits. It does not model PHP's reading of exponent and decimal-point forms (`(int)"1e3"` is 1000), nor saturation at PHP_INT_MAX for longer digit runs. It reads the site's `next_xref` setting, which in an arbitrary database need not be one the model wrote with `(string)`, so for such values the model's counter can differ from PHP's.
- Privacy.LastRuleWins: the `default_resn` query has no ORDER BY, so "the last row" means the last in whatever order the database returns. The model takes the rows in the order of its table sequence.
- The Tree object's preference caches are not cleared by Delete, as in the source. The model says nothing about cache validity after Delete.
