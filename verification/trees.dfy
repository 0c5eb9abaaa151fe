/**
 * The Tree class: one family tree, its cached preferences, its privacy maps,
 * and the operations that import, export, create records in and delete it.
 */
module Trees {
  import opened Wrappers
  import opened Strings
  import opened Privacy
  import opened GedcomImport
  import opened GedcomExport
  import opened XrefAllocation
  import opened RecordCreation
  import opened Storage

  /** The site setting that holds the last number handed out by getNewXref. */
  const NEXT_XREF := "next_xref"

  /** The tree preferences that importGedcomFile reads and writes. */
  const KEEP_MEDIA := "keep_media"
  const GEDCOM_FILENAME := "gedcom_filename"
  const IMPORTED := "imported"

  /** The tree preference naming the individual at the root of the default pedigree. */
  const PEDIGREE_ROOT_ID := "PEDIGREE_ROOT_ID"

  /** The site setting that names the default tree. */
  const DEFAULT_GEDCOM := "DEFAULT_GEDCOM"

  /** The user preferences of a tree that significantIndividual consults. */
  const PREF_TREE_DEFAULT_XREF := "rootid"
  const PREF_TREE_ACCOUNT_XREF := "gedcomid"

  /** The signed-in user, as Auth::user() and Auth::id() give it. */
  datatype User = User(id: int, userName: string, autoAcceptEdits: string)

  /** A record built by a factory's new($xref, $gedcom, $pending). */
  datatype GedcomRecord = GedcomRecord(kind: RecordKind, xref: string, gedcom: string, pending: Option<string>)

  datatype Individual = Individual(xref: string, gedcom: string, pending: Option<string>)

  /** What significantIndividual needs of a family: its spouses and its children, in order. */
  datatype Family = Family(spouses: seq<Individual>, children: seq<Individual>)

  /** The record significantIndividual returns when nothing else is found. */
  const PLACEHOLDER_INDIVIDUAL := Individual("I", "0 @I@ INDI", None)

  /** `$family->spouses()->first() ?? $family->children()->first()` */
  function FamilyMember(family: Option<Family>): Option<Individual> {
    match family
    case None => None
    case Some(f) =>
      if |f.spouses| > 0 then Some(f.spouses[0])
      else if |f.children| > 0 then Some(f.children[0])
      else None
  }

  /** The first individual found among `cands`, or `fallback` when there is none. */
  function FirstFound(cands: seq<Option<Individual>>, fallback: Individual): Individual
    decreases |cands|
  {
    if cands == [] then fallback
    else if cands[0].Some? then cands[0].value
    else FirstFound(cands[1..], fallback)
  }

  /**
   * FirstFound returns the value of the first lookup that found something,
   * after only failed ones, and the fallback when every lookup failed.
   */
  lemma {:induction false} FirstFoundIsFirst(cands: seq<Option<Individual>>, fallback: Individual)
    ensures (exists i :: 0 <= i < |cands| && cands[i].Some?) ==>
      exists i :: 0 <= i < |cands| && cands[i] == Some(FirstFound(cands, fallback)) && forall j :: 0 <= j < i ==> cands[j].None?
    ensures (forall i :: 0 <= i < |cands| ==> cands[i].None?) ==> FirstFound(cands, fallback) == fallback
    decreases |cands|
  {
    if cands != [] && cands[0].None? {
      FirstFoundIsFirst(cands[1..], fallback);
      assert forall i :: 1 <= i < |cands| ==> cands[i] == cands[1..][i - 1];
      if exists i :: 0 <= i < |cands| && cands[i].Some? {
        var i :| 0 <= i < |cands| && cands[i].Some?;
        assert cands[1..][i - 1].Some?;
        var k :| 0 <= k < |cands[1..]| && cands[1..][k] == Some(FirstFound(cands[1..], fallback)) && forall j :: 0 <= j < k ==> cands[1..][j].None?;
        assert cands[k + 1] == Some(FirstFound(cands, fallback));
        assert forall j :: 0 <= j < k + 1 ==> cands[j].None? by {
          forall j | 0 <= j < k + 1 ensures cands[j].None? {
            if j > 0 { assert cands[j] == cands[1..][j - 1]; }
          }
        }
      }
    }
  }

  /** FirstFound over a suffix tries the suffix's first entry, then the rest. */
  lemma FirstFoundStep(cands: seq<Option<Individual>>, k: nat, fallback: Individual)
    requires k < |cands|
    ensures FirstFound(cands[k..], fallback) ==
      if cands[k].Some? then cands[k].value else FirstFound(cands[k + 1..], fallback)
  {
    assert cands[k..][1..] == cands[k + 1..];
  }

  /** The first lookup if it found someone, else the second: PHP's `$a ?? $b`. */
  function OrElse(first: Option<Individual>, second: Option<Individual>): Option<Individual> {
    if first.Some? then first else second
  }

  /** FirstFound over six lookups is the chain of if-null tests significantIndividual writes out. */
  lemma FirstFoundChain(cands: seq<Option<Individual>>, fallback: Individual)
    requires |cands| == 6
    ensures FirstFound(cands, fallback) ==
      OrElse(OrElse(OrElse(OrElse(OrElse(cands[0], cands[1]), cands[2]), cands[3]), cands[4]), cands[5]).GetOr(fallback)
  {
    assert cands[0..] == cands;
    FirstFoundStep(cands, 0, fallback);
    FirstFoundStep(cands, 1, fallback);
    FirstFoundStep(cands, 2, fallback);
    FirstFoundStep(cands, 3, fallback);
    FirstFoundStep(cands, 4, fallback);
    FirstFoundStep(cands, 5, fallback);
    assert cands[6..] == [];
  }

  /**
   * The lookups of significantIndividual, in the order it tries them: the
   * given xref as an individual, then as a family, the user's default
   * individual, the user's own individual, the tree's PEDIGREE_ROOT_ID, and
   * the smallest individual xref of the tree. An empty preference is not
   * looked up.
   */
  function SignificantCandidates(
    xref: string,
    findIndividual: string -> Option<Individual>,
    findFamily: string -> Option<Family>,
    defaultXref: string, accountXref: string, rootId: string, minXref: string): (cs: seq<Option<Individual>>)
    ensures |cs| == 6
  {
    [ if xref == "" then None else findIndividual(xref),
      if xref == "" then None else FamilyMember(findFamily(xref)),
      if defaultXref == "" then None else findIndividual(defaultXref),
      if accountXref == "" then None else findIndividual(accountXref),
      if rootId == "" then None else findIndividual(rootId),
      findIndividual(minXref) ]
  }

  /** The gedcom_chunk rows inserted for `chunks`, in order. */
  function ChunkRows(id: int, chunks: seq<string>): seq<ChunkRow>
    decreases |chunks|
  {
    if chunks == [] then []
    else ChunkRows(id, chunks[..|chunks| - 1]) + [ChunkRow(id, chunks[|chunks| - 1])]
  }

  lemma ChunkRowsSnoc(id: int, chunks: seq<string>, chunk: string)
    ensures ChunkRows(id, chunks + [chunk]) == ChunkRows(id, chunks) + [ChunkRow(id, chunk)]
  {
    assert (chunks + [chunk])[..|chunks|] == chunks;
  }

  /** The message Log::addConfigurationLog records for a tree preference. */
  function PreferenceLog(name: string, value: string): string {
    "Tree preference \"" + name + "\" set to \"" + value + "\""
  }

  function UserPreferenceLog(name: string, value: string, userName: string): string {
    PreferenceLog(name, value) + " for user \"" + userName + "\""
  }

  /**
   * The configuration tables after Tree::setPreference: unchanged when the
   * tree already stores the value (a missing row reads as ""), otherwise the
   * tree's row holds the new value and one configuration log line is added.
   */
  function PreferenceWritten(s: Settings, id: int, name: string, value: string): Settings {
    var current := if id in s.gedcomSettings then s.gedcomSettings[id] else map[];
    if Get(current, name, "") == value then s
    else s.(gedcomSettings := s.gedcomSettings[id := current[name := value]],
            log := s.log + [LogRow(Some(id), PreferenceLog(name, value))])
  }

  /** Setting a preference a second time to the same value writes nothing more. */
  lemma PreferenceWrittenIdempotent(s: Settings, id: int, name: string, value: string)
    ensures PreferenceWritten(PreferenceWritten(s, id, name, value), id, name, value) == PreferenceWritten(s, id, name, value)
  {
    var t := PreferenceWritten(s, id, name, value);
    assert id in t.gedcomSettings ==> Get(t.gedcomSettings[id], name, "") == value;
  }

  class Tree {
    const db: Database
    const id: int
    const name: string
    const title: string

    /** Default access levels of facts, individuals and individual facts. */
    var factPrivacy: map<string, AccessLevel>
    var individualPrivacy: map<string, AccessLevel>
    var individualFactPrivacy: map<string, map<string, AccessLevel>>

    /** Cached copy of the tree's gedcom_setting rows; it counts as loaded only when non-empty. */
    var preferences: map<string, string>

    /** Cached copies of user_gedcom_setting rows, per user id; loaded when the key exists. */
    var userPreferences: map<int, map<string, string>>

    /** The caches are never stale: a loaded cache equals the table. */
    ghost predicate Valid()
      reads this, db`settings
    {
      && (preferences != map[] ==> preferences == db.TreeSettings(id))
      && (forall u :: u in userPreferences ==> userPreferences[u] == db.UserSettings(id, u))
    }

    /** The tree's preference as the table holds it, with a default. */
    function StoredPreference(settingName: string, default: string := ""): string
      reads db`settings
    {
      Get(db.TreeSettings(id), settingName, default)
    }

    function StoredUserPreference(user: int, settingName: string, default: string := ""): string
      reads db`settings
    {
      Get(db.UserSettings(id, user), settingName, default)
    }

    /** Loads the default_resn rows of the tree into the three privacy maps. */
    constructor (db: Database, id: int, name: string, title: string)
      requires AllKnown(db.ResnRowsOf(id))
      ensures this.db == db && this.id == id && this.name == name && this.title == title
      ensures preferences == map[] && userPreferences == map[]
      ensures PrivacyMaps(factPrivacy, individualPrivacy, individualFactPrivacy) == LoadPrivacy(db.ResnRowsOf(id))
      ensures Valid()
    {
      this.db := db;
      this.id := id;
      this.name := name;
      this.title := title;
      preferences := map[];
      userPreferences := map[];
      var rows := db.ResnRowsOf(id);
      var fact: map<string, AccessLevel> := map[];
      var individual: map<string, AccessLevel> := map[];
      var individualFact: map<string, map<string, AccessLevel>> := map[];
      var i := 0;
      while i < |rows|
        invariant 0 <= i <= |rows|
        invariant PrivacyMaps(fact, individual, individualFact) == LoadPrivacy(rows[..i])
      {
        var row := rows[i];
        var level := ResnAccess(row.resn).value;
        if row.xref.Some? {
          if row.tagType.Some? {
            var inner := if row.xref.value in individualFact then individualFact[row.xref.value] else map[];
            individualFact := individualFact[row.xref.value := inner[row.tagType.value := level]];
          } else {
            individual := individual[row.xref.value := level];
          }
        } else {
          fact := fact[row.tagType.GetOr("") := level];
        }
        assert rows[..i + 1][..i] == rows[..i];
        i := i + 1;
      }
      assert rows[..i] == rows;
      factPrivacy := fact;
      individualPrivacy := individual;
      individualFactPrivacy := individualFact;
    }

    method GetPreference(settingName: string, default: string := "") returns (value: string)
      requires Valid()
      modifies this`preferences
      ensures Valid()
      ensures value == StoredPreference(settingName, default)
      ensures preferences == db.TreeSettings(id)
      ensures old(preferences) != map[] ==> preferences == old(preferences)
    {
      if preferences == map[] {
        preferences := db.TreeSettings(id);
      }
      value := Get(preferences, settingName, default);
    }

    /**
     * Writes the setting through to the table and the cache, and logs it,
     * unless it already has that value (an absent setting reads as '').
     */
    method SetPreference(settingName: string, settingValue: string)
      requires Valid()
      modifies this`preferences, db`settings
      ensures Valid()
      ensures StoredPreference(settingName) == settingValue
      ensures forall n :: n != settingName ==> StoredPreference(n) == old(StoredPreference(n))
      ensures settingValue == old(StoredPreference(settingName)) ==> db.settings == old(db.settings)
      ensures settingValue != old(StoredPreference(settingName)) ==>
        db.settings == old(db.settings).(
          gedcomSettings := old(db.settings.gedcomSettings)[id := old(db.TreeSettings(id))[settingName := settingValue]],
          log := old(db.settings.log) + [LogRow(Some(id), PreferenceLog(settingName, settingValue))])
      ensures db.settings == PreferenceWritten(old(db.settings), id, settingName, settingValue)
    {
      var current := GetPreference(settingName);
      if settingValue != current {
        var st := db.settings;
        db.settings := st.(
          gedcomSettings := st.gedcomSettings[id := db.TreeSettings(id)[settingName := settingValue]],
          log := st.log + [LogRow(Some(id), PreferenceLog(settingName, settingValue))]);
        preferences := preferences[settingName := settingValue];
      }
    }

    method GetUserPreference(user: User, settingName: string, default: string := "") returns (value: string)
      requires Valid()
      modifies this`userPreferences
      ensures Valid()
      ensures value == StoredUserPreference(user.id, settingName, default)
      ensures user.id in userPreferences
      ensures forall u :: u in old(userPreferences) ==> u in userPreferences && userPreferences[u] == old(userPreferences)[u]
    {
      if user.id !in userPreferences {
        userPreferences := userPreferences[user.id := db.UserSettings(id, user.id)];
      }
      value := Get(userPreferences[user.id], settingName, default);
    }

    method SetUserPreference(user: User, settingName: string, settingValue: string)
      requires Valid()
      modifies this`userPreferences, db`settings
      ensures Valid()
      ensures StoredUserPreference(user.id, settingName) == settingValue
      ensures forall u, n :: u != user.id || n != settingName ==>
        StoredUserPreference(u, n) == old(StoredUserPreference(u, n))
      ensures settingValue == old(StoredUserPreference(user.id, settingName)) ==> db.settings == old(db.settings)
      ensures settingValue != old(StoredUserPreference(user.id, settingName)) ==>
        db.settings == old(db.settings).(
          userGedcomSettings := old(db.settings.userGedcomSettings)[UserTree(id, user.id) := old(db.UserSettings(id, user.id))[settingName := settingValue]],
          log := old(db.settings.log) + [LogRow(Some(id), UserPreferenceLog(settingName, settingValue, user.userName))])
    {
      var current := GetUserPreference(user, settingName);
      if current != settingValue {
        var st := db.settings;
        db.settings := st.(
          userGedcomSettings := st.userGedcomSettings[UserTree(id, user.id) := db.UserSettings(id, user.id)[settingName := settingValue]],
          log := st.log + [LogRow(Some(id), UserPreferenceLog(settingName, settingValue, user.userName))]);
        userPreferences := userPreferences[user.id := userPreferences[user.id][settingName := settingValue]];
      }
    }

    /** Are there changes of this tree waiting for a moderator? */
    predicate HasPendingEdit()
      reads this, db`genealogy
      ensures HasPendingEdit() <==> |Filter(db.genealogy.changes, (c: ChangeRow) => c.tree == id && c.status == Pending)| > 0
    {
      FilterEmpty(db.genealogy.changes, (c: ChangeRow) => c.tree == id && c.status == Pending);
      exists c :: c in db.genealogy.changes && c.tree == id && c.status == Pending
    }

    /** Once the tree's genealogy data is deleted, no edit of the tree is pending. */
    lemma DeletedTreeHasNoPendingEdit(keepMedia: bool)
      requires NoGenealogyRows(db.genealogy, id, keepMedia)
      ensures !HasPendingEdit()
    {
    }

    /**
     * Deletes the tree's genealogy data before an import; with `keepMedia`
     * the media, media files and OBJE links stay.
     */
    method DeleteGenealogyData(keepMedia: bool)
      modifies db`genealogy
      ensures db.genealogy == GenealogyDeleted(old(db.genealogy), id, keepMedia)
      ensures NoGenealogyRows(db.genealogy, id, keepMedia)
    {
      var g := db.genealogy;
      g := g.(chunks := ChunksOutside(g.chunks, id));
      g := g.(individuals := RecordsOutside(g.individuals, id));
      g := g.(families := RecordsOutside(g.families, id));
      g := g.(sources := RecordsOutside(g.sources, id));
      g := g.(other := RecordsOutside(g.other, id));
      g := g.(places := RowsOutside(g.places, id));
      g := g.(placeLinks := RowsOutside(g.placeLinks, id));
      g := g.(names := RowsOutside(g.names, id));
      g := g.(dates := RowsOutside(g.dates, id));
      g := g.(changes := ChangesOutside(g.changes, id));
      g := g.(links := LinksKept(g.links, id, keepMedia));
      if !keepMedia {
        g := g.(mediaFiles := RowsOutside(g.mediaFiles, id));
        g := g.(media := RecordsOutside(g.media, id));
      }
      db.genealogy := g;
      GenealogyDeletedEmpties(old(db.genealogy), id, keepMedia);
    }

    /**
     * Deletes everything that belongs to the tree, and unsets the default
     * tree when it is this one. The preference caches of this object are
     * not cleared.
     */
    method Delete()
      modifies db
      ensures old(db.SitePreference(DEFAULT_GEDCOM)) == name ==>
        db.siteSettings == old(db.siteSettings)[DEFAULT_GEDCOM := ""]
      ensures old(db.SitePreference(DEFAULT_GEDCOM)) != name ==> db.siteSettings == old(db.siteSettings)
      ensures db.genealogy == GenealogyDeleted(old(db.genealogy), id, false)
      ensures db.settings == SettingsDeleted(old(db.settings), id)
      ensures NoGenealogyRows(db.genealogy, id, false)
      ensures NoSettingRows(db.settings, id)
    {
      if db.SitePreference(DEFAULT_GEDCOM) == name {
        db.siteSettings := db.siteSettings[DEFAULT_GEDCOM := ""];
      }
      DeleteGenealogyData(false);
      DeleteConfiguration();
      // The gedcom_chunk delete, here already empty for this tree; Tree::delete runs it between the default_resn and log deletes.
      db.genealogy := db.genealogy.(chunks := ChunksOutside(db.genealogy.chunks, id));
      ChunksOutsideIdempotent(old(db.genealogy.chunks), id);
      SettingsDeletedEmpties(old(db.settings), id);
    }

    /** The configuration deletes of Tree::delete, table by table. */
    method DeleteConfiguration()
      modifies db`settings
      ensures db.settings == SettingsDeleted(old(db.settings), id)
    {
      var st := db.settings;
      // The block_setting rows are found through the block table, so they go first.
      st := st.(blockSettings := BlockSettingsOutside(st.blockSettings, st.blocks, id));
      st := st.(blocks := BlocksOutside(st.blocks, id));
      st := st.(userGedcomSettings := map k | k in st.userGedcomSettings && k.tree != id :: st.userGedcomSettings[k]);
      st := st.(gedcomSettings := st.gedcomSettings - {id});
      st := st.(modulePrivacy := RowsOutside(st.modulePrivacy, id));
      st := st.(hitCounters := RowsOutside(st.hitCounters, id));
      st := st.(defaultResn := ResnOutside(st.defaultResn, id));
      st := st.(log := LogOutside(st.log, id));
      st := st.(trees := st.trees - {id});
      db.settings := st;
    }

    /**
     * Streams the tree as GEDCOM: the reformatted header, then every record
     * in query order, flushed whenever the buffer passes FLUSH_LIMIT, then
     * the trailer. `header` is the header record built for the tree and
     * `reformat` the record reformatting; the result is the sequence of
     * writes made to the stream.
     */
    method ExportGedcom(header: string, reformat: string -> string) returns (writes: seq<string>)
      ensures exists rows ::
        && IsExportOrder(rows, db.ExportRowSet(id))
        && writes == Writes(reformat(header), Pieces(rows, reformat))
        && Concat(writes) == reformat(header) + Concat(Pieces(rows, reformat)) + TRAILER
      ensures forall i :: 0 <= i < |writes| - 1 ==> |writes[i]| > FLUSH_LIMIT
      ensures |writes| >= 1
      ensures var last := writes[|writes| - 1];
        |last| >= |TRAILER| && last[|last| - |TRAILER|..] == TRAILER
    {
      var rows := db.SelectExportRows(id);
      writes := WriteRows(reformat(header), rows, reformat);
    }

    /**
     * The row loop of the export and the final write: each reformatted
     * record is appended to the buffer, which is written out whenever it
     * passes FLUSH_LIMIT; the rest is written with the trailer.
     */
    method WriteRows(header: string, rows: seq<ExportRow>, reformat: string -> string) returns (writes: seq<string>)
      ensures writes == Writes(header, Pieces(rows, reformat))
      ensures Concat(writes) == header + Concat(Pieces(rows, reformat)) + TRAILER
      ensures forall i :: 0 <= i < |writes| - 1 ==> |writes[i]| > FLUSH_LIMIT
      ensures |writes| >= 1
      ensures var last := writes[|writes| - 1];
        |last| >= |TRAILER| && last[|last| - |TRAILER|..] == TRAILER
    {
      ghost var pieces := Pieces(rows, reformat);
      var buffer := header;
      writes := [];
      var i := 0;
      while i < |rows|
        invariant 0 <= i <= |rows|
        invariant writes + Writes(buffer, pieces[i..]) == Writes(header, pieces)
      {
        WritesStep(buffer, pieces, i);
        buffer := buffer + reformat(rows[i].gedcom);
        if |buffer| > FLUSH_LIMIT {
          writes := writes + [buffer];
          buffer := "";
        }
        i := i + 1;
      }
      writes := writes + [buffer + TRAILER];
      assert pieces[i..] == [];
      WritesText(header, pieces);
      WritesFlushOnlyWhenFull(header, pieces);
      LastWriteEndsWithTrailer(header, pieces);
    }

    /**
     * Replaces the tree's genealogy data with a GEDCOM file read as `blocks`,
     * the successive reads of the stream. The file is stored as chunks that
     * each end just before a line starting with '0'; the records themselves
     * are built later from those chunks.
     */
    method ImportGedcomFile(blocks: seq<string>, filename: string)
      requires Valid()
      modifies this`preferences, db`genealogy, db`settings
      ensures Valid()
      ensures var keepMedia := PhpTruthy(old(StoredPreference(KEEP_MEDIA)));
        db.genealogy == GenealogyDeleted(old(db.genealogy), id, keepMedia).(
          chunks := ChunksOutside(old(db.genealogy.chunks), id) + ChunkRows(id, ImportChunks(blocks)))
      ensures StoredPreference(GEDCOM_FILENAME) == filename
      ensures StoredPreference(IMPORTED) == "0"
      ensures forall n :: n != GEDCOM_FILENAME && n != IMPORTED ==> StoredPreference(n) == old(StoredPreference(n))
      ensures db.settings == PreferenceWritten(PreferenceWritten(old(db.settings), id, GEDCOM_FILENAME, filename), id, IMPORTED, "0")
    {
      var keep := GetPreference(KEEP_MEDIA);
      DeleteGenealogyData(PhpTruthy(keep));
      SetPreference(GEDCOM_FILENAME, filename);
      SetPreference(IMPORTED, "0");
      assert db.genealogy.chunks == ChunksOutside(old(db.genealogy.chunks), id);
      StoreChunks(blocks);
    }

    /**
     * The import loop: appends each block to the unsaved data and stores all
     * of it up to the last line that starts a new record, then stores what is
     * left once the stream ends.
     */
    method StoreChunks(blocks: seq<string>)
      modifies db`genealogy
      ensures db.genealogy == old(db.genealogy).(chunks := old(db.genealogy.chunks) + ChunkRows(id, ImportChunks(blocks)))
    {
      ghost var g0 := db.genealogy;
      ghost var stored: seq<string> := [];
      var fileData := "";
      var i := 0;
      while i < |blocks|
        invariant 0 <= i <= |blocks|
        invariant ImportState(stored, fileData) == Run(blocks[..i])
        invariant db.genealogy.chunks == g0.chunks + ChunkRows(id, stored)
        invariant db.genealogy == g0.(chunks := db.genealogy.chunks)
      {
        RunSnoc(blocks, i);
        stored, fileData := ConsumeBlock(g0.chunks, stored, fileData, blocks[i]);
        i := i + 1;
      }
      assert blocks[..i] == blocks;
      InsertChunk(fileData);
      ChunkRowsSnoc(id, stored, fileData);
    }

    /**
     * One turn of the import loop: the block is appended to the unsaved data,
     * and everything before the last line that starts a new record is stored.
     * `stored` is the ghost list of chunks stored so far, on top of `rows`.
     */
    method ConsumeBlock(ghost rows: seq<ChunkRow>, ghost stored: seq<string>, fileData: string, block: string)
        returns (ghost storedAfter: seq<string>, rest: string)
      requires db.genealogy.chunks == rows + ChunkRows(id, stored)
      modifies db`genealogy
      ensures ImportState(storedAfter, rest) == Step(ImportState(stored, fileData), block)
      ensures db.genealogy.chunks == rows + ChunkRows(id, storedAfter)
      ensures db.genealogy == old(db.genealogy).(chunks := db.genealogy.chunks)
    {
      StepCut(ImportState(stored, fileData), block);
      var data := fileData + block;
      var pos := LastBoundary(data);
      storedAfter, rest := stored, data;
      if pos != 0 {
        // With no data at all `$pos` is -1, and both substrings are empty.
        var cut := if pos < 0 then 0 else pos;
        InsertChunk(data[..cut]);
        ChunkRowsSnoc(id, stored, data[..cut]);
        storedAfter, rest := stored + [data[..cut]], data[cut..];
      }
    }

    /** One insert into gedcom_chunk: the chunk is appended for this tree. */
    method InsertChunk(chunk: string)
      modifies db`genealogy
      ensures db.genealogy == old(db.genealogy).(chunks := old(db.genealogy.chunks) + [ChunkRow(id, chunk)])
    {
      var g := db.genealogy;
      db.genealogy := g.(chunks := g.chunks + [ChunkRow(id, chunk)]);
    }

    /**
     * Allocates a new xref, unique across all trees, and stores the number
     * found as the new counter.
     */
    method GetNewXref() returns (xref: string)
      modifies db`siteSettings
      ensures FirstFreeCandidate(xref, ParseInt(old(db.SitePreference(NEXT_XREF))), db.UsedXrefs())
      ensures xref !in db.UsedXrefs()
      ensures db.siteSettings == old(db.siteSettings)[NEXT_XREF := xref[1..]]
      ensures ParseInt(db.SitePreference(NEXT_XREF)) >= ParseInt(old(db.SitePreference(NEXT_XREF))) + 1
    {
      var base := ParseInt(db.SitePreference(NEXT_XREF));
      var num;
      xref, num := FirstUnusedXref(base);
      ghost var used := db.UsedXrefs();
      assert xref[1..] == IntToString(num);
      FirstFreeCandidateAboveBase(xref, base, used);
      db.siteSettings := db.siteSettings[NEXT_XREF := IntToString(num)];
      assert db.SitePreference(NEXT_XREF) == xref[1..];
    }

    /**
     * The search loop of getNewXref: tries the counter plus floor(1.01^k)
     * for k = 0, 1, ... until the xref made from it is not used in any tree.
     */
    method FirstUnusedXref(base: int) returns (xref: string, num: int)
      ensures FirstFreeCandidate(xref, base, db.UsedXrefs())
      ensures xref == XrefFor(num)
    {
      ghost var used := db.UsedXrefs();
      ghost var bound := FreeFromSomeTry(used, base);
      ghost var k: nat := 0;
      var increment: real := 1.0;
      num := base + increment.Floor;
      increment := increment * 1.01;
      xref := XREF_PREFIX + IntToString(num);
      var alreadyUsed := db.XrefExists(xref);
      while alreadyUsed
        invariant increment == Pow101(k + 1)
        invariant num == Candidate(base, k) && xref == XrefFor(num)
        invariant alreadyUsed <==> xref in used
        invariant UsedBelow(base, k, used)
        invariant k <= bound
        decreases bound - k
      {
        assert k < bound;
        UsedBelowStep(base, k, used);
        k := k + 1;
        num := base + increment.Floor;
        increment := increment * 1.01;
        xref := XREF_PREFIX + IntToString(num);
        alreadyUsed := db.XrefExists(xref);
      }
    }

    /**
     * The effect of a create method on a GEDCOM text: an error and nothing
     * changed when the text does not start with the method's placeholder;
     * otherwise a new xref and a pending change holding the record with that
     * xref and a CHAN block. Without auto-accept the record is returned with
     * the text as its pending version and the change stays pending; with
     * auto-accept the record holds the text and `accept` (the pending-changes
     * service's acceptRecord) is applied to the genealogy with the new change.
     */
    twostate predicate Created(kind: RecordKind, gedcom: string, user: User, clock: Clock,
        accept: (Genealogy, GedcomRecord) -> Genealogy, new r: Result<GedcomRecord, string>)
      reads this, db`genealogy, db`siteSettings
    {
      if !StartsWith(gedcom, Placeholder(kind)) then
        && r == Failure(PrefixError(kind, gedcom))
        && db.genealogy == old(db.genealogy)
        && db.siteSettings == old(db.siteSettings)
      else
        && r.Success?
        && var xref := r.value.xref;
          var text := NewGedcom(gedcom, kind, xref, clock, user.userName);
          var pending := old(db.genealogy).(changes := old(db.genealogy.changes) + [ChangeRow(id, xref, "", text, user.id, Pending)]);
          && FirstFreeCandidate(xref, ParseInt(old(db.SitePreference(NEXT_XREF))), old(db.UsedXrefs()))
          && db.siteSettings == old(db.siteSettings)[NEXT_XREF := xref[1..]]
          && if AutoAccepts(kind, user.autoAcceptEdits) then
               && r.value == GedcomRecord(kind, xref, text, None)
               && db.genealogy == accept(pending, r.value)
             else
               && r.value == GedcomRecord(kind, xref, "", Some(text))
               && db.genealogy == pending
    }

    /** The body shared by the four create methods; `accept` stands for PendingChangesService::acceptRecord. */
    method Create(kind: RecordKind, gedcom: string, user: User, clock: Clock,
        accept: (Genealogy, GedcomRecord) -> Genealogy) returns (r: Result<GedcomRecord, string>)
      modifies db`genealogy, db`siteSettings
      ensures Created(kind, gedcom, user, clock, accept, r)
      ensures r.Success? && !AutoAccepts(kind, user.autoAcceptEdits) ==> HasPendingEdit()
    {
      if !StartsWith(gedcom, Placeholder(kind)) {
        return Failure(PrefixError(kind, gedcom));
      }
      var xref := GetNewXref();
      var text := NewGedcom(gedcom, kind, xref, clock, user.userName);
      var g := db.genealogy;
      db.genealogy := g.(changes := g.changes + [ChangeRow(id, xref, "", text, user.id, Pending)]);
      assert db.genealogy.changes[|db.genealogy.changes| - 1] == ChangeRow(id, xref, "", text, user.id, Pending);
      if AutoAccepts(kind, user.autoAcceptEdits) {
        var record := GedcomRecord(kind, xref, text, None);
        db.genealogy := accept(db.genealogy, record);
        r := Success(record);
      } else {
        r := Success(GedcomRecord(kind, xref, "", Some(text)));
      }
    }

    method CreateRecord(gedcom: string, user: User, clock: Clock,
        accept: (Genealogy, GedcomRecord) -> Genealogy) returns (r: Result<GedcomRecord, string>)
      modifies db`genealogy, db`siteSettings
      ensures Created(AnyRecord, gedcom, user, clock, accept, r)
      ensures r.Success? && !AutoAccepts(AnyRecord, user.autoAcceptEdits) ==> HasPendingEdit()
    {
      r := Create(AnyRecord, gedcom, user, clock, accept);
    }

    method CreateFamily(gedcom: string, user: User, clock: Clock,
        accept: (Genealogy, GedcomRecord) -> Genealogy) returns (r: Result<GedcomRecord, string>)
      modifies db`genealogy, db`siteSettings
      ensures Created(FamilyRecord, gedcom, user, clock, accept, r)
      ensures r.Success? && !AutoAccepts(FamilyRecord, user.autoAcceptEdits) ==> HasPendingEdit()
    {
      r := Create(FamilyRecord, gedcom, user, clock, accept);
    }

    method CreateIndividual(gedcom: string, user: User, clock: Clock,
        accept: (Genealogy, GedcomRecord) -> Genealogy) returns (r: Result<GedcomRecord, string>)
      modifies db`genealogy, db`siteSettings
      ensures Created(IndividualRecord, gedcom, user, clock, accept, r)
      ensures r.Success? && !AutoAccepts(IndividualRecord, user.autoAcceptEdits) ==> HasPendingEdit()
    {
      r := Create(IndividualRecord, gedcom, user, clock, accept);
    }

    method CreateMediaObject(gedcom: string, user: User, clock: Clock,
        accept: (Genealogy, GedcomRecord) -> Genealogy) returns (r: Result<GedcomRecord, string>)
      modifies db`genealogy, db`siteSettings
      ensures Created(MediaRecord, gedcom, user, clock, accept, r)
      ensures r.Success? && !AutoAccepts(MediaRecord, user.autoAcceptEdits) ==> HasPendingEdit()
    {
      r := Create(MediaRecord, gedcom, user, clock, accept);
    }

    /**
     * The individual to show when none is asked for, or the one asked for is
     * missing: see SignificantCandidates for the order of the lookups.
     * `findIndividual` and `findFamily` stand for the record factories.
     */
    method SignificantIndividual(user: User, xref: string,
        findIndividual: string -> Option<Individual>, findFamily: string -> Option<Family>) returns (r: Individual)
      requires Valid()
      modifies this`preferences, this`userPreferences
      ensures Valid()
      ensures r == FirstFound(SignificantCandidates(xref, findIndividual, findFamily,
        StoredUserPreference(user.id, PREF_TREE_DEFAULT_XREF), StoredUserPreference(user.id, PREF_TREE_ACCOUNT_XREF),
        StoredPreference(PEDIGREE_ROOT_ID), LeastXref(db.IndividualXrefs(id))), PLACEHOLDER_INDIVIDUAL)
    {
      ghost var defaultStored := StoredUserPreference(user.id, PREF_TREE_DEFAULT_XREF);
      ghost var accountStored := StoredUserPreference(user.id, PREF_TREE_ACCOUNT_XREF);
      ghost var rootStored := StoredPreference(PEDIGREE_ROOT_ID);
      ghost var least := LeastXref(db.IndividualXrefs(id));
      ghost var cands := SignificantCandidates(xref, findIndividual, findFamily, defaultStored, accountStored, rootStored, least);
      FirstFoundChain(cands, PLACEHOLDER_INDIVIDUAL);
      var individual: Option<Individual> := None;
      if xref != "" {
        individual := findIndividual(xref);
        if individual.None? {
          individual := FamilyMember(findFamily(xref));
        }
      }
      assert individual == OrElse(cands[0], cands[1]);
      if individual.None? {
        var defaultXref := GetUserPreference(user, PREF_TREE_DEFAULT_XREF);
        assert defaultXref == defaultStored;
        if defaultXref != "" {
          individual := findIndividual(defaultXref);
        }
      }
      assert individual == OrElse(OrElse(cands[0], cands[1]), cands[2]);
      if individual.None? {
        var accountXref := GetUserPreference(user, PREF_TREE_ACCOUNT_XREF);
        assert accountXref == accountStored;
        if accountXref != "" {
          individual := findIndividual(accountXref);
        }
      }
      assert individual == OrElse(OrElse(OrElse(cands[0], cands[1]), cands[2]), cands[3]);
      if individual.None? {
        var rootId := GetPreference(PEDIGREE_ROOT_ID);
        assert rootId == rootStored;
        if rootId != "" {
          individual := findIndividual(rootId);
        }
      }
      assert individual == OrElse(OrElse(OrElse(OrElse(cands[0], cands[1]), cands[2]), cands[3]), cands[4]);
      if individual.None? {
        var minXref := db.MinIndividualXref(id);
        MinXrefUnique(minXref, LeastXref(db.IndividualXrefs(id)), db.IndividualXrefs(id));
        individual := findIndividual(minXref);
      }
      r := individual.GetOr(PLACEHOLDER_INDIVIDUAL);
    }
  }
}
