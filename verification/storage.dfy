/**
 * The database tables the Tree class reads and writes. The tables are held in
 * three groups, each a field of one Database object: the genealogy tables,
 * the per-tree configuration tables with the log, and the site settings.
 * Record tables are maps keyed by (tree id, xref); tables whose other columns
 * play no part here are sets of rows tagged with their tree id; tables whose
 * order matters (pending changes, import chunks, privacy rules, the log) are
 * sequences in insertion order.
 */
module Storage {
  import opened Wrappers
  import opened Privacy
  import opened GedcomExport

  datatype RecordKey = RecordKey(tree: int, xref: string)
  datatype OtherRecord = OtherRecord(otype: string, gedcom: string)
  datatype ChangeStatus = Pending | Accepted | Rejected
  datatype ChangeRow = ChangeRow(tree: int, xref: string, oldGedcom: string, newGedcom: string, userId: int, status: ChangeStatus)
  datatype ChunkRow = ChunkRow(tree: int, data: string)
  datatype TreeRow = TreeRow(tree: int, data: string)
  datatype LinkRow = LinkRow(tree: int, source: string, linkType: string, target: string)
  datatype UserTree = UserTree(tree: int, user: int)
  datatype BlockSetting = BlockSetting(blockId: int, name: string, value: string)
  datatype LogRow = LogRow(tree: Option<int>, message: string)
  datatype TreeInfo = TreeInfo(name: string, title: string)

  /** The rows of a record table that belong to other trees. */
  function RecordsOutside<V>(m: map<RecordKey, V>, id: int): (r: map<RecordKey, V>)
    ensures forall k :: k in r <==> k in m && k.tree != id
    ensures forall k :: k in r ==> r[k] == m[k]
  {
    map k | k in m && k.tree != id :: m[k]
  }

  function RowsOutside(s: set<TreeRow>, id: int): (r: set<TreeRow>)
    ensures forall x :: x in r <==> x in s && x.tree != id
  {
    set x | x in s && x.tree != id
  }

  /** The rows of `s` that `keep` accepts, in their order. */
  function Filter<T>(s: seq<T>, keep: T -> bool): (r: seq<T>)
    ensures |r| <= |s|
    ensures forall i :: 0 <= i < |r| ==> r[i] in s && keep(r[i])
    ensures forall i :: 0 <= i < |s| && keep(s[i]) ==> s[i] in r
    decreases |s|
  {
    if s == [] then []
    else if keep(s[0]) then [s[0]] + Filter(s[1..], keep)
    else Filter(s[1..], keep)
  }

  /** The filter keeps some row exactly when some row of `s` passes it. */
  lemma FilterEmpty<T>(s: seq<T>, keep: T -> bool)
    ensures |Filter(s, keep)| > 0 <==> exists x :: x in s && keep(x)
  {
    var r := Filter(s, keep);
    if x :| x in s && keep(x) {
      var i :| 0 <= i < |s| && s[i] == x;
      assert s[i] in r;
    }
    if |r| > 0 {
      assert r[0] in s && keep(r[0]);
    }
  }

  /** The gedcom_chunk rows of other trees, in order. */
  function ChunksOutside(s: seq<ChunkRow>, id: int): (r: seq<ChunkRow>)
    ensures forall c :: c in r <==> c in s && c.tree != id
  {
    Filter(s, (c: ChunkRow) => c.tree != id)
  }

  /** The change rows of other trees, in order. */
  function ChangesOutside(s: seq<ChangeRow>, id: int): (r: seq<ChangeRow>)
    ensures forall c :: c in r <==> c in s && c.tree != id
  {
    Filter(s, (c: ChangeRow) => c.tree != id)
  }

  lemma {:induction false} ChunksOutsideIdempotent(s: seq<ChunkRow>, id: int)
    ensures ChunksOutside(ChunksOutside(s, id), id) == ChunksOutside(s, id)
    decreases |s|
  {
    if s != [] {
      ChunksOutsideIdempotent(s[1..], id);
    }
  }

  lemma {:induction false} ChangesOutsideIdempotent(s: seq<ChangeRow>, id: int)
    ensures ChangesOutside(ChangesOutside(s, id), id) == ChangesOutside(s, id)
    decreases |s|
  {
    if s != [] {
      ChangesOutsideIdempotent(s[1..], id);
    }
  }

  /** The default_resn rows of other trees, in order. */
  function ResnOutside(s: seq<ResnRow>, id: int): (r: seq<ResnRow>)
    ensures forall x :: x in r <==> x in s && x.tree != id
  {
    Filter(s, (x: ResnRow) => x.tree != id)
  }

  /** The log rows not about tree `id` (site-wide rows stay). */
  function LogOutside(s: seq<LogRow>, id: int): (r: seq<LogRow>)
    ensures forall x :: x in r <==> x in s && x.tree != Some(id)
  {
    Filter(s, (x: LogRow) => x.tree != Some(id))
  }

  /** The link rows kept: other trees' rows, and this tree's OBJE rows when `keepMedia`. */
  function LinksKept(s: set<LinkRow>, id: int, keepMedia: bool): (r: set<LinkRow>)
    ensures forall l :: l in r <==> l in s && (l.tree != id || (keepMedia && l.linkType == "OBJE"))
  {
    set l | l in s && (l.tree != id || (keepMedia && l.linkType == "OBJE"))
  }

  /** The block rows of other trees. */
  function BlocksOutside(blocks: map<int, Option<int>>, id: int): (r: map<int, Option<int>>)
    ensures forall b :: b in r <==> b in blocks && blocks[b] != Some(id)
    ensures forall b :: b in r ==> r[b] == blocks[b]
  {
    map b | b in blocks && blocks[b] != Some(id) :: blocks[b]
  }

  /** The block_setting rows whose block does not belong to tree `id` (the join of the source). */
  function BlockSettingsOutside(s: set<BlockSetting>, blocks: map<int, Option<int>>, id: int): (r: set<BlockSetting>)
    ensures forall x :: x in r <==> x in s && (x.blockId !in blocks || blocks[x.blockId] != Some(id))
  {
    set x | x in s && (x.blockId !in blocks || blocks[x.blockId] != Some(id))
  }

  /** Equality-only lookup with a default, as `$map[$key] ?? $default`. */
  function Get(m: map<string, string>, key: string, default: string): string {
    if key in m then m[key] else default
  }

  /** `x` is the smallest string of `s` in collation order, or "" when `s` is empty. */
  ghost predicate IsMinXref(x: string, s: set<string>) {
    && (s == {} ==> x == "")
    && (s != {} ==> x in s && forall y :: y in s ==> x == y || LexLess(x, y))
  }

  lemma MinXrefUnique(a: string, b: string, s: set<string>)
    requires IsMinXref(a, s) && IsMinXref(b, s)
    ensures a == b
  {
    if a != b {
      assert LexLess(a, b) && LexLess(b, a);
      LexLessTransitive(a, b, a);
      LexLessIrreflexive(a);
    }
  }

  lemma {:induction false} MinXrefExists(s: set<string>)
    ensures exists m :: IsMinXref(m, s)
    decreases |s|
  {
    if s == {} {
      assert IsMinXref("", s);
    } else {
      var x :| x in s;
      var rest := s - {x};
      if rest == {} {
        assert s == {x};
        assert IsMinXref(x, s);
      } else {
        MinXrefExists(rest);
        var m :| IsMinXref(m, rest);
        if x != m {
          LexLessTotal(x, m);
        }
        if LexLess(x, m) {
          forall y | y in s && y != x
            ensures LexLess(x, y)
          {
            if y != m {
              LexLessTransitive(x, m, y);
            }
          }
          assert IsMinXref(x, s);
        } else {
          assert IsMinXref(m, s);
        }
      }
    }
  }

  /** The smallest xref of `s` in collation order, "" for an empty set. */
  ghost function LeastXref(s: set<string>): (m: string)
    ensures IsMinXref(m, s)
  {
    MinXrefExists(s);
    var m :| IsMinXref(m, s);
    m
  }

  /**
   * The tables that hold a tree's genealogy data: the import chunks, the
   * records, the derived place, name, date and link tables, and the pending
   * changes.
   */
  datatype Genealogy = Genealogy(
    chunks: seq<ChunkRow>,
    individuals: map<RecordKey, string>,
    families: map<RecordKey, string>,
    sources: map<RecordKey, string>,
    other: map<RecordKey, OtherRecord>,
    places: set<TreeRow>,
    placeLinks: set<TreeRow>,
    names: set<TreeRow>,
    dates: set<TreeRow>,
    changes: seq<ChangeRow>,
    links: set<LinkRow>,
    mediaFiles: set<TreeRow>,
    media: map<RecordKey, string>)

  /** The per-tree configuration tables, and the log. */
  datatype Settings = Settings(
    gedcomSettings: map<int, map<string, string>>,
    userGedcomSettings: map<UserTree, map<string, string>>,
    blocks: map<int, Option<int>>,
    blockSettings: set<BlockSetting>,
    modulePrivacy: set<TreeRow>,
    hitCounters: set<TreeRow>,
    defaultResn: seq<ResnRow>,
    log: seq<LogRow>,
    trees: map<int, TreeInfo>)

  /** No genealogy table holds a row of tree `id`, except media rows when `keepMedia`. */
  ghost predicate NoGenealogyRows(g: Genealogy, id: int, keepMedia: bool) {
    && (forall c :: c in g.chunks ==> c.tree != id)
    && (forall k :: k in g.individuals ==> k.tree != id)
    && (forall k :: k in g.families ==> k.tree != id)
    && (forall k :: k in g.sources ==> k.tree != id)
    && (forall k :: k in g.other ==> k.tree != id)
    && (forall r :: r in g.places ==> r.tree != id)
    && (forall r :: r in g.placeLinks ==> r.tree != id)
    && (forall r :: r in g.names ==> r.tree != id)
    && (forall r :: r in g.dates ==> r.tree != id)
    && (forall c :: c in g.changes ==> c.tree != id)
    && (forall l :: l in g.links ==> l.tree != id || (keepMedia && l.linkType == "OBJE"))
    && (!keepMedia ==> forall r :: r in g.mediaFiles ==> r.tree != id)
    && (!keepMedia ==> forall k :: k in g.media ==> k.tree != id)
  }

  /** No block, setting, counter, privacy, log or tree row of tree `id` is left. */
  ghost predicate NoSettingRows(s: Settings, id: int) {
    && (forall b :: b in s.blocks ==> s.blocks[b] != Some(id))
    && (forall k :: k in s.userGedcomSettings ==> k.tree != id)
    && id !in s.gedcomSettings
    && (forall r :: r in s.modulePrivacy ==> r.tree != id)
    && (forall r :: r in s.hitCounters ==> r.tree != id)
    && (forall r :: r in s.defaultResn ==> r.tree != id)
    && (forall l :: l in s.log ==> l.tree != Some(id))
    && id !in s.trees
  }

  /**
   * The genealogy tables after Tree::deleteGenealogyData: the rows of tree
   * `id` are gone, except OBJE links, media files and media when `keepMedia`.
   */
  function GenealogyDeleted(g: Genealogy, id: int, keepMedia: bool): Genealogy {
    Genealogy(
      ChunksOutside(g.chunks, id),
      RecordsOutside(g.individuals, id),
      RecordsOutside(g.families, id),
      RecordsOutside(g.sources, id),
      RecordsOutside(g.other, id),
      RowsOutside(g.places, id),
      RowsOutside(g.placeLinks, id),
      RowsOutside(g.names, id),
      RowsOutside(g.dates, id),
      ChangesOutside(g.changes, id),
      LinksKept(g.links, id, keepMedia),
      if keepMedia then g.mediaFiles else RowsOutside(g.mediaFiles, id),
      if keepMedia then g.media else RecordsOutside(g.media, id))
  }

  /** The configuration tables after Tree::delete. The block_setting rows go by their block's tree. */
  function SettingsDeleted(s: Settings, id: int): Settings {
    Settings(
      s.gedcomSettings - {id},
      map k | k in s.userGedcomSettings && k.tree != id :: s.userGedcomSettings[k],
      BlocksOutside(s.blocks, id),
      BlockSettingsOutside(s.blockSettings, s.blocks, id),
      RowsOutside(s.modulePrivacy, id),
      RowsOutside(s.hitCounters, id),
      ResnOutside(s.defaultResn, id),
      LogOutside(s.log, id),
      s.trees - {id})
  }

  /** Deleting leaves no row of the tree behind. */
  lemma GenealogyDeletedEmpties(g: Genealogy, id: int, keepMedia: bool)
    ensures NoGenealogyRows(GenealogyDeleted(g, id, keepMedia), id, keepMedia)
  {
  }

  /**
   * Deleting leaves no configuration row of the tree behind; a block_setting
   * row survives only when its block did not belong to the tree before.
   */
  lemma SettingsDeletedEmpties(s: Settings, id: int)
    ensures NoSettingRows(SettingsDeleted(s, id), id)
    ensures forall x :: x in SettingsDeleted(s, id).blockSettings ==> x.blockId !in s.blocks || s.blocks[x.blockId] != Some(id)
  {
  }

  /**
   * Deleting one tree's data leaves every other tree's rows as they were, in
   * every table: records with their values, the place, name, date, link and
   * media file rows, and the chunk and change rows of other trees in order.
   */
  lemma GenealogyDeletedKeepsOtherTrees(g: Genealogy, id: int, keepMedia: bool, k: RecordKey, r: TreeRow, l: LinkRow)
    requires k.tree != id && r.tree != id && l.tree != id
    ensures var d := GenealogyDeleted(g, id, keepMedia);
      && (k in d.individuals <==> k in g.individuals) && (k in d.individuals ==> d.individuals[k] == g.individuals[k])
      && (k in d.families <==> k in g.families) && (k in d.families ==> d.families[k] == g.families[k])
      && (k in d.sources <==> k in g.sources) && (k in d.sources ==> d.sources[k] == g.sources[k])
      && (k in d.other <==> k in g.other) && (k in d.other ==> d.other[k] == g.other[k])
      && (k in d.media <==> k in g.media) && (k in d.media ==> d.media[k] == g.media[k])
      && (r in d.places <==> r in g.places)
      && (r in d.placeLinks <==> r in g.placeLinks)
      && (r in d.names <==> r in g.names)
      && (r in d.dates <==> r in g.dates)
      && (r in d.mediaFiles <==> r in g.mediaFiles)
      && (l in d.links <==> l in g.links)
      && ChunksOutside(d.chunks, id) == ChunksOutside(g.chunks, id)
      && ChangesOutside(d.changes, id) == ChangesOutside(g.changes, id)
  {
    ChunksOutsideIdempotent(g.chunks, id);
    ChangesOutsideIdempotent(g.changes, id);
  }

  /** A second deletion finds nothing more to delete. */
  lemma GenealogyDeletedIdempotent(g: Genealogy, id: int, keepMedia: bool)
    ensures GenealogyDeleted(GenealogyDeleted(g, id, keepMedia), id, keepMedia) == GenealogyDeleted(g, id, keepMedia)
  {
    var d := GenealogyDeleted(g, id, keepMedia);
    ChunksOutsideIdempotent(g.chunks, id);
    ChangesOutsideIdempotent(g.changes, id);
  }

  class Database {
    var genealogy: Genealogy
    var settings: Settings
    var siteSettings: map<string, string>

    /** The gedcom_setting rows of one tree, as setting name => value. */
    function TreeSettings(id: int): map<string, string>
      reads this`settings
    {
      if id in settings.gedcomSettings then settings.gedcomSettings[id] else map[]
    }

    /** The user_gedcom_setting rows of one user in one tree. */
    function UserSettings(id: int, user: int): map<string, string>
      reads this`settings
    {
      var key := UserTree(id, user);
      if key in settings.userGedcomSettings then settings.userGedcomSettings[key] else map[]
    }

    /** Site::getPreference with its default ''. */
    function SitePreference(name: string): string
      reads this`siteSettings
    {
      Get(siteSettings, name, "")
    }

    /** Every xref in use, in any tree, by a record or a change. */
    function UsedXrefs(): set<string>
      reads this`genealogy
    {
      (set k | k in genealogy.individuals :: k.xref)
      + (set k | k in genealogy.families :: k.xref)
      + (set k | k in genealogy.sources :: k.xref)
      + (set k | k in genealogy.media :: k.xref)
      + (set k | k in genealogy.other :: k.xref)
      + (set c | c in genealogy.changes :: c.xref)
    }

    /** The six existence queries of getNewXref, or-ed together. */
    predicate XrefExists(xref: string)
      reads this`genealogy
      ensures XrefExists(xref) <==> xref in UsedXrefs()
    {
      || (exists k :: k in genealogy.individuals && k.xref == xref)
      || (exists k :: k in genealogy.families && k.xref == xref)
      || (exists k :: k in genealogy.sources && k.xref == xref)
      || (exists k :: k in genealogy.media && k.xref == xref)
      || (exists k :: k in genealogy.other && k.xref == xref)
      || (exists c :: c in genealogy.changes && c.xref == xref)
    }

    /** The rows of the UNION query of exportGedcom, before ordering. */
    function ExportRowSet(id: int): set<ExportRow>
      reads this`genealogy
    {
      var g := genealogy;
      (set k | k in g.individuals && k.tree == id :: ExportRow(g.individuals[k], k.xref, RANK_INDIVIDUAL))
      + (set k | k in g.families && k.tree == id :: ExportRow(g.families[k], k.xref, RANK_FAMILY))
      + (set k | k in g.sources && k.tree == id :: ExportRow(g.sources[k], k.xref, RANK_SOURCE))
      + (set k | k in g.other && k.tree == id && g.other[k].otype != "HEAD" && g.other[k].otype != "TRLR"
           :: ExportRow(g.other[k].gedcom, k.xref, RANK_OTHER))
      + (set k | k in g.media && k.tree == id :: ExportRow(g.media[k], k.xref, RANK_MEDIA))
    }

    /** Within one tree a kind and an xref pick out one row. */
    lemma ExportRowKeysDistinct(id: int)
      ensures KeysDistinct(ExportRowSet(id))
    {
      var g := genealogy;
      forall a, b | a in ExportRowSet(id) && b in ExportRowSet(id) && SameKey(a, b)
        ensures a == b
      {
        var k := RecordKey(id, a.xref);
        if a.n == RANK_INDIVIDUAL {
          assert a == ExportRow(g.individuals[k], k.xref, RANK_INDIVIDUAL) == b;
        } else if a.n == RANK_FAMILY {
          assert a == ExportRow(g.families[k], k.xref, RANK_FAMILY) == b;
        } else if a.n == RANK_SOURCE {
          assert a == ExportRow(g.sources[k], k.xref, RANK_SOURCE) == b;
        } else if a.n == RANK_OTHER {
          assert a == ExportRow(g.other[k].gedcom, k.xref, RANK_OTHER) == b;
        } else {
          assert a == ExportRow(g.media[k], k.xref, RANK_MEDIA) == b;
        }
      }
    }

    /** The UNION query with ORDER BY n, len, xref. */
    method SelectExportRows(id: int) returns (rows: seq<ExportRow>)
      ensures IsExportOrder(rows, ExportRowSet(id))
    {
      var all := ExportRowSet(id);
      ExportRowKeysDistinct(id);
      var remaining := all;
      rows := [];
      while remaining != {}
        invariant remaining <= all
        invariant Sorted(rows)
        invariant forall r :: r in rows <==> r in all && r !in remaining
        decreases remaining
      {
        var r :| r in remaining;
        rows := Insert(rows, r);
        remaining := remaining - {r};
      }
    }

    /** The i_id values of one tree. */
    function IndividualXrefs(id: int): set<string>
      reads this`genealogy
    {
      set k | k in genealogy.individuals && k.tree == id :: k.xref
    }

    /** `(string) min('i_id')` over the tree's individuals: null, hence "", when there are none. */
    method MinIndividualXref(id: int) returns (x: string)
      ensures IsMinXref(x, IndividualXrefs(id))
    {
      var remaining := IndividualXrefs(id);
      x := "";
      var found := false;
      while remaining != {}
        invariant remaining <= IndividualXrefs(id)
        invariant found <==> remaining != IndividualXrefs(id)
        invariant !found ==> x == ""
        invariant found ==> x in IndividualXrefs(id) && x !in remaining
        invariant found ==> forall y :: y in IndividualXrefs(id) && y !in remaining ==> x == y || LexLess(x, y)
        decreases remaining
      {
        var y :| y in remaining;
        if !found || LexLess(y, x) {
          if found {
            forall z | z in IndividualXrefs(id) && z !in remaining && z != x
              ensures LexLess(y, z)
            {
              LexLessTransitive(y, x, z);
            }
          }
          x := y;
          found := true;
        } else {
          if x != y {
            LexLessTotal(x, y);
          }
        }
        remaining := remaining - {y};
      }
    }

    /** The default_resn rows of one tree, in table order. */
    function ResnRowsOf(id: int): seq<ResnRow>
      reads this`settings
    {
      Filter(settings.defaultResn, (r: ResnRow) => r.tree == id)
    }

    /** After a full genealogy deletion the tree exports no record and has no individual. */
    lemma DeletedTreeIsEmpty(id: int)
      requires NoGenealogyRows(genealogy, id, false)
      ensures ExportRowSet(id) == {}
      ensures IndividualXrefs(id) == {}
    {
    }

    /** With keep_media, only media rows of the tree remain to be exported. */
    lemma KeptMediaIsAllThatRemains(id: int)
      requires NoGenealogyRows(genealogy, id, true)
      ensures forall r :: r in ExportRowSet(id) ==> r.n == RANK_MEDIA
    {
    }
  }
}
