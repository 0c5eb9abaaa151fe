/**
 * The privacy maps the Tree constructor builds from the default_resn rows of
 * the tree: each RESN value is turned into an access level and each row goes
 * to the per-fact, per-individual or per-individual-fact map, depending on
 * which of its xref and tag_type are null.
 */
module Privacy {
  import opened Wrappers

  /** Auth::PRIV_PRIVATE, PRIV_USER, PRIV_NONE and PRIV_HIDE. */
  datatype AccessLevel = PrivPrivate | PrivUser | PrivNone | PrivHide

  /** Tree::RESN_PRIVACY; any other RESN value has no entry. */
  function ResnAccess(resn: string): (a: Option<AccessLevel>)
    ensures a.Some? <==> resn in {"none", "privacy", "confidential", "hidden"}
  {
    if resn == "none" then Some(PrivPrivate)
    else if resn == "privacy" then Some(PrivUser)
    else if resn == "confidential" then Some(PrivNone)
    else if resn == "hidden" then Some(PrivHide)
    else None
  }

  /** A row of the default_resn table. */
  datatype ResnRow = ResnRow(tree: int, xref: Option<string>, tagType: Option<string>, resn: string)

  predicate KnownResn(row: ResnRow) {
    ResnAccess(row.resn).Some?
  }

  function Access(row: ResnRow): AccessLevel
    requires KnownResn(row)
  {
    ResnAccess(row.resn).value
  }

  /** The three maps: tag => level, xref => level, xref => tag => level. */
  datatype PrivacyMaps = PrivacyMaps(
    fact: map<string, AccessLevel>,
    individual: map<string, AccessLevel>,
    individualFact: map<string, map<string, AccessLevel>>)

  const EMPTY_MAPS := PrivacyMaps(map[], map[], map[])

  /** The entry a row sets. A null tag_type used as a PHP array key becomes "". */
  datatype Target = FactTarget(tag: string) | IndividualTarget(xref: string) | IndividualFactTarget(xref: string, tag: string)

  function RowTarget(row: ResnRow): Target {
    match row.xref
    case Some(x) => if row.tagType.Some? then IndividualFactTarget(x, row.tagType.value) else IndividualTarget(x)
    case None => FactTarget(row.tagType.GetOr(""))
  }

  /** The level the maps give a target, if any. */
  function Lookup(maps: PrivacyMaps, t: Target): Option<AccessLevel> {
    match t
    case FactTarget(tag) => if tag in maps.fact then Some(maps.fact[tag]) else None
    case IndividualTarget(x) => if x in maps.individual then Some(maps.individual[x]) else None
    case IndividualFactTarget(x, tag) =>
      if x in maps.individualFact && tag in maps.individualFact[x] then Some(maps.individualFact[x][tag]) else None
  }

  /** The body of the constructor's foreach for one row. */
  function Classify(maps: PrivacyMaps, row: ResnRow): PrivacyMaps
    requires KnownResn(row)
  {
    var level := Access(row);
    if row.xref.Some? then
      if row.tagType.Some? then
        var inner := if row.xref.value in maps.individualFact then maps.individualFact[row.xref.value] else map[];
        maps.(individualFact := maps.individualFact[row.xref.value := inner[row.tagType.value := level]])
      else
        maps.(individual := maps.individual[row.xref.value := level])
    else
      maps.(fact := maps.fact[row.tagType.GetOr("") := level])
  }

  predicate AllKnown(rows: seq<ResnRow>) {
    forall i :: 0 <= i < |rows| ==> KnownResn(rows[i])
  }

  /** The maps after the foreach over `rows`. */
  function LoadPrivacy(rows: seq<ResnRow>): PrivacyMaps
    requires AllKnown(rows)
    decreases |rows|
  {
    if rows == [] then EMPTY_MAPS
    else Classify(LoadPrivacy(rows[..|rows| - 1]), rows[|rows| - 1])
  }

  /** The level of the last row that targets `t`, if any. */
  function LastRule(rows: seq<ResnRow>, t: Target): Option<AccessLevel>
    requires AllKnown(rows)
    decreases |rows|
  {
    if rows == [] then None
    else if RowTarget(rows[|rows| - 1]) == t then Some(Access(rows[|rows| - 1]))
    else LastRule(rows[..|rows| - 1], t)
  }

  /** A row sets exactly the entry of its own target and leaves every other entry alone. */
  lemma ClassifySetsOnlyItsTarget(maps: PrivacyMaps, row: ResnRow, t: Target)
    requires KnownResn(row)
    ensures Lookup(Classify(maps, row), t) == if RowTarget(row) == t then Some(Access(row)) else Lookup(maps, t)
  {
  }

  /** Each entry of the maps holds the level of the last row aimed at it; no row, no entry. */
  lemma {:induction false} LastRuleWins(rows: seq<ResnRow>, t: Target)
    requires AllKnown(rows)
    ensures Lookup(LoadPrivacy(rows), t) == LastRule(rows, t)
    decreases |rows|
  {
    if rows != [] {
      LastRuleWins(rows[..|rows| - 1], t);
      ClassifySetsOnlyItsTarget(LoadPrivacy(rows[..|rows| - 1]), rows[|rows| - 1], t);
    }
  }

  /** A target gets an entry exactly when some row aims at it. */
  lemma {:induction false} LastRuleExists(rows: seq<ResnRow>, t: Target)
    requires AllKnown(rows)
    ensures LastRule(rows, t).Some? <==> exists i :: 0 <= i < |rows| && RowTarget(rows[i]) == t
    decreases |rows|
  {
    if rows != [] {
      var init := rows[..|rows| - 1];
      LastRuleExists(init, t);
      if RowTarget(rows[|rows| - 1]) != t {
        forall i | 0 <= i < |rows| && RowTarget(rows[i]) == t
          ensures exists j :: 0 <= j < |init| && RowTarget(init[j]) == t
        {
          assert init[i] == rows[i];
        }
      }
    }
  }
}
