/**
 * The text rewrite shared by Tree::createRecord, createFamily,
 * createIndividual and createMediaObject: the placeholder "@@" receives the
 * new xref and a CHAN block is appended.
 */
module RecordCreation {
  import opened Strings

  /** Which create method is called. */
  datatype RecordKind = AnyRecord | FamilyRecord | IndividualRecord | MediaRecord

  /** The record type each method keeps after the placeholder. */
  function KindTag(kind: RecordKind): string {
    match kind
    case AnyRecord => ""
    case FamilyRecord => "FAM"
    case IndividualRecord => "INDI"
    case MediaRecord => "OBJE"
  }

  /** The prefix each method demands: '0 @@ ', '0 @@ FAM', '0 @@ INDI', '0 @@ OBJE'. */
  function Placeholder(kind: RecordKind): string {
    "0 @@ " + KindTag(kind)
  }

  /** The InvalidArgumentException message of each method, as the source words it. */
  function PrefixError(kind: RecordKind, gedcom: string): string {
    match kind
    case AnyRecord => "GedcomRecord::createRecord(" + gedcom + ") does not begin 0 @@"
    case FamilyRecord => "GedcomRecord::createFamily(" + gedcom + ") does not begin 0 @@ FAM"
    case IndividualRecord => "GedcomRecord::createIndividual(" + gedcom + ") does not begin 0 @@ INDI"
    case MediaRecord => "GedcomRecord::createIndividual(" + gedcom + ") does not begin 0 @@ OBJE"
  }

  /** '0 @' . $xref . '@ ' . TAG . Str::after($gedcom, PREFIX). */
  function WithXref(gedcom: string, kind: RecordKind, xref: string): string
    requires StartsWith(gedcom, Placeholder(kind))
  {
    "0 @" + xref + "@ " + KindTag(kind) + gedcom[|Placeholder(kind)|..]
  }

  /** The values the source takes from date() and Auth::user(). */
  datatype Clock = Clock(date: string, time: string)

  /** The CHAN block appended to every new record. */
  function ChangeBlock(clock: Clock, userName: string): string {
    "\n1 CHAN\n2 DATE " + clock.date + "\n3 TIME " + clock.time + "\n2 _WT_USER " + userName
  }

  /** The new_gedcom of the pending change. */
  function NewGedcom(gedcom: string, kind: RecordKind, xref: string, clock: Clock, userName: string): string
    requires StartsWith(gedcom, Placeholder(kind))
  {
    WithXref(gedcom, kind, xref) + ChangeBlock(clock, userName)
  }

  /**
   * The rewrite only puts the xref between the two '@' of the placeholder:
   * the result is the input with "@@" replaced by "@" + xref + "@".
   */
  lemma WithXrefReplacesPlaceholder(gedcom: string, kind: RecordKind, xref: string)
    requires StartsWith(gedcom, Placeholder(kind))
    ensures WithXref(gedcom, kind, xref) == gedcom[..2] + "@" + xref + "@" + gedcom[4..]
  {
    var p := Placeholder(kind);
    var tag := KindTag(kind);
    var rest := gedcom[|p|..];
    assert gedcom == p + rest;
    assert p == "0 @@" + (" " + tag);
    assert gedcom[..2] == "0 ";
    assert gedcom[4..] == " " + tag + rest;
  }

  /** The xref between "0 @" and the next '@', if the text starts "0 @". */
  function RecordXref(s: string): string
  {
    if |s| < 3 || s[..3] != "0 @" then "" else TakeUntilAt(s[3..])
  }

  function TakeUntilAt(s: string): (r: string)
    ensures '@' !in r
    ensures |r| <= |s| && r == s[..|r|]
  {
    if s == [] || s[0] == '@' then "" else [s[0]] + TakeUntilAt(s[1..])
  }

  lemma {:induction false} TakeUntilAtPrefix(x: string, rest: string)
    requires '@' !in x
    ensures TakeUntilAt(x + "@" + rest) == x
  {
    if x != [] {
      assert (x + "@" + rest)[1..] == x[1..] + "@" + rest;
      TakeUntilAtPrefix(x[1..], rest);
    }
  }

  /** The xref of a created record can be read back from its text. */
  lemma XrefReadBack(gedcom: string, kind: RecordKind, xref: string, clock: Clock, userName: string)
    requires StartsWith(gedcom, Placeholder(kind))
    requires '@' !in xref
    ensures RecordXref(NewGedcom(gedcom, kind, xref, clock, userName)) == xref
  {
    var s := NewGedcom(gedcom, kind, xref, clock, userName);
    var rest := " " + KindTag(kind) + gedcom[|Placeholder(kind)|..] + ChangeBlock(clock, userName);
    assert s == "0 @" + (xref + "@" + rest);
    assert s[3..] == xref + "@" + rest;
    TakeUntilAtPrefix(xref, rest);
  }

  /** Removing the xref and the CHAN block gives back the input. */
  lemma PlaceholderRestored(gedcom: string, kind: RecordKind, xref: string, clock: Clock, userName: string)
    requires StartsWith(gedcom, Placeholder(kind))
    ensures var s := NewGedcom(gedcom, kind, xref, clock, userName);
      var body := s[..|s| - |ChangeBlock(clock, userName)|];
      body[..3] + body[3 + |xref|..] == gedcom
  {
    WithXrefReplacesPlaceholder(gedcom, kind, xref);
    var w := WithXref(gedcom, kind, xref);
    var s := NewGedcom(gedcom, kind, xref, clock, userName);
    assert s[..|s| - |ChangeBlock(clock, userName)|] == w;
    assert w[..3] == gedcom[..3];
    assert w[3 + |xref|..] == "@" + gedcom[4..];
    assert gedcom[..3] + "@" + gedcom[4..] == gedcom by {
      assert gedcom[3] == '@';
      assert gedcom == gedcom[..3] + [gedcom[3]] + gedcom[4..];
    }
  }

  /**
   * createFamily, createIndividual and createMediaObject accept only input that
   * createRecord would accept too, and produce the same text for it.
   */
  lemma SpecificKindsAgreeWithGeneric(gedcom: string, kind: RecordKind, xref: string)
    requires StartsWith(gedcom, Placeholder(kind))
    ensures StartsWith(gedcom, Placeholder(AnyRecord))
    ensures WithXref(gedcom, kind, xref) == WithXref(gedcom, AnyRecord, xref)
  {
    assert gedcom[..5] == Placeholder(kind)[..5];
    WithXrefReplacesPlaceholder(gedcom, kind, xref);
    WithXrefReplacesPlaceholder(gedcom, AnyRecord, xref);
  }

  /**
   * Whether the new record is accepted at once, given the user's
   * auto-accept preference: createRecord tests it for PHP truthiness, the
   * other three compare it with '1'.
   */
  function AutoAccepts(kind: RecordKind, pref: string): bool {
    if kind == AnyRecord then PhpTruthy(pref) else pref == "1"
  }

  /**
   * The two tests disagree exactly on preference values other than "", "0"
   * and "1": for those createRecord accepts and the other three do not.
   */
  lemma AutoAcceptTestsDiffer(kind: RecordKind, pref: string)
    requires kind != AnyRecord
    ensures AutoAccepts(AnyRecord, pref) != AutoAccepts(kind, pref) <==> pref != "" && pref != "0" && pref != "1"
    ensures AutoAccepts(kind, pref) ==> AutoAccepts(AnyRecord, pref)
  {
  }
}
