/**
 * The submitter page request handler: the order in which a submitter's facts
 * are shown, and the choice between a permanent redirect to the canonical URL
 * and the page itself.
 */
module SubmitterPage {
  import opened Wrappers

  /** The tags in display order; the PHP array's keys start at 1, so NAME has key 1. */
  const FACT_ORDER: seq<string> :=
    ["NAME", "ADDR", "PHON", "EMAIL", "WWW", "LANG", "OBJE", "RFN", "RIN", "NOTE", "CHAN"]

  /** PHP_INT_MAX on a 64-bit build: the key of every tag not in FACT_ORDER. */
  const PHP_INT_MAX: int := 0x7FFF_FFFF_FFFF_FFFF

  const STATUS_MOVED_PERMANENTLY: int := 301

  datatype Fact = Fact(tag: string, value: string)

  /**
   * A submitter record as the handler uses it: its xref, the slug and URL
   * built from its name, its name, its facts in record order, and the
   * families and individuals that link to it with a SUBM tag.
   */
  datatype Submitter = Submitter(
    xref: string,
    slug: string,
    url: string,
    fullName: string,
    facts: seq<Fact>,
    linkedFamilies: seq<string>,
    linkedIndividuals: seq<string>)

  datatype Response =
    | Redirect(location: string, status: int)
    | Page(view: string, facts: seq<Fact>, submitter: Submitter, families: seq<string>,
           individuals: seq<string>, metaDescription: string, metaRobots: string, title: string)

  /** FACT_ORDER has no repeated tag. */
  lemma FactOrderDistinct()
    ensures forall i, j :: 0 <= i < j < |FACT_ORDER| ==> FACT_ORDER[i] != FACT_ORDER[j]
  {
  }

  /** The scan of array_search from index `i` on: the 1-based key of the first identical entry. */
  function SearchFrom(tag: string, i: nat): (r: Option<int>)
    requires i <= |FACT_ORDER|
    ensures r.Some? <==> tag in FACT_ORDER[i..]
    ensures r.Some? ==> i < r.value <= |FACT_ORDER| && FACT_ORDER[r.value - 1] == tag
    ensures r.Some? ==> forall j :: i <= j < r.value - 1 ==> FACT_ORDER[j] != tag
    decreases |FACT_ORDER| - i
  {
    if i == |FACT_ORDER| then None
    else if FACT_ORDER[i] == tag then Some(i + 1)
    else
      var r := SearchFrom(tag, i + 1);
      assert FACT_ORDER[i..] == [FACT_ORDER[i]] + FACT_ORDER[i + 1..];
      r
  }

  /**
   * `array_search($tag, FACT_ORDER, true)`: the key of the first entry
   * identical to `tag` (strict comparison, so case matters), or false.
   */
  function ArraySearch(tag: string): (r: Option<int>)
    ensures r.Some? <==> tag in FACT_ORDER
    ensures r.Some? ==> 1 <= r.value <= |FACT_ORDER| && FACT_ORDER[r.value - 1] == tag
  {
    assert FACT_ORDER[0..] == FACT_ORDER;
    SearchFrom(tag, 0)
  }

  /**
   * `array_search(...) ?: PHP_INT_MAX`: both false and a key of 0 are falsy
   * and give PHP_INT_MAX. A listed tag's key is its 1-based position.
   */
  function SortKey(tag: string): (k: int)
    ensures tag in FACT_ORDER ==> 1 <= k <= |FACT_ORDER| && FACT_ORDER[k - 1] == tag
    ensures tag !in FACT_ORDER ==> k == PHP_INT_MAX
  {
    var found := ArraySearch(tag);
    if found.None? || found.value == 0 then PHP_INT_MAX else found.value
  }

  /** NAME sorts as 1, ADDR as 2, ..., CHAN as 11. */
  lemma SortKeyOfListed(i: nat)
    requires i < |FACT_ORDER|
    ensures SortKey(FACT_ORDER[i]) == i + 1
  {
    FactOrderDistinct();
    var k := SortKey(FACT_ORDER[i]);
    assert FACT_ORDER[k - 1] == FACT_ORDER[i];
  }

  /** Tags are compared strictly: a lower-case "name" is not listed. */
  lemma SortKeyIsCaseSensitive()
    ensures SortKey("NAME") == 1
    ensures SortKey("name") == PHP_INT_MAX
  {
    SortKeyOfListed(0);
    assert "name" !in FACT_ORDER by {
      assert forall i :: 0 <= i < |FACT_ORDER| ==> FACT_ORDER[i][0] != 'n';
    }
  }

  /** `$sort_x <=> $sort_y`. */
  function Compare(x: Fact, y: Fact): (c: int)
    ensures c < 0 <==> SortKey(x.tag) < SortKey(y.tag)
    ensures c == 0 <==> SortKey(x.tag) == SortKey(y.tag)
    ensures -1 <= c <= 1
  {
    var sortX := SortKey(x.tag);
    var sortY := SortKey(y.tag);
    if sortX < sortY then -1 else if sortX == sortY then 0 else 1
  }

  /** The sort key of a fact: its tag's key. */
  function FactKey(f: Fact): int {
    SortKey(f.tag)
  }

  /** No fact is followed by one with a smaller key. */
  ghost predicate SortedBy(facts: seq<Fact>, key: Fact -> int) {
    forall i, j :: 0 <= i < j < |facts| ==> key(facts[i]) <= key(facts[j])
  }

  /** A fact whose key is at most that of a sorted sequence's first fact can go in front of it. */
  lemma ConsSorted(x: Fact, facts: seq<Fact>, key: Fact -> int)
    requires SortedBy(facts, key)
    requires facts != [] ==> key(x) <= key(facts[0])
    ensures SortedBy([x] + facts, key)
  {
    var r := [x] + facts;
    forall i, j | 0 <= i < j < |r|
      ensures key(r[i]) <= key(r[j])
    {
      if i == 0 {
        assert r[j] == facts[j - 1];
        assert key(facts[0]) <= key(facts[j - 1]) || j == 1;
      } else {
        assert r[i] == facts[i - 1] && r[j] == facts[j - 1];
      }
    }
  }

  /** Places `f` before the first fact with a greater key. */
  function InsertBy(f: Fact, sorted: seq<Fact>, key: Fact -> int): (r: seq<Fact>)
    requires SortedBy(sorted, key)
    ensures SortedBy(r, key)
    ensures multiset(r) == multiset(sorted) + multiset{f}
    ensures r[0] == f || r[0] == sorted[0]
    decreases |sorted|
  {
    if sorted == [] then [f]
    else if key(f) <= key(sorted[0]) then
      ConsSorted(f, sorted, key);
      [f] + sorted
    else
      assert sorted == [sorted[0]] + sorted[1..];
      var rest := InsertBy(f, sorted[1..], key);
      ConsSorted(sorted[0], rest, key);
      [sorted[0]] + rest
  }

  /** An insertion sort by `key`: sorted, and the same facts. */
  function SortBy(facts: seq<Fact>, key: Fact -> int): (r: seq<Fact>)
    ensures SortedBy(r, key)
    ensures multiset(r) == multiset(facts)
    decreases |facts|
  {
    if facts == [] then []
    else
      assert facts == [facts[0]] + facts[1..];
      InsertBy(facts[0], SortBy(facts[1..], key), key)
  }

  /**
   * `$record->facts()->sort(...)` with the comparator `$sort_x <=> $sort_y`:
   * the facts in non-decreasing order of their keys. The order among facts
   * with equal keys is the one this insertion sort gives; the handler
   * promises none.
   */
  function SortFacts(facts: seq<Fact>): (r: seq<Fact>)
    ensures forall i, j :: 0 <= i < j < |r| ==> Compare(r[i], r[j]) <= 0
    ensures multiset(r) == multiset(facts)
  {
    SortBy(facts, FactKey)
  }

  /**
   * Every fact with a listed tag is shown before every fact with an unlisted
   * one, in any sequence the comparator accepts as sorted, such as the
   * result of SortFacts.
   */
  lemma ListedBeforeUnlisted(r: seq<Fact>, i: nat, j: nat)
    requires forall a, b :: 0 <= a < b < |r| ==> Compare(r[a], r[b]) <= 0
    requires i < |r| && j < |r|
    requires r[i].tag in FACT_ORDER && r[j].tag !in FACT_ORDER
    ensures i < j
  {
    var ki, kj := SortKey(r[i].tag), SortKey(r[j].tag);
    assert ki <= |FACT_ORDER| && kj == PHP_INT_MAX;
    assert r[i] != r[j];
    assert Compare(r[j], r[i]) == 1;
  }

  /** In such a sequence, facts with listed tags come out in FACT_ORDER's order. */
  lemma ListedInFactOrder(r: seq<Fact>, i: nat, j: nat, p: nat, q: nat)
    requires forall a, b :: 0 <= a < b < |r| ==> Compare(r[a], r[b]) <= 0
    requires i < j < |r|
    requires p < |FACT_ORDER| && q < |FACT_ORDER|
    requires r[i].tag == FACT_ORDER[p] && r[j].tag == FACT_ORDER[q]
    ensures p <= q
  {
    SortKeyOfListed(p);
    SortKeyOfListed(q);
    assert Compare(r[i], r[j]) <= 0;
  }

  /**
   * The handler for a submitter page. `requested` is the request's xref
   * attribute, `slug` its slug attribute (absent as None), and `checked` the
   * submitter the factory made for that xref after the access check, or the
   * error that check raised. The answer is a 301 redirect to the
   * submitter's URL exactly when the resolved xref or the slug differs from
   * the request; otherwise the page, with the submitter's facts sorted by
   * key and the submitter's name as title.
   */
  function Handle(requested: string, slug: Option<string>, checked: Result<Submitter, string>): (r: Result<Response, string>)
    ensures checked.Failure? ==> r == Failure(checked.error)
    ensures checked.Success? ==> r.Success?
    ensures checked.Success? ==>
      (r.value.Redirect? <==> checked.value.xref != requested || slug != Some(checked.value.slug))
    ensures checked.Success? && r.value.Redirect? ==>
      r.value.location == checked.value.url && r.value.status == 301
    ensures checked.Success? && r.value.Page? ==>
      && r.value.view == "submitter-page"
      && (forall i, j :: 0 <= i < j < |r.value.facts| ==> Compare(r.value.facts[i], r.value.facts[j]) <= 0)
      && multiset(r.value.facts) == multiset(checked.value.facts)
      && r.value.submitter == checked.value
      && r.value.title == checked.value.fullName
      && r.value.metaRobots == "index,follow"
  {
    match checked
    case Failure(e) => Failure(e)
    case Success(submitter) =>
      if submitter.xref != requested || slug != Some(submitter.slug) then
        Success(Redirect(submitter.url, STATUS_MOVED_PERMANENTLY))
      else
        Success(Page("submitter-page", SortFacts(submitter.facts), submitter,
          submitter.linkedFamilies, submitter.linkedIndividuals, "", "index,follow", submitter.fullName))
  }
}
