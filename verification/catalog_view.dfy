/** The listing page of js/scholarships.js: what one filtering pass shows,
    the cards and the count label it renders, and the page object that holds
    the controls, the current result array and the debounced search input. */
module CatalogView {
  import opened Optional
  import opened Decimal
  import opened JsText
  import opened Catalog
  import opened Sorting
  import opened Debounce

  /** The sort key of `o` as the comparator function `Sorting` works with. */
  function KeyOf(o: Order): Scholarship -> Option<real> {
    (r: Scholarship) => SortKey(o, r)
  }

  predicate AllRecordsKeyed(c: seq<Scholarship>) {
    forall r :: r in c ==> Keyed(r)
  }

  /** The shipped catalog holds exactly the six records. */
  lemma CatalogMembers(r: Scholarship)
    requires r in ScholarshipsData()
    ensures r == MeritRecord() || r == StemRecord() || r == CommunityRecord()
         || r == InternationalRecord() || r == ArtsRecord() || r == FirstGenerationRecord()
  {
  }

  /** The page is built on the shipped catalog, and every record in it has
      both sort keys, as `ListingPage` requires. */
  lemma CatalogKeyed()
    ensures AllRecordsKeyed(ScholarshipsData())
  {
    MeritKeyed();
    StemKeyed();
    CommunityKeyed();
    InternationalKeyed();
    ArtsKeyed();
    FirstGenerationKeyed();
    forall r | r in ScholarshipsData() ensures Keyed(r) {
      CatalogMembers(r);
    }
  }

  lemma KeyedHasKeys(c: seq<Scholarship>, o: Order)
    requires AllRecordsKeyed(c)
    ensures AllKeyed(KeyOf(o), c)
  {
    forall i | 0 <= i < |c| ensures KeyOf(o)(c[i]).Some? {
      assert c[i] in c;
    }
  }

  /** What one pass of `filterScholarships` leaves in `filteredScholarships`:
      the matching records in catalog order, then sorted stably when the sort
      option is one of the three orders. */
  function Visible(c: seq<Scholarship>, f: Filters): (v: seq<Scholarship>)
    requires AllRecordsKeyed(c)
  {
    var m := Filter(c, f);
    assert AllRecordsKeyed(m);
    match OrderOf(f.sort)
    case None => m
    case Some(o) =>
      KeyedHasKeys(m, o);
      InsertionSort(KeyOf(o), m)
  }

  /** A record is shown iff it is in the catalog and matches the controls,
      whatever the sort option. */
  lemma VisibleMembers(c: seq<Scholarship>, f: Filters, x: Scholarship)
    requires AllRecordsKeyed(c)
    ensures x in Visible(c, f) <==> x in c && Matches(x, f)
  {
    var m := Filter(c, f);
    if OrderOf(f.sort).Some? {
      var o := OrderOf(f.sort).value;
      KeyedHasKeys(m, o);
      InsertionSortPermutes(KeyOf(o), m);
      assert x in Visible(c, f) <==> x in multiset(Visible(c, f));
      assert x in m <==> x in multiset(m);
    }
  }

  /** With any sort option other than the three orders ("default" included),
      the result is the filtered catalog in catalog order. */
  lemma UnsortedKeepsCatalogOrder(c: seq<Scholarship>, f: Filters)
    requires AllRecordsKeyed(c) && OrderOf(f.sort) == None
    ensures Visible(c, f) == Filter(c, f) && IsSubsequence(Visible(c, f), c)
  {
    FilterIsSubsequence(c, f);
  }

  /** With a sort order, the result is the filtered records in key order, as a
      permutation, keeping the catalog order among records with equal keys. */
  lemma SortedVisible(c: seq<Scholarship>, f: Filters, o: Order, k: real)
    requires AllRecordsKeyed(c) && OrderOf(f.sort) == Some(o)
    ensures AllKeyed(KeyOf(o), Filter(c, f)) && AllKeyed(KeyOf(o), Visible(c, f))
    ensures SortedBy(KeyOf(o), Visible(c, f))
    ensures multiset(Visible(c, f)) == multiset(Filter(c, f))
    ensures WithKey(KeyOf(o), Visible(c, f), k) == WithKey(KeyOf(o), Filter(c, f), k)
  {
    var m := Filter(c, f);
    KeyedHasKeys(m, o);
    InsertionSortSorted(KeyOf(o), m);
    InsertionSortPermutes(KeyOf(o), m);
    InsertionSortStable(KeyOf(o), m, k);
  }

  /** "amount-high" shows amounts from the largest down. */
  lemma AmountHighDescends(c: seq<Scholarship>, f: Filters, i: nat, j: nat)
    requires AllRecordsKeyed(c) && f.sort == "amount-high"
    requires i < j < |Visible(c, f)|
    ensures AmountValue(Visible(c, f)[i].amount).Some? && AmountValue(Visible(c, f)[j].amount).Some?
    ensures AmountValue(Visible(c, f)[i].amount).value >= AmountValue(Visible(c, f)[j].amount).value
  {
    SortedVisible(c, f, AmountHigh, 0.0);
    var v := Visible(c, f);
    assert KeyOf(AmountHigh)(v[i]).value <= KeyOf(AmountHigh)(v[j]).value;
  }

  /** "amount-low" shows amounts from the smallest up. */
  lemma AmountLowAscends(c: seq<Scholarship>, f: Filters, i: nat, j: nat)
    requires AllRecordsKeyed(c) && f.sort == "amount-low"
    requires i < j < |Visible(c, f)|
    ensures AmountValue(Visible(c, f)[i].amount).Some? && AmountValue(Visible(c, f)[j].amount).Some?
    ensures AmountValue(Visible(c, f)[i].amount).value <= AmountValue(Visible(c, f)[j].amount).value
  {
    SortedVisible(c, f, AmountLow, 0.0);
    var v := Visible(c, f);
    assert KeyOf(AmountLow)(v[i]).value <= KeyOf(AmountLow)(v[j]).value;
  }

  /** "deadline" shows the earliest deadline first, which for ISO dates is
      the lexicographic order of the deadline text. */
  lemma DeadlineAscends(c: seq<Scholarship>, f: Filters, i: nat, j: nat)
    requires AllRecordsKeyed(c) && f.sort == "deadline"
    requires i < j < |Visible(c, f)|
    ensures IsIsoDate(Visible(c, f)[i].deadline) && IsIsoDate(Visible(c, f)[j].deadline)
    ensures !LexLess(Visible(c, f)[j].deadline, Visible(c, f)[i].deadline)
  {
    SortedVisible(c, f, Deadline, 0.0);
    var v := Visible(c, f);
    assert KeyOf(Deadline)(v[i]).value <= KeyOf(Deadline)(v[j]).value;
    DeadlineOrderIsTextOrder(v[j].deadline, v[i].deadline);
  }

  /** The controls after "Clear filters": what a pass reads once the search is
      '', both selectors 'all' and the sort 'default' (or the control is absent). */
  function ClearedControls(): (f: Filters)
    ensures f == ReadControls(Some(""), Some("all"), Some("all"), Some("default"))
    ensures f == ReadControls(None, None, None, None)
  {
    Filters("", "all", "all", "default")
  }

  /** Clearing shows the whole catalog in its original order, as the initial render does. */
  lemma ClearShowsCatalog(c: seq<Scholarship>)
    requires AllRecordsKeyed(c)
    ensures Visible(c, ClearedControls()) == c
  {
    forall i | 0 <= i < |c| ensures Matches(c[i], ClearedControls()) {
      IncludesTrivial(ToLower(c[i].title));
    }
    FilterKeepsAll(c, ClearedControls());
  }

  // ---- Rendering -------------------------------------------------------

  /** A rendered card: the record's fields as shown, and the link of its
      "View Details" button. */
  datatype Card = Card(id: nat, title: string, description: string, amount: string,
                       image: string, href: string)

  datatype View = EmptyState | Cards(cards: seq<Card>)

  const DetailPrefix: string := "scholarship-detail.html?id="

  function DetailHref(id: nat): string {
    DetailPrefix + NatToString(id)
  }

  /** How a detail page reads the id back from the link's query. */
  function IdOfHref(href: string): Option<int> {
    if |href| >= |DetailPrefix| && href[..|DetailPrefix|] == DetailPrefix
    then ParseInt(href[|DetailPrefix|..])
    else None
  }

  /** Every card's link leads back to its record's id. */
  lemma DetailHrefRoundTrip(id: nat)
    ensures IdOfHref(DetailHref(id)) == Some(id)
  {
    var h := DetailHref(id);
    assert h[..|DetailPrefix|] == DetailPrefix && h[|DetailPrefix|..] == NatToString(id);
    ParseIntDigits(NatToString(id));
    NatToStringRoundTrip(id);
  }

  function CardOf(r: Scholarship): (card: Card)
    ensures card.id == r.id && IdOfHref(card.href) == Some(r.id)
  {
    DetailHrefRoundTrip(r.id);
    Card(r.id, r.title, r.description, r.amount, r.image, DetailHref(r.id))
  }

  /** `renderScholarships`: the empty state for no records, otherwise one card
      per record, in order. */
  function Render(list: seq<Scholarship>): (v: View)
    ensures v == EmptyState <==> list == []
    ensures v.Cards? ==> |v.cards| == |list|
    ensures v.Cards? ==> forall i :: 0 <= i < |list| ==>
      v.cards[i].id == list[i].id && IdOfHref(v.cards[i].href) == Some(list[i].id)
  {
    if list == [] then EmptyState else Cards(seq(|list|, i requires 0 <= i < |list| => CardOf(list[i])))
  }

  /** `updateResultsCount`: "Found N scholarship" for one, "scholarships" otherwise. */
  function CountLabel(n: nat): string {
    "Found " + NatToString(n) + " " + (if n == 1 then "scholarship" else "scholarships")
  }

  /** The label names the count it was made from, and is singular exactly for one. */
  lemma CountLabelReadsBack(m: nat, n: nat)
    ensures CountLabel(m) == CountLabel(n) ==> m == n
    ensures CountLabel(n)[|CountLabel(n)| - 1] == 's' <==> n != 1
  {
    var a, b := NatToString(m), NatToString(n);
    if CountLabel(m) == CountLabel(n) {
      if |a| == |b| {
        assert forall i :: 0 <= i < |a| ==> a[i] == CountLabel(m)[6 + i] == CountLabel(n)[6 + i] == b[i];
        assert a == b;
        NatToStringInjective(m, n);
      }
    }
  }

  /** The array a pass builds: `filter` into a new array, then `sort` of that
      array in place when the sort option is one of the three orders. */
  method FilterAndSort(c: seq<Scholarship>, f: Filters) returns (result: array<Scholarship>)
    requires AllRecordsKeyed(c)
    ensures fresh(result) && result[..] == Visible(c, f)
  {
    var m := Filter(c, f);
    assert AllRecordsKeyed(m);
    result := new Scholarship[|m|](i requires 0 <= i < |m| => m[i]);
    assert result[..] == m;
    var order := OrderOf(f.sort);
    if order.Some? {
      KeyedHasKeys(m, order.value);
      SortInPlace(result, KeyOf(order.value));
    }
  }

  /** Which selector a `change` event comes from. */
  datatype Selector = CategorySelector | LevelSelector | SortSelector

  /** The listing page after `DOMContentLoaded`. A control that is `None` is
      absent from the page; `data` is `scholarshipsData` and `filtered` is
      `filteredScholarships`. */
  class ListingPage {
    const data: array<Scholarship>
    const hasResults: bool
    const hasCount: bool
    const searchDebounce: Debouncer<()>
    var search: Option<string>
    var category: Option<string>
    var level: Option<string>
    var sort: Option<string>
    var filtered: array<Scholarship>
    var view: Option<View>
    var countText: Option<string>

    /** The catalog is never the result array, every record has its keys,
        and the search input is debounced by 300 ms. */
    ghost predicate Valid()
      reads this, data
    {
      filtered != data && AllRecordsKeyed(data[..]) && searchDebounce.wait == 300
    }

    /** The controls a pass would read now. */
    function Controls(): Filters
      reads this
    {
      ReadControls(search, category, level, sort)
    }

    /** Page load: `filteredScholarships` is a copy of the catalog, rendered
        with its count. */
    constructor(data: array<Scholarship>, search: Option<string>, category: Option<string>,
                level: Option<string>, sort: Option<string>, hasResults: bool, hasCount: bool)
      requires AllRecordsKeyed(data[..])
      ensures Valid() && fresh(filtered) && fresh(searchDebounce)
      ensures this.data == data && filtered[..] == data[..]
      ensures this.search == search && this.category == category
      ensures this.level == level && this.sort == sort
      ensures this.hasResults == hasResults && this.hasCount == hasCount
      ensures view == (if hasResults then Some(Render(data[..])) else None)
      ensures countText == (if hasCount then Some(CountLabel(data.Length)) else None)
      ensures searchDebounce.pending == None
    {
      this.data := data;
      this.search := search;
      this.category := category;
      this.level := level;
      this.sort := sort;
      this.hasResults := hasResults;
      this.hasCount := hasCount;
      searchDebounce := new Debouncer(300);
      var copy := new Scholarship[data.Length](i requires 0 <= i < data.Length reads data => data[i]);
      filtered := copy;
      view := if hasResults then Some(Render(copy[..])) else None;
      countText := if hasCount then Some(CountLabel(copy.Length)) else None;
    }

    /** `filterScholarships`: filter the catalog into a new array, sort that
        array in place, then render it and its count. */
    method Refilter()
      requires Valid()
      modifies this
      ensures Valid() && fresh(filtered)
      ensures filtered[..] == Visible(data[..], Controls())
      ensures view == (if hasResults then Some(Render(filtered[..])) else None)
      ensures countText == (if hasCount then Some(CountLabel(filtered.Length)) else None)
      ensures search == old(search) && category == old(category)
      ensures level == old(level) && sort == old(sort)
    {
      var result := FilterAndSort(data[..], Controls());
      filtered := result;
      view := if hasResults then Some(Render(result[..])) else None;
      countText := if hasCount then Some(CountLabel(result.Length)) else None;
    }

    /** A `change` event on a present selector: the new value, then a pass. */
    method Select(which: Selector, value: string)
      requires Valid()
      requires which == CategorySelector ==> category.Some?
      requires which == LevelSelector ==> level.Some?
      requires which == SortSelector ==> sort.Some?
      modifies this
      ensures Valid() && fresh(filtered)
      ensures search == old(search)
      ensures category == (if which == CategorySelector then Some(value) else old(category))
      ensures level == (if which == LevelSelector then Some(value) else old(level))
      ensures sort == (if which == SortSelector then Some(value) else old(sort))
      ensures filtered[..] == Visible(data[..], Controls())
      ensures view == (if hasResults then Some(Render(filtered[..])) else None)
      ensures countText == (if hasCount then Some(CountLabel(filtered.Length)) else None)
    {
      match which {
        case CategorySelector => category := Some(value);
        case LevelSelector => level := Some(value);
        case SortSelector => sort := Some(value);
      }
      Refilter();
    }

    /** An `input` event on the search box at `now`: the new text, and the
        debounced pass scheduled 300 ms later in place of any pending one. */
    method Type(now: int, text: string)
      requires Valid() && search.Some?
      modifies this, searchDebounce
      ensures Valid()
      ensures search == Some(text) && category == old(category)
      ensures level == old(level) && sort == old(sort)
      ensures filtered == old(filtered) && view == old(view) && countText == old(countText)
      ensures searchDebounce.pending == Some(Timer(now + 300, ()))
    {
      search := Some(text);
      searchDebounce.Call(now, ());
    }

    /** The event loop at `now`: when the debounced pass is due it runs. */
    method Tick(now: int) returns (ran: bool)
      requires Valid()
      modifies this, searchDebounce
      ensures Valid()
      ensures ran <==> old(searchDebounce.pending).Some? && old(searchDebounce.pending).value.due <= now
      ensures search == old(search) && category == old(category)
      ensures level == old(level) && sort == old(sort)
      ensures ran ==> searchDebounce.pending == None && fresh(filtered)
                      && filtered[..] == Visible(data[..], Controls())
                      && view == (if hasResults then Some(Render(filtered[..])) else None)
                      && countText == (if hasCount then Some(CountLabel(filtered.Length)) else None)
      ensures !ran ==> searchDebounce.pending == old(searchDebounce.pending)
                       && filtered == old(filtered) && view == old(view)
                       && countText == old(countText)
    {
      var fired := searchDebounce.Tick(now);
      ran := fired.Some?;
      if ran {
        Refilter();
      }
    }

    /** "Clear filters": every present control is reset, then a pass, which
        shows the whole catalog exactly as the initial render did. */
    method Clear()
      requires Valid()
      modifies this
      ensures Valid() && fresh(filtered)
      ensures search == (if old(search).Some? then Some("") else None)
      ensures category == (if old(category).Some? then Some("all") else None)
      ensures level == (if old(level).Some? then Some("all") else None)
      ensures sort == (if old(sort).Some? then Some("default") else None)
      ensures Controls() == ClearedControls()
      ensures filtered[..] == data[..]
      ensures view == (if hasResults then Some(Render(data[..])) else None)
      ensures countText == (if hasCount then Some(CountLabel(data.Length)) else None)
    {
      if search.Some? { search := Some(""); }
      if category.Some? { category := Some("all"); }
      if level.Some? { level := Some("all"); }
      if sort.Some? { sort := Some("default"); }
      assert Controls() == ClearedControls();
      Refilter();
      ClearShowsCatalog(data[..]);
    }
  }
}
