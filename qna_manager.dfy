/**
 * `QnAManager` of public/js/qna-manager.js: the category list derived from
 * the Q&A entries, the options of the two category filters, and the rows of
 * the two Q&A tables.
 *
 * The page is reduced to what those handlers write: the rows of each table
 * and the options of each filter, `None` where the page has no such element.
 */
module QnaManager {
  import opened Wrappers
  import opened Text

  /** One entry of the `/qna` response. */
  datatype QnaItem = QnaItem(id: nat, question: string, answer: string,
                             category: Option<string>, subcategory: Option<string>)

  /** `value || ''`. */
  function OrEmpty(s: Option<string>): (r: string)
    ensures Truthy(s) ==> r == s.value
    ensures !Truthy(s) ==> r == ""
  {
    if s.Some? then s.value else ""
  }

  /** `data.map(item => item.category).filter(Boolean)`. */
  function TruthyCategories(data: seq<QnaItem>): (cs: seq<string>)
    ensures forall c :: c in cs <==> exists i :: 0 <= i < |data| && data[i].category == Some(c) && c != ""
    decreases |data|
  {
    if data == [] then []
    else
      var init := data[..|data| - 1];
      var last := data[|data| - 1];
      TruthyCategoriesSnoc(init, last);
      TruthyCategories(init) + (if Truthy(last.category) then [last.category.value] else [])
  }

  /** Helper for `TruthyCategories`: the entries of `init + [last]` are those
      of `init` and `last`. */
  lemma TruthyCategoriesSnoc(init: seq<QnaItem>, last: QnaItem)
    ensures forall c ::
      (exists i :: 0 <= i < |init + [last]| && (init + [last])[i].category == Some(c) && c != "") <==>
      ((exists i :: 0 <= i < |init| && init[i].category == Some(c) && c != "") || (last.category == Some(c) && c != ""))
  {
    var s := init + [last];
    forall c | exists i :: 0 <= i < |s| && s[i].category == Some(c) && c != ""
      ensures (exists i :: 0 <= i < |init| && init[i].category == Some(c) && c != "") || (last.category == Some(c) && c != "")
    {
      var i :| 0 <= i < |s| && s[i].category == Some(c) && c != "";
      if i < |init| {
        assert init[i] == s[i];
      }
    }
    forall c | (exists i :: 0 <= i < |init| && init[i].category == Some(c) && c != "") || (last.category == Some(c) && c != "")
      ensures exists i :: 0 <= i < |s| && s[i].category == Some(c) && c != ""
    {
      if last.category == Some(c) && c != "" {
        assert s[|init|] == last;
      } else {
        var i :| 0 <= i < |init| && init[i].category == Some(c) && c != "";
        assert s[i] == init[i];
      }
    }
  }

  /** `[...new Set(xs)]`: the distinct elements, each kept where it first
      occurs. */
  function Dedup(xs: seq<string>): seq<string>
    decreases |xs|
  {
    if xs == [] then []
    else
      var init := xs[..|xs| - 1];
      var rest := Dedup(init);
      if xs[|xs| - 1] in rest then rest else rest + [xs[|xs| - 1]]
  }

  /** Position of the first occurrence of `x`. */
  function FirstIndex(xs: seq<string>, x: string): (i: nat)
    requires x in xs
    ensures i < |xs| && xs[i] == x
    ensures forall j :: 0 <= j < i ==> xs[j] != x
  {
    if xs[0] == x then 0 else 1 + FirstIndex(xs[1..], x)
  }

  predicate NoDuplicates(xs: seq<string>) {
    forall i, j :: 0 <= i < j < |xs| ==> xs[i] != xs[j]
  }

  /** `Dedup` keeps exactly the elements of its input, once each. */
  lemma {:induction false} DedupElements(xs: seq<string>)
    ensures forall x :: x in Dedup(xs) <==> x in xs
    ensures NoDuplicates(Dedup(xs))
    decreases |xs|
  {
    if xs != [] {
      var init := xs[..|xs| - 1];
      DedupElements(init);
      assert xs == init + [xs[|xs| - 1]];
    }
  }

  /** A prefix's first occurrences are the input's. */
  lemma FirstIndexPrefix(init: seq<string>, x: string, y: string)
    requires x in init
    ensures FirstIndex(init + [y], x) == FirstIndex(init, x)
  {
    var s := init + [y];
    var i := FirstIndex(init, x);
    assert s[i] == x;
    assert forall j :: 0 <= j < |init| ==> s[j] == init[j];
  }

  /** `Dedup` lists the elements in order of their first occurrence. */
  lemma {:induction false} DedupOrder(xs: seq<string>)
    ensures forall i, j :: 0 <= i < j < |Dedup(xs)| ==>
      Dedup(xs)[i] in xs && Dedup(xs)[j] in xs &&
      FirstIndex(xs, Dedup(xs)[i]) < FirstIndex(xs, Dedup(xs)[j])
    decreases |xs|
  {
    if xs != [] {
      var init, x := xs[..|xs| - 1], xs[|xs| - 1];
      var d := Dedup(init);
      DedupOrder(init);
      DedupElements(init);
      assert xs == init + [x];
      assert Dedup(xs) == if x in d then d else d + [x];
      forall i, j | 0 <= i < j < |Dedup(xs)|
        ensures Dedup(xs)[i] in xs && Dedup(xs)[j] in xs &&
          FirstIndex(xs, Dedup(xs)[i]) < FirstIndex(xs, Dedup(xs)[j])
      {
        var a, b := Dedup(xs)[i], Dedup(xs)[j];
        assert a == d[i];
        FirstIndexPrefix(init, a, x);
        if j < |d| {
          assert b == d[j];
          FirstIndexPrefix(init, b, x);
        } else {
          assert b == x && x !in init;
          assert FirstIndex(xs, b) == |init|;
        }
      }
    } else {
      assert Dedup(xs) == [];
    }
  }

  /** The categories `updateCategoryFilters` lists. */
  function Categories(data: seq<QnaItem>): seq<string> {
    Dedup(TruthyCategories(data))
  }

  /** The list holds no duplicate, holds exactly the non-empty categories
      of the entries (`null`, missing and `''` are left out), and lists
      them in order of their first occurrence. */
  lemma CategoriesSpec(data: seq<QnaItem>)
    ensures NoDuplicates(Categories(data))
    ensures forall c :: c in Categories(data) <==>
      exists i :: 0 <= i < |data| && data[i].category == Some(c) && c != ""
    ensures forall i, j :: 0 <= i < j < |Categories(data)| ==>
      var cs := TruthyCategories(data);
      Categories(data)[i] in cs && Categories(data)[j] in cs &&
      FirstIndex(cs, Categories(data)[i]) < FirstIndex(cs, Categories(data)[j])
  {
    DedupElements(TruthyCategories(data));
    DedupOrder(TruthyCategories(data));
  }

  /** One `<option value="...">text</option>`. */
  datatype SelectOption = SelectOption(value: string, text: string)

  const AllCategories: SelectOption := SelectOption("", "All Categories")

  /** The options of a category filter. */
  function FilterOptions(categories: seq<string>): (opts: seq<SelectOption>)
    ensures |opts| == 1 + |categories| && opts[0] == AllCategories
    ensures forall i :: 0 <= i < |categories| ==> opts[i + 1] == SelectOption(categories[i], categories[i])
  {
    [AllCategories] + seq(|categories|, i requires 0 <= i < |categories| => SelectOption(categories[i], categories[i]))
  }

  /** Every option of a filter has its own value, so a selected value
      names one option; only "All Categories" has the empty value. */
  lemma OptionValuesDistinct(data: seq<QnaItem>)
    ensures var opts := FilterOptions(Categories(data));
      forall i, j :: 0 <= i < j < |opts| ==> opts[i].value != opts[j].value
    ensures forall i :: 1 <= i < |FilterOptions(Categories(data))| ==> FilterOptions(Categories(data))[i].value != ""
  {
    CategoriesSpec(data);
    var cs := Categories(data);
    forall i | 0 <= i < |cs| ensures cs[i] != "" {
      assert cs[i] in cs;
    }
  }

  /** Which table body a row list is for. */
  datatype TableId = QnaTableBody | LibraryTableBody

  /** A rendered table row: the placeholder spanning `colspan` columns, or an
      entry's cells and, in the editing table, the id its Delete button
      deletes. */
  datatype TableRow =
    | Placeholder(message: string, colspan: nat)
    | Entry(cells: seq<string>, deleteId: Option<nat>)

  const NoEntries: string := "No Q&A entries found. Add some using the form below or upload a CSV file."

  /** The rows `updateTables(data)` writes into `table`; `None` is a `null`
      or missing `data`. */
  function TableRows(table: TableId, data: Option<seq<QnaItem>>): seq<TableRow> {
    if data.None? || |data.value| == 0 then [Placeholder(NoEntries, 6)]
    else
      var items := data.value;
      seq(|items|, i requires 0 <= i < |items| =>
        Entry([NatToString(items[i].id), items[i].question, items[i].answer,
               OrEmpty(items[i].category), OrEmpty(items[i].subcategory)],
              if table == QnaTableBody then Some(items[i].id) else None))
  }

  /** Without entries the table shows the one placeholder; otherwise one row
      per entry in order, with id, question, answer, category and
      subcategory (missing ones as `''`), and a Delete button for that
      entry's id in the editing table only. */
  lemma TableRowsSpec(table: TableId, data: Option<seq<QnaItem>>)
    ensures data.None? || data.value == [] ==> TableRows(table, data) == [Placeholder(NoEntries, 6)]
    ensures data.Some? && data.value != [] ==>
      var rows := TableRows(table, data);
      && |rows| == |data.value|
      && forall i :: 0 <= i < |rows| ==>
        var item := data.value[i];
        && rows[i].Entry?
        && rows[i].cells == [NatToString(item.id), item.question, item.answer,
                             OrEmpty(item.category), OrEmpty(item.subcategory)]
        && (rows[i].deleteId.Some? <==> table == QnaTableBody)
        && (rows[i].deleteId.Some? ==> rows[i].deleteId.value == item.id)
  {
  }

  /** The two tables differ only in the Delete buttons. */
  lemma TablesAgree(data: Option<seq<QnaItem>>)
    ensures |TableRows(QnaTableBody, data)| == |TableRows(LibraryTableBody, data)|
    ensures forall i :: 0 <= i < |TableRows(QnaTableBody, data)| ==>
      var q, l := TableRows(QnaTableBody, data)[i], TableRows(LibraryTableBody, data)[i];
      q.Entry? == l.Entry? && (q.Entry? ==> q.cells == l.cells && l.deleteId.None?)
  {
  }

  /** The parts of the admin page that `QnAManager` writes; `None` is an
      element the page does not have. */
  class QnaPage {
    var qnaTable: Option<seq<TableRow>>
    var libraryTable: Option<seq<TableRow>>
    var categoryFilter: Option<seq<SelectOption>>
    var categoryLibraryFilter: Option<seq<SelectOption>>

    constructor(qnaTable: Option<seq<TableRow>>, libraryTable: Option<seq<TableRow>>,
                categoryFilter: Option<seq<SelectOption>>, categoryLibraryFilter: Option<seq<SelectOption>>)
      ensures this.qnaTable == qnaTable && this.libraryTable == libraryTable
      ensures this.categoryFilter == categoryFilter && this.categoryLibraryFilter == categoryLibraryFilter
    {
      this.qnaTable := qnaTable;
      this.libraryTable := libraryTable;
      this.categoryFilter := categoryFilter;
      this.categoryLibraryFilter := categoryLibraryFilter;
    }

    /** `updateTables(data)`: each table on the page gets the rows for it;
        a table missing from the page stays missing. */
    method UpdateTables(data: Option<seq<QnaItem>>)
      modifies this
      ensures qnaTable == if old(qnaTable).Some? then Some(TableRows(QnaTableBody, data)) else None
      ensures libraryTable == if old(libraryTable).Some? then Some(TableRows(LibraryTableBody, data)) else None
      ensures categoryFilter == old(categoryFilter) && categoryLibraryFilter == old(categoryLibraryFilter)
    {
      if qnaTable.Some? {
        qnaTable := Some(TableRows(QnaTableBody, data));
      }
      if libraryTable.Some? {
        libraryTable := Some(TableRows(LibraryTableBody, data));
      }
    }

    /** `updateCategoryFilters(data)`: each filter on the page gets
        "All Categories" and then the derived categories. */
    method UpdateCategoryFilters(data: seq<QnaItem>)
      modifies this
      ensures categoryFilter == if old(categoryFilter).Some? then Some(FilterOptions(Categories(data))) else None
      ensures categoryLibraryFilter ==
        if old(categoryLibraryFilter).Some? then Some(FilterOptions(Categories(data))) else None
      ensures qnaTable == old(qnaTable) && libraryTable == old(libraryTable)
    {
      var categories := Categories(data);
      if categoryFilter.Some? {
        categoryFilter := Some(FilterOptions(categories));
      }
      if categoryLibraryFilter.Some? {
        categoryLibraryFilter := Some(FilterOptions(categories));
      }
    }
  }
}
