/**
 * `AdminPanel` of public/js/admin-panel.js: the search box and the category
 * filter over the rows of the editing table, the theme toggle, and tab
 * switching.
 *
 * Rows, tabs and tab buttons are abstract elements held in arrays, in
 * document order; each handler updates their visibility and `active` class
 * in place. A row carries its `textContent` and the `textContent` of each
 * of its cells.
 */
module AdminPanel {
  import opened Wrappers
  import opened Text
  import QnaManager

  // ---------------------------------------------------------------------
  // Search and category filter.

  /** A `#qnaTableBody tr`: its text, its cells' texts, and whether it is
      shown (`style.display` not `'none'`). */
  datatype PanelRow = PanelRow(text: string, cells: seq<string>, shown: bool)

  /** The test of `handleSearch`: the lower-cased row text includes the
      lower-cased term. */
  predicate SearchMatch(text: string, term: string) {
    Contains(Lower(text), Lower(term))
  }

  /** The rows after `handleSearch(term)`. */
  function Searched(rows: seq<PanelRow>, term: string): seq<PanelRow> {
    seq(|rows|, i requires 0 <= i < |rows| => rows[i].(shown := SearchMatch(rows[i].text, term)))
  }

  /** A row is shown after a search exactly when the term, ignoring ASCII
      case, occurs somewhere in its text; the empty term shows every row.
      Nothing but visibility changes. */
  lemma SearchedSpec(rows: seq<PanelRow>, term: string)
    ensures |Searched(rows, term)| == |rows|
    ensures forall i :: 0 <= i < |rows| ==>
      && Searched(rows, term)[i].text == rows[i].text
      && Searched(rows, term)[i].cells == rows[i].cells
      && (Searched(rows, term)[i].shown <==> exists k: nat :: OccursAt(Lower(rows[i].text), Lower(term), k))
    ensures term == "" ==> forall i :: 0 <= i < |rows| ==> Searched(rows, term)[i].shown
  {
    forall i | 0 <= i < |rows|
      ensures Searched(rows, term)[i].shown <==> exists k: nat :: OccursAt(Lower(rows[i].text), Lower(term), k)
    {
      ContainsAt(Lower(rows[i].text), Lower(term));
    }
    if term == "" {
      forall i | 0 <= i < |rows| ensures Searched(rows, term)[i].shown {
        ContainsEmpty(Lower(rows[i].text));
      }
    }
  }

  /** The search ignores the case of both the term and the text. */
  lemma SearchIgnoresCase(text: string, term: string)
    ensures SearchMatch(Lower(text), Lower(term)) == SearchMatch(text, term)
  {
    LowerIdempotent(text);
    LowerIdempotent(term);
  }

  /** `handleSearch(searchTerm)`. */
  method HandleSearch(rows: array<PanelRow>, term: string)
    modifies rows
    ensures rows[..] == Searched(old(rows[..]), term)
  {
    for i := 0 to rows.Length
      invariant forall k :: 0 <= k < i ==> rows[k] == old(rows[k]).(shown := SearchMatch(old(rows[k]).text, term))
      invariant forall k :: i <= k < rows.Length ==> rows[k] == old(rows[k])
    {
      rows[i] := rows[i].(shown := Contains(Lower(rows[i].text), Lower(term)));
    }
  }

  /** The test of `handleCategoryFilter` on a row's fourth cell: the empty
      category shows everything; otherwise the texts are equal, case
      included. */
  predicate CategoryMatch(cell: string, category: string) {
    category == "" || cell == category
  }

  /** The rows after `handleCategoryFilter(category)`: a row without a
      fourth cell keeps its visibility. */
  function CategoryFiltered(rows: seq<PanelRow>, category: string): seq<PanelRow> {
    seq(|rows|, i requires 0 <= i < |rows| =>
      if |rows[i].cells| > 3 then rows[i].(shown := CategoryMatch(rows[i].cells[3], category)) else rows[i])
  }

  /** `handleCategoryFilter(category)`. */
  method HandleCategoryFilter(rows: array<PanelRow>, category: string)
    modifies rows
    ensures rows[..] == CategoryFiltered(old(rows[..]), category)
  {
    for i := 0 to rows.Length
      invariant forall k :: 0 <= k < i ==>
        rows[k] == if |old(rows[k]).cells| > 3 then old(rows[k]).(shown := CategoryMatch(old(rows[k]).cells[3], category))
                   else old(rows[k])
      invariant forall k :: i <= k < rows.Length ==> rows[k] == old(rows[k])
    {
      var categoryCell := if |rows[i].cells| > 3 then Some(rows[i].cells[3]) else None;
      if categoryCell.Some? {
        rows[i] := rows[i].(shown := category == "" || categoryCell.value == category);
      }
    }
  }

  /** The rows of the editing table as `updateTables` renders them, with a
      visibility of their own. */
  function Rendered(data: seq<QnaManager.QnaItem>, shown: seq<bool>): (rows: seq<PanelRow>)
    requires |shown| == |data|
    ensures |rows| == |data|
  {
    var table := QnaManager.TableRows(QnaManager.QnaTableBody, Some(data));
    seq(|data|, i requires 0 <= i < |data| =>
      PanelRow("", if table[i].Entry? then table[i].cells else [], shown[i]))
  }

  /** Choosing a category from the filter options shows exactly the rendered
      entries of that category; "All Categories" shows every entry. The
      fourth cell of a rendered entry is its category, or `''`. */
  lemma FilterByOption(data: seq<QnaManager.QnaItem>, shown: seq<bool>, option: QnaManager.SelectOption)
    requires |shown| == |data| && data != []
    requires option in QnaManager.FilterOptions(QnaManager.Categories(data))
    ensures var after := CategoryFiltered(Rendered(data, shown), option.value);
      forall i :: 0 <= i < |data| ==>
        (after[i].shown <==> option.value == "" || data[i].category == Some(option.value))
  {
    var table := QnaManager.TableRows(QnaManager.QnaTableBody, Some(data));
    QnaManager.TableRowsSpec(QnaManager.QnaTableBody, Some(data));
    QnaManager.OptionValuesDistinct(data);
    var rows := Rendered(data, shown);
    forall i | 0 <= i < |data|
      ensures CategoryFiltered(rows, option.value)[i].shown <==>
        option.value == "" || data[i].category == Some(option.value)
    {
      assert rows[i].cells == table[i].cells;
      assert rows[i].cells[3] == QnaManager.OrEmpty(data[i].category);
    }
  }

  // ---------------------------------------------------------------------
  // Theme.

  /** The theme `toggleTheme` sets: `'light'` after `'dark'`, `'dark'` after
      anything else, an unset attribute included. */
  function NextTheme(current: Option<string>): (t: string)
    ensures t == "dark" || t == "light"
    ensures t == "light" <==> current == Some("dark")
  {
    if current == Some("dark") then "light" else "dark"
  }

  /** Toggling twice from either theme restores it. */
  lemma ToggleTwice(t: string)
    requires t == "dark" || t == "light"
    ensures NextTheme(Some(NextTheme(Some(t)))) == t
  {
  }

  /** The name of the mode the button offers after switching to
      `newTheme`: the other one. */
  function OfferedMode(newTheme: string): string {
    if NextTheme(Some(newTheme)) == "light" then "Light Mode" else "Dark Mode"
  }

  const Sun: string := "\U{2600}\U{FE0F}"
  const Moon: string := "\U{1F319}"

  /** The button label as the source spells it: the UTF-8 bytes of the
      emoji were read back as Windows-1252 text, so the sun became five
      Latin characters (its last byte, 0x8F, was lost) and the moon
      became four. */
  function LabelAsWritten(newTheme: string): string {
    if newTheme == "dark" then "\U{E2}\U{2DC}\U{20AC}\U{EF}\U{B8} Light Mode"
    else "\U{F0}\U{178}\U{152}\U{2122} Dark Mode"
  }

  /** The label as written shows neither emoji. */
  lemma LabelAsWrittenHasNoEmoji(newTheme: string)
    ensures '\U{2600}' !in LabelAsWritten(newTheme) && '\U{1F319}' !in LabelAsWritten(newTheme)
    ensures LabelAsWritten(newTheme)[0] in {'\U{E2}', '\U{F0}'}
  {
    var l := LabelAsWritten(newTheme);
    assert forall k :: 0 <= k < |l| ==> l[k] < '\U{2600}' || l[k] == '\U{2DC}';
  }

  /** The intended label: the sun offers light mode, the moon dark mode. */
  function Label(newTheme: string): string {
    if newTheme == "dark" then Sun + " Light Mode" else Moon + " Dark Mode"
  }

  /** The label names the mode the button switches to next, behind that
      mode's emoji. */
  lemma LabelOffersNextMode(newTheme: string)
    ensures Label(newTheme) == (if NextTheme(Some(newTheme)) == "light" then Sun else Moon) + " " + OfferedMode(newTheme)
  {
  }

  /** The theme state of the page: the `data-theme` attribute, the stored
      preference, and the toggle button's text (`None` without a button). */
  class ThemeState {
    var theme: Option<string>
    var stored: Option<string>
    var buttonText: Option<string>

    constructor(theme: Option<string>, stored: Option<string>, buttonText: Option<string>)
      ensures this.theme == theme && this.stored == stored && this.buttonText == buttonText
    {
      this.theme := theme;
      this.stored := stored;
      this.buttonText := buttonText;
    }

    /** `toggleTheme()`: the attribute and the stored preference both become
        the next theme; the button text, where there is a button, offers the
        other one. */
    method ToggleTheme()
      modifies this
      ensures theme == Some(NextTheme(old(theme)))
      ensures stored == theme
      ensures buttonText == if old(buttonText).Some? then Some(Label(theme.value)) else None
    {
      var newTheme := if theme == Some("dark") then "light" else "dark";
      theme := Some(newTheme);
      stored := Some(newTheme);
      if buttonText.Some? {
        buttonText := Some(Label(newTheme));
      }
    }
  }

  // ---------------------------------------------------------------------
  // Tabs.

  /** A `.tab-content` element: its id, whether it is shown, and whether it
      has the `active` class. */
  datatype Tab = Tab(id: string, shown: bool, active: bool)

  /** A `.tab-button`: its `data-tab` and whether it has the `active` class. */
  datatype TabButton = TabButton(tab: string, active: bool)

  /** The first index holding `id`, as `getElementById` and `querySelector`
      find the first match in document order. */
  function FirstMatch(ids: seq<string>, id: string): (r: Option<nat>)
    ensures r.Some? ==> r.value < |ids| && ids[r.value] == id && forall j :: 0 <= j < r.value ==> ids[j] != id
    ensures r.None? ==> forall j :: 0 <= j < |ids| ==> ids[j] != id
  {
    if ids == [] then None
    else if ids[0] == id then Some(0)
    else match FirstMatch(ids[1..], id)
      case None => None
      case Some(j) => Some(j + 1)
  }

  function TabIds(tabs: seq<Tab>): seq<string> {
    seq(|tabs|, i requires 0 <= i < |tabs| => tabs[i].id)
  }

  function ButtonTabs(buttons: seq<TabButton>): seq<string> {
    seq(|buttons|, i requires 0 <= i < |buttons| => buttons[i].tab)
  }

  /** The tabs after `switchTab(id)`. */
  function SwitchedTabs(tabs: seq<Tab>, id: string): seq<Tab> {
    var selected := FirstMatch(TabIds(tabs), id);
    seq(|tabs|, i requires 0 <= i < |tabs| => tabs[i].(shown := selected == Some(i), active := selected == Some(i)))
  }

  /** The buttons after `switchTab(id)`. */
  function SwitchedButtons(buttons: seq<TabButton>, id: string): seq<TabButton> {
    var selected := FirstMatch(ButtonTabs(buttons), id);
    seq(|buttons|, i requires 0 <= i < |buttons| => buttons[i].(active := selected == Some(i)))
  }

  /** After `switchTab(id)` at most one tab is shown and active, and it is
      the first one with that id; when some tab has the id, one is shown.
      Ids do not change. */
  lemma SwitchedTabsSpec(tabs: seq<Tab>, id: string)
    ensures var after := SwitchedTabs(tabs, id);
      && |after| == |tabs|
      && (forall i :: 0 <= i < |tabs| ==> after[i].id == tabs[i].id && after[i].shown == after[i].active)
      && (forall i :: 0 <= i < |tabs| && after[i].shown ==> tabs[i].id == id)
      && (forall i, j :: 0 <= j < i < |tabs| && after[i].shown ==> tabs[j].id != id)
      && (forall i, j :: 0 <= i < |tabs| && 0 <= j < |tabs| && after[i].shown && after[j].shown ==> i == j)
      && ((exists i :: 0 <= i < |tabs| && tabs[i].id == id) <==> (exists i :: 0 <= i < |tabs| && after[i].shown))
  {
    var t := FirstMatch(TabIds(tabs), id);
    assert forall j :: 0 <= j < |tabs| ==> TabIds(tabs)[j] == tabs[j].id;
    if exists i :: 0 <= i < |tabs| && tabs[i].id == id {
      var i :| 0 <= i < |tabs| && tabs[i].id == id;
      assert TabIds(tabs)[i] == id;
      assert SwitchedTabs(tabs, id)[t.value].shown;
    }
  }

  /** After `switchTab(id)` exactly the first button for the id carries
      `active`, and none when no button is for it. */
  lemma SwitchedButtonsSpec(buttons: seq<TabButton>, id: string)
    ensures var after := SwitchedButtons(buttons, id);
      && |after| == |buttons|
      && (forall i :: 0 <= i < |buttons| ==> after[i].tab == buttons[i].tab)
      && (forall i :: 0 <= i < |buttons| && after[i].active ==> buttons[i].tab == id)
      && (forall i, j :: 0 <= j < i < |buttons| && after[i].active ==> buttons[j].tab != id)
      && (forall i, j :: 0 <= i < |buttons| && 0 <= j < |buttons| && after[i].active && after[j].active ==> i == j)
      && ((exists i :: 0 <= i < |buttons| && buttons[i].tab == id) <==> (exists i :: 0 <= i < |buttons| && after[i].active))
  {
    var b := FirstMatch(ButtonTabs(buttons), id);
    assert forall j :: 0 <= j < |buttons| ==> ButtonTabs(buttons)[j] == buttons[j].tab;
    if exists i :: 0 <= i < |buttons| && buttons[i].tab == id {
      var i :| 0 <= i < |buttons| && buttons[i].tab == id;
      assert ButtonTabs(buttons)[i] == id;
      assert SwitchedButtons(buttons, id)[b.value].active;
    }
  }

  /** `switchTab(tabId)`: hide and deactivate every tab, deactivate every
      button, then show and activate the tab with that id and activate the
      button for it, where they exist. */
  method SwitchTab(tabs: array<Tab>, buttons: array<TabButton>, tabId: string)
    modifies tabs, buttons
    ensures tabs[..] == SwitchedTabs(old(tabs[..]), tabId)
    ensures buttons[..] == SwitchedButtons(old(buttons[..]), tabId)
  {
    for i := 0 to tabs.Length
      invariant forall k :: 0 <= k < i ==> tabs[k] == old(tabs[k]).(shown := false, active := false)
      invariant forall k :: i <= k < tabs.Length ==> tabs[k] == old(tabs[k])
      invariant buttons[..] == old(buttons[..])
    {
      tabs[i] := tabs[i].(shown := false, active := false);
    }
    for i := 0 to buttons.Length
      invariant forall k :: 0 <= k < i ==> buttons[k] == old(buttons[k]).(active := false)
      invariant forall k :: i <= k < buttons.Length ==> buttons[k] == old(buttons[k])
      invariant forall k :: 0 <= k < tabs.Length ==> tabs[k] == old(tabs[k]).(shown := false, active := false)
    {
      buttons[i] := buttons[i].(active := false);
    }
    assert TabIds(tabs[..]) == TabIds(old(tabs[..]));
    assert ButtonTabs(buttons[..]) == ButtonTabs(old(buttons[..]));
    var selectedTab := FirstMatch(TabIds(tabs[..]), tabId);
    var selectedButton := FirstMatch(ButtonTabs(buttons[..]), tabId);
    if selectedTab.Some? {
      tabs[selectedTab.value] := tabs[selectedTab.value].(shown := true, active := true);
    }
    if selectedButton.Some? {
      buttons[selectedButton.value] := buttons[selectedButton.value].(active := true);
    }
  }
}
