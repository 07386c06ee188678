/**
  The filter engine of the events list view: which rows of the events table a
  search term and a category selection keep.
*/
module Filter {
  import opened Basics
  import opened Text

  /**
    One row of `#eventsTable tbody`: the text of its first cell (the event
    name), the text of its third cell (the location) and its `data-category`
    attribute, `None` when the row has none.
  */
  datatype Row = Row(name: string, location: string, category: Option<string>)

  /** The category selection that keeps every category. */
  const AllCategories := "all"

  /**
    The per-row decision of the filter loop. `term` is compared as stored (the
    search handler has already lower-cased it) with the lower-cased name and
    location; the selection is compared as it is with the row's category.
  */
  function RowMatches(row: Row, term: string, selected: string): (keep: bool)
    ensures keep <==>
      (IsInfix(term, ToLower(row.name)) || IsInfix(term, ToLower(row.location)))
      && (selected == AllCategories || row.category == Some(selected))
  {
    var matchesSearch := Includes(ToLower(row.name), term) || Includes(ToLower(row.location), term);
    var matchesCategory := selected == AllCategories || row.category == Some(selected);
    matchesSearch && matchesCategory
  }

  /** With an empty search term only the category decides. */
  lemma EmptyTermKeepsCategory(row: Row, selected: string)
    ensures RowMatches(row, "", selected) <==> (selected == AllCategories || row.category == Some(selected))
  {
    EmptyIsIncluded(ToLower(row.name));
  }

  /** A row without a `data-category` attribute survives only the "all" selection. */
  lemma UncategorisedRowNeedsAll(row: Row, term: string, selected: string)
    requires row.category == None
    ensures RowMatches(row, term, selected) ==> selected == AllCategories
  {
  }

  /** The display flag of every row after the filter loop, in table order. */
  function Visibility(rows: seq<Row>, term: string, selected: string): (shown: seq<bool>)
    ensures |shown| == |rows|
    ensures forall i :: 0 <= i < |rows| ==> shown[i] == RowMatches(rows[i], term, selected)
  {
    seq(|rows|, i requires 0 <= i < |rows| => RowMatches(rows[i], term, selected))
  }

  /** With "all" selected and an empty search term, every row is shown. */
  lemma {:induction false} EverythingShownByDefault(rows: seq<Row>)
    ensures CountTrue(Visibility(rows, "", AllCategories)) == |rows|
  {
    if rows != [] {
      var prefix := rows[..|rows| - 1];
      EverythingShownByDefault(prefix);
      assert Visibility(rows, "", AllCategories)[..|rows| - 1] == Visibility(prefix, "", AllCategories);
      EmptyTermKeepsCategory(rows[|rows| - 1], AllCategories);
    }
  }

  /**
    Two events held in halls: searching "hall" keeps both, and narrowing the
    category to "art" keeps only the art fair.
  */
  lemma HallScenario()
    ensures var rows := [Row("Tech Talk", "Hall A", Some("tech")), Row("Art Fair", "Hall B", Some("art"))];
      && Visibility(rows, "hall", AllCategories) == [true, true]
      && Visibility(rows, "hall", "art") == [false, true]
      && CountTrue(Visibility(rows, "hall", "art")) == 1
  {
    var rows := [Row("Tech Talk", "Hall A", Some("tech")), Row("Art Fair", "Hall B", Some("art"))];
    assert ToLower("Hall A") == "hall a";
    assert ToLower("Hall B") == "hall b";
    assert OccursAt("hall", "hall a", 0);
    assert OccursAt("hall", "hall b", 0);
  }
}
