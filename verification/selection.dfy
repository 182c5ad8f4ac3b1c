/**
 * The grid's row selection: a set of candidate ids that survives re-renders,
 * the handlers that change it, and the checkbox and toolbar state derived
 * from it. The rows on screen are an explicit parameter: each row is the
 * value of its `data-id` attribute (`None` when the attribute is missing).
 */
module Selection {
  import opened Wrappers
  import opened Text
  import opened JsValues

  /** The selected candidate ids. */
  type SelectedIds = set<string>

  /** `(tr.getAttribute("data-id") ?? "").trim()`: the id a row stands for. */
  function RowKey(dataId: Option<string>): (key: string)
    ensures IsTrimmed(key)
    ensures dataId.None? ==> key == ""
    ensures dataId.Some? && IsTrimmed(dataId.value) ==> key == dataId.value
  {
    TrimFixedPoints(dataId.GetOr(""));
    Trim(dataId.GetOr(""))
  }

  /** Whitespace around a row's `data-id` does not change the id it stands for. */
  lemma RowKeyIgnoresPadding(pre: string, id: string, post: string)
    requires AllWhitespace(pre) && AllWhitespace(post)
    ensures RowKey(Some(pre + id + post)) == RowKey(Some(id))
  {
    TrimIgnoresPadding(pre, id, post);
  }

  /** `getVisibleRowIds`: the rows' trimmed ids, in order, with blank ones dropped. */
  function VisibleRowIds(rows: seq<Option<string>>): (ids: seq<string>)
    ensures |ids| <= |rows|
    ensures forall i :: 0 <= i < |ids| ==> ids[i] != "" && IsTrimmed(ids[i])
    ensures forall x :: x in ids <==> x != "" && exists i :: 0 <= i < |rows| && RowKey(rows[i]) == x
  {
    if rows == [] then []
    else
      var rest := VisibleRowIds(rows[1..]);
      assert forall i :: 1 <= i < |rows| ==> rows[i] == rows[1..][i - 1];
      if RowKey(rows[0]) == "" then rest else [RowKey(rows[0])] + rest
  }

  /**
   * The visible ids keep the rows' order, one entry per row with an id: the
   * ids of a concatenation are the ids of its parts, concatenated, and a single
   * row gives its key, or nothing when the key is blank.
   */
  lemma {:induction false} VisibleRowIdsInOrder(a: seq<Option<string>>, b: seq<Option<string>>)
    ensures VisibleRowIds(a + b) == VisibleRowIds(a) + VisibleRowIds(b)
    ensures |a| == 1 ==> VisibleRowIds(a) == if RowKey(a[0]) == "" then [] else [RowKey(a[0])]
  {
    if a == [] {
      assert a + b == b;
    } else {
      assert (a + b)[0] == a[0] && (a + b)[1..] == a[1..] + b;
      VisibleRowIdsInOrder(a[1..], b);
      if |a| == 1 {
        assert a[1..] == [];
      }
    }
  }

  /** The row-checkbox change handler: add or remove the row's id; a row without an id changes nothing. */
  function ToggleRow(selected: SelectedIds, dataId: Option<string>, checked: bool): (r: SelectedIds)
    ensures RowKey(dataId) == "" ==> r == selected
    ensures RowKey(dataId) != "" ==> (RowKey(dataId) in r <==> checked)
    ensures forall x :: x != RowKey(dataId) ==> (x in r <==> x in selected)
  {
    var id := RowKey(dataId);
    if id == "" then selected
    else if checked then selected + {id}
    else selected - {id}
  }

  /** The selections the handlers can reach: every selected id is a non-blank, trimmed row id. */
  predicate ValidSelection(selected: SelectedIds) {
    forall x :: x in selected ==> x != "" && IsTrimmed(x)
  }

  /** Checking a row and unchecking it again leaves the selection as it was, less that id. */
  lemma ToggleOnThenOff(selected: SelectedIds, dataId: Option<string>)
    requires ValidSelection(selected)
    ensures ToggleRow(ToggleRow(selected, dataId, true), dataId, false) == selected - {RowKey(dataId)}
  {
  }

  /**
   * The header-checkbox change handler: add every visible id when checked,
   * remove every visible id when unchecked; ids not visible are untouched.
   */
  function CheckAll(selected: SelectedIds, visible: seq<string>, checked: bool): (r: SelectedIds)
    ensures forall x :: x in r <==> if x in visible then checked else x in selected
  {
    var shown := set x | x in visible;
    if checked then selected + shown else selected - shown
  }

  /** Check-all is the union with the visible ids; uncheck-all is the difference. */
  lemma CheckAllIsSetAlgebra(selected: SelectedIds, visible: seq<string>)
    ensures CheckAll(selected, visible, true) == selected + (set x | x in visible)
    ensures CheckAll(selected, visible, false) == selected - (set x | x in visible)
  {
  }

  /** Checking all and then unchecking all removes exactly the visible ids. */
  lemma CheckAllThenUncheckAll(selected: SelectedIds, visible: seq<string>)
    ensures CheckAll(CheckAll(selected, visible, true), visible, false) == selected - (set x | x in visible)
  {
  }

  /** `isSelected`: the trimmed text of the key is selected; a blank key never is. */
  function IsSelected(selected: SelectedIds, id: Option<Value>): (b: bool)
    ensures Trim(TextOf(id)) == "" ==> !b
    ensures b <==> Trim(TextOf(id)) != "" && Trim(TextOf(id)) in selected
  {
    var key := Trim(TextOf(id));
    key != "" && key in selected
  }

  /** After the row handler runs, `isSelected` reports the row's id as the box's new state. */
  lemma IsSelectedAfterToggle(selected: SelectedIds, dataId: Option<string>, checked: bool)
    requires RowKey(dataId) != ""
    ensures IsSelected(ToggleRow(selected, dataId, checked), Some(Str(RowKey(dataId)))) == checked
  {
    var id := RowKey(dataId);
    TrimOfTrimmed(id);
    assert TextOf(Some(Str(id))) == id;
  }

  /**
   * The same holds whatever whitespace surrounds the id in the `data-id`
   * attribute and in the query.
   */
  lemma IsSelectedAfterPaddedToggle(selected: SelectedIds, id: string, checked: bool, pre: string, post: string, pre': string, post': string)
    requires id != "" && IsTrimmed(id)
    requires AllWhitespace(pre) && AllWhitespace(post) && AllWhitespace(pre') && AllWhitespace(post')
    ensures IsSelected(ToggleRow(selected, Some(pre + id + post), checked), Some(Str(pre' + id + post'))) == checked
  {
    var d := Some(pre + id + post);
    RowKeyIgnoresPadding(pre, id, post);
    assert RowKey(d) == id;
    IsSelectedAfterToggle(selected, d, checked);
    IsSelectedIgnoresPadding(ToggleRow(selected, d, checked), pre', id, post');
  }

  /** `isSelected` ignores whitespace around the key: a padded id is selected exactly when the id is. */
  lemma IsSelectedIgnoresPadding(selected: SelectedIds, pre: string, id: string, post: string)
    requires AllWhitespace(pre) && AllWhitespace(post)
    requires id != "" && IsTrimmed(id)
    ensures IsSelected(selected, Some(Str(pre + id + post))) == (id in selected)
  {
    TrimStripsPadding(pre, id, post);
  }

  /** How many positions of `visible` hold a selected id: `ids.filter(id => selectedIds.has(id)).length`. */
  function CountSelected(visible: seq<string>, selected: SelectedIds): (n: nat)
    ensures n <= |visible|
    ensures n == |visible| <==> forall i :: 0 <= i < |visible| ==> visible[i] in selected
    ensures n == 0 <==> forall i :: 0 <= i < |visible| ==> visible[i] !in selected
  {
    if visible == [] then 0
    else
      assert forall i :: 1 <= i < |visible| ==> visible[i] == visible[1..][i - 1];
      (if visible[0] in selected then 1 else 0) + CountSelected(visible[1..], selected)
  }

  /** The header checkbox: checked, indeterminate, or neither. */
  datatype HeaderState = HeaderState(checked: bool, indeterminate: bool)

  /**
   * `syncHeaderCheckbox`: with no visible rows, neither flag; otherwise
   * checked when every visible id is selected, and indeterminate when some
   * but not all are.
   */
  function Header(selected: SelectedIds, visible: seq<string>): (h: HeaderState)
    ensures visible == [] ==> h == HeaderState(false, false)
    ensures h.checked <==> visible != [] && forall i :: 0 <= i < |visible| ==> visible[i] in selected
    ensures h.indeterminate <==>
      (exists i :: 0 <= i < |visible| && visible[i] in selected)
      && (exists j :: 0 <= j < |visible| && visible[j] !in selected)
    ensures !(h.checked && h.indeterminate)
  {
    if |visible| == 0 then HeaderState(false, false)
    else
      var n := CountSelected(visible, selected);
      HeaderState(n == |visible|, n > 0 && n < |visible|)
  }

  /** After check-all the header shows checked; after uncheck-all it shows neither state. */
  lemma CheckAllSetsHeader(selected: SelectedIds, visible: seq<string>)
    requires visible != []
    ensures Header(CheckAll(selected, visible, true), visible) == HeaderState(true, false)
    ensures Header(CheckAll(selected, visible, false), visible) == HeaderState(false, false)
  {
    var on := CheckAll(selected, visible, true);
    var off := CheckAll(selected, visible, false);
    assert visible[0] in on;
    assert visible[0] !in off;
  }

  /** The toolbar: the size of the whole selection, and whether it is non-empty. */
  datatype ToolbarState = ToolbarState(count: nat, hasSelection: bool)

  /** `updateToolbar`: the count is the whole selection, visible or not. */
  function Toolbar(selected: SelectedIds): (t: ToolbarState)
    ensures t.count == |selected|
    ensures t.hasSelection <==> selected != {}
  {
    ToolbarState(|selected|, |selected| > 0)
  }

  /**
   * `applyCheckedToRows`: a row's checkbox is checked when its id is non-blank
   * and selected, which is what `isSelected` answers for the row's `data-id`.
   */
  function RowChecks(selected: SelectedIds, rows: seq<Option<string>>): (checks: seq<bool>)
    ensures |checks| == |rows|
    ensures forall i :: 0 <= i < |rows| ==> (checks[i] <==> RowKey(rows[i]) != "" && RowKey(rows[i]) in selected)
    ensures forall i :: 0 <= i < |rows| ==> checks[i] == IsSelected(selected, Some(Str(rows[i].GetOr(""))))
  {
    seq(|rows|, i requires 0 <= i < |rows| => RowKey(rows[i]) != "" && RowKey(rows[i]) in selected)
  }

  /**
   * The toolbar after a row toggle: the count grows by one when a new id is
   * checked, shrinks by one when a selected id is unchecked, and otherwise stays.
   */
  lemma ToolbarAfterToggle(selected: SelectedIds, dataId: Option<string>, checked: bool)
    requires RowKey(dataId) != ""
    ensures var n := Toolbar(ToggleRow(selected, dataId, checked)).count;
      if checked && RowKey(dataId) !in selected then n == |selected| + 1
      else if !checked && RowKey(dataId) in selected then n == |selected| - 1
      else n == |selected|
  {
    var id := RowKey(dataId);
    var r := ToggleRow(selected, dataId, checked);
    if checked && id !in selected {
      assert r == selected + {id};
    } else if !checked && id in selected {
      assert r == selected - {id};
    } else {
      assert r == selected;
    }
  }

  /** After uncheck-all the toolbar still counts the selected ids that are not on screen. */
  lemma ToolbarCountsHiddenSelections(selected: SelectedIds, visible: seq<string>)
    ensures Toolbar(CheckAll(selected, visible, false)).count == |selected - (set x | x in visible)|
    ensures Toolbar(CheckAll(selected, visible, false)).hasSelection <==> exists x :: x in selected && x !in visible
  {
    var r := CheckAll(selected, visible, false);
    assert r == selected - (set x | x in visible);
    if exists x :: x in selected && x !in visible {
      var x :| x in selected && x !in visible;
      assert x in r;
    }
  }

  /**
   * The header summarises the row checkboxes: checked exactly when some row
   * has an id and every row with an id is checked; indeterminate exactly when
   * some row with an id is checked and some is not.
   */
  lemma HeaderMatchesRowChecks(selected: SelectedIds, rows: seq<Option<string>>)
    ensures var h := Header(selected, VisibleRowIds(rows));
      var checks := RowChecks(selected, rows);
      (h.checked <==>
        (exists i :: 0 <= i < |rows| && RowKey(rows[i]) != "")
        && (forall i :: 0 <= i < |rows| && RowKey(rows[i]) != "" ==> checks[i]))
      && (h.indeterminate <==>
        (exists i :: 0 <= i < |rows| && RowKey(rows[i]) != "" && checks[i])
        && (exists j :: 0 <= j < |rows| && RowKey(rows[j]) != "" && !checks[j]))
  {
    HeaderCheckedMatches(selected, rows);
    HeaderIndeterminateMatches(selected, rows);
  }

  lemma HeaderCheckedMatches(selected: SelectedIds, rows: seq<Option<string>>)
    ensures var h := Header(selected, VisibleRowIds(rows));
      var checks := RowChecks(selected, rows);
      h.checked <==>
        (exists i :: 0 <= i < |rows| && RowKey(rows[i]) != "")
        && (forall i :: 0 <= i < |rows| && RowKey(rows[i]) != "" ==> checks[i])
  {
    VisibleIsEmpty(rows);
    VisibleAllSelected(selected, rows);
  }

  /** No id is visible exactly when no row has an id. */
  lemma VisibleIsEmpty(rows: seq<Option<string>>)
    ensures VisibleRowIds(rows) != [] <==> exists i :: 0 <= i < |rows| && RowKey(rows[i]) != ""
  {
    if VisibleRowIds(rows) != [] {
      var _ := RowOfVisibleId(rows, 0);
    }
    if i :| 0 <= i < |rows| && RowKey(rows[i]) != "" {
      var _ := VisibleIdOfRow(rows, i);
    }
  }

  /** Every visible id is selected exactly when every row with an id is checked. */
  lemma VisibleAllSelected(selected: SelectedIds, rows: seq<Option<string>>)
    ensures var ids := VisibleRowIds(rows);
      (forall a :: 0 <= a < |ids| ==> ids[a] in selected)
      <==> forall i :: 0 <= i < |rows| && RowKey(rows[i]) != "" ==> RowChecks(selected, rows)[i]
  {
    var ids := VisibleRowIds(rows);
    var checks := RowChecks(selected, rows);
    if forall a :: 0 <= a < |ids| ==> ids[a] in selected {
      forall i | 0 <= i < |rows| && RowKey(rows[i]) != "" ensures checks[i] {
        var a := VisibleIdOfRow(rows, i);
      }
    }
    if forall i :: 0 <= i < |rows| && RowKey(rows[i]) != "" ==> checks[i] {
      forall a | 0 <= a < |ids| ensures ids[a] in selected {
        var i := RowOfVisibleId(rows, a);
      }
    }
  }

  lemma HeaderIndeterminateMatches(selected: SelectedIds, rows: seq<Option<string>>)
    ensures var h := Header(selected, VisibleRowIds(rows));
      var checks := RowChecks(selected, rows);
      h.indeterminate <==>
        (exists i :: 0 <= i < |rows| && RowKey(rows[i]) != "" && checks[i])
        && (exists j :: 0 <= j < |rows| && RowKey(rows[j]) != "" && !checks[j])
  {
    VisibleHasSelected(selected, rows);
    VisibleHasUnselected(selected, rows);
  }

  /** Some visible id is selected exactly when some row with an id is checked. */
  lemma VisibleHasSelected(selected: SelectedIds, rows: seq<Option<string>>)
    ensures var ids := VisibleRowIds(rows);
      (exists a :: 0 <= a < |ids| && ids[a] in selected)
      <==> exists i :: 0 <= i < |rows| && RowKey(rows[i]) != "" && RowChecks(selected, rows)[i]
  {
    var ids := VisibleRowIds(rows);
    var checks := RowChecks(selected, rows);
    if a :| 0 <= a < |ids| && ids[a] in selected {
      var i := RowOfVisibleId(rows, a);
      assert checks[i];
    }
    if i :| 0 <= i < |rows| && RowKey(rows[i]) != "" && checks[i] {
      var a := VisibleIdOfRow(rows, i);
      assert ids[a] in selected;
    }
  }

  /** Some visible id is unselected exactly when some row with an id is unchecked. */
  lemma VisibleHasUnselected(selected: SelectedIds, rows: seq<Option<string>>)
    ensures var ids := VisibleRowIds(rows);
      (exists a :: 0 <= a < |ids| && ids[a] !in selected)
      <==> exists i :: 0 <= i < |rows| && RowKey(rows[i]) != "" && !RowChecks(selected, rows)[i]
  {
    var ids := VisibleRowIds(rows);
    var checks := RowChecks(selected, rows);
    if a :| 0 <= a < |ids| && ids[a] !in selected {
      var i := RowOfVisibleId(rows, a);
      assert !checks[i];
    }
    if i :| 0 <= i < |rows| && RowKey(rows[i]) != "" && !checks[i] {
      var a := VisibleIdOfRow(rows, i);
      assert ids[a] !in selected;
    }
  }

  /** Each visible id comes from a row. */
  lemma RowOfVisibleId(rows: seq<Option<string>>, a: nat) returns (i: nat)
    requires a < |VisibleRowIds(rows)|
    ensures i < |rows| && RowKey(rows[i]) == VisibleRowIds(rows)[a] != ""
  {
    var ids := VisibleRowIds(rows);
    assert ids[a] in ids;
    i :| 0 <= i < |rows| && RowKey(rows[i]) == ids[a];
  }

  /** Each row with an id shows up among the visible ids. */
  lemma VisibleIdOfRow(rows: seq<Option<string>>, i: nat) returns (a: nat)
    requires i < |rows| && RowKey(rows[i]) != ""
    ensures a < |VisibleRowIds(rows)| && VisibleRowIds(rows)[a] == RowKey(rows[i])
  {
    var ids := VisibleRowIds(rows);
    assert RowKey(rows[i]) in ids;
    a :| 0 <= a < |ids| && ids[a] == RowKey(rows[i]);
  }

  /** Everything the grid shows for a selection: row checkboxes, header checkbox and toolbar. */
  datatype View = View(rowChecks: seq<bool>, header: HeaderState, toolbar: ToolbarState)

  /**
   * `afterRender`: replay the selection onto the rows, then derive the header
   * and the toolbar. Each row's box agrees with `isSelected`, the header
   * summarises those boxes, and the toolbar counts the whole selection,
   * including ids on no visible row.
   */
  function AfterRender(selected: SelectedIds, rows: seq<Option<string>>): (v: View)
    ensures v.rowChecks == RowChecks(selected, rows)
    ensures v.header == Header(selected, VisibleRowIds(rows))
    ensures v.toolbar == Toolbar(selected)
    ensures |v.rowChecks| == |rows|
    ensures forall i :: 0 <= i < |rows| ==> v.rowChecks[i] == IsSelected(selected, Some(Str(rows[i].GetOr(""))))
    ensures v.header.checked <==>
      (exists i :: 0 <= i < |rows| && RowKey(rows[i]) != "")
      && (forall i :: 0 <= i < |rows| && RowKey(rows[i]) != "" ==> v.rowChecks[i])
    ensures v.header.indeterminate <==>
      (exists i :: 0 <= i < |rows| && RowKey(rows[i]) != "" && v.rowChecks[i])
      && (exists j :: 0 <= j < |rows| && RowKey(rows[j]) != "" && !v.rowChecks[j])
    ensures v.toolbar.count == |selected|
  {
    HeaderMatchesRowChecks(selected, rows);
    View(RowChecks(selected, rows), Header(selected, VisibleRowIds(rows)), Toolbar(selected))
  }

  /** `clearSelection`: empty the selection and redraw; nothing is checked and the toolbar shows zero. */
  function ClearSelection(selected: SelectedIds, rows: seq<Option<string>>): (r: (SelectedIds, View))
    ensures r.0 == {}
    ensures |r.1.rowChecks| == |rows| && forall i :: 0 <= i < |rows| ==> !r.1.rowChecks[i]
    ensures r.1.header == HeaderState(false, false)
    ensures r.1.toolbar == ToolbarState(0, false)
  {
    var cleared: SelectedIds := {};
    var v := AfterRender(cleared, rows);
    var ids := VisibleRowIds(rows);
    assert ids != [] ==> ids[0] !in cleared;
    (cleared, v)
  }

  /**
    * `getSelectedIds`: the selection as a list. Every selected id appears exactly once,
    * so the list is as long as the toolbar count; the order is left open.
    */
  method SelectedIdList(selected: SelectedIds) returns (ids: seq<string>)
    ensures forall x :: x in ids <==> x in selected
    ensures forall i, j :: 0 <= i < j < |ids| ==> ids[i] != ids[j]
    ensures |ids| == |selected| == Toolbar(selected).count
  {
    ids := [];
    var rest := selected;
    while rest != {}
      invariant forall x :: x in selected <==> x in rest || x in ids
      invariant forall x :: x in ids ==> x !in rest
      invariant forall i, j :: 0 <= i < j < |ids| ==> ids[i] != ids[j]
      invariant |ids| + |rest| == |selected|
      decreases |rest|
    {
      var x :| x in rest;
      ids := ids + [x];
      rest := rest - {x};
    }
  }

  /** Every handler keeps the selection valid, starting from the empty selection. */
  lemma HandlersKeepSelectionValid(selected: SelectedIds, dataId: Option<string>, rows: seq<Option<string>>, checked: bool)
    requires ValidSelection(selected)
    ensures ValidSelection({})
    ensures ValidSelection(ToggleRow(selected, dataId, checked))
    ensures ValidSelection(CheckAll(selected, VisibleRowIds(rows), checked))
    ensures ValidSelection(ClearSelection(selected, rows).0)
  {
  }

  /** Two rounds of check-all from an empty selection: check 1, 2, 3, then uncheck 2. */
  lemma CheckAllExample()
    ensures CheckAll(CheckAll({}, ["1", "2", "3"], true), ["2"], false) == {"1", "3"}
  {
    var s := CheckAll({}, ["1", "2", "3"], true);
    assert s == {"1", "2", "3"};
    assert "1" != "2" && "3" != "2";
  }
}
