/** The page listing the rules of one table (src/rule-face.c): a list of
    rule rows with a guint16 row counter kept beside it, an empty view shown
    when the counter is zero, and the handlers that connect rows and setup
    dialogs to the list. Toasts are recorded in `toasts`. */
module Face {
  import opened Rules
  import opened Store
  import opened RuleRows
  import opened SetupDialog

  /** RuleFaceType; TURN_ON is 0. */
  datatype FaceType = TurnOn | TurnOff | FaceTypeLast

  /** What the stack shows: the template's initial child until a check has
      run. */
  datatype Page = TemplateDefault | EmptyView | ListView

  const RowCountModulus: nat := 65536
  const PopulateFailedToast: string := "Failed to get rules"

  /** The face's table, as its "type" property sets it. */
  function TableFor(faceType: FaceType): (table: Table)
  {
    if faceType == TurnOn then TableOn else TableOff
  }

  /** A face always lists a real table, never TABLE_LAST, and the two
      recognised types list different tables. */
  lemma FaceTables(faceType: FaceType)
    ensures TableFor(faceType) != TableLast
    ensures TableFor(TurnOn) != TableFor(TurnOff)
    ensures faceType != FaceTypeLast ==>
      forall other :: other != FaceTypeLast && other != faceType ==> TableFor(other) != TableFor(faceType)
  {
  }

  /** The empty-view icon of a recognised type. */
  function IconFor(faceType: FaceType): (icon: Option<string>)
    ensures icon.Some? <==> faceType != FaceTypeLast
  {
    match faceType
    case TurnOn => Some("alarm-symbolic")
    case TurnOff => Some("system-shutdown-symbolic")
    case FaceTypeLast => None
  }

  /** The row ids, in list order. */
  ghost function Ids(rows: seq<RuleRow>): (ids: seq<nat>)
    reads set r | r in rows
    ensures |ids| == |rows|
    ensures forall i :: 0 <= i < |rows| ==> ids[i] == rows[i].ruleId
  {
    if rows == [] then [] else Ids(rows[..|rows| - 1]) + [rows[|rows| - 1].ruleId]
  }

  class RuleFace {
    var faceType: FaceType
    var table: Table
    /** The list box's rows, in order. */
    var rows: seq<RuleRow>
    /** row_count, a guint16. */
    var rowCount: nat
    var page: Page
    var icon: Option<string>
    var toasts: seq<string>

    /** The counter is the number of rows modulo 2^16, and no row is in the
        list twice. */
    ghost predicate Valid()
      reads this
    {
      && table != TableLast
      && rowCount == |rows| % RowCountModulus
      && forall i, j :: 0 <= i < j < |rows| ==> rows[i] != rows[j]
    }

    /** rule_face_new: rule_face_init zeroes the counter; the "type"
        property is range-checked (0 to RULE_FACE_TYPE_LAST - 1), so a
        RULE_FACE_TYPE_LAST argument is refused and the zero-filled type
        and table stay; rule_face_constructed then runs. */
    constructor (requested: FaceType, store: RuleStore)
      requires store.Valid()
      modifies store
      ensures Valid() && store.Valid() && store.rules == old(store.rules)
      ensures faceType == (if requested == FaceTypeLast then TurnOn else requested)
      ensures table == TableFor(faceType) && icon == IconFor(faceType)
      ensures page == EmptyView <==> rowCount == 0
      ensures page == ListView <==> rowCount != 0
      ensures old(store.available) ==>
        toasts == [] && exists listed :: Lists(old(store.rules), table, listed) && Ids(rows) == RuleIds(listed)
      ensures !old(store.available) ==> rows == [] && toasts == [PopulateFailedToast]
    {
      faceType := TurnOn;
      table := TableOn;
      rows := [];
      rowCount := 0;
      page := TemplateDefault;
      icon := None;
      toasts := [];
      new;
      if requested != FaceTypeLast {
        SetType(requested);
      }
      var listed := Constructed(store);
    }

    /** rule_face_set_property: the type and the table that follows it. */
    method SetType(faceType: FaceType)
      modifies this`faceType, this`table
      ensures this.faceType == faceType && table == TableFor(faceType)
    {
      this.faceType := faceType;
      table := if faceType == TurnOn then TableOn else TableOff;
    }

    /** rule_face_constructed: set the icon, populate and show the right
        view; an unrecognised type returns before any of it. */
    method Constructed(store: RuleStore) returns (listed: Option<seq<Rule>>)
      requires Valid() && store.Valid() && rows == [] && toasts == []
      modifies this, store
      ensures Valid() && store.Valid() && store.rules == old(store.rules) && store.available == old(store.available)
      ensures faceType == old(faceType) && table == old(table)
      ensures faceType == FaceTypeLast ==>
        rows == [] && rowCount == 0 && page == old(page) && icon == old(icon) && listed == None && toasts == []
      ensures faceType != FaceTypeLast ==>
        && icon == IconFor(faceType)
        && (page == EmptyView <==> rowCount == 0) && (page == ListView <==> rowCount != 0)
        && (listed.Some? <==> store.available)
        && (listed.Some? ==>
              Lists(store.rules, table, listed.value) && Ids(rows) == RuleIds(listed.value) && toasts == [])
        && (listed.None? ==> rows == [] && toasts == [PopulateFailedToast])
    {
      if faceType == FaceTypeLast {
        return None;
      }
      icon := IconFor(faceType);
      listed := PopulateRules(store);
      CheckForEmptyView();
    }

    /** rule_face_check_for_empty_view. */
    method CheckForEmptyView()
      requires Valid()
      modifies this`page
      ensures page == EmptyView <==> rowCount == 0
      ensures page == ListView <==> rowCount != 0
      ensures |rows| < RowCountModulus ==> (page == EmptyView <==> rows == [])
    {
      if rowCount == 0 {
        page := EmptyView;
      } else {
        page := ListView;
      }
    }

    /** rule_face_append_rule: a new row for the id, at the end of the list;
        the counter goes up by one (wrapping at 2^16). */
    method AppendRule(ruleId: nat, store: RuleStore) returns (row: RuleRow)
      requires Valid() && store.Valid()
      modifies this`rows, this`rowCount, store
      ensures Valid() && store.Valid() && store.rules == old(store.rules) && store.available == old(store.available)
      ensures fresh(row) && row.ruleId == ruleId && row.table == table
      ensures rows == old(rows) + [row]
      ensures rowCount == (old(rowCount) + 1) % RowCountModulus
    {
      row := new RuleRow(table, ruleId, store);
      rows := rows + [row];
      rowCount := (rowCount + 1) % RowCountModulus;
    }

    /** rule_face_delete_rule, the row's "rule-deleted" handler: the row
        leaves the list and the counter goes down by one (wrapping). */
    method DeleteRule(row: RuleRow) returns (ghost index: nat)
      requires Valid() && row in rows
      modifies this`rows, this`rowCount, this`page
      ensures Valid()
      ensures index < |old(rows)| && old(rows)[index] == row
      ensures rows == old(rows)[..index] + old(rows)[index + 1..]
      ensures row !in rows && |rows| == |old(rows)| - 1
      ensures rowCount == if old(rowCount) == 0 then RowCountModulus - 1 else old(rowCount) - 1
      ensures page == EmptyView <==> rowCount == 0
      ensures page == ListView <==> rowCount != 0
    {
      var i :| 0 <= i < |rows| && rows[i] == row;
      index := i;
      ghost var _ := RemovingKeepsDistinct(rows, i);
      CountDownWraps(|rows|);
      rows := rows[..i] + rows[i + 1..];
      rowCount := if rowCount == 0 then RowCountModulus - 1 else rowCount - 1;
      CheckForEmptyView();
    }

    /** rule_face_populate_rules: one row per rule the store lists, in its
        order; on failure a toast and no rows. */
    method PopulateRules(store: RuleStore) returns (listed: Option<seq<Rule>>)
      requires Valid() && store.Valid()
      modifies this`rows, this`rowCount, this`toasts, store
      ensures Valid() && store.Valid() && store.rules == old(store.rules) && store.available == old(store.available)
      ensures listed.Some? <==> store.available
      ensures listed.Some? ==>
        && Lists(store.rules, table, listed.value)
        && |old(rows)| <= |rows| && rows[..|old(rows)|] == old(rows)
        && Ids(rows[|old(rows)|..]) == RuleIds(listed.value)
        && toasts == old(toasts)
      ensures listed.None? ==>
        rows == old(rows) && rowCount == old(rowCount) && toasts == old(toasts) + [PopulateFailedToast]
    {
      listed := store.GetAll(table);
      if listed.None? {
        toasts := toasts + [PopulateFailedToast];
        return;
      }
      ghost var before := rows;
      AppendRules(listed.value, store);
      assert Ids(rows[|before|..]) == RuleIds(listed.value);
    }

    /** The loop of rule_face_populate_rules: append each listed rule's id
        in turn. */
    method AppendRules(rules: seq<Rule>, store: RuleStore)
      requires Valid() && store.Valid()
      modifies this`rows, this`rowCount, store
      ensures Valid() && store.Valid() && store.rules == old(store.rules) && store.available == old(store.available)
      ensures |rows| == |old(rows)| + |rules| && rows[..|old(rows)|] == old(rows)
      ensures forall k :: 0 <= k < |rules| ==> rows[|old(rows)| + k].ruleId == rules[k].id
    {
      ghost var before := rows;
      for idx := 0 to |rules|
        invariant Valid() && store.Valid() && store.rules == old(store.rules) && store.available == old(store.available)
        invariant |rows| == |before| + idx && rows[..|before|] == before
        invariant forall k :: 0 <= k < idx ==> rows[|before| + k].ruleId == rules[k].id
      {
        var _ := AppendRule(rules[idx].id, store);
      }
    }

    /** rule_face_add_rule, the add dialog's "done" handler: a committed
        rule gets a row and the view is refreshed; a cancelled dialog
        changes nothing here. The dialog is finished either way. */
    method AddRuleDone(dialog: RuleSetupDialog, done: Done, store: RuleStore)
      requires Valid() && store.Valid()
      modifies this`rows, this`rowCount, this`page, dialog`closed, store
      ensures Valid() && store.Valid() && store.rules == old(store.rules) && dialog.closed
      ensures done.cancelled ==> rows == old(rows) && rowCount == old(rowCount) && page == old(page)
      ensures !done.cancelled ==>
        && |rows| == |old(rows)| + 1 && rows[..|old(rows)|] == old(rows)
        && rows[|rows| - 1].ruleId == done.id && rows[|rows| - 1].table == table
        && rowCount == (old(rowCount) + 1) % RowCountModulus
        && (page == EmptyView <==> rowCount == 0)
        && (page == ListView <==> rowCount != 0)
    {
      if !done.cancelled {
        var _ := AppendRule(done.id, store);
        CheckForEmptyView();
      }
      dialog.Finish();
    }

    /** rule_face_edit_rule, the edit dialog's "done" handler: only a
        committed edit reloads that row; the dialog is finished either
        way. */
    method EditRuleDone(row: RuleRow, dialog: RuleSetupDialog, done: Done, store: RuleStore)
      requires store.Valid()
      modifies row, dialog`closed, this`toasts, store
      ensures store.Valid() && store.rules == old(store.rules) && dialog.closed
      ensures done.cancelled ==> toasts == old(toasts) && unchanged(row)
      ensures !done.cancelled ==>
        var loaded := old(store.GetSingle(row.ruleId, row.table));
        if loaded.Some? then
          && row.Shows(loaded.value) && row.visible == old(row.visible)
          && (loaded.value.table != TableOff ==> row.modeShown == old(row.modeShown))
          && (toasts == old(toasts) || toasts == old(toasts) + [StateFailedError])
          && (toasts == old(toasts) ==> row.SwitchedTo(loaded.value.active, old(row.switchActive), old(row.switchState), None))
          && (toasts != old(toasts) ==> row.switchState == old(row.switchState))
        else toasts == old(toasts) + [UpdateFailedError] && unchanged(row)
    {
      if !done.cancelled {
        var error := row.UpdateFields(store);
        ShowError(error);
      }
      dialog.Finish();
    }

    /** rule_face_show_error_for_row: a row's "error" becomes a toast. */
    method ShowError(error: Option<string>)
      modifies this`toasts
      ensures toasts == if error.Some? then old(toasts) + [error.value] else old(toasts)
    {
      if error.Some? {
        toasts := toasts + [error.value];
      }
    }

    /** A row's delete button: the row reports a failure first, then
        "rule-deleted" removes it from the list whether or not the store
        deleted the rule. */
    method RowDeleteClicked(row: RuleRow, store: RuleStore) returns (ghost index: nat)
      requires Valid() && store.Valid() && row in rows
      modifies row`visible, this`rows, this`rowCount, this`page, this`toasts, store
      ensures Valid() && store.Valid()
      ensures index < |old(rows)| && old(rows)[index] == row
      ensures rows == old(rows)[..index] + old(rows)[index + 1..]
      ensures rowCount == if old(rowCount) == 0 then RowCountModulus - 1 else old(rowCount) - 1
      ensures (page == EmptyView <==> rowCount == 0) && (page == ListView <==> rowCount != 0)
      ensures var key := Key(row.table, row.ruleId);
        && (toasts == old(toasts) ==>
              old(store.available) && key in old(store.rules) && store.rules == old(store.rules) - {key})
        && (toasts != old(toasts) ==>
              toasts == old(toasts) + [DeleteFailedError] && store.rules == old(store.rules))
        && (!(old(store.available) && key in old(store.rules)) ==> toasts != old(toasts))
    {
      var error, _ := row.DeleteClicked(store);
      ShowError(error);
      index := DeleteRule(row);
    }

    /** A row's active switch flipped by the user: a refusal by the store
        becomes a toast. */
    method RowSwitchClicked(row: RuleRow, store: RuleStore)
      requires store.Valid()
      modifies row`switchActive, row`switchState, this`toasts, store
      ensures store.Valid()
      ensures row.switchActive == !old(row.switchActive)
      ensures var key := Key(row.table, row.ruleId);
        && (toasts == old(toasts) ==>
              && old(store.available) && key in old(store.rules) && row.switchState == row.switchActive
              && store.rules == old(store.rules)[key := old(store.rules)[key].(active := row.switchActive)])
        && (toasts != old(toasts) ==>
              && toasts == old(toasts) + [StateFailedError]
              && row.switchState == old(row.switchState) && store.rules == old(store.rules))
        && (!(old(store.available) && key in old(store.rules)) ==> toasts != old(toasts))
    {
      var error := row.SwitchClicked(store);
      ShowError(error);
    }

    /** rule_face_open_setup_add_dialog: an Add dialog for this table. */
    method OpenSetupAddDialog(store: RuleStore) returns (dialog: RuleSetupDialog)
      requires store.Valid()
      ensures fresh(dialog) && dialog.variant == AddVariant && dialog.table == table && dialog.ruleId == 0
    {
      dialog := NewAdd(table, store);
    }

    /** rule_face_list_box_row_activated: an Edit dialog for the row's
        rule. */
    method RowActivated(row: RuleRow, store: RuleStore) returns (dialog: RuleSetupDialog)
      requires store.Valid()
      ensures fresh(dialog) && dialog.variant == EditVariant
      ensures dialog.table == table && dialog.ruleId == row.ruleId
    {
      dialog := NewEdit(table, row.ruleId, store);
    }
  }

  /** Taking one element out of a list without repeats leaves a list without
      repeats that no longer holds it. */
  lemma RemovingKeepsDistinct<T>(xs: seq<T>, i: nat) returns (ys: seq<T>)
    requires i < |xs|
    requires forall a, b :: 0 <= a < b < |xs| ==> xs[a] != xs[b]
    ensures ys == xs[..i] + xs[i + 1..]
    ensures forall a, b :: 0 <= a < b < |ys| ==> ys[a] != ys[b]
    ensures xs[i] !in ys
  {
    ys := xs[..i] + xs[i + 1..];
    assert forall a :: 0 <= a < i ==> ys[a] == xs[a];
    assert forall a :: i <= a < |ys| ==> ys[a] == xs[a + 1];
  }

  /** The 16-bit counter's decrement wraps exactly as the length's residue. */
  lemma CountDownWraps(n: nat)
    requires n > 0
    ensures (n - 1) % RowCountModulus == if n % RowCountModulus == 0 then RowCountModulus - 1 else n % RowCountModulus - 1
  {
  }
}
