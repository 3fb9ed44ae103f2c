/** The row of seven day toggle buttons (src/days-row.c). Its toggles can be
    copied out to and in from a caller's day array; a non-interactive row
    undoes every click. */
module DaysRows {
  import opened Rules

  class DaysRow {
    /** The seven toggle buttons' states, Sunday first. */
    var toggles: Days
    var ruleId: nat
    var table: Table
    var interactive: bool
    /** The restoring "clicked" handler is connected to every toggle. */
    var restoreConnected: bool

    /** days_row_new: rule_id and table from days_row_init, then the
        construct properties; only "interactive" is passed, so "id" and
        "table" take their defaults (0 and TABLE_ON, which replaces the
        TABLE_LAST that init wrote); days_row_constructed connects the
        restoring handler when the row is not interactive. The toggles start
        released. */
    constructor (interactive: bool)
      ensures ruleId == 0 && table == TableOn && this.interactive == interactive
      ensures restoreConnected <==> !interactive
      ensures toggles == NoDays
    {
      toggles := NoDays;
      ruleId := 0;
      table := TableOn;
      this.interactive := false;
      restoreConnected := false;
      new;
      // days_row_init
      ruleId := 0;
      table := TableLast;
      // The construct properties: "id" and "table" at their defaults.
      ruleId := 0;
      table := TableOn;
      this.interactive := interactive;
      // days_row_constructed
      restoreConnected := !this.interactive;
    }

    /** days_row_get_activated: days[i] is toggle i's state for i in 0..6;
        nothing else in the array changes. */
    method GetActivated(days: array<bool>)
      requires days.Length >= 7
      modifies days
      ensures forall i :: 0 <= i < days.Length ==> days[i] == if i < 7 then toggles[i] else old(days[i])
    {
      var states := toggles;
      days[0] := states[0];
      days[1] := states[1];
      days[2] := states[2];
      days[3] := states[3];
      days[4] := states[4];
      days[5] := states[5];
      days[6] := states[6];
    }

    /** days_row_set_activated: toggle i takes days[i]. Setting a toggle's
        state emits "toggled", not "clicked", so nothing is undone. */
    method SetActivated(days: array<bool>)
      requires days.Length >= 7
      modifies this`toggles
      ensures toggles == days[..7]
    {
      var next := toggles;
      next := next[0 := days[0]];
      next := next[1 := days[1]];
      next := next[2 := days[2]];
      next := next[3 := days[3]];
      next := next[4 := days[4]];
      next := next[5 := days[5]];
      next := next[6 := days[6]];
      toggles := next;
    }

    /** A click on toggle `day`: GTK's own "clicked" handler flips the
        toggle first, then the restoring handler runs if connected. */
    method Click(day: nat)
      requires day < 7
      modifies this`toggles
      ensures restoreConnected ==> toggles == old(toggles)
      ensures !restoreConnected ==> toggles == old(toggles)[day := !old(toggles)[day]]
    {
      toggles := toggles[day := !toggles[day]];
      if restoreConnected {
        RestoreToggleButtonState(day);
      }
    }

    /** days_row_restore_toggle_button_state: set the toggle to the
        opposite of its current state. */
    method RestoreToggleButtonState(day: nat)
      requires day < 7
      modifies this`toggles
      ensures toggles == old(toggles)[day := !old(toggles)[day]]
    {
      toggles := toggles[day := !toggles[day]];
    }
  }

  /** Setting the toggles from a day vector and reading them back gives the
      same vector. */
  method SetThenGet(row: DaysRow, days: array<bool>) returns (read: array<bool>)
    requires days.Length >= 7
    modifies row`toggles
    ensures fresh(read) && read.Length == 7
    ensures forall i :: 0 <= i < 7 ==> read[i] == days[i]
  {
    row.SetActivated(days);
    read := new bool[7];
    row.GetActivated(read);
  }
}
