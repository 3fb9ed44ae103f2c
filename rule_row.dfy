/** One row of a rule list (src/rule-row.c): how it labels a rule's time and
    repeat days, and what its active switch and delete button do. */
module RuleRows {
  import opened Rules
  import opened Text
  import opened Store

  const DaysPlural: seq<string> :=
    ["Sundays", "Mondays", "Tuesdays", "Wednesdays", "Thursdays", "Fridays", "Saturdays"]
  const WeekdaysTerm: string := "Weekdays"
  const WeekendsTerm: string := "Weekends"
  const Separator: string := ", "

  // ---------------------------------------------------------------------
  // Time label: "%02d:%02d" written into a 6-byte buffer.

  function TimeLabel(hour: UInt8, minutes: UInt8): (shown: string)
    ensures |shown| <= 5
  {
    Snprintf(Pad2(hour) + ":" + Pad2(minutes), 6)
  }

  /** For two-digit values the label is exactly HH:MM and reads back as the
      hour and the minutes. */
  lemma TimeLabelRoundTrip(hour: UInt8, minutes: UInt8)
    requires hour <= 99 && minutes <= 99
    ensures var shown := TimeLabel(hour, minutes);
      && |shown| == 5 && shown[2] == ':'
      && (forall i :: 0 <= i < 5 && i != 2 ==> IsDigit(shown[i]))
      && Value(shown[..2]) == hour && Value(shown[3..]) == minutes
  {
    Pad2TwoDigits(hour);
    Pad2TwoDigits(minutes);
    var text := Pad2(hour) + ":" + Pad2(minutes);
    assert text[..2] == Pad2(hour) && text[3..] == Pad2(minutes);
  }

  // ---------------------------------------------------------------------
  // Repeat summary.

  /** Indices of the set days among the first i, in ascending order. */
  function SetDaysBelow(days: seq<bool>, i: nat): (r: seq<nat>)
    requires i <= |days|
    ensures |r| <= i
    ensures forall k :: 0 <= k < |r| ==> r[k] < i
  {
    if i == 0 then [] else SetDaysBelow(days, i - 1) + (if days[i - 1] then [i - 1] else [])
  }

  /** The list holds exactly the set days below i, each once, ascending. */
  lemma {:induction false} SetDaysBelowListsSetDays(days: seq<bool>, i: nat)
    requires i <= |days|
    ensures var r := SetDaysBelow(days, i);
      && (forall j :: 0 <= j < i ==> (days[j] <==> j in r))
      && (forall k, l :: 0 <= k < l < |r| ==> r[k] < r[l])
  {
    if i > 0 {
      SetDaysBelowListsSetDays(days, i - 1);
      var r := SetDaysBelow(days, i);
      var before := SetDaysBelow(days, i - 1);
      assert forall j :: j in r <==> j in before || (days[i - 1] && j == i - 1);
    }
  }

  function SetDays(days: Days): (listed: seq<nat>) {
    SetDaysBelow(days, 7)
  }

  /** The six summaries a day vector can get, in the order they are tested. */
  datatype Repeats = EveryDay | OnWeekdays | OnWeekends | OnOneDay(day: nat) | AnyDay | OnDays(which: seq<nat>)

  function Classify(days: Days): (r: Repeats) {
    var listed := SetDays(days);
    if |listed| == 7 then EveryDay
    else if |listed| == 5 && !days[0] && !days[6] then OnWeekdays
    else if |listed| == 2 && days[0] && days[6] then OnWeekends
    else if |listed| == 1 then OnOneDay(listed[0])
    else if |listed| == 0 then AnyDay
    else OnDays(listed)
  }

  /** Plural day names of a list of day indices. */
  function Names(ds: seq<nat>): (ns: seq<string>)
    requires forall k :: 0 <= k < |ds| ==> ds[k] < 7
    ensures |ns| == |ds|
    ensures forall k :: 0 <= k < |ds| ==> ns[k] == DaysPlural[ds[k]]
  {
    seq(|ds|, k requires 0 <= k < |ds| => DaysPlural[ds[k]])
  }

  /** Names separated by ", ", with nothing after the last one. */
  function Join(ns: seq<string>): (joined: string) {
    if ns == [] then ""
    else if |ns| == 1 then ns[0]
    else Join(ns[..|ns| - 1]) + Separator + ns[|ns| - 1]
  }

  /** Every name followed by ", ": what the append loop builds. */
  function Suffixed(ns: seq<string>): (suffixed: string) {
    if ns == [] then "" else Suffixed(ns[..|ns| - 1]) + ns[|ns| - 1] + Separator
  }

  function Label(r: Repeats): (text: string)
    requires r.OnOneDay? ==> r.day < 7
    requires r.OnDays? ==> forall k :: 0 <= k < |r.which| ==> r.which[k] < 7
  {
    match r
    case EveryDay => "Every Day"
    case OnWeekdays => WeekdaysTerm
    case OnWeekends => WeekendsTerm
    case OnOneDay(d) => DaysPlural[d]
    case AnyDay => "Any Day"
    case OnDays(ds) => Join(Names(ds))
  }

  /** The text rule_row_set_repeats puts in the repeats label. */
  function RepeatsLabel(days: Days): (text: string) {
    Label(Classify(days))
  }

  /** The seven set-or-not choices, written out. */
  lemma SetDaysUnfolded(days: Days)
    ensures SetDays(days) ==
      (if days[0] then [0] else []) + (if days[1] then [1] else []) +
      (if days[2] then [2] else []) + (if days[3] then [3] else []) +
      (if days[4] then [4] else []) + (if days[5] then [5] else []) +
      (if days[6] then [6] else [])
  {
    assert SetDaysBelow(days, 1) == (if days[0] then [0] else []);
    assert SetDaysBelow(days, 2) == SetDaysBelow(days, 1) + (if days[1] then [1] else []);
    assert SetDaysBelow(days, 3) == SetDaysBelow(days, 2) + (if days[2] then [2] else []);
    assert SetDaysBelow(days, 4) == SetDaysBelow(days, 3) + (if days[3] then [3] else []);
    assert SetDaysBelow(days, 5) == SetDaysBelow(days, 4) + (if days[4] then [4] else []);
    assert SetDaysBelow(days, 6) == SetDaysBelow(days, 5) + (if days[5] then [5] else []);
  }

  lemma {:induction false} SetDaysBelowPrefix(days: seq<bool>, i: nat, j: nat)
    requires i <= j <= |days|
    ensures SetDaysBelow(days, i) <= SetDaysBelow(days, j)
    decreases j
  {
    if i < j {
      SetDaysBelowPrefix(days, i, j - 1);
    }
  }

  lemma {:induction false} SuffixedIsJoinPlusSeparator(ns: seq<string>)
    requires ns != []
    ensures Suffixed(ns) == Join(ns) + Separator
    decreases |ns|
  {
    if |ns| > 1 {
      SuffixedIsJoinPlusSeparator(ns[..|ns| - 1]);
    } else {
      assert ns[..0] == [];
    }
  }

  // The six branches, each characterised by the day vector alone.

  lemma EveryDayExactly(days: Days)
    ensures Classify(days) == EveryDay <==> days == [true, true, true, true, true, true, true]
  {
    SetDaysUnfolded(days);
  }

  /** Five set days with Sunday and Saturday clear can only be Monday to
      Friday. */
  lemma WeekdaysExactly(days: Days)
    ensures Classify(days) == OnWeekdays <==> days == [false, true, true, true, true, true, false]
  {
    SetDaysUnfolded(days);
  }

  lemma WeekendsExactly(days: Days)
    ensures Classify(days) == OnWeekends <==> days == [true, false, false, false, false, false, true]
  {
    SetDaysUnfolded(days);
  }

  /** One set day gives that day, named by its plural. */
  lemma OneDayExactly(days: Days, d: nat)
    ensures Classify(days) == OnOneDay(d) <==> OnlyDay(days, d)
    ensures Classify(days) == OnOneDay(d) ==> RepeatsLabel(days) == DaysPlural[d]
  {
    SetDaysBelowListsSetDays(days, 7);
    if OnlyDay(days, d) {
      OnlyDayListed(days, d, 7);
    }
  }

  /** With only day d set, the list below i is [d] once i passes d. */
  lemma {:induction false} OnlyDayListed(days: Days, d: nat, i: nat)
    requires OnlyDay(days, d) && i <= 7
    ensures SetDaysBelow(days, i) == if d < i then [d] else []
  {
    if i > 0 {
      OnlyDayListed(days, d, i - 1);
    }
  }

  /** Exactly one day d is set. */
  ghost predicate OnlyDay(days: Days, d: nat) {
    d < 7 && days[d] && forall j :: 0 <= j < 7 && j != d ==> !days[j]
  }

  lemma AnyDayExactly(days: Days)
    ensures Classify(days) == AnyDay <==> days == NoDays
  {
    SetDaysUnfolded(days);
  }

  /** Everything not caught by the five earlier tests is listed, and the
      list holds at least two days: every set day and no other, in
      Sunday-first order. */
  lemma OnDaysOtherwise(days: Days)
    ensures Classify(days).OnDays? <==>
      && days != [true, true, true, true, true, true, true]
      && days != [false, true, true, true, true, true, false]
      && days != [true, false, false, false, false, false, true]
      && days != NoDays
      && !(exists d :: OnlyDay(days, d))
    ensures Classify(days).OnDays? ==>
      var ds := Classify(days).which;
      && 2 <= |ds|
      && (forall j :: 0 <= j < 7 ==> (days[j] <==> j in ds))
      && (forall k, l :: 0 <= k < l < |ds| ==> ds[k] < ds[l])
  {
    SetDaysBelowListsSetDays(days, 7);
    EveryDayExactly(days);
    WeekdaysExactly(days);
    WeekendsExactly(days);
    AnyDayExactly(days);
    if exists d :: OnlyDay(days, d) {
      var d :| OnlyDay(days, d);
      OneDayExactly(days, d);
    }
    if Classify(days).OnOneDay? {
      OneDayExactly(days, Classify(days).day);
    }
  }

  /** The listed label is the set days' names joined by ", ", and it ends
      with the last name, not with a separator. */
  lemma OnDaysLabel(days: Days)
    requires Classify(days).OnDays?
    ensures var ns := Names(SetDays(days));
      && 2 <= |ns|
      && RepeatsLabel(days) == Join(ns)
      && RepeatsLabel(days)[|RepeatsLabel(days)| - |ns[|ns| - 1]|..] == ns[|ns| - 1]
  {
  }

  /** Two adjacent days are listed, not summarised. */
  lemma ExampleTwoDays()
    ensures RepeatsLabel([true, true, false, false, false, false, false]) == "Sundays, Mondays"
  {
  }

  lemma SuffixedNamesStep(ds: seq<nat>, d: nat)
    requires d < 7 && forall k :: 0 <= k < |ds| ==> ds[k] < 7
    ensures Suffixed(Names(ds + [d])) == Suffixed(Names(ds)) + DaysPlural[d] + Separator
  {
    var ns := Names(ds + [d]);
    assert ns == Names(ds) + [DaysPlural[d]];
    assert ns[..|ns| - 1] == Names(ds);
  }

  /** The counting loop of rule_row_set_repeats. */
  method CountSetDays(days: Days) returns (sum: nat)
    ensures sum == |SetDays(days)|
  {
    sum := 0;
    for i := 0 to 7
      invariant sum == |SetDaysBelow(days, i)|
    {
      if days[i] {
        sum := sum + 1;
      }
    }
  }

  /** The search of the one-day case: the source scans for the first set day
      and breaks out of its loop there. */
  method FirstSetDay(days: Days) returns (i: nat)
    requires SetDays(days) != []
    ensures i < 7 && i == SetDays(days)[0]
  {
    i := 0;
    while i < 7 && !days[i]
      invariant 0 <= i <= 7
      invariant SetDaysBelow(days, i) == []
    {
      i := i + 1;
    }
    SetDaysBelowPrefix(days, i + 1, 7);
  }

  /** The append loop of the list case: "<name>, " per set day. */
  method AppendSetDays(days: Days) returns (repeated: string)
    ensures repeated == Suffixed(Names(SetDays(days)))
  {
    repeated := "";
    for i := 0 to 7
      invariant repeated == Suffixed(Names(SetDaysBelow(days, i)))
    {
      ghost var ds := SetDaysBelow(days, i);
      if days[i] {
        assert SetDaysBelow(days, i + 1) == ds + [i];
        SuffixedNamesStep(ds, i);
        repeated := repeated + DaysPlural[i] + Separator;
      } else {
        assert SetDaysBelow(days, i + 1) == ds;
      }
    }
  }

  /** rule_row_set_repeats: count the set days, then test the six cases in
      order; the list case cuts the final separator, which is always there
      because that case lists at least two days. */
  method FormatRepeats(days: Days) returns (text: string)
    ensures text == RepeatsLabel(days)
  {
    var sum := CountSetDays(days);
    if sum == 7 {
      text := "Every Day";
    } else if sum == 5 && !days[0] && !days[6] {
      text := WeekdaysTerm;
    } else if sum == 2 && days[0] && days[6] {
      text := WeekendsTerm;
    } else if sum == 1 {
      var i := FirstSetDay(days);
      text := DaysPlural[i];
    } else if sum == 0 {
      text := "Any Day";
    } else {
      var repeated := AppendSetDays(days);
      SuffixedIsJoinPlusSeparator(Names(SetDays(days)));
      text := repeated[..|repeated| - 2];
    }
  }

  // ---------------------------------------------------------------------
  // The row widget.

  const StateFailedError: string := "Failed to change rule state"
  const DeleteFailedError: string := "Failed to dele rule"
  const UpdateFailedError: string := "Failed to update rule"

  /** The title rule_row_init shows until a rule is loaded. */
  const UnnamedTitle: Bytes := AsciiBytes("Unnamed rule")

  /** The table a row gets for its "table" construct property. The param
      spec accepts 0 to TABLE_LAST - 1, so GLib refuses TABLE_LAST and the
      zero-filled TABLE_ON stays. */
  function RowTable(requested: Table): (table: Table)
    ensures table != TableLast
    ensures requested != TableLast ==> table == requested
  {
    if requested == TableLast then TableOn else requested
  }

  class RuleRow {
    var ruleId: nat
    var table: Table
    var title: Bytes
    var timeLabel: string
    var repeatsLabel: string
    /** The mode shown (and revealed) for a turn-off rule. */
    var modeShown: Option<Mode>
    /** The switch's position (GtkSwitch "active") and its state. */
    var switchActive: bool
    var switchState: bool
    var visible: bool

    /** The row displays `rule`. */
    ghost predicate Shows(rule: Rule)
      reads this
    {
      && ruleId == rule.id && table == rule.table
      && title == rule.name
      && timeLabel == TimeLabel(rule.hour, rule.minutes)
      && repeatsLabel == RepeatsLabel(rule.days)
      && (rule.table == TableOff ==> modeShown == Some(rule.mode))
      && switchActive == rule.active
    }

    /** Moving the switch from `oldActive` to `active`: the same position
        emits nothing; a new one takes the state the store accepted, or
        keeps `oldState` and reports the store's refusal. */
    ghost predicate SwitchedTo(active: bool, oldActive: bool, oldState: bool, error: Option<string>)
      reads this
    {
      if oldActive == active then error == None && switchState == oldState
      else (error == None && switchState == active) || (error == Some(StateFailedError) && switchState == oldState)
    }

    /** rule_row_new: instance init, the "table" and "id" construct
        properties, then rule_row_constructed loads the rule. An error the
        switch reports while loading is emitted before anyone is connected to
        the row, so it is lost, and the switch then shows an active rule
        whose state is still off. */
    constructor (table: Table, ruleId: nat, store: RuleStore)
      requires store.Valid()
      modifies store
      ensures store.Valid() && store.available == old(store.available) && store.rules == old(store.rules)
      ensures visible && this.ruleId == ruleId && this.table == RowTable(table)
      ensures old(store.GetSingle(ruleId, RowTable(table))).Some? ==>
        Shows(old(store.GetSingle(ruleId, RowTable(table))).value) && (switchState ==> switchActive)
      ensures old(store.GetSingle(ruleId, RowTable(table))).None? ==>
        && title == UnnamedTitle && timeLabel == "--:--"
        && modeShown == None && !switchActive && !switchState
    {
      this.ruleId := 0;
      this.table := TableOn;
      title := [];
      timeLabel := "";
      repeatsLabel := "";
      modeShown := None;
      switchActive := false;
      switchState := false;
      visible := true;
      new;
      // rule_row_init
      title := UnnamedTitle;
      timeLabel := "--:--";
      // construct properties
      this.table := RowTable(table);
      this.ruleId := ruleId;
      // rule_row_constructed
      var loaded := store.GetSingle(ruleId, this.table);
      if loaded.Some? {
        var _ := ShowRule(loaded.value, store);
      }
    }

    /** The field setters rule_row_constructed and rule_row_update_fields
        apply to a loaded rule. Setting the switch to a new position emits
        "state-set", which writes the flag back to the store: the same
        value, so the records stay as they were whether or not the store
        accepts the write. */
    method ShowRule(rule: Rule, store: RuleStore) returns (error: Option<string>)
      requires store.Valid()
      requires store.GetSingle(rule.id, rule.table) == Some(rule)
      modifies this, store
      ensures store.Valid() && store.available == old(store.available) && store.rules == old(store.rules)
      ensures Shows(rule)
      ensures SwitchedTo(rule.active, old(switchActive), old(switchState), error)
      ensures visible == old(visible)
      ensures rule.table != TableOff ==> modeShown == old(modeShown)
    {
      ShowLabels(rule);
      error := SetActive(rule.active, store);
      assert store.rules[Key(rule.table, rule.id) := rule.(active := rule.active)] == store.rules;
    }

    /** The setters before the switch's: id, title, time, mode, table and
        repeats. */
    method ShowLabels(rule: Rule)
      modifies this`ruleId, this`title, this`timeLabel, this`modeShown, this`table, this`repeatsLabel
      ensures ruleId == rule.id && table == rule.table && title == rule.name
      ensures timeLabel == TimeLabel(rule.hour, rule.minutes) && repeatsLabel == RepeatsLabel(rule.days)
      ensures modeShown == if rule.table == TableOff then Some(rule.mode) else old(modeShown)
    {
      ruleId := rule.id;
      title := rule.name;
      timeLabel := TimeLabel(rule.hour, rule.minutes);
      if rule.table == TableOff {
        modeShown := Some(rule.mode);
      }
      table := rule.table;
      repeatsLabel := FormatRepeats(rule.days);
    }

    /** gtk_switch_set_active: only a change of position emits "state-set",
        whose handler is ChangeActive. */
    method SetActive(active: bool, store: RuleStore) returns (error: Option<string>)
      requires store.Valid()
      modifies this`switchActive, this`switchState, store
      ensures store.Valid() && store.available == old(store.available)
      ensures switchActive == active
      ensures old(switchActive) == active ==>
        error == None && switchState == old(switchState) && store.rules == old(store.rules)
      ensures old(switchActive) != active ==> ChangedActive(active, old(store.available), old(store.rules), store.rules, old(switchState), error)
    {
      if switchActive != active {
        switchActive := active;
        error := ChangeActive(active, store);
      } else {
        error := None;
      }
    }

    /** The user flips the switch: GTK moves its position at once and emits
        "state-set" for the new position. */
    method SwitchClicked(store: RuleStore) returns (error: Option<string>)
      requires store.Valid()
      modifies this`switchActive, this`switchState, store
      ensures store.Valid() && store.available == old(store.available)
      ensures switchActive == !old(switchActive)
      ensures ChangedActive(!old(switchActive), old(store.available), old(store.rules), store.rules, old(switchState), error)
    {
      error := SetActive(!switchActive, store);
    }

    /** What the "state-set" handler does for a request `state`: with no
        error the store and the state both took it; with the error neither
        changed; the error is certain when the storage is unreachable or
        the rule is gone. */
    ghost predicate ChangedActive(state: bool, available: bool, before: map<Key, Rule>, after: map<Key, Rule>,
                                  oldState: bool, error: Option<string>)
      reads this
    {
      var key := Key(table, ruleId);
      && (error == None ==>
            available && key in before && switchState == state && after == before[key := before[key].(active := state)])
      && (error != None ==> error == Some(StateFailedError) && switchState == oldState && after == before)
      && (!(available && key in before) ==> error != None)
    }

    /** rule_row_change_active: the switch takes the requested state only
        when the store accepted it; otherwise the row emits "error". The
        handler returns TRUE, so GTK does not change the state itself. */
    method ChangeActive(state: bool, store: RuleStore) returns (error: Option<string>)
      requires store.Valid()
      modifies this`switchState, store
      ensures store.Valid() && store.available == old(store.available)
      ensures ChangedActive(state, old(store.available), old(store.rules), store.rules, old(switchState), error)
    {
      var ok := store.EnableDisable(ruleId, table, state);
      if !ok {
        error := Some(StateFailedError);
      } else {
        switchState := state;
        error := None;
      }
    }

    /** rule_row_delete_rule: the row hides itself only when the store
        deleted the rule, and emits "rule-deleted" (carrying its table) in
        both cases. */
    method DeleteClicked(store: RuleStore) returns (error: Option<string>, deleted: Table)
      requires store.Valid()
      modifies this`visible, store
      ensures store.Valid() && store.available == old(store.available)
      ensures deleted == table
      ensures error == None ==>
        && old(store.available) && Key(table, ruleId) in old(store.rules)
        && !visible && store.rules == old(store.rules) - {Key(table, ruleId)}
      ensures error != None ==>
        error == Some(DeleteFailedError) && visible == old(visible) && store.rules == old(store.rules)
      ensures !(old(store.available) && Key(table, ruleId) in old(store.rules)) ==> error != None
    {
      var ok := store.Delete(ruleId, table);
      if !ok {
        error := Some(DeleteFailedError);
      } else {
        visible := false;
        error := None;
      }
      deleted := table;
    }

    /** rule_row_update_fields: reload the rule after an edit; a row whose
        rule cannot be read is left exactly as it was. */
    method UpdateFields(store: RuleStore) returns (error: Option<string>)
      requires store.Valid()
      modifies this, store
      ensures store.Valid() && store.available == old(store.available) && store.rules == old(store.rules)
      ensures var loaded := old(store.GetSingle(ruleId, table));
        if loaded.Some? then
          && Shows(loaded.value) && visible == old(visible)
          && (loaded.value.table != TableOff ==> modeShown == old(modeShown))
          && SwitchedTo(loaded.value.active, old(switchActive), old(switchState), error)
        else error == Some(UpdateFailedError) && unchanged(this)
    {
      var loaded := store.GetSingle(ruleId, table);
      if loaded.None? {
        return Some(UpdateFailedError);
      }
      error := ShowRule(loaded.value, store);
    }
  }
}
