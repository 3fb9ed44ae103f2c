/** The rule setup dialog (src/rule-setup-dialog.c): the window in which a
    rule is added or edited. It is built in GObject order (zero-filled
    instance, rule_setup_dialog_init, the construct properties, then
    rule_setup_dialog_constructed), and its action button assembles a rule
    from the fields, validates it and hands it to the variant's action.
    The "done" signal and the toasts are values the members return or
    record. rule_validate_rule is not part of this model: it is a
    parameter. */
module SetupDialog {
  import opened Rules
  import opened Text
  import opened Store
  import opened DialogProps
  import SetupDialogAdd
  import SetupDialogEdit

  /** Which class's perform_action the dialog has. */
  datatype Variant = Plain | AddVariant | EditVariant

  /** The arguments of "done": cancelled, table, id. */
  datatype Done = Done(cancelled: bool, table: Table, id: nat)

  const InvalidToast: string := "Invalid rule attributes"
  const FailedToast: string := "Operation failed"
  const LoadFailedToast: string := "Failed to get rule attributes"

  /** What a validated rule does to the store, by variant, with `id` the
      action's result: the base action does nothing and returns 0. */
  ghost predicate Performed(variant: Variant, before: map<Key, Rule>, available: bool, rule: Rule,
                            id: nat, after: map<Key, Rule>)
  {
    match variant
    case Plain => id == 0 && after == before
    case AddVariant => AddSpec(before, available, rule, id, after)
    case EditVariant => EditSpec(before, available, rule, id, after)
  }

  class RuleSetupDialog {
    const variant: Variant
    var ruleId: nat
    var table: Table
    var active: bool
    /** The private mode field: set by init, read by nothing. */
    var mode: Mode
    var title: Option<string>
    var actionButtonLabel: Option<string>
    /** The entry, spin buttons, day toggles and mode combo. */
    /** The name entry's text, as its UTF-8 bytes. */
    var nameText: Bytes
    var hour: UInt8
    var minutes: UInt8
    var dayToggles: Days
    var modeSelected: Mode
    var modeRowVisible: bool
    var toasts: seq<string>
    var closed: bool

    /** g_object_new on the dialog's class with the given construct
        properties. */
    constructor (variant: Variant, props: Props, store: RuleStore)
      requires store.Valid()
      ensures this.variant == variant
      ensures ruleId == IdOf(props) && table == TableOf(props)
      ensures title == props.title && actionButtonLabel == props.actionButtonLabel
      ensures mode == ModeLast && !closed
      ensures modeRowVisible <==> table == TableOff
      ensures ruleId == 0 ==>
        && active == ActiveOf(props) && toasts == []
        && nameText == [] && hour == 0 && minutes == 0 && dayToggles == NoDays && modeSelected == ModeOff
      ensures ruleId != 0 ==> Loaded(ActiveOf(props), store.GetSingle(ruleId, table))
    {
      // The zero-filled instance.
      this.variant := variant;
      ruleId := 0;
      table := TableOn;
      active := false;
      mode := ModeOff;
      title := None;
      actionButtonLabel := None;
      nameText := [];
      hour := 0;
      minutes := 0;
      dayToggles := NoDays;
      modeSelected := ModeOff;
      modeRowVisible := true;
      toasts := [];
      closed := false;
      new;
      Init();
      SetProperties(props);
      Constructed(store);
    }

    /** rule_setup_dialog_init: the instance fields' own defaults, and the
        mode combo on MODE_OFF. */
    method Init()
      modifies this`ruleId, this`table, this`active, this`mode, this`modeSelected
      ensures ruleId == 0 && table == TableLast && active && mode == ModeLast && modeSelected == ModeOff
    {
      ruleId := 0;
      table := TableLast;
      active := true;
      mode := ModeLast;
      modeSelected := ModeOff;
    }

    /** rule_setup_dialog_set_property for each construct property, given
        or defaulted. */
    method SetProperties(props: Props)
      modifies this`ruleId, this`table, this`active, this`title, this`actionButtonLabel
      ensures ruleId == IdOf(props) && table == TableOf(props) && active == ActiveOf(props)
      ensures title == props.title && actionButtonLabel == props.actionButtonLabel
    {
      ruleId := IdOf(props);
      table := TableOf(props);
      active := ActiveOf(props);
      title := props.title;
      actionButtonLabel := props.actionButtonLabel;
    }

    /** rule_setup_dialog_constructed: show the mode row for the turn-off
        table only; with a non-zero id, load the rule into the fields. */
    method Constructed(store: RuleStore)
      requires store.Valid()
      requires toasts == [] && nameText == [] && hour == 0 && minutes == 0
      requires dayToggles == NoDays && modeSelected == ModeOff
      modifies this`modeRowVisible, this`nameText, this`hour, this`minutes, this`active,
               this`dayToggles, this`modeSelected, this`toasts
      ensures modeRowVisible <==> table == TableOff
      ensures ruleId == 0 ==>
        && active == old(active) && toasts == []
        && nameText == [] && hour == 0 && minutes == 0 && dayToggles == NoDays && modeSelected == ModeOff
      ensures ruleId != 0 ==> Loaded(old(active), store.GetSingle(ruleId, table))
    {
      modeRowVisible := table == TableOff;
      if ruleId == 0 {
        return;
      }
      var loaded := store.GetSingle(ruleId, table);
      if loaded.Some? {
        nameText := loaded.value.name;
        hour := loaded.value.hour;
        minutes := loaded.value.minutes;
        active := loaded.value.active;
        dayToggles := loaded.value.days;
        if table == TableOff {
          modeSelected := loaded.value.mode;
        }
      } else {
        toasts := [LoadFailedToast];
      }
    }

    /** The fields after rule_setup_dialog_constructed tried to load a rule,
        starting from the defaults and the "active" property `active0`: a
        loaded rule fills name, time, active flag and days, and its mode
        only for the turn-off table; a failed load leaves the defaults and
        adds a toast. */
    ghost predicate Loaded(active0: bool, loaded: Option<Rule>)
      reads this
    {
      if loaded.Some? then
        && nameText == loaded.value.name && hour == loaded.value.hour && minutes == loaded.value.minutes
        && active == loaded.value.active && dayToggles == loaded.value.days && toasts == []
        && modeSelected == (if table == TableOff then loaded.value.mode else ModeOff)
      else
        && nameText == [] && hour == 0 && minutes == 0 && active == active0
        && dayToggles == NoDays && modeSelected == ModeOff && toasts == [LoadFailedToast]
    }

    /** The rule the action button builds from the dialog's fields; the name
        goes through g_snprintf into a RULE_NAME_LENGTH-byte buffer, so it
        keeps at most RULE_NAME_LENGTH - 1 bytes of the entry's UTF-8 text. */
    function AssembledRule(nameLength: nat): (rule: Rule)
      requires 1 <= nameLength
      reads this
      ensures rule.id == ruleId && rule.active == active && rule.table == table
      ensures rule.name <= nameText && |rule.name| <= nameLength - 1
      ensures |nameText| < nameLength ==> rule.name == nameText
      ensures rule.hour == hour && rule.minutes == minutes && rule.mode == modeSelected
      ensures forall i :: 0 <= i < 7 ==> rule.days[i] == dayToggles[i]
    {
      Rule(ruleId, Snprintf(nameText, nameLength), hour, minutes, dayToggles, active, modeSelected, table)
    }

    /** The first half of rule_setup_dialog_action_button_clicked: the rule
        struct filled field by field. */
    method AssembleRule(nameLength: nat) returns (rule: Rule)
      requires 1 <= nameLength
      ensures rule == AssembledRule(nameLength)
    {
      var days := NoDays;
      days := days[0 := dayToggles[0]];
      days := days[1 := dayToggles[1]];
      days := days[2 := dayToggles[2]];
      days := days[3 := dayToggles[3]];
      days := days[4 := dayToggles[4]];
      days := days[5 := dayToggles[5]];
      days := days[6 := dayToggles[6]];
      rule := Rule(ruleId, Snprintf(nameText, nameLength), hour, minutes, days, active, modeSelected, table);
    }

    /** The class's perform_action. */
    method PerformAction(rule: Rule, store: RuleStore) returns (id: nat)
      requires store.Valid()
      modifies store
      ensures store.Valid() && store.available == old(store.available)
      ensures Performed(variant, old(store.rules), old(store.available), rule, id, store.rules)
    {
      match variant
      case Plain =>
        id := 0;
      case AddVariant =>
        id := SetupDialogAdd.PerformAction(rule, store);
      case EditVariant =>
        id := SetupDialogEdit.PerformAction(rule, store);
    }

    /** rule_setup_dialog_action_button_clicked. An invalid rule reaches no
        action; a valid one is handed to perform_action, whose 0 means
        failure; only a non-zero id emits done(FALSE, table, id). */
    method ActionButtonClicked(store: RuleStore, validate: Rule -> bool) returns (done: Option<Done>)
      requires store.Valid()
      modifies this`toasts, store
      ensures store.Valid() && store.available == old(store.available)
      ensures var rule := AssembledRule(store.nameLength);
        if !validate(rule) then
          done == None && toasts == old(toasts) + [InvalidToast] && store.rules == old(store.rules)
        else
          && Performed(variant, old(store.rules), old(store.available), rule,
                       if done.Some? then done.value.id else 0, store.rules)
          && (done.None? ==> toasts == old(toasts) + [FailedToast])
          && (done.Some? ==> done.value == Done(false, table, done.value.id) && done.value.id != 0
                             && toasts == old(toasts))
      ensures variant == EditVariant && done.Some? ==> done.value.id == ruleId
      ensures variant == Plain ==> done == None && store.rules == old(store.rules)
    {
      var rule := AssembleRule(store.nameLength);
      if validate(rule) {
        var id := PerformAction(rule, store);
        if id == 0 {
          toasts := toasts + [FailedToast];
          done := None;
        } else {
          done := Some(Done(false, table, id));
        }
      } else {
        toasts := toasts + [InvalidToast];
        done := None;
      }
    }

    /** rule_setup_dialog_cancel_button_clicked: done(TRUE, TABLE_LAST, 0),
        whatever the fields hold. */
    method CancelClicked() returns (done: Done)
      ensures done.cancelled && done.table == TableLast && done.id == 0
    {
      done := Done(true, TableLast, 0);
    }

    /** rule_setup_dialog_finish: close the window. */
    method Finish()
      modifies this`closed
      ensures closed
    {
      closed := true;
    }
  }

  /** The window title tells the variant apart, and within a variant it
      depends only on whether the table is TABLE_ON. */
  lemma TitlesTellVariantAndTable(a: Table, b: Table)
    ensures SetupDialogAdd.Title(a) != SetupDialogEdit.Title(b)
    ensures SetupDialogAdd.Title(a) == SetupDialogAdd.Title(b) <==> (a == TableOn <==> b == TableOn)
    ensures SetupDialogEdit.Title(a) == SetupDialogEdit.Title(b) <==> (a == TableOn <==> b == TableOn)
  {
    assert SetupDialogAdd.Title(a)[0] != SetupDialogEdit.Title(b)[0];
    assert "Add turn on rule"[10] != "Add turn off rule"[10];
    assert "Edit turn on rule"[11] != "Edit turn off rule"[11];
  }

  /** rule_setup_dialog_new: no properties, so the param-spec defaults. */
  method NewPlain(store: RuleStore) returns (dialog: RuleSetupDialog)
    requires store.Valid()
    ensures fresh(dialog) && dialog.variant == Plain
    ensures dialog.ruleId == 0 && dialog.table == TableOn && !dialog.active && dialog.toasts == []
    ensures dialog.title == None && dialog.actionButtonLabel == None
  {
    dialog := new RuleSetupDialog(Plain, NoProps, store);
  }

  /** rule_setup_dialog_add_new: no id, so nothing is loaded; the rule will
      be active and go to `table`. */
  method NewAdd(table: Table, store: RuleStore) returns (dialog: RuleSetupDialog)
    requires store.Valid()
    ensures fresh(dialog) && dialog.variant == AddVariant
    ensures dialog.ruleId == 0 && dialog.table == table && dialog.active && dialog.toasts == []
    ensures dialog.nameText == [] && dialog.dayToggles == NoDays && dialog.modeSelected == ModeOff
    ensures dialog.modeRowVisible <==> table == TableOff
    ensures dialog.title == Some(SetupDialogAdd.Title(table))
    ensures dialog.actionButtonLabel == Some(SetupDialogAdd.ActionButtonLabel)
  {
    dialog := new RuleSetupDialog(AddVariant, SetupDialogAdd.NewProps(table), store);
  }

  /** rule_setup_dialog_edit_new: a non-zero id preloads the stored rule. */
  method NewEdit(table: Table, ruleId: nat, store: RuleStore) returns (dialog: RuleSetupDialog)
    requires store.Valid()
    ensures fresh(dialog) && dialog.variant == EditVariant
    ensures dialog.ruleId == ruleId && dialog.table == table
    ensures dialog.title == Some(SetupDialogEdit.Title(table))
    ensures dialog.actionButtonLabel == Some(SetupDialogEdit.ActionButtonLabel)
    ensures ruleId != 0 ==> dialog.Loaded(DefaultActive, store.GetSingle(ruleId, table))
  {
    dialog := new RuleSetupDialog(EditVariant, SetupDialogEdit.NewProps(table, ruleId), store);
  }
}
