# Gawake front end: rules, rows, setup dialogs and the countdown

Gawake schedules wake-ups and shutdowns from two tables of recurring rules,
the turn-on table and the turn-off table. This project models the part of its
GTK front end that decides what the user sees and what is sent to the rule
store. The model covers:

- **The rule row** (`RuleRows`, src/rule-row.c). A row shows one rule's name,
  its `HH:MM` time and a summary of its repeat days. The summary is one of
  "Every Day", "Weekdays", "Weekends", a single day's plural name, "Any Day",
  or the set days' names joined by ", ". The row also owns an active switch
  and a delete button, each of which calls the store.
- **The schedule countdown** (`Countdown`, src/schedule-countdown.c). A window
  counts from five to zero, one tick per second, and then asks for the
  schedule. Its two buttons ask for the schedule at once or call it off.
- **The rule setup dialog** (`SetupDialog`, src/rule-setup-dialog.c) and its
  Add and Edit variants (`SetupDialogAdd`, `SetupDialogEdit`). The dialog is
  built in GObject order and may preload a stored rule. Its action button
  assembles a rule from the fields, validates it, hands it to the variant's
  action, and turns the result into "done" or a toast.
- **The rule face** (`Face`, src/rule-face.c). This is the page that lists one
  table's rules. It keeps a `guint16` row counter beside the list box, and it
  shows the empty view exactly when that counter is zero.
- **The day toggle row** (`DaysRows`, src/days-row.c). Seven toggles can be
  copied out to a caller's array and set from one. A non-interactive row
  undoes every click.

The rule store lives outside the front end. It is modelled in `Store` as a
class holding a map from (table, id) to rule. Any of its operations may fail,
either because the storage is unreachable or because the addressed id is
absent. A write may also be refused for reasons of the store's own, even
right after a read of the same rule succeeded, and a refused write changes
nothing. Each operation reports failure the way the front end reads it: a
status, an absent rule, or an id of 0. The model makes two choices here:

- `Store.RuleStore.Add` picks some unused non-zero id. The store's own id
  policy is not modelled.
- `Store.RuleStore.GetAll` lists a table's rules in an order the store
  chooses.

Rule validation is also part of the store layer. It enters the dialog as a
parameter, `validate`.

A rule's name is held as bytes (`Rules.Bytes`): the name entry's text is
its UTF-8 encoding, and the `RULE_NAME_LENGTH` buffer bounds it in bytes.
The labels the model builds itself (times, repeat summaries, titles) are
ASCII strings, where a character is a byte.

Signals are modelled as the values that members return: an `Option<string>`
error, a `Done` record, or a `bool` for "schedule". Toasts are appended to a
`toasts` field. A shown label is a `string` field of the widget's class.

Where the behaviour the project documents differs from the code, the model
follows the code:

- **The setup dialog stores a mode for every rule.** The combo row starts on
  MODE_OFF, and its selection goes into every rule the dialog assembles
  (src/rule-setup-dialog.c:141, 410). The "unset" mode is therefore never
  stored for a turn-on rule.
- **The Edit dialog does not pass "active".** So the flag starts at its
  param-spec default, FALSE, rather than the TRUE that
  `rule_setup_dialog_init` writes. It keeps FALSE when loading the rule fails
  (src/rule-setup-dialog.c:328-330).
- **The days row's table is TABLE_ON.** `days_row_new` passes only
  "interactive", so "table" takes its param-spec default, TABLE_ON. That
  overwrites the TABLE_LAST written by `days_row_init`
  (src/days-row.c:199-206, 225-240).
- **The row's table is range-checked.** The "table" property of a rule row
  only accepts 0 to TABLE_LAST - 1 (src/rule-row.c:396-401). A TABLE_LAST
  argument is refused, and the zero-filled TABLE_ON stays.
- **The face's type is range-checked.** The "type" property only accepts 0 to
  RULE_FACE_TYPE_LAST - 1. A RULE_FACE_TYPE_LAST argument to `rule_face_new`
  is refused, so the zero-filled type (TURN_ON) stays and the face is
  populated. The early return in `rule_face_constructed` is modelled in
  `Face.RuleFace.Constructed`, but the constructor cannot reach it.
- **Not every store failure reaches the user.**
  - A failure while a row is being constructed is only logged.
  - A switch error raised during construction is emitted before anyone
    listens, so it is lost too. When the store refuses that write, the row
    shows an active rule whose switch state is still off.
  - A failed delete still emits "rule-deleted", so the face removes the row
    anyway.

## Model

| member | source | states |
|---|---|---|
| Text.Pad2 | src/rule-row.c:143-144 | "%02d" of a non-negative number: at least two characters, all digits |
| Text.Decimal | src/rule-row.c:143-144 | the decimal digits "%02d" pads: one or more digits, exactly one iff the number is below 10 |
| Text.ValueOfDecimal | src/rule-row.c:143-144 | reading back the decimal digits gives the number (round trip) |
| Text.DigitValue | src/rule-row.c:143-144 | a digit character's value is below 10 and is the digit that prints as that character (inverse of Digit) |
| Text.Pad2TwoDigits | src/rule-row.c:143-144 | below 100, "%02d" is exactly the tens and units digits and reads back as the number |
| Text.Snprintf | src/rule-setup-dialog.c:119-120 | g_snprintf into a buffer of `size` bytes keeps a prefix of at most size - 1 bytes, and the whole text when it fits |
| Store.RuleStore.GetSingle | src/rule-row.c:325 | a rule is found iff the storage is reachable and the (table, id) key is stored; the rule found carries that id and table |
| Store.RuleStore.GetAll | src/rule-face.c:227 | fails iff the storage is unreachable; otherwise lists every record of the table once, and nothing else |
| Store.RuleStore.Add | src/rule-setup-dialog-add.c:35 | returns 0 and changes nothing on failure, certain when unreachable; otherwise stores the rule under a fresh non-zero id and returns that id |
| Store.RuleStore.Edit | src/rule-setup-dialog-edit.c:35 | on success replaces the record with the rule's table and id and returns the id; returns 0 and changes nothing on failure, certain if unreachable or absent |
| Store.RuleStore.Delete | src/rule-row.c:275 | succeeds only if reachable and present, and then removes exactly that record; a failure changes nothing |
| Store.RuleStore.EnableDisable | src/rule-row.c:258 | succeeds only if reachable and present, and then changes only that record's active flag; a failure changes nothing |
| RuleRows.TimeLabel | src/rule-row.c:134-147 | the time label never exceeds the five characters the 6-byte buffer holds |
| RuleRows.TimeLabelRoundTrip | src/rule-row.c:134-147 | for hour and minutes up to 99 the label is exactly HH:MM, with digits around the colon, reading back as the hour and the minutes |
| RuleRows.SetDaysBelow | src/rule-row.c:178-179 | the set days among the first i are at most i indices, each below i |
| RuleRows.SetDaysBelowListsSetDays | src/rule-row.c:225-229 | the listed days are exactly the set days (both directions), in strictly increasing order |
| RuleRows.EveryDayExactly | src/rule-row.c:182-186 | "Every Day" is chosen iff all seven days are set |
| RuleRows.WeekdaysExactly | src/rule-row.c:188-193 | the weekdays branch is taken iff exactly Monday to Friday are set |
| RuleRows.WeekendsExactly | src/rule-row.c:195-200 | the weekends branch is taken iff exactly Sunday and Saturday are set |
| RuleRows.OneDayExactly | src/rule-row.c:202-213 | the one-day branch names day d iff d is the only set day, and the label is then d's plural name |
| RuleRows.AnyDayExactly | src/rule-row.c:215-220 | "Any Day" is chosen iff no day is set |
| RuleRows.OnDaysOtherwise | src/rule-row.c:222-237 | the list branch is taken iff none of the five earlier cases applies; it then lists at least two days, every set day and no other, Sunday first |
| RuleRows.OnDaysLabel | src/rule-row.c:222-237 | the list label is the names joined by ", " and ends with the last name, not a separator |
| RuleRows.SuffixedIsJoinPlusSeparator | src/rule-row.c:225-232 | the appended "<name>, " text equals the joined names plus one trailing ", ", so cutting two characters leaves the joined names |
| RuleRows.ExampleTwoDays | src/rule-row.c:222-237 | Sunday and Monday together are listed as "Sundays, Mondays" |
| RuleRows.CountSetDays | src/rule-row.c:174-179 | the counting loop yields the number of set days |
| RuleRows.FirstSetDay | src/rule-row.c:205-212 | the scan with break stops at the first set day |
| RuleRows.AppendSetDays | src/rule-row.c:225-229 | the append loop builds "<name>, " for each set day, in day order |
| RuleRows.FormatRepeats | src/rule-row.c:170-241 | the repeats label is the summary of the day vector whose six cases the lemmas above characterise |
| RuleRows.RuleRow.constructor | src/rule-row.c:308-344 | a row for a stored rule shows that rule, its switch state on only if its position is; otherwise it keeps "Unnamed rule" and "--:--"; a TABLE_LAST table is refused |
| RuleRows.RowTable | src/rule-row.c:396-401 | the row's table is never TABLE_LAST, and is the requested one whenever that is in range |
| RuleRows.RuleRow.ShowRule | src/rule-row.c:329-338 | after the setters the row shows the rule and the store is as it was; the switch state changes only if the position changed and the store accepted it, else the refusal is reported |
| RuleRows.RuleRow.ShowLabels | src/rule-row.c:296-304 | id, title, time, table and repeats follow the rule; the mode is set only for a turn-off rule |
| RuleRows.RuleRow.SetActive | src/rule-row.c:243-248 | the switch takes the position; "state-set" runs only when the position changes |
| RuleRows.RuleRow.SwitchClicked | src/rule-row.c:447-450 | a user flip moves the position and runs the state-set handler for the new position |
| RuleRows.RuleRow.ChangeActive | src/rule-row.c:250-266 | with no error the store and the switch state both took the request; with "Failed to change rule state" neither changed; the error is certain when the rule cannot be reached |
| RuleRows.RuleRow.DeleteClicked | src/rule-row.c:268-283 | with no error the store deleted the rule and the row is hidden; otherwise "Failed to dele rule", nothing changed; "rule-deleted" with the row's table in both cases |
| RuleRows.RuleRow.UpdateFields | src/rule-row.c:285-306 | a reloaded rule is shown, the mode kept for a non-OFF rule, the switch moved as ShowRule does; if it cannot be loaded, "Failed to update rule" and the row is unchanged |
| Countdown.Title | src/schedule-countdown.c:86-96 | the title is five characters starting "00:" |
| Countdown.TitleOfSingleDigit | src/schedule-countdown.c:86-96 | a single-digit value S is shown as 00:0S and reads back as S |
| Countdown.ScheduleCountdown.constructor | src/schedule-countdown.c:157-186 | the title shows 5, seconds_remaining is 4, the timer is attached |
| Countdown.ScheduleCountdown.Tick | src/schedule-countdown.c:98-119 | with time left: show the current value, decrement by one, keep the timer; at zero: show 0, emit schedule(TRUE), remove the timer; never increases, never negative |
| Countdown.ScheduleCountdown.SetTitle | src/schedule-countdown.c:86-96 | the title becomes the formatted value and is appended to the titles shown |
| Countdown.ScheduleCountdown.CancelClicked | src/schedule-countdown.c:62-72 | emits schedule(FALSE) whatever the remaining time |
| Countdown.ScheduleCountdown.ScheduleClicked | src/schedule-countdown.c:74-84 | emits schedule(TRUE) whatever the remaining time |
| Countdown.ScheduleCountdown.Finalize | src/schedule-countdown.c:54-60 | the timer is destroyed and the window closed |
| Countdown.RunUninterrupted | src/schedule-countdown.c:98-119 | left alone, the titles are 5, 4, 3, 2, 1, 0, and schedule(TRUE) is emitted exactly once, on the fifth tick |
| SetupDialogAdd.NewProps | src/rule-setup-dialog-add.c:52-64 | the Add dialog gets no id, the given table, active TRUE, its title and "Add" |
| SetupDialogAdd.PerformAction | src/rule-setup-dialog-add.c:32-36 | returns rule_add's result unchanged, 0 meaning failure |
| SetupDialogEdit.NewProps | src/rule-setup-dialog-edit.c:52-64 | the Edit dialog gets the id and table, no "active" (so FALSE), its title and "Done" |
| SetupDialogEdit.PerformAction | src/rule-setup-dialog-edit.c:32-36 | returns rule_edit's result unchanged |
| SetupDialog.RuleSetupDialog.constructor | src/rule-setup-dialog.c:224-281 | built in GObject order: the mode row is visible iff TABLE_OFF; id 0 loads nothing; otherwise the rule is loaded or a toast shown |
| SetupDialog.RuleSetupDialog.Init | src/rule-setup-dialog.c:404-410 | init's defaults: id 0, TABLE_LAST, active TRUE, MODE_LAST, combo on MODE_OFF |
| SetupDialog.RuleSetupDialog.SetProperties | src/rule-setup-dialog.c:181-215 | each construct property, given or defaulted, lands in its field |
| SetupDialog.RuleSetupDialog.Constructed | src/rule-setup-dialog.c:242-280 | a loaded rule fills name, time, active and days, and the mode only for TABLE_OFF; a failed load leaves the fields and adds "Failed to get rule attributes" |
| SetupDialog.RuleSetupDialog.AssembledRule | src/rule-setup-dialog.c:115-144 | the rule takes id, active and table from the dialog, day i from toggle i, and a name that is a prefix of the entry's UTF-8 bytes of at most RULE_NAME_LENGTH - 1 bytes |
| SetupDialog.RuleSetupDialog.AssembleRule | src/rule-setup-dialog.c:115-144 | the field-by-field assembly equals the assembled rule above |
| SetupDialog.RuleSetupDialog.PerformAction | src/rule-setup-dialog.c:217-222 | the base action returns 0 and changes nothing; the variants add or edit |
| SetupDialog.RuleSetupDialog.ActionButtonClicked | src/rule-setup-dialog.c:106-164 | invalid: no action, "Invalid rule attributes", no done; action returns 0: "Operation failed", no done, store unchanged; otherwise done(FALSE, table, id) with the returned id, which for Edit is the dialog's id |
| SetupDialog.RuleSetupDialog.CancelClicked | src/rule-setup-dialog.c:96-104 | done(TRUE, TABLE_LAST, 0) |
| SetupDialog.TitlesTellVariantAndTable | src/rule-setup-dialog-add.c:59-60 | the Add and Edit titles never coincide, and within a variant two tables get the same title iff both or neither is TABLE_ON |
| SetupDialog.RuleSetupDialog.Finish | src/rule-setup-dialog.c:76-80 | the window is closed |
| SetupDialog.NewPlain | src/rule-setup-dialog.c:413-417 | the base dialog gets every default: id 0, TABLE_ON, active FALSE |
| SetupDialog.NewAdd | src/rule-setup-dialog-add.c:52-64 | an Add dialog for the table with id 0, active TRUE, nothing loaded, mode row visible iff TABLE_OFF |
| SetupDialog.NewEdit | src/rule-setup-dialog-edit.c:52-64 | an Edit dialog for the table and id that preloads the stored rule when the id is non-zero |
| Face.IconFor | src/rule-face.c:245-259 | a recognised type has an empty-view icon, RULE_FACE_TYPE_LAST none |
| Face.FaceTables | src/rule-face.c:277-279 | a face's table is never TABLE_LAST, and TURN_ON and TURN_OFF faces list different tables |
| Face.RuleFace.constructor | src/rule-face.c:352-358 | the face for a type has its table and icon, one row per stored rule of that table (or none and a toast), and the empty view iff the count is 0 |
| Face.RuleFace.SetType | src/rule-face.c:267-285 | the type and the table that follows from it |
| Face.RuleFace.Constructed | src/rule-face.c:239-265 | an unrecognised type returns before populating; otherwise icon, rows populated, and the view that matches the count |
| Face.RuleFace.CheckForEmptyView | src/rule-face.c:70-77 | the empty view iff row_count is 0, else the list view |
| Face.RuleFace.AppendRule | src/rule-face.c:103-121 | a new row for the id at the end of the list; row_count goes up by one, wrapping at 2^16 |
| Face.RuleFace.DeleteRule | src/rule-face.c:79-91 | exactly that row leaves the list, the others keep their order; row_count goes down by one, wrapping; the empty view iff the count is 0, the list view otherwise |
| Face.RuleFace.PopulateRules | src/rule-face.c:221-237 | on success one row per listed rule, in the store's order; on failure no rows and "Failed to get rules" |
| Face.RuleFace.AppendRules | src/rule-face.c:233-234 | the loop appends the listed rules' ids in order |
| Face.RuleFace.AddRuleDone | src/rule-face.c:138-155 | a committed add appends a row with the returned id, and the empty view iff the count is 0, the list view otherwise; a cancelled one changes nothing; the dialog is finished either way |
| Face.RuleFace.EditRuleDone | src/rule-face.c:123-136 | only a committed edit reloads that row, with a toast if the switch write is refused; a failed reload leaves the row unchanged and adds "Failed to update rule"; the dialog is finished either way |
| Face.RuleFace.ShowError | src/rule-face.c:93-101 | a row's error becomes a toast |
| Face.RuleFace.RowDeleteClicked | src/rule-row.c:268-283 | the row leaves the list, the others keep their order, the counter and view follow, whether or not the store deleted the rule; a failure adds "Failed to dele rule" and leaves the store |
| Face.RuleFace.RowSwitchClicked | src/rule-row.c:250-266 | with no toast the store and the switch state took the flip; otherwise "Failed to change rule state" and neither changed; unreachable rules always give the toast |
| Face.RuleFace.OpenSetupAddDialog | src/rule-face.c:195-219 | an Add dialog for the face's table |
| Face.RuleFace.RowActivated | src/rule-face.c:157-185 | an Edit dialog for the face's table and the row's id |
| DaysRows.DaysRow.constructor | src/days-row.c:225-240 | id 0, table TABLE_ON (the param-spec default), the given "interactive"; the restore handler is connected iff not interactive |
| DaysRows.DaysRow.GetActivated | src/days-row.c:57-68 | days[i] is toggle i's state for i in 0..6, and nothing else in the array changes |
| DaysRows.DaysRow.SetActivated | src/days-row.c:70-80 | toggle i takes days[i] for i in 0..6 |
| DaysRows.DaysRow.Click | src/days-row.c:120-162 | a non-interactive row undoes the click; an interactive one flips only that day |
| DaysRows.DaysRow.RestoreToggleButtonState | src/days-row.c:109-118 | the toggle is set to the opposite of its current state |
| DaysRows.SetThenGet | src/days-row.c:57-80 | setting the toggles and reading them back gives the same seven days |

## Left out

- The rule store, rule validation, conflict checks and `rule_custom_schedule`
  belong to database-connection, which is not part of this model. The store is
  an abstract map whose operations may fail. Validation is a parameter.
- Store.RuleStore.Add, Edit, Delete and EnableDisable: why the store
  refuses a write (a busy database, a constraint) is not modelled. Any write
  may be refused, and a refused write changes nothing.
- Store.RuleStore.Add: the store's way of choosing a new id is not modelled;
  any unused non-zero id may be returned.
- Store.RuleStore.GetAll: the `guint16` count that `rule_get_all` returns is
  not modelled, and neither is the order in which the store lists rules.
- Store.RuleStore.Edit: `rule_edit`'s body is not available. The model assumes
  it follows the same "0 means failure" convention as `rule_add`.
- Templates, the list box, the stack, status pages, revealers and toast
  overlays are widget plumbing. They are represented only by the fields they
  show.
- The transient-parent walk in `rule_face_list_box_row_activated` and
  `rule_face_open_setup_add_dialog` is presentation and is not modelled.
- Gettext translation is not modelled: labels are the untranslated strings.
- RuleRows.RuleRow.ShowLabels: the mode label's text, "Mode: " followed by the
  mode's name, is not modelled; the row records the mode it shows.
- Reference counting is not modelled. This includes the `g_clear_object` on
  the removed row in `rule_face_delete_rule` and the dispose and finalize
  handlers.
- The GLib timer source and real time are not modelled: ticks are explicit
  calls of `Countdown.ScheduleCountdown.Tick`.
- Ids are unbounded naturals. The `guint16` casts of ids (for example in
  `rule_face_add_rule` and the "id" properties) are not modelled.
- The spin buttons' ranges come from the `.ui` templates, which are not part
  of this model. So is the `gdouble` to `uint8_t` cast of their values.
  Hour and minutes are taken as bytes.
- The spin buttons' leading-zero "output" handler
  (`rule_setup_dialog_show_leading_zeros`) is presentation.
- The setup dialog's `mode` field is written by init and read by nothing. It
  is kept as a field only.
- The row error emitted during `rule_row_constructed` has no listener yet and
  is dropped. The model returns no error from the constructor.
- src/error-dialog.c, src/gawake-preferences.c, src/gawake-application.c,
  src/mode-row.c, src/time-chooser.c, src/custom-schedule-face.c and
  src/gawake-window.c are outside the modelled front-end core.
