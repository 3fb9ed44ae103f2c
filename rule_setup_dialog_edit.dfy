/** The Edit variant of the rule setup dialog
    (src/rule-setup-dialog-edit.c): its action is the store's rule_edit, and
    it is created for a table and a rule id, leaving "active" at its
    default until the rule is loaded. */
module SetupDialogEdit {
  import opened Rules
  import opened Store
  import opened DialogProps

  const ActionButtonLabel: string := "Done"

  function Title(table: Table): (title: string)
  {
    if table == TableOn then "Edit turn on rule" else "Edit turn off rule"
  }

  /** rule_setup_dialog_edit_new's arguments: no "active". */
  function NewProps(table: Table, ruleId: nat): (p: Props)
    ensures IdOf(p) == ruleId && TableOf(p) == table && ActiveOf(p) == DefaultActive
    ensures p.title == Some(Title(table)) && p.actionButtonLabel == Some(ActionButtonLabel)
  {
    Props(Some(ruleId), Some(table), None, Some(Title(table)), Some(ActionButtonLabel))
  }

  /** rule_setup_dialog_edit_perform_action: rule_edit's result, unchanged. */
  method PerformAction(rule: Rule, store: RuleStore) returns (id: nat)
    requires store.Valid()
    modifies store
    ensures store.Valid() && store.available == old(store.available)
    ensures EditSpec(old(store.rules), old(store.available), rule, id, store.rules)
  {
    id := store.Edit(rule);
  }
}
