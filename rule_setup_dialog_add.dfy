/** The Add variant of the rule setup dialog (src/rule-setup-dialog-add.c):
    its action is the store's rule_add, and it is created for a table with
    the rule active and no id. */
module SetupDialogAdd {
  import opened Rules
  import opened Store
  import opened DialogProps

  const ActionButtonLabel: string := "Add"

  function Title(table: Table): (title: string)
  {
    if table == TableOn then "Add turn on rule" else "Add turn off rule"
  }

  /** rule_setup_dialog_add_new's arguments. */
  function NewProps(table: Table): (p: Props)
    ensures IdOf(p) == 0 && TableOf(p) == table && ActiveOf(p)
    ensures p.title == Some(Title(table)) && p.actionButtonLabel == Some(ActionButtonLabel)
  {
    Props(None, Some(table), Some(true), Some(Title(table)), Some(ActionButtonLabel))
  }

  /** rule_setup_dialog_add_perform_action: rule_add's result, unchanged. */
  method PerformAction(rule: Rule, store: RuleStore) returns (id: nat)
    requires store.Valid()
    modifies store
    ensures store.Valid() && store.available == old(store.available)
    ensures AddSpec(old(store.rules), old(store.available), rule, id, store.rules)
  {
    id := store.Add(rule);
  }
}
