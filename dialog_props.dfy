/** The construct-only properties of the rule setup dialog ("id", "table",
    "active", "title", "action-button-label"). GObject sets every one of
    them at construction: the value the creator passed, or else the default
    its param spec declares. */
module DialogProps {
  import opened Rules

  datatype Props = Props(
    id: Option<nat>,
    table: Option<Table>,
    active: Option<bool>,
    title: Option<string>,
    actionButtonLabel: Option<string>)

  /** The param-spec defaults: id 0, TABLE_ON, FALSE, and no title or
      label (NULL). */
  const DefaultId: nat := 0
  const DefaultTable: Table := TableOn
  const DefaultActive: bool := false

  const NoProps: Props := Props(None, None, None, None, None)

  function IdOf(p: Props): (id: nat)
  {
    if p.id.Some? then p.id.value else DefaultId
  }

  /** A TABLE_LAST argument is outside the param spec's range 0 to
      TABLE_LAST - 1 and is refused, which leaves the TABLE_LAST that
      rule_setup_dialog_init wrote: the same table either way. */
  function TableOf(p: Props): (table: Table)
  {
    if p.table.Some? then p.table.value else DefaultTable
  }

  function ActiveOf(p: Props): (active: bool)
  {
    if p.active.Some? then p.active.value else DefaultActive
  }
}
