/** Shared vocabulary of the front end: the rule record and the enumerations
    it carries, as the rule store's header defines them for its callers. */
module Rules {

  datatype Option<T> = None | Some(value: T)

  /** The two rule tables, plus the TABLE_LAST sentinel that the front end
      uses for "no table" (a cancelled dialog, an un-initialised widget). */
  datatype Table = TableOn | TableOff | TableLast

  /** A shutdown mode as the index of the mode combo row. Only MODE_OFF and
      the MODE_LAST sentinel are named by the front end; the other values are
      carried through unchanged. */
  datatype Mode = ModeOff | ModeOther(index: nat) | ModeLast

  type UInt8 = x: int | 0 <= x < 256

  /** A C string's bytes, without the terminating NUL. Text the user types
      is held as its UTF-8 encoding. */
  type Bytes = seq<UInt8>

  /** The bytes of an ASCII string: one byte per character, its code. */
  function AsciiBytes(s: string): (b: Bytes)
    requires forall i :: 0 <= i < |s| ==> s[i] as int < 128
    ensures |b| == |s|
    ensures forall i :: 0 <= i < |s| ==> b[i] == s[i] as int
  {
    seq(|s|, i requires 0 <= i < |s| => s[i] as int)
  }

  /** The day vector: Sunday = 0 ... Saturday = 6. */
  type Days = d: seq<bool> | |d| == 7 witness [false, false, false, false, false, false, false]

  const NoDays: Days := [false, false, false, false, false, false, false]

  datatype Rule = Rule(
    id: nat,
    name: Bytes,
    hour: UInt8,
    minutes: UInt8,
    days: Days,
    active: bool,
    mode: Mode,
    table: Table)

  /** Address of a stored rule. */
  datatype Key = Key(table: Table, id: nat)
}
