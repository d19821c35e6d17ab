/** `unit_from_name`: the display unit guessed from a series name. */
module Units {
  import Text

  /** The substring-to-unit table, in the order it is searched. */
  const UnitTable: seq<(string, string)> := [
    ("_temp", "\U{B0}C"), ("temperature", "\U{B0}C"),
    ("_volt", "V"), ("voltage", "V"),
    ("_curr", "A"), ("current", "A"),
    ("_press", "Pa"), ("pressure", "Pa"),
    ("_flow", "sccm"), ("flow", "sccm"),
    ("_rpm", "rpm"),
    ("_freq", "Hz"), ("frequency", "Hz"),
    ("_power", "W"), ("power", "W"),
    ("_hum", "%"), ("humidity", "%")
  ]

  /** True when key `k` of the table occurs in the lower-cased name `n`. */
  predicate KeyIn(n: string, k: nat)
    requires k < |UnitTable|
  {
    Text.Contains(n, UnitTable[k].0)
  }

  /** The unit of the first table entry from `k` on whose key occurs in `n`, or "" when none does. */
  function FirstUnitFrom(n: string, k: nat): (u: string)
    requires k <= |UnitTable|
    ensures u == "" <==> forall j :: k <= j < |UnitTable| ==> !KeyIn(n, j)
    ensures u != "" ==> exists j :: k <= j < |UnitTable| && KeyIn(n, j) && u == UnitTable[j].1
                                  && forall i :: k <= i < j ==> !KeyIn(n, i)
    decreases |UnitTable| - k
  {
    if k == |UnitTable| then ""
    else if KeyIn(n, k) then UnitTable[k].1
    else FirstUnitFrom(n, k + 1)
  }

  /** The unit for a series name: the first key, in table order, that occurs in the lower-cased name wins. */
  function UnitFromName(name: string): (u: string)
    ensures u == "" <==> forall j :: 0 <= j < |UnitTable| ==> !KeyIn(Text.Lower(name), j)
    ensures u != "" ==> exists j :: 0 <= j < |UnitTable| && KeyIn(Text.Lower(name), j) && u == UnitTable[j].1
                                  && forall i :: 0 <= i < j ==> !KeyIn(Text.Lower(name), i)
  {
    FirstUnitFrom(Text.Lower(name), 0)
  }
}
