/** The processor's configuration table (`mConfig`): an ordered list of
    name/value pairs, ended in C by a null name and here by the end of the
    sequence, together with the names and values it recognises. */
module Configuration {
  import opened Options

  /** Name the processor reports for itself (`configName`). */
  const ComponentName: string := "ProcessExclusionProcessor"

  /** The one configuration key. */
  const StatusKey: string := "status"

  /** Values the `status` key can hold. */
  const ValueEnabled: string := "enabled"
  const ValueDisabled: string := "disabled"

  /** Actions `setConfig` accepts for the `status` key. */
  const ActionEnable: string := "enable"
  const ActionDisable: string := "disable"

  datatype ConfigElement = ConfigElement(name: string, value: string)

  /** `table[i]` is the first entry named `name`. */
  ghost predicate FirstNamed(table: seq<ConfigElement>, name: string, i: int) {
    && 0 <= i < |table|
    && table[i].name == name
    && forall j :: 0 <= j < i ==> table[j].name != name
  }

  /** The search loop shared by `config` and `setConfig`: the value of the
      first entry whose name equals `name`, or None when no entry has it. */
  function Lookup(table: seq<ConfigElement>, name: string): (r: Option<string>)
    ensures r.None? <==> forall i :: 0 <= i < |table| ==> table[i].name != name
    ensures r.Some? ==> exists i :: FirstNamed(table, name, i) && table[i].value == r.value
  {
    if |table| == 0 then None
    else if table[0].name == name then
      assert FirstNamed(table, name, 0);
      Some(table[0].value)
    else
      var r := Lookup(table[1..], name);
      assert r.None? ==> forall i :: 0 <= i < |table| ==> table[i].name != name by {
        if r.None? {
          forall i | 0 <= i < |table| ensures table[i].name != name {
            if i > 0 { assert table[i] == table[1..][i - 1]; }
          }
        }
      }
      assert r.Some? ==> exists i :: FirstNamed(table, name, i) && table[i].value == r.value by {
        if r.Some? {
          var i :| FirstNamed(table[1..], name, i) && table[1..][i].value == r.value;
          assert FirstNamed(table, name, i + 1) by {
            forall j | 0 <= j < i + 1 ensures table[j].name != name {
              if j > 0 { assert table[j] == table[1..][j - 1]; }
            }
          }
        }
      }
      r
  }

  /** In a table whose names are distinct, looking up the name of any entry
      yields that entry's value: the table and the lookup agree. */
  lemma {:induction false} LookupFindsEveryEntry(table: seq<ConfigElement>, i: int)
    requires 0 <= i < |table|
    requires forall j, k :: 0 <= j < k < |table| ==> table[j].name != table[k].name
    ensures Lookup(table, table[i].name) == Some(table[i].value)
  {
    var r := Lookup(table, table[i].name);
    var k :| FirstNamed(table, table[i].name, k) && table[k].value == r.value;
    assert k == i;
  }
}
