/**
 * `Variable` (src/core/variable.js): the dynamic-variable table of a sheet, a
 * dictionary from a variable's name (trigger included) to its entry, updated in
 * place. The table redraw that `setVariableMap` asks for is not part of this model.
 */
module Variables {

  /** What the table holds for a variable: the text it stands for, and whether it is resolved. */
  datatype Entry = Entry(value: string, resolved: bool)

  class Variable {
    /** `this.map`. */
    var variableMap: map<string, Entry>

    /** A new table is empty. */
    constructor()
      ensures variableMap == map[]
    {
      variableMap := map[];
    }

    /** `setVariableMap(m)`: the whole table is replaced. */
    method SetVariableMap(m: map<string, Entry>)
      modifies this
      ensures variableMap == m
    {
      variableMap := m;
    }

    /** `getVariableMap()`: the current table. */
    method GetVariableMap() returns (m: map<string, Entry>)
      ensures m == variableMap
    {
      m := variableMap;
    }

    /** `storeVariable(text, v)`: `text` now maps to `v`; every other name keeps its entry, or its absence. */
    method StoreVariable(text: string, v: Entry)
      modifies this
      ensures text in variableMap && variableMap[text] == v
      ensures forall t :: t != text ==> (t in variableMap <==> t in old(variableMap)) && (t in variableMap ==> variableMap[t] == old(variableMap)[t])
      ensures variableMap.Keys == old(variableMap).Keys + {text}
    {
      variableMap := variableMap[text := v];
    }

    /** `removeVariable(text)`: exactly `text` is gone; every other name keeps its entry. */
    method RemoveVariable(text: string)
      modifies this
      ensures text !in variableMap
      ensures forall t :: t != text ==> (t in variableMap <==> t in old(variableMap)) && (t in variableMap ==> variableMap[t] == old(variableMap)[t])
      ensures variableMap.Keys == old(variableMap).Keys - {text}
    {
      variableMap := variableMap - {text};
    }
  }

  /** Storing then removing a name that was absent gives back the table. */
  lemma StoreThenRemove(m: map<string, Entry>, text: string, v: Entry)
    requires text !in m
    ensures m[text := v] - {text} == m
  {
    assert (m[text := v] - {text}).Keys == m.Keys;
  }
}
