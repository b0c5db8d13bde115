/** The tables the engine builds with `{}` are plain JavaScript objects: they
    inherit the members of `Object.prototype`. This module states what `in`
    and a key read see on such a table, so that the guards and lookups of
    the source can be modelled as written next to their corrected forms,
    which look at the table's own keys only. */
module PlainObjects {

  /** The names every plain object inherits from `Object.prototype`. */
  const ObjectPrototypeNames: set<string> := {
    "constructor", "hasOwnProperty", "isPrototypeOf", "propertyIsEnumerable",
    "toLocaleString", "toString", "valueOf", "__proto__",
    "__defineGetter__", "__defineSetter__", "__lookupGetter__", "__lookupSetter__"
  }

  /** `key in table` on a table created as `{}`: own keys and inherited
      names alike. */
  function InPlainObject<V>(table: map<string, V>, key: string): (found: bool)
    ensures key in table ==> found
    ensures key in ObjectPrototypeNames ==> found
    ensures found && key !in table ==> key in ObjectPrototypeNames
  {
    key in table || key in ObjectPrototypeNames
  }

  /** What `table[key]` yields on a table created as `{}`. */
  datatype Read<V> =
    | Own(value: V)
      /** An inherited member: a function, or `Object.prototype` itself for
          `__proto__`. It is truthy and is not a string. */
    | Inherited(name: string)
    | Absent

  function ReadPlainObject<V>(table: map<string, V>, key: string): (r: Read<V>)
    ensures r.Own? <==> key in table
    ensures r.Own? ==> r.value == table[key]
    ensures r.Inherited? <==> key !in table && key in ObjectPrototypeNames
    ensures r.Inherited? ==> r.name == key
    ensures r.Absent? <==> !InPlainObject(table, key)
  {
    if key in table then Own(table[key])
    else if key in ObjectPrototypeNames then Inherited(key)
    else Absent
  }
}
