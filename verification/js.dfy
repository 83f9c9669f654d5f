/**
 * The JavaScript values the routes read from parsed feed items, and the
 * `a || b` defaulting the routes apply to them.
 */
module Js {

  datatype Option<+T> = None | Some(value: T)

  /**
   * A property read from a parsed object: a string, or a truthy value that
   * is not a string (an object or a number), on which string methods such
   * as `replace` throw. Every falsy value (`undefined`, `null`, `0`, `''`)
   * is only ever read as `v || ''` or `v || w`, where it behaves exactly
   * like the empty string, so it is written `Text("")`.
   */
  datatype Value = Text(s: string) | NonString

  /** Whether JavaScript treats the value as true in `a || b`. */
  predicate Truthy(v: Value) {
    v.NonString? || |v.s| > 0
  }

  /**
   * The properties every object literal inherits from `Object.prototype`.
   * Reading one of them as `table[name]` gives a function, or for
   * `__proto__` the prototype object itself: a truthy value that is not
   * one of the table's own entries.
   */
  const InheritedNames: set<string> := {
    "constructor", "__proto__", "toString", "toLocaleString", "valueOf",
    "hasOwnProperty", "isPrototypeOf", "propertyIsEnumerable",
    "__defineGetter__", "__defineSetter__", "__lookupGetter__", "__lookupSetter__"
  }

  /** `a || b`: the first operand when it is truthy, otherwise the second. */
  function Or(a: Value, b: Value): (r: Value)
    ensures Truthy(a) ==> r == a
    ensures !Truthy(a) ==> r == b
  {
    if Truthy(a) then a else b
  }

  /** `v || ''` used as text: `None` when the value is a non-string that the next string method would throw on. */
  function TextOr(v: Value): (r: Option<string>)
    ensures r.None? <==> v.NonString?
    ensures r.Some? ==> v == Text(r.value)
  {
    match v
    case Text(s) => Some(s)
    case NonString => None
  }
}
