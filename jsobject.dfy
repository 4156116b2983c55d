/**
 * Plain JavaScript objects used as dictionaries: the `in` operator looks
 * along the prototype chain, so it also finds the properties every object
 * inherits from `Object.prototype`.
 */
module JsObject {

  /** The property names of `Object.prototype`. */
  const ObjectPrototypeKeys: set<string> := {
    "constructor", "__proto__", "hasOwnProperty", "isPrototypeOf",
    "propertyIsEnumerable", "toLocaleString", "toString", "valueOf",
    "__defineGetter__", "__defineSetter__", "__lookupGetter__", "__lookupSetter__"
  }

  /** `key in obj` for a plain object whose own keys are `own`. */
  predicate InOperator(key: string, own: set<string>) {
    key in own || key in ObjectPrototypeKeys
  }
}
