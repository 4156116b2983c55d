/**
 * Configuration.js: a key/value store of settings, and the JavaScript
 * conversions the client applies to the values it reads back (truthiness,
 * string and number conversion).
 */
module Configuration {
  import opened JsString
  import opened JsNumber
  import opened JsObject

  /** A setting's value: the scalars the configuration script assigns, plus
      `null` and `undefined`. */
  datatype Value = Undefined | Null | Bool(b: bool) | Number(n: int) | Str(s: string) {

    /** `typeof val !== "undefined" && val != null`. */
    predicate Defined() {
      !Undefined? && !Null?
    }

    /** What `if (v)` and `v || w` test. */
    predicate Truthy() {
      match this
      case Undefined => false
      case Null => false
      case Bool(b) => b
      case Number(n) => n != 0
      case Str(s) => |s| > 0
    }
  }

  /** `String(v)`, the conversion `includes` applies to its argument. */
  function ToJsString(v: Value): string {
    match v
    case Undefined => "undefined"
    case Null => "null"
    case Bool(b) => if b then "true" else "false"
    case Number(n) => IntToDecimal(n)
    case Str(s) => s
  }

  /** `Number(v)`, the conversion a relational comparison applies.  Of the
      string forms, whitespace-only text and optionally signed decimal
      integers are read. */
  function ToNumber(v: Value): Num {
    match v
    case Undefined => NaN
    case Null => Int(0)
    case Bool(b) => Int(if b then 1 else 0)
    case Number(n) => Int(n)
    case Str(s) => StringToNumber(s)
  }

  function StringToNumber(s: string): Num {
    var t := Trim(s);
    if |t| == 0 then Int(0)
    else
      var u := if t[0] == '-' || t[0] == '+' then t[1..] else t;
      if |u| > 0 && DigitRun(u, 10) == |u| then
        (if t[0] == '-' then Int(-(DigitsValue(u, 10) as int)) else Int(DigitsValue(u, 10)))
      else NaN
  }

  class Configuration {
    /** The private `config` dictionary. */
    var config: map<string, Value>

    /** `set` never stores `null` or `undefined`. */
    ghost predicate Valid()
      reads this
    {
      forall k :: k in config ==> config[k].Defined()
    }

    constructor ()
      ensures Valid() && config == map[]
    {
      config := map[];
    }

    /** `has(key)` as documented: whether a value is assigned to `key`. */
    function Has(key: string): bool
      reads this
    {
      key in config
    }

    /** `has(key)` as written: `key in config` also finds the names the
        dictionary inherits from `Object.prototype`, which are never assigned
        and which `unset` cannot remove. */
    function HasAsWritten(key: string): (r: bool)
      reads this
      ensures r <==> Has(key) || key in ObjectPrototypeKeys
    {
      InOperator(key, config.Keys)
    }

    /** `get(key, defVal)`: the stored value, else `defVal || null`.  Pass
        `Undefined` for a call without a default. */
    function Get(key: string, defVal: Value): (r: Value)
      reads this
      ensures Has(key) ==> r == config[key]
      ensures Valid() ==> r.Defined() || (r.Null? && !Has(key))
      ensures !Has(key) && defVal.Truthy() ==> r == defVal
      ensures !Has(key) && !defVal.Truthy() ==> r == Null
    {
      if key in config then config[key] else if defVal.Truthy() then defVal else Null
    }

    /** `unset(key)`: removes the key if present; returns this configuration. */
    method Unset(key: string) returns (r: Configuration)
      requires Valid()
      modifies this
      ensures Valid() && r == this
      ensures config == old(config) - {key}
      ensures !Has(key)
      ensures forall k :: k != key ==> Has(k) == old(Has(k)) && Get(k, Undefined) == old(Get(k, Undefined))
    {
      config := config - {key};
      r := this;
    }

    /** `set(key, val)`: stores a defined value, and behaves as `unset` for
        `null` or `undefined`; returns this configuration. */
    method Set(key: string, val: Value) returns (r: Configuration)
      requires Valid()
      modifies this
      ensures Valid() && r == this
      ensures config == if val.Defined() then old(config)[key := val] else old(config) - {key}
      ensures val.Defined() ==> Has(key) && forall d :: Get(key, d) == val
      ensures !val.Defined() ==> !Has(key)
    {
      if val.Defined() {
        config := config[key := val];
        r := this;
      } else {
        r := Unset(key);
      }
    }
  }

  /** With the `in` test as written, a setting named like an inherited
      property still reports as present after it is set to `null`. */
  method InheritedNameSurvivesUnset() returns (before: bool, after: bool)
    ensures !before && after
  {
    var c := new Configuration();
    var _ := c.Set("toString", Null);
    before := c.Has("toString");
    after := c.HasAsWritten("toString");
  }
}
