/** The dynamically typed Python values a filter can receive from a template, the truthiness
    test `if not x`, the `type(x)` text used in error messages, and the filter error. */
module Host {

  import opened Wrappers

  /** A Python argument value. Dictionaries are the `ns_prefixes` kind: string keys mapped to a
      string or `None`, in insertion order; only entries with distinct keys stand for a Python
      dictionary. */
  datatype HostValue =
    | NoneV
    | BoolV(b: bool)
    | IntV(i: int)
    | StrV(s: string)
    | ListV(items: seq<HostValue>)
    | DictV(entries: seq<(string, Option<string>)>)

  /** `bool(v)`: `None`, `False`, `0` and empty strings, lists and dicts are false. */
  predicate Truthy(v: HostValue)
  {
    match v
    case NoneV => false
    case BoolV(b) => b
    case IntV(i) => i != 0
    case StrV(s) => s != []
    case ListV(items) => items != []
    case DictV(entries) => entries != []
  }

  /** `'%s' % type(v)` as Python 3 prints it. */
  function TypeName(v: HostValue): string
  {
    match v
    case NoneV => "<class 'NoneType'>"
    case BoolV(_) => "<class 'bool'>"
    case IntV(_) => "<class 'int'>"
    case StrV(_) => "<class 'str'>"
    case ListV(_) => "<class 'list'>"
    case DictV(_) => "<class 'dict'>"
  }

  /** `AnsibleFilterError(message)`. */
  datatype FilterError = FilterError(message: string)

  /** The strings among a list's items: `k in items` holds for a string `k` exactly when `k` is
      one of them, since a string never equals a value of another type. */
  function StringItems(items: seq<HostValue>): (r: seq<string>)
    ensures forall k :: k in r <==> StrV(k) in items
  {
    if items == [] then []
    else
      var rest := StringItems(items[1..]);
      assert items == [items[0]] + items[1..];
      (if items[0].StrV? then [items[0].s] else []) + rest
  }
}
