/** The dynamic values that flow between the scraper's extractor, its parsers
    and the record store, and the two ways a browser lookup can end. */
module Values {

  datatype Option<+T> = None | Some(value: T)

  /** A Python value as the scraper handles it. Floats are exact reals and
      JSON arrays are lists of values. */
  datatype PyVal =
    | PNone
    | PBool(b: bool)
    | PInt(i: int)
    | PReal(r: real)
    | PStr(s: string)
    | PList(items: seq<PyVal>)

  /** Python truthiness, as used by `if v:` and `v or default`. */
  predicate Truthy(v: PyVal)
  {
    match v
    case PNone => false
    case PBool(b) => b
    case PInt(i) => i != 0
    case PReal(r) => r != 0.0
    case PStr(s) => s != ""
    case PList(xs) => xs != []
  }

  /** The outcome of one browser lookup: the value it read, or an exception. */
  datatype Lookup<+T> = Found(value: T) | Raises

  /** A Python dict, in insertion order. */
  type Dict = seq<(string, PyVal)>

  /** A dict never holds the same key twice. */
  predicate DistinctKeys(d: Dict)
  {
    forall i, j :: 0 <= i < j < |d| ==> d[i].0 != d[j].0
  }

  /** `d.keys()`, in order. */
  function Keys(d: Dict): (ks: seq<string>)
    ensures |ks| == |d|
    ensures forall i :: 0 <= i < |d| ==> ks[i] == d[i].0
  {
    if d == [] then [] else [d[0].0] + Keys(d[1..])
  }

  /** `d.values()`, in order. */
  function ValuesOf(d: Dict): (vs: seq<PyVal>)
    ensures |vs| == |d|
    ensures forall i :: 0 <= i < |d| ==> vs[i] == d[i].1
  {
    if d == [] then [] else [d[0].1] + ValuesOf(d[1..])
  }

  /** The dict as a map from keys to values (later entries win, which never
      matters for a dict with distinct keys). */
  function AsMap(d: Dict): (m: map<string, PyVal>)
    ensures m.Keys == set i | 0 <= i < |d| :: d[i].0
  {
    if d == [] then map[] else AsMap(d[..|d| - 1])[d[|d| - 1].0 := d[|d| - 1].1]
  }

  /** `m.get(k, default)` on a dict whose order does not matter. */
  function Get(m: map<string, PyVal>, k: string, default: PyVal): PyVal
  {
    if k in m then m[k] else default
  }

  /** A list of strings as a Python list of `str` values. */
  function StrList(xs: seq<string>): (r: seq<PyVal>)
    ensures |r| == |xs|
    ensures forall i :: 0 <= i < |xs| ==> r[i] == PStr(xs[i])
  {
    if xs == [] then [] else [PStr(xs[0])] + StrList(xs[1..])
  }

  /** An optional string as a Python value (`None` or a `str`). */
  function OptStr(o: Option<string>): PyVal
  {
    match o
    case None => PNone
    case Some(s) => PStr(s)
  }
}
