/** An already-decoded JSON document, and the handful of Python operations
    the ipuz parser applies to such values: dict.get, len, indexing,
    iteration, truthiness, the `in` test, int() and str(). Numbers are
    integers. Each operation returns Raises exactly where Python raises
    (AttributeError, TypeError, KeyError, IndexError, ValueError), and
    Unsupported where Python would go on with a value the model's string
    and integer fields cannot hold. */
module Json {
  import opened Base

  datatype Json =
    | JNull
    | JBool(b: bool)
    | JNum(n: int)
    | JStr(s: string)
    | JArr(items: seq<Json>)
    | JObj(fields: map<string, Json>)

  datatype ParseError =
    | NotCrossword      // the ValueError for a missing crossword kind
    | BadDimensions     // the ValueError for a width or height of at most 0
    | Raises            // any other exception Python raises on the document
    | Unsupported       // a value Python keeps but the model's types cannot hold

  type Outcome<T> = Result<T, ParseError>

  /** The two errors parse raises itself when it rejects a document, as
      opposed to those a malformed value makes Python raise. */
  predicate Rejection(e: ParseError) {
    e == NotCrossword || e == BadDimensions
  }

  /** d.get(key, default): only a dictionary has get. */
  function Get(d: Json, key: string, default: Json): (r: Outcome<Json>)
    ensures r.Ok? <==> d.JObj?
    ensures d.JObj? && key !in d.fields ==> r == Ok(default)
    ensures d.JObj? && key in d.fields ==> r == Ok(d.fields[key])
  {
    if !d.JObj? then Err(Raises)
    else if key in d.fields then Ok(d.fields[key]) else Ok(default)
  }

  /** The same lookup in a dictionary already known to be one. */
  function Lookup(m: map<string, Json>, key: string, default: Json): Json {
    if key in m then m[key] else default
  }

  /** Python truthiness: null, false, 0 and empty strings, lists and
      dictionaries are false. */
  predicate Truthy(j: Json) {
    match j
    case JNull => false
    case JBool(b) => b
    case JNum(n) => n != 0
    case JStr(s) => s != ""
    case JArr(a) => a != []
    case JObj(m) => m != map[]
  }

  /** `a or b`: the first operand when it is true, else the second. */
  function Or(a: Json, b: Json): (r: Json)
    ensures Truthy(a) ==> r == a
    ensures !Truthy(a) ==> r == b
  {
    if Truthy(a) then a else b
  }

  /** len(j): strings, lists and dictionaries have a length. */
  function Len(j: Json): (r: Outcome<nat>)
    ensures r.Ok? <==> j.JStr? || j.JArr? || j.JObj?
    ensures j.JStr? ==> r == Ok(|j.s|)
    ensures j.JArr? ==> r == Ok(|j.items|)
    ensures r.Err? ==> r.error == Raises
  {
    match j
    case JStr(s) => Ok(|s|)
    case JArr(a) => Ok(|a|)
    case JObj(m) => Ok(|m.Keys|)
    case _ => Err(Raises)
  }

  /** j[k] for an integer k: a character of a string, an item of a list;
      a dictionary has only string keys, so the lookup fails. */
  function Index(j: Json, k: nat): (r: Outcome<Json>)
    ensures r.Ok? <==> (j.JStr? && k < |j.s|) || (j.JArr? && k < |j.items|)
    ensures j.JArr? && k < |j.items| ==> r == Ok(j.items[k])
    ensures j.JStr? && k < |j.s| ==> r == Ok(JStr([j.s[k]]))
    ensures r.Err? ==> r.error == Raises
  {
    match j
    case JStr(s) => if k < |s| then Ok(JStr([s[k]])) else Err(Raises)
    case JArr(a) => if k < |a| then Ok(a[k]) else Err(Raises)
    case _ => Err(Raises)
  }

  /** The items a for loop visits: the items of a list, the characters of a
      string, no items for an empty dictionary. A non-empty dictionary is
      visited in key insertion order, which a map does not keep. */
  function Iterate(j: Json): (r: Outcome<seq<Json>>)
    ensures j.JArr? ==> r == Ok(j.items)
    ensures j.JStr? ==> r.Ok? && |r.value| == |j.s|
    ensures r.Err? && r.error == Raises <==> j.JNull? || j.JBool? || j.JNum?
    ensures r.Err? ==> !Rejection(r.error)
  {
    match j
    case JArr(a) => Ok(a)
    case JStr(s) => Ok(seq(|s|, k requires 0 <= k < |s| => JStr([s[k]])))
    case JObj(m) => if m == map[] then Ok([]) else Err(Unsupported)
    case _ => Err(Raises)
  }

  /** The integer a value compares as; Python's booleans are the integers
      0 and 1. Other values raise in an ordering comparison with an
      integer and are never equal to one. */
  function IntOf(j: Json): (r: Option<int>)
    ensures r.Some? <==> j.JNum? || j.JBool?
    ensures j.JNum? ==> r == Some(j.n)
  {
    match j
    case JNum(n) => Some(n)
    case JBool(b) => Some(if b then 1 else 0)
    case _ => None
  }

  /** int(j). */
  function IntCall(j: Json): (r: Outcome<int>)
    ensures j.JNum? ==> r == Ok(j.n)
    ensures j.JStr? ==> (r.Ok? <==> ParseInt(j.s).Some?)
    ensures j.JNull? || j.JArr? || j.JObj? ==> r == Err(Raises)
    ensures r.Err? ==> r.error == Raises
  {
    match j
    case JNum(n) => Ok(n)
    case JBool(b) => Ok(if b then 1 else 0)
    case JStr(s) => match ParseInt(s) { case Some(n) => Ok(n) case None => Err(Raises) }
    case _ => Err(Raises)
  }

  /** str(j) for the values that reach it: strings, numbers, booleans and
      null. Python's rendering of lists and dictionaries is not modelled. */
  function PyStr(j: Json): (r: Outcome<string>)
    ensures j.JStr? ==> r == Ok(j.s)
    ensures j.JNum? && j.n >= 0 ==> r == Ok(NatToString(j.n))
  {
    match j
    case JStr(s) => Ok(s)
    case JNum(n) => Ok(IntToString(n))
    case JBool(b) => Ok(if b then "True" else "False")
    case JNull => Ok("None")
    case _ => Err(Unsupported)
  }

  /** A value stored into a string field: a string is kept, anything else
      cannot be held by the model. */
  function Text(j: Json): (r: Outcome<string>)
    ensures r.Ok? <==> j.JStr?
    ensures j.JStr? ==> r.value == j.s
    ensures r.Err? ==> r.error == Unsupported
  {
    if j.JStr? then Ok(j.s) else Err(Unsupported)
  }

  /** j.upper(): only strings have it. */
  function UpperCall(j: Json): (r: Outcome<string>)
    ensures r.Ok? <==> j.JStr?
    ensures j.JStr? ==> r.value == Upper(j.s)
  {
    if j.JStr? then Ok(Upper(j.s)) else Err(Raises)
  }

  /** Whether x occurs in s as a contiguous piece. */
  predicate IsSubstring(x: string, s: string)
    decreases |s|
  {
    x <= s || (s != [] && IsSubstring(x, s[1..]))
  }

  /** `x in j` for a string x: an equal item of a list, a piece of a
      string, a key of a dictionary; other values are not containers. */
  function Contains(j: Json, x: string): (r: Outcome<bool>)
    ensures r.Ok? <==> j.JArr? || j.JStr? || j.JObj?
    ensures j.JArr? ==> r == Ok(JStr(x) in j.items)
    ensures j.JObj? ==> r == Ok(x in j.fields)
  {
    match j
    case JArr(a) => Ok(JStr(x) in a)
    case JStr(s) => Ok(IsSubstring(x, s))
    case JObj(m) => Ok(x in m)
    case _ => Err(Raises)
  }

  /** A string contains itself and every longer string it starts. */
  lemma SubstringOfItself(x: string, rest: string)
    ensures IsSubstring(x, x + rest)
  {
    assert x <= x + rest;
  }

  /** The comparison cell.clue_number == v of a cell's number (None in
      Python when the cell has none) with a JSON value: null equals a cell
      without a number, an integer or boolean equals the same number, and
      nothing else equals either. Given as the number key to look for, or
      None when no cell can match. */
  function NumberKey(v: Json): (r: Option<Option<int>>)
    ensures v.JNull? ==> r == Some(None)
    ensures v.JNum? ==> r == Some(Some(v.n))
    ensures v.JStr? || v.JArr? || v.JObj? ==> r.None?
  {
    match v
    case JNull => Some(None)
    case JNum(n) => Some(Some(n))
    case JBool(b) => Some(Some(if b then 1 else 0))
    case _ => None
  }
}
