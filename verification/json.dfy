/** Parsed JSON values as the popup sees them after `JSON.parse`, with
    JavaScript's property access and truthiness. */
module Json {
  import opened Wrappers

  /** A JSON value. Numbers are modelled as integers; object members keep
      their textual order, duplicates included. */
  datatype Json =
    | JNull
    | JBool(b: bool)
    | JNum(n: int)
    | JStr(s: string)
    | JArr(items: seq<Json>)
    | JObj(fields: seq<(string, Json)>)

  /** The decimal numeral of `n`, most significant digit first. */
  function Decimal(n: nat): (r: string)
    ensures r != []
    ensures forall k :: 0 <= k < |r| ==> '0' <= r[k] <= '9'
    ensures |r| > 1 ==> r[0] != '0'
    decreases n
  {
    if n < 10 then [('0' as int + n) as char]
    else Decimal(n / 10) + [('0' as int + n % 10) as char]
  }

  /** The value of a string of decimal digits. */
  function DigitsValue(s: string): nat
    requires forall k :: 0 <= k < |s| ==> '0' <= s[k] <= '9'
  {
    if s == [] then 0
    else DigitsValue(s[..|s| - 1]) * 10 + (s[|s| - 1] as int - '0' as int)
  }

  /** The array index a property name denotes: a canonical decimal numeral
      (no sign, no leading zero). Other names are not indices. */
  function ArrayIndex(name: string): Option<nat> {
    if name != []
      && (forall k :: 0 <= k < |name| ==> '0' <= name[k] <= '9')
      && (|name| == 1 || name[0] != '0')
    then Some(DigitsValue(name))
    else None
  }

  /** Reading back the numeral of an index gives that index. */
  lemma {:induction false} DecimalIsIndex(n: nat)
    ensures ArrayIndex(Decimal(n)) == Some(n)
  {
    DigitsValueOfDecimal(n);
  }

  lemma {:induction false} DigitsValueOfDecimal(n: nat)
    ensures DigitsValue(Decimal(n)) == n
    decreases n
  {
    if n >= 10 {
      var d := Decimal(n);
      DigitsValueOfDecimal(n / 10);
      assert d[..|d| - 1] == Decimal(n / 10);
    }
  }

  /** `"0"` names the first element. */
  lemma IndexZero()
    ensures ArrayIndex("0") == Some(0)
  {
    DecimalIsIndex(0);
    assert Decimal(0) == "0";
  }

  /** The last member of `fields` called `name`: `JSON.parse` keeps the
      last of duplicated keys. */
  function LastField(fields: seq<(string, Json)>, name: string): (r: Option<Json>)
    ensures r.Some? <==> exists k :: 0 <= k < |fields| && fields[k].0 == name
    ensures r.Some? ==> exists k :: 0 <= k < |fields| && fields[k] == (name, r.value)
                           && (forall m :: k < m < |fields| ==> fields[m].0 != name)
  {
    if fields == [] then None
    else if fields[|fields| - 1].0 == name then
      Some(fields[|fields| - 1].1)
    else
      var r := LastField(fields[..|fields| - 1], name);
      assert forall k :: 0 <= k < |fields| - 1 ==> fields[..|fields| - 1][k] == fields[k];
      r
  }

  /** In an object whose keys are distinct, each key reads its own value. */
  lemma LastFieldOfDistinct(fields: seq<(string, Json)>, k: nat)
    requires k < |fields|
    requires forall i, j :: 0 <= i < j < |fields| ==> fields[i].0 != fields[j].0
    ensures LastField(fields, fields[k].0) == Some(fields[k].1)
  {
  }

  /** Property access `v[name]` on a non-null value, for the data a parsed
      JSON value carries: object members, array elements and string
      characters by index, and `length`. `None` stands for `undefined`. */
  function Member(v: Json, name: string): Option<Json>
    requires v != JNull
  {
    match v
    case JObj(fields) => LastField(fields, name)
    case JArr(items) =>
      if name == "length" then Some(JNum(|items|))
      else
        var i := ArrayIndex(name);
        if i.Some? && i.value < |items| then Some(items[i.value]) else None
    case JStr(s) =>
      if name == "length" then Some(JNum(|s|))
      else
        var i := ArrayIndex(name);
        if i.Some? && i.value < |s| then Some(JStr([s[i.value]])) else None
    case _ => None
  }

  /** JavaScript truthiness of a value that may be `undefined`. */
  predicate Truthy(v: Option<Json>) {
    match v
    case None => false
    case Some(JNull) => false
    case Some(JBool(b)) => b
    case Some(JNum(n)) => n != 0
    case Some(JStr(s)) => s != ""
    case Some(_) => true
  }

  /** `String(v)`, the text a template literal inserts for `v`. Arrays use
      `Array.prototype.join`, which renders `null` elements as empty. */
  function ToJsString(v: Json): string
    decreases v
  {
    match v
    case JNull => "null"
    case JBool(b) => if b then "true" else "false"
    case JNum(n) => if n < 0 then "-" + Decimal(-n) else Decimal(n)
    case JStr(s) => s
    case JArr(items) => JoinElements(items, v)
    case JObj(_) => "[object Object]"
  }

  function JoinElements(items: seq<Json>, ghost parent: Json): string
    requires forall k :: 0 <= k < |items| ==> items[k] < parent
    decreases parent, |items|
  {
    if items == [] then ""
    else
      var first := if items[0] == JNull then "" else ToJsString(items[0]);
      if |items| == 1 then first
      else first + "," + JoinElements(items[1..], parent)
  }
}
