/** Parsed JSON as a JavaScript program sees it, with the handful of
    JavaScript operators the stats mapping applies to it: truthiness and
    `||`, nullish coalescing `??`, property access and optional chaining,
    `String(v)` and `Number(v)`. `undefined` is `None` of an `Option<JVal>`. */
module JsValue {
  import opened Wrappers
  import opened Text
  import NumberFormat

  /** A JSON value. Numbers are integers. */
  datatype JVal =
    | JNull
    | JBool(b: bool)
    | JNum(n: int)
    | JStr(s: string)
    | JArr(items: seq<JVal>)
    | JObj(fields: map<string, JVal>)

  /** JavaScript truthiness: `null`, `false`, `0` and `""` are falsy. */
  predicate Truthy(v: JVal)
  {
    match v
    case JNull => false
    case JBool(b) => b
    case JNum(n) => n != 0
    case JStr(s) => s != []
    case _ => true
  }

  /** Truthiness of a value that may be `undefined` (which is falsy). */
  predicate TruthyOpt(o: Option<JVal>)
  {
    o.Some? && Truthy(o.value)
  }

  /** The falsy JSON values are exactly `null`, `false`, `0` and `""`. */
  lemma FalsyValues(v: JVal)
    ensures !Truthy(v) <==> v == JNull || v == JBool(false) || v == JNum(0) || v == JStr("")
  {
  }

  /** `a || b`: the first operand when it is truthy, otherwise the second. */
  function Or(a: JVal, b: JVal): (r: JVal)
    ensures Truthy(r) <==> Truthy(a) || Truthy(b)
    ensures r == a || r == b
    ensures Truthy(a) ==> r == a
    ensures !Truthy(a) ==> r == b
  {
    if Truthy(a) then a else b
  }

  /** `o || d` where `o` may be `undefined`. */
  function OrElse(o: Option<JVal>, d: JVal): (r: JVal)
    ensures Truthy(r) <==> TruthyOpt(o) || Truthy(d)
    ensures TruthyOpt(o) ==> r == o.value
    ensures !TruthyOpt(o) ==> r == d
  {
    if TruthyOpt(o) then o.value else d
  }

  /** `undefined` or `null`. */
  predicate Nullish(o: Option<JVal>)
  {
    o.None? || o.value == JNull
  }

  /** `a ?? b`: the first operand unless it is `undefined` or `null`. */
  function Coalesce(a: Option<JVal>, b: Option<JVal>): (r: Option<JVal>)
    ensures Nullish(r) <==> Nullish(a) && Nullish(b)
    ensures !Nullish(a) ==> r == a
    ensures Nullish(a) ==> r == b
  {
    if Nullish(a) then b else a
  }

  /** `v[k]` on a receiver that is neither `null` nor `undefined`: the own
      property of a JSON object. Strings, numbers, booleans and arrays have
      none of the keys the bot reads, so there it is `undefined`. */
  function Prop(v: JVal, k: string): (r: Option<JVal>)
    requires v != JNull
    ensures r.Some? <==> v.JObj? && k in v.fields
    ensures r.Some? ==> r.value == v.fields[k]
  {
    if v.JObj? && k in v.fields then Some(v.fields[k]) else None
  }

  /** `o?.k`: `undefined` when `o` is nullish, else `o[k]`. */
  function OptProp(o: Option<JVal>, k: string): (r: Option<JVal>)
    ensures r.Some? <==> !Nullish(o) && o.value.JObj? && k in o.value.fields
    ensures r.Some? ==> r.value == o.value.fields[k]
  {
    if Nullish(o) then None else Prop(o.value, k)
  }

  /** `parts.join(',')` */
  function Join(parts: seq<string>): string
  {
    if parts == [] then []
    else if |parts| == 1 then parts[0]
    else parts[0] + "," + Join(parts[1..])
  }

  /** `String(v)`, the text a template literal `${v}` inserts. An array is
      joined with commas, `null` elements becoming empty. */
  function ToJsString(v: JVal): (r: string)
    ensures v.JStr? ==> r == v.s
    ensures v.JNum? ==> r == NumberFormat.IntToString(v.n) && StringToNumber(r) == Int(v.n)
    ensures v.JBool? ==> r == (if v.b then "true" else "false")
    ensures v.JObj? ==> r == "[object Object]"
    ensures v.JNull? ==> r == "null"
    decreases v
  {
    match v
    case JNull => "null"
    case JBool(b) => if b then "true" else "false"
    case JNum(n) => NumberOfString(n); NumberFormat.IntToString(n)
    case JStr(s) => s
    case JArr(items) =>
      Join(seq(|items|, i requires 0 <= i < |items| => if items[i] == JNull then "" else ToJsString(items[i])))
    case JObj(_) => "[object Object]"
  }

  /** A JavaScript number as far as the model follows it. */
  datatype Numeric = Int(n: int) | NaN

  /** The white space `Number(s)` trims. */
  predicate IsJsSpace(c: char)
  {
    c == ' ' || c == '\t' || c == '\n' || c == '\r' || c == '\U{B}' || c == '\U{C}'
    || c == '\U{A0}' || c == '\U{1680}' || ('\U{2000}' <= c <= '\U{200A}')
    || c == '\U{2028}' || c == '\U{2029}' || c == '\U{202F}' || c == '\U{205F}'
    || c == '\U{3000}' || c == '\U{FEFF}'
  }

  function TrimStart(s: string): (r: string)
    ensures r == [] || !IsJsSpace(r[0])
    ensures |r| <= |s| && r == s[|s| - |r|..]
    ensures forall i :: 0 <= i < |s| - |r| ==> IsJsSpace(s[i])
  {
    if s != [] && IsJsSpace(s[0]) then TrimStart(s[1..]) else s
  }

  function TrimEnd(s: string): (r: string)
    ensures r == [] || !IsJsSpace(r[|r| - 1])
    ensures |r| <= |s| && r == s[..|r|]
    ensures forall i :: |r| <= i < |s| ==> IsJsSpace(s[i])
  {
    if s != [] && IsJsSpace(s[|s| - 1]) then TrimEnd(s[..|s| - 1]) else s
  }

  predicate AllDigits(s: string)
  {
    s != [] && forall i :: 0 <= i < |s| ==> IsAsciiDigit(s[i])
  }

  /** `Number(s)` for a string: surrounding white space is ignored, the
      empty string is 0, an optionally signed run of decimal digits is that
      integer, and anything else is `NaN`. */
  function StringToNumber(s: string): (r: Numeric)
    ensures (forall i :: 0 <= i < |s| ==> IsJsSpace(s[i])) ==> r == Int(0)
    ensures r.Int? && r.n < 0 ==> exists i :: 0 <= i < |s| && s[i] == '-'
  {
    var t := TrimEnd(TrimStart(s));
    if t == [] then Int(0)
    else if AllDigits(t) then Int(NumberFormat.ValueOf(t))
    else if t[0] == '-' && AllDigits(t[1..]) then Int(0 - NumberFormat.ValueOf(t[1..]) as int)
    else if t[0] == '+' && AllDigits(t[1..]) then Int(NumberFormat.ValueOf(t[1..]))
    else NaN
  }

  /** `Number(v)` */
  function ToNumber(v: JVal): (r: Numeric)
    ensures r == NaN ==> v.JStr? || v.JArr? || v.JObj?
    ensures v.JNum? ==> r == Int(v.n)
  {
    match v
    case JNull => Int(0)
    case JBool(b) => Int(if b then 1 else 0)
    case JNum(n) => Int(n)
    case JStr(s) => StringToNumber(s)
    case JArr(_) => StringToNumber(ToJsString(v))
    case JObj(_) => NaN
  }

  lemma {:induction false} TrimNoSpace(s: string)
    requires forall i :: 0 <= i < |s| ==> !IsJsSpace(s[i])
    ensures TrimEnd(TrimStart(s)) == s
  {
  }

  /** A run of decimal digits is read as the integer it spells. */
  lemma DigitsNumber(s: string)
    requires AllDigits(s)
    ensures StringToNumber(s) == Int(NumberFormat.ValueOf(s))
  {
    TrimNoSpace(s);
  }

  /** Round trip: `Number(String(n)) == n` for every integer. */
  lemma NumberOfString(n: int)
    ensures StringToNumber(NumberFormat.IntToString(n)) == Int(n)
  {
    var m: nat := if n < 0 then -n else n;
    var d := NumberFormat.Decimal(m);
    NumberFormat.DecimalValue(m);
    if n < 0 {
      var t := "-" + d;
      TrimNoSpace(t);
      assert t[1..] == d;
      assert !AllDigits(t);
    } else {
      TrimNoSpace(d);
    }
  }

  /** A string holding a comma, such as a comma-grouped display value, is
      not a number to `Number()`. */
  lemma CommaIsNaN(s: string, i: nat)
    requires i < |s| && s[i] == ','
    ensures StringToNumber(s) == NaN
  {
    var u := TrimStart(s);
    var t := TrimEnd(u);
    var j := i - (|s| - |u|);
    assert 0 <= j < |u| && u[j] == ',';
    assert j < |t| && t[j] == ',';
    assert !AllDigits(t) by { assert !IsAsciiDigit(t[j]); }
    if |t| > 0 && (t[0] == '-' || t[0] == '+') {
      assert j >= 1;
      assert !AllDigits(t[1..]) by { assert t[1..][j - 1] == ','; }
    }
  }

  /** A comma-grouped display string is not a number to `Number()`. */
  lemma GroupedIsNaN()
    ensures StringToNumber("3,444") == NaN
  {
    CommaIsNaN("3,444", 1);
  }
}
