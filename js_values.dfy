/**
 * The values `JSON.parse` produces, and the JavaScript coercions the extension
 * applies to them: property access, truthiness, `String(v)` (template literal
 * interpolation) and `Number(v)` (the `line - 1` in `applyDecoration`).
 *
 * `JSON.parse` itself is not modelled: callers receive it as an uninterpreted
 * function `decode`. Every text the extension hands to it either ends with
 * '}' or starts (after whitespace) with '{', and the only JSON value such a
 * text can denote is an object, so `decode` yields objects.
 */
module JsValues {
  import opened Wrappers
  import opened Text

  /** A JSON value; numbers are integers (see README for fractions). */
  datatype Json =
    | Null
    | Bool(b: bool)
    | Num(n: int)
    | Str(s: string)
    | Arr(items: seq<Json>)
    | Obj(fields: map<string, Json>)

  type JsonObject = map<string, Json>

  /** `o.name`; `None` stands for `undefined`. */
  function Get(o: JsonObject, name: string): Option<Json>
  {
    if name in o then Some(o[name]) else None
  }

  /**
   * The falsy values a JSON property can hold: `undefined`, `null`, `false`,
   * `0` and the empty string (JSON has no `NaN`).
   */
  predicate Falsy(v: Option<Json>)
  {
    v in {None, Some(Null), Some(Bool(false)), Some(Num(0)), Some(Str(""))}
  }

  /** JavaScript truthiness of a property value: every value that is not falsy. */
  predicate Truthy(v: Option<Json>): (r: bool)
    ensures r <==> !Falsy(v)
  {
    match v
    case None => false
    case Some(Null) => false
    case Some(Bool(b)) => b
    case Some(Num(n)) => n != 0
    case Some(Str(s)) => s != ""
    case Some(Arr(_)) => true
    case Some(Obj(_)) => true
  }

  /**
   * `String(v)`, as `${v}` renders it: arrays join their elements with ','
   * (null elements render empty), plain objects render as "[object Object]".
   */
  function ToJsString(v: Json): string
  {
    match v
    case Null => "null"
    case Bool(b) => if b then "true" else "false"
    case Num(n) => IntToString(n)
    case Str(s) => s
    case Arr(items) =>
      Join(seq(|items|, i requires 0 <= i < |items| =>
                 if items[i] == Null then "" else ToJsString(items[i])), ',')
    case Obj(_) => "[object Object]"
  }

  /** `${v}` in a template literal, where a missing property renders as "undefined". */
  function Interpolate(v: Option<Json>): string
  {
    if v.Some? then ToJsString(v.value) else "undefined"
  }

  /**
   * `Number(s)` for the string forms the model reads: surrounding whitespace
   * is ignored, an empty string is 0, a run of decimal digits is its value,
   * and everything else is `NaN` (`None`).
   */
  function StringToNumber(s: string): (r: Option<int>)
    ensures r.Some? ==> r.value >= 0
    ensures Trim(s) == "" ==> r == Some(0)
  {
    var t := Trim(s);
    if t == "" then Some(0)
    else if AllDigits(t) then Some(DigitsValue(t))
    else None
  }

  /** `Number(v)` when it is an integer; `None` stands for `NaN`. */
  function ToNumber(v: Option<Json>): Option<int>
  {
    match v
    case None => None
    case Some(Null) => Some(0)
    case Some(Bool(b)) => Some(if b then 1 else 0)
    case Some(Num(n)) => Some(n)
    case Some(Str(s)) => StringToNumber(s)
    case Some(x) => StringToNumber(ToJsString(x))
  }

  /** An integer renders as its decimal digits, so its string holds no ':'. */
  lemma NumStringHasNoColon(n: int)
    ensures ':' !in ToJsString(Num(n))
  {
    var s := ToJsString(Num(n));
    assert forall i :: 0 <= i < |s| ==> s[i] != ':' by {
      forall i | 0 <= i < |s| ensures s[i] != ':' {
        assert i == 0 ==> s[0] == '-' || IsDigit(s[0]);
      }
    }
  }

  /** A digit string read back by `Number` gives the number it renders. */
  lemma NumberOfNatString(n: nat)
    ensures StringToNumber(NatToString(n)) == Some(n)
  {
    var s := NatToString(n);
    assert !IsWhitespace(s[0]) && !IsWhitespace(s[|s| - 1]);
    assert TrimStart(s) == s;
    assert TrimEnd(s) == s;
    DigitsValueOfNatToString(n);
  }
}
