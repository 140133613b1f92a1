/** JSON-shaped JavaScript values and the coercions the server applies to them:
    truthiness, `String(v)`, `Number(v)`, `v == null`, and the D-Bus variant
    unwrapping. Numbers are integers; NaN and the infinities arise only as the
    result of a failed `Number(...)` conversion, written `None`. */
module JsValues {
  import opened Wrappers
  import opened Strings

  datatype JsValue =
    | Undefined
    | Null
    | Bool(b: bool)
    | Num(n: int)
    | Str(s: string)
    | Arr(items: seq<JsValue>)
    | Obj(fields: map<string, JsValue>)

  /** Property access `o[key]` on a plain object: a missing key reads as undefined. */
  function Field(o: map<string, JsValue>, key: string): JsValue {
    if key in o then o[key] else Undefined
  }

  /** `v == null`: true of both `null` and `undefined`. */
  predicate IsNullish(v: JsValue) {
    v.Undefined? || v.Null?
  }

  /** `!!v`. */
  predicate Truthy(v: JsValue) {
    match v
    case Undefined => false
    case Null => false
    case Bool(b) => b
    case Num(n) => n != 0
    case Str(s) => s != ""
    case Arr(_) => true
    case Obj(_) => true
  }

  /** `String(v)`; an array renders its elements joined by "," with null and
      undefined elements rendered empty. */
  function ToStr(v: JsValue): string
    decreases v
  {
    match v
    case Undefined => "undefined"
    case Null => "null"
    case Bool(b) => if b then "true" else "false"
    case Num(n) => IntToDecimal(n)
    case Str(s) => s
    case Arr(items) =>
      Join(seq(|items|, i requires 0 <= i < |items| =>
        if IsNullish(items[i]) then "" else ToStr(items[i])), ",")
    case Obj(_) => "[object Object]"
  }

  predicate IsDigits(s: string) {
    |s| > 0 && forall i :: 0 <= i < |s| ==> IsDigit(s[i])
  }

  /** `Number(s)` for a string: blank text is 0, an optionally signed run of
      decimal digits is its value, and anything else is NaN (`None`). */
  function TextToNumber(s: string): (r: Option<int>)
    ensures AllSpace(s) ==> r == Some(0)
    ensures IsDigits(Trim(s)) ==> r == Some(DigitsValue(Trim(s)))
  {
    var t := Trim(s);
    if t == [] then Some(0)
    else if IsDigits(t) then Some(DigitsValue(t))
    else if t[0] == '+' && IsDigits(t[1..]) then Some(DigitsValue(t[1..]))
    else if t[0] == '-' && IsDigits(t[1..]) then Some(-(DigitsValue(t[1..]) as int))
    else None
  }

  /** `Number(v)`; `None` stands for NaN. */
  function ToNumber(v: JsValue): Option<int> {
    match v
    case Undefined => None
    case Null => Some(0)
    case Bool(b) => Some(if b then 1 else 0)
    case Num(n) => Some(n)
    case Str(s) => TextToNumber(s)
    case Arr(_) => TextToNumber(ToStr(v))
    case Obj(_) => TextToNumber(ToStr(v))
  }

  /** `Number(String(n))` is `n` for every integer `n`. */
  lemma NumberOfDecimal(n: int)
    ensures ToNumber(Str(IntToDecimal(n))) == Some(n)
  {
    if n < 0 {
      NumberOfNegativeDecimal(n);
    } else {
      NumberOfNatDecimal(n);
    }
  }

  lemma NumberOfNatDecimal(n: int)
    requires n >= 0
    ensures ToNumber(Str(IntToDecimal(n))) == Some(n)
  {
    var d := NatToDecimal(n);
    assert IntToDecimal(n) == d;
    NatToDecimalValue(n);
    TrimUnpadded(d);
  }

  lemma NumberOfNegativeDecimal(n: int)
    requires n < 0
    ensures ToNumber(Str(IntToDecimal(n))) == Some(n)
  {
    var d := NatToDecimal(-n);
    assert IntToDecimal(n) == "-" + d;
    assert IsDigits(d) && DigitsValue(d) == -n by {
      NatToDecimalValue(-n);
    }
    assert TextToNumber("-" + d) == Some(n) by {
      NegatedDigits(d);
    }
  }

  /** A minus sign followed by digits reads as the negated digits. */
  lemma NegatedDigits(d: string)
    requires IsDigits(d)
    ensures TextToNumber("-" + d) == Some(-(DigitsValue(d) as int))
  {
    var s := "-" + d;
    assert s[0] == '-' && s[|s| - 1] == d[|d| - 1];
    TrimUnpadded(s);
    assert s[1..] == d;
    assert !IsDigits(s);
  }

  /** The bridge's `asNumber`: `null`/`undefined` read as 0, everything else
      as `Number(v)`. */
  function AsNumber(v: JsValue): (r: Option<int>)
    ensures IsNullish(v) ==> r == Some(0)
    ensures !IsNullish(v) ==> r == ToNumber(v)
  {
    if v.Undefined? then Some(0) else ToNumber(v)
  }

  /** The server's `cleanStr`: null and undefined stay null, anything else is
      rendered, trimmed, and null when nothing is left. */
  function CleanStr(v: JsValue): (r: Option<string>)
    ensures r.None? <==> IsNullish(v) || AllSpace(ToStr(v))
    ensures r.Some? ==> r.value != [] && Trim(r.value) == r.value
    ensures r.Some? ==> r.value == Trim(ToStr(v))
  {
    if IsNullish(v) then None
    else
      var s := Trim(ToStr(v));
      TrimIdempotent(ToStr(v));
      if s == [] then None else Some(s)
  }

  /** The nullable-string form of a value: `null` or the string itself. */
  function OfText(o: Option<string>): JsValue {
    match o
    case None => Null
    case Some(s) => Str(s)
  }

  /** Text as `cleanStr` leaves it: absent, or non-empty and already trimmed. */
  predicate IsCleanText(o: Option<string>) {
    o.None? || (o.value != [] && Trim(o.value) == o.value)
  }

  /** Cleaning text that is already clean gives it back unchanged. */
  lemma CleanOfCleanText(o: Option<string>)
    requires IsCleanText(o)
    ensures CleanStr(OfText(o)) == o
  {
    if o.Some? {
      CleanTrimmedText(o.value);
    }
  }

  lemma CleanTrimmedText(s: string)
    requires s != [] && Trim(s) == s
    ensures CleanStr(Str(s)) == Some(s)
  {
    assert ToStr(Str(s)) == s;
    assert !IsNullish(Str(s));
  }

  /** Cleaning an already cleaned string changes nothing. */
  lemma CleanStrIdempotent(v: JsValue)
    ensures CleanStr(OfText(CleanStr(v))) == CleanStr(v)
  {
    var r := CleanStr(v);
    if r.Some? {
      CleanTrimmedText(r.value);
    }
  }

  /** A D-Bus variant as the bus library delivers it: an object with a `value`. */
  function Wrap(x: JsValue): JsValue {
    Obj(map["value" := x])
  }

  /** The bridge's `variantVal`: unwraps exactly one level of variant wrapping
      and leaves every other value alone. */
  function VariantVal(v: JsValue): (r: JsValue)
    ensures v.Obj? && "value" in v.fields ==> r == v.fields["value"]
    ensures !(v.Obj? && "value" in v.fields) ==> r == v
  {
    if v.Obj? && "value" in v.fields then v.fields["value"] else v
  }

  lemma VariantValUnwrapsOnce(x: JsValue)
    ensures VariantVal(Wrap(x)) == x
    ensures VariantVal(Wrap(Wrap(x))) == Wrap(x)
  {
  }
}
