/** `formatByKind`: the display of one metric value. The locale-aware
    number and currency formatters of the host are parameters; only the
    guard that blanks missing values, and the choice of formatter, are
    modelled. */
module ValueFormat {
  import opened Wrappers
  import MetricDefs

  /** The JavaScript values a metric cell can hold when it is displayed. */
  datatype JsValue = Undefined | Null | Str(s: string) | Num(x: real)

  /** The value `parsePtNumber` leaves in a row: a number, or `null`. */
  function FromParsed(v: Option<real>): JsValue {
    match v
    case None => Null
    case Some(x) => Num(x)
  }

  /** The `kind` string a catalog entry carries. */
  function KindName(k: MetricDefs.Kind): (r: string)
    ensures r == "currency" <==> k == MetricDefs.Currency
  {
    match k
    case Currency => "currency"
    case Count => "count"
  }

  /** True for the three values the guard of `formatByKind` blanks:
      `null`, `undefined` and the empty string, compared strictly, so that
      a zero is displayed. */
  predicate IsBlank(n: JsValue) {
    n.Null? || n.Undefined? || n == Str("")
  }

  /** `formatByKind(kind, n)`, with the host's currency and number
      formatters given as `currency` and `number`. */
  function FormatByKind(kind: string, n: JsValue,
                        currency: JsValue -> string, number: JsValue -> string): (r: string)
    ensures IsBlank(n) ==> r == ""
    ensures !IsBlank(n) && kind == "currency" ==> r == currency(n)
    ensures !IsBlank(n) && kind != "currency" ==> r == number(n)
  {
    if n == Null || n == Undefined || n == Str("") then ""
    else if kind == "currency" then currency(n)
    else number(n)
  }

  /** A cell that `parsePtNumber` left as `null` is displayed as the empty
      string, whatever the metric's kind; a parsed number, zero included,
      goes to the formatter the metric's kind selects. */
  lemma {:induction false} FormatParsed(k: MetricDefs.Kind, v: Option<real>,
                                        currency: JsValue -> string, number: JsValue -> string)
    ensures v.None? ==> FormatByKind(KindName(k), FromParsed(v), currency, number) == ""
    ensures v.Some? && k == MetricDefs.Currency ==>
      FormatByKind(KindName(k), FromParsed(v), currency, number) == currency(Num(v.value))
    ensures v.Some? && k == MetricDefs.Count ==>
      FormatByKind(KindName(k), FromParsed(v), currency, number) == number(Num(v.value))
  {
    if v.Some? {
      assert !IsBlank(FromParsed(v));
      if k == MetricDefs.Count {
        assert KindName(k) != "currency";
      }
    }
  }
}
