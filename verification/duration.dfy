/** `getDurationMs` of theme/base/static/theme.js: reads a CSS duration
    custom property ("250ms", "0.5s", "300") and returns milliseconds.

    The property lookup is the input `raw` (`None` when reading the computed
    style throws). JavaScript's `parseFloat` and `Number` are parameters:
    the model holds for any conversion functions. */
module Duration {
  import opened Wrappers
  import opened Strings
  import opened JsNumber

  /** Default fallback of the script's `getDurationMs` signature. */
  const DEFAULT_FALLBACK_MS: real := 500.0

  function GetDurationMs(raw: Option<string>, fallback: Num,
                         parseFloat: string -> Num, toNumber: string -> Num): (r: Num)
    // A throwing lookup gives the fallback.
    ensures raw.None? ==> r == fallback
    // So does a value made only of blanks.
    ensures raw.Some? && (forall k :: 0 <= k < |raw.value| ==> IsJsSpace(raw.value[k])) ==> r == fallback
    // Otherwise the trimmed value is converted as `FromTrimmed` states.
    ensures raw.Some? ==> r == FromTrimmed(JsTrim(raw.value), fallback, parseFloat, toNumber)
  {
    match raw
    case None => fallback
    case Some(value) => FromTrimmed(JsTrim(value), fallback, parseFloat, toNumber)
  }

  /** The conversion of the trimmed property value: an empty (all-blank)
      value gives the fallback; "ms" is tested first and gives the parsed
      value floored at 0 (NaN stays NaN); otherwise a trailing "s" means
      seconds, times 1000 and floored at 0; without a unit `Number(t)` is
      used unclamped, or the fallback when it is NaN. */
  function FromTrimmed(t: string, fallback: Num,
                       parseFloat: string -> Num, toNumber: string -> Num): (r: Num)
    ensures t == [] ==> r == fallback
    ensures EndsWith(t, "ms") ==>
      var v := parseFloat(t);
      && (r.NaN? <==> v.NaN?)
      && (!r.NaN? ==> Le(Fin(0.0), r))
      && (!v.NaN? && Le(Fin(0.0), v) ==> r == v)
      && (!v.NaN? && !Le(Fin(0.0), v) ==> r == Fin(0.0))
    ensures EndsWith(t, "s") && !EndsWith(t, "ms") ==>
      var v := parseFloat(t);
      && (r.NaN? <==> v.NaN?)
      && (!r.NaN? ==> Le(Fin(0.0), r))
      && (v.Fin? && v.r >= 0.0 ==> r == Fin(v.r * 1000.0))
      && (v.Fin? && v.r < 0.0 ==> r == Fin(0.0))
    ensures t != [] && !EndsWith(t, "s") ==>
      var n := toNumber(t);
      r == if n.NaN? then fallback else n
  {
    if t == [] then fallback
    else if EndsWith(t, "ms") then NonNegative(parseFloat(t))
    else if EndsWith(t, "s") then NonNegative(Scale(parseFloat(t), 1000.0))
    else
      var n := toNumber(t);
      if n.NaN? then fallback else n
  }

  /** `Math.max(0, v)`. */
  function NonNegative(v: Num): (r: Num)
    ensures r.NaN? <==> v.NaN?
    ensures !r.NaN? ==> Le(Fin(0.0), r)
    ensures !v.NaN? && Le(Fin(0.0), v) ==> r == v
    ensures !v.NaN? && !Le(Fin(0.0), v) ==> r == Fin(0.0)
  {
    Max(Fin(0.0), v)
  }

  /** Every "ms" value also ends in "s"; the order of the tests is what
      keeps "250ms" from being read as 250 seconds. */
  lemma {:induction false} MsBeforeSeconds(t: string)
    requires EndsWith(t, "ms")
    ensures EndsWith(t, "s")
  {
    assert t[|t| - 1..] == t[|t| - 2..][1..];
  }

  /** A value written in seconds is a thousand times the same number written
      in milliseconds, provided `parseFloat` reads the same numeric prefix
      from both (it stops at the first character that cannot continue a
      number), that prefix starts with no blank, and it does not itself end
      in "m" (or "…m" + "s" would read as milliseconds). */
  lemma {:induction false} SecondsAreThousandMs(x: string, v: real,
                                                parseFloat: string -> Num, toNumber: string -> Num)
    requires x != [] && !IsJsSpace(x[0]) && x[|x| - 1] != 'm'
    requires parseFloat(x + "s") == Fin(v) && parseFloat(x + "ms") == Fin(v)
    requires v >= 0.0
    ensures GetDurationMs(Some(x + "ms"), Fin(DEFAULT_FALLBACK_MS), parseFloat, toNumber) == Fin(v)
    ensures GetDurationMs(Some(x + "s"), Fin(DEFAULT_FALLBACK_MS), parseFloat, toNumber) == Fin(v * 1000.0)
  {
    var ms, s := x + "ms", x + "s";
    TrimOfTrimmed(ms, IsJsSpace);
    TrimOfTrimmed(s, IsJsSpace);
    assert EndsWith(ms, "ms");
    assert s[|s| - 2] == x[|x| - 1];
    assert !EndsWith(s, "ms");
  }
}
