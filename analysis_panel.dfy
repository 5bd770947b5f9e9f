/** The analysis panel of src/components/AnalysisPanel.tsx: which of its
    four views is shown for the controller's error, loading flag and
    analysis, and how the evaluation value is written. */
module AnalysisPanel {
  import opened Types

  /** The result view's contents: the evaluation text, the depth and the
      best move. */
  datatype PanelView =
    | ErrorView(message: string)
    | LoadingView
    | PlaceholderView
    | ResultView(value: string, depth: int, bestMove: string)

  /** The truthiness of the error cell: a missing or empty message is
      falsy. */
  predicate HasError(error: Option<string>)
  {
    error.Some? && error.value != ""
  }

  /** The number a run of decimal digits denotes, most significant first. */
  function DecimalValue(s: string): nat
  {
    if s == [] then 0
    else
      var c := s[|s| - 1];
      DecimalValue(s[..|s| - 1]) * 10 + (if '0' <= c <= '9' then (c - '0') as int else 0)
  }

  /** The decimal digits of n: they denote n, with no leading zero. */
  function Digits(n: nat): (s: string)
    ensures |s| > 0
    ensures forall i :: 0 <= i < |s| ==> '0' <= s[i] <= '9'
    ensures n > 0 ==> s[0] != '0'
    ensures DecimalValue(s) == n
    decreases n
  {
    var d := ['0' + (n % 10) as char];
    if n < 10 then d
    else
      var s := Digits(n / 10) + d;
      assert s[..|s| - 1] == Digits(n / 10);
      s
  }

  /** The text of an integral number: a minus sign for negative values,
      then the digits of its magnitude. */
  function NumberText(v: int): string
  {
    if v < 0 then "-" + Digits(-v) else Digits(v)
  }

  /** The "+" written before a non-negative evaluation. */
  function SignPrefix(v: int): (p: string)
    ensures p == "+" <==> v >= 0
    ensures p != "+" ==> p == ""
  {
    if v >= 0 then "+" else ""
  }

  /** The evaluation as shown: the prefix, then the number. It always
      starts with a sign, "+" exactly for the non-negative values and "-"
      exactly for the negative ones (never both), followed by the decimal
      digits of the value's magnitude. */
  function ValueText(v: int): (text: string)
    ensures |text| >= 2
    ensures text[0] == '+' <==> v >= 0
    ensures text[0] == '-' <==> v < 0
    ensures forall i :: 1 <= i < |text| ==> '0' <= text[i] <= '9'
    ensures DecimalValue(text[1..]) == if v < 0 then -v else v
  {
    var magnitude: nat := if v < 0 then -v else v;
    var digits := Digits(magnitude);
    var text := SignPrefix(v) + NumberText(v);
    assert text == [if v >= 0 then '+' else '-'] + digits;
    assert text[1..] == digits;
    text
  }

  /** The branch order: an error message is shown whatever the loading
      flag and the analysis are; with no error, loading is shown whatever
      the analysis holds; then the placeholder when there is no analysis;
      only in the remaining case the result, with the analysis's
      evaluation (its sign, then the digits of its magnitude), depth and
      best move. */
  function Panel(analysis: Option<AnalysisResponse>, isLoading: bool, error: Option<string>): (view: PanelView)
    ensures view.ErrorView? <==> HasError(error)
    ensures view.ErrorView? ==> view.message == error.value
    ensures view.LoadingView? <==> !HasError(error) && isLoading
    ensures view.PlaceholderView? <==> !HasError(error) && !isLoading && analysis.None?
    ensures view.ResultView? <==> !HasError(error) && !isLoading && analysis.Some?
    ensures view.ResultView? ==>
      && view.depth == analysis.value.depth
      && view.bestMove == analysis.value.bestMove
      && view.value == ValueText(analysis.value.evaluation.value)
      && |view.value| >= 2
      && DecimalValue(view.value[1..]) == (if analysis.value.evaluation.value < 0
                                           then -analysis.value.evaluation.value
                                           else analysis.value.evaluation.value)
      && (view.value[0] == '+' <==> analysis.value.evaluation.value >= 0)
      && (view.value[0] == '-' <==> analysis.value.evaluation.value < 0)
  {
    if HasError(error) then ErrorView(error.value)
    else if isLoading then LoadingView
    else if analysis.None? then PlaceholderView
    else
      ResultView(ValueText(analysis.value.evaluation.value), analysis.value.depth, analysis.value.bestMove)
  }
}
