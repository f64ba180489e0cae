/**
 * The reader of PollReader.py: its state (the raw lines and the six columns
 * of `data_dict`), `build_data_dict` as a method that walks the lines and
 * appends in place, the percent parser `_to_float_pct`, and
 * `highest_polling_candidate`.
 */
module Reader {
  import opened Options
  import opened Text
  import opened Numbers
  import opened PollData

  /** `_to_float_pct`: `"51%"` is read as `51 / 100`, anything else as `float(s)`. */
  function ToFloatPct(s: string): Option<real> {
    var t := Strip(s);
    if |t| > 0 && t[|t| - 1] == '%' then
      match ParseFloat(t[..|t| - 1])
      case None => None
      case Some(v) => Some(v / 100.0)
    else ParseFloat(t)
  }

  /**
   * Wherever `float(s)` succeeds, `_to_float_pct(s)` gives the same value:
   * the text `float` reads has no whitespace at its ends and does not end
   * in `%`, so trimming it first changes nothing.
   */
  lemma ToFloatPctAgrees(s: string)
    requires ParseFloat(s).Some?
    ensures ToFloatPct(s) == ParseFloat(s)
  {
    FloatTextEnds(Trim(s));
    StripFindsTrim(s);
    TrimKeeps(Trim(s));
  }

  /**
   * A value with a trailing `%` is what `float` reads between the leading
   * whitespace and the `%`, divided by 100, and fails when that fails.
   */
  lemma ToFloatPctPercent(s: string)
    ensures ToFloatPct(s + ['%']) ==
      match ParseFloat(StripLeft(s))
      case None => None
      case Some(v) => Some(v / 100.0)
  {
    StripAppend(s, '%');
    PercentAfterStrip(s + ['%'], StripLeft(s));
  }

  /** A value that strips to `t` followed by `%` is `float(t) / 100`. */
  lemma PercentAfterStrip(s: string, t: string)
    requires Strip(s) == t + ['%']
    ensures ToFloatPct(s) ==
      match ParseFloat(t)
      case None => None
      case Some(v) => Some(v / 100.0)
  {
    assert (t + ['%'])[..|t|] == t;
  }

  /** A value `float` reads as `v`, followed by `%`, reads as `v / 100`. */
  lemma PercentOfValue(s: string, v: real)
    requires ParseFloat(s) == Some(v)
    ensures ToFloatPct(s + ['%']) == Some(v / 100.0)
  {
    FloatTextEnds(Trim(s));
    StripFindsTrim(s);
    ToFloatPctPercent(s);
  }

  /** `"51%"` is `51 / 100`: digits followed by `%` read as the value `x` they write, over 100. */
  lemma PercentDigits(d: string, x: real)
    requires |d| > 0 && AllDigits(d) && x == GroupedValue(d) as real
    ensures ToFloatPct(d + ['%']) == Some(x / 100.0)
  {
    ParseFloatDigits(d);
    PercentOfValue(d, x);
  }

  /** `"0.51"` is `51 / 100`: two digits after `0.` read as the value `x` they write, over 100. */
  lemma FractionDigits(d: string, x: real)
    requires |d| == 2 && AllDigits(d) && x == GroupedValue(d) as real
    ensures ToFloatPct(['0', '.'] + d) == Some(x / 100.0)
  {
    FractionValue(d, x);
    ToFloatPctAgrees(['0', '.'] + d);
  }

  /** `float("0.dd")` is the two-digit value over 100. */
  lemma FractionValue(d: string, x: real)
    requires |d| == 2 && AllDigits(d) && x == GroupedValue(d) as real
    ensures ParseFloat(['0', '.'] + d) == Some(x / 100.0)
  {
    var zero := ['0'];
    assert zero + ['.'] + d == ['0', '.'] + d;
    assert GroupedValue(zero) == 0 by {
      assert zero[..0] == [];
    }
    ParseFloatDecimal(zero, d);
    ShiftIsDivision(x, 2);
  }

  /** `"51%"` and `"0.51"` give the same fraction, for any two digits in place of `51`. */
  lemma PercentMatchesFraction(d: string)
    requires |d| == 2 && AllDigits(d)
    ensures ToFloatPct(d + ['%']) == ToFloatPct(['0', '.'] + d)
  {
    var x := GroupedValue(d) as real;
    PercentDigits(d, x);
    FractionDigits(d, x);
  }

  /** The two candidates `highest_polling_candidate` can name. */
  datatype Candidate = Harris | Trump

  /** Python's `max` of a non-empty list. */
  function MaxOf(xs: seq<real>): (m: real)
    requires |xs| > 0
    ensures m in xs
    ensures forall i :: 0 <= i < |xs| ==> xs[i] <= m
    decreases |xs|
  {
    if |xs| == 1 then xs[0]
    else
      var rest := MaxOf(xs[..|xs| - 1]);
      assert forall i :: 0 <= i < |xs| - 1 ==> xs[..|xs| - 1][i] == xs[i];
      if xs[|xs| - 1] > rest then xs[|xs| - 1] else rest
  }

  /**
   * `highest_polling_candidate` on the two result columns: the candidate
   * with the highest single result, Harris on a tie, and that result as a
   * percentage. The reported value is one of the winner's results times
   * 100, no result of either candidate is higher, and Trump is named only
   * when his best result beats every one of Harris's.
   */
  function Highest(h: seq<real>, t: seq<real>): (r: (Candidate, real))
    requires |h| > 0 && |t| > 0
    ensures r.0 == Harris ==> exists i :: 0 <= i < |h| && r.1 == h[i] * 100.0
    ensures r.0 == Trump ==> exists i :: 0 <= i < |t| && r.1 == t[i] * 100.0
    ensures forall i :: 0 <= i < |h| ==> h[i] * 100.0 <= r.1
    ensures forall i :: 0 <= i < |t| ==> t[i] * 100.0 <= r.1
    ensures r.0 == Trump <==> forall i :: 0 <= i < |h| ==> h[i] * 100.0 < r.1
  {
    var maxH, maxT := MaxOf(h), MaxOf(t);
    if maxH >= maxT then (Harris, maxH * 100.0) else (Trump, maxT * 100.0)
  }

  /** The `ValueError` `build_data_dict` raises: the line and the field whose conversion failed. */
  datatype ParseError = ParseError(line: nat, field: nat)

  /** A reader over the lines of one CSV file, and the columns built from them. */
  class PollReader {
    /** `raw_data`: the lines of the file, header first. */
    var rawData: seq<string>
    /** The six lists of `data_dict`. */
    var month: seq<string>
    var date: seq<int>
    var sample: seq<int>
    var sampleType: seq<string>
    var harris: seq<real>
    var trump: seq<real>

    /** The columns of `data_dict`, as one value. */
    function Data(): Columns
      reads this
    {
      Columns(month, date, sample, sampleType, harris, trump)
    }

    /** `__init__` after `readlines()`: the lines are kept and every column is empty. */
    constructor (lines: seq<string>)
      ensures rawData == lines && Data() == Empty
    {
      rawData := lines;
      month, date, sample, sampleType := [], [], [], [];
      harris, trump := [], [];
    }

    /**
     * `build_data_dict`: one pass over the lines, appending in place. The
     * columns end as the loop of `Run` leaves them, and the error is the
     * first failed conversion, if any. From aligned columns, it succeeds
     * exactly when every accepted line converts, and then it has appended
     * one poll per accepted line, in file order.
     */
    method BuildDataDict() returns (error: Option<ParseError>)
      modifies this
      ensures rawData == old(rawData)
      ensures match Run(old(Data()), rawData)
        case Done(c) => error == None && Data() == c
        case Failed(c, k, f) => error == Some(ParseError(k, f)) && Data() == c
      ensures old(Data()).Aligned() ==>
        (error == None <==> AllParsed(Readings(ReadLines(rawData)))) &&
        (error == None ==> LoadedRows(old(Data()), Data(), Readings(ReadLines(rawData))))
    {
      ghost var c0 := Data();
      ghost var ls := ReadLines(rawData);
      error := None;
      var i := 0;
      while i < |rawData| && error == None
        invariant 0 <= i <= |rawData|
        invariant rawData == old(rawData) && ls == ReadLines(rawData)
        invariant RunLines(c0, ls[..i]) ==
          match error
          case None => Done(Data())
          case Some(e) => Failed(Data(), e.line, e.field)
      {
        RunSnoc(c0, ls, i);
        error := AppendLine(i, rawData[i]);
        i := i + 1;
      }
      if error == None {
        assert ls[..i] == ls;
      } else {
        RunStaysFailed(c0, ls, i);
      }
      if c0.Aligned() {
        RunLoads(c0, ls);
      }
    }

    /**
     * One turn of the loop of `build_data_dict`, for the line at index
     * `idx`: the header and lines of fewer than six fields are skipped;
     * otherwise the six appends run in order until a conversion fails.
     * The conversions have no effect of their own, so they are computed
     * here and the appends they guard run in `AppendFields`.
     */
    method AppendLine(idx: nat, line: string) returns (error: Option<ParseError>)
      modifies this
      ensures rawData == old(rawData)
      ensures match Step(old(Data()), idx, ReadLine(line))
        case Done(c) => error == None && Data() == c
        case Failed(c, k, f) => error == Some(ParseError(k, f)) && Data() == c
    {
      if idx == 0 {
        return None;
      }
      var parts := Parts(line);
      if |parts| < 6 {
        return None;
      }
      var v := Converted(ParseInt(parts[DateField]), ParseInt(parts[SampleField]),
                         ParseFloat(parts[HarrisField]), ParseFloat(parts[TrumpField]));
      assert ReadLine(line) == Wide(parts[MonthField], parts[SampleTypeField], v);
      error := AppendFields(idx, parts[MonthField], parts[SampleTypeField], v);
    }

    /**
     * The appends of one accepted line: 'month', then each converted value
     * in column order, stopping at the first conversion that failed.
     */
    method AppendFields(idx: nat, m: string, st: string, v: Converted) returns (error: Option<ParseError>)
      modifies this
      ensures rawData == old(rawData)
      ensures match Stage(old(Data()), idx, m, st, v)
        case Done(c) => error == None && Data() == c
        case Failed(c, k, f) => error == Some(ParseError(k, f)) && Data() == c
    {
      month := month + [m];
      if v.date.None? {
        return Some(ParseError(idx, DateField));
      }
      date := date + [v.date.value];
      if v.sample.None? {
        return Some(ParseError(idx, SampleField));
      }
      sample := sample + [v.sample.value];
      sampleType := sampleType + [st];
      if v.harris.None? {
        return Some(ParseError(idx, HarrisField));
      }
      harris := harris + [v.harris.value];
      if v.trump.None? {
        return Some(ParseError(idx, TrumpField));
      }
      trump := trump + [v.trump.value];
      error := None;
    }

    /** `highest_polling_candidate` on this reader's 'Harris result' and 'Trump result' columns. */
    function HighestPollingCandidate(): (r: (Candidate, real))
      reads this
      requires |harris| > 0 && |trump| > 0
      ensures r == Highest(harris, trump)
    {
      Highest(harris, trump)
    }
  }
}
