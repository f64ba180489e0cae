/**
 * The column store of PollReader.py: how one line of the CSV file is split
 * into fields, and how `build_data_dict` turns the lines into six parallel
 * columns, stated as functions over the lines, with the lemmas that say what
 * the columns hold afterwards.
 */
module PollData {
  import opened Options
  import opened Text
  import opened Numbers

  /** One poll, as one line of the file describes it. */
  datatype Row = Row(month: string, date: int, sample: int, sampleType: string, harris: real, trump: real)

  /**
   * The six lists of `data_dict` ('month', 'date', 'sample', 'sample type',
   * 'Harris result', 'Trump result'), in the order `build_data_dict` appends to them.
   */
  datatype Columns = Columns(
    month: seq<string>, date: seq<int>, sample: seq<int>,
    sampleType: seq<string>, harris: seq<real>, trump: seq<real>)
  {
    /** The lengths of the six columns, in append order. */
    function Lengths(): seq<nat> {
      [|month|, |date|, |sample|, |sampleType|, |harris|, |trump|]
    }

    /** All six columns have the same length, so entry `i` of each belongs to one poll. */
    predicate Aligned() {
      |date| == |month| && |sample| == |month| && |sampleType| == |month| &&
      |harris| == |month| && |trump| == |month|
    }

    /** Entry `i` of every column, read as one poll. */
    function RowAt(i: nat): Row
      requires Aligned() && i < |month|
    {
      Row(month[i], date[i], sample[i], sampleType[i], harris[i], trump[i])
    }

    /** Appends one whole poll, one entry per column. */
    function Push(r: Row): Columns {
      Columns(month + [r.month], date + [r.date], sample + [r.sample],
              sampleType + [r.sampleType], harris + [r.harris], trump + [r.trump])
    }

    /** Each column of `c` is a prefix of the same column here: appends only. */
    predicate Extends(c: Columns) {
      c.month <= month && c.date <= date && c.sample <= sample &&
      c.sampleType <= sampleType && c.harris <= harris && c.trump <= trump
    }
  }

  /** The `data_dict` a fresh reader starts with. */
  const Empty: Columns := Columns([], [], [], [], [], [])

  /**
   * The result of the loop: it ran to the end, or a conversion raised
   * ValueError at field `field` of line `line`, leaving the columns as they
   * were at that moment.
   */
  datatype Outcome = Done(cols: Columns) | Failed(cols: Columns, line: nat, field: nat)

  /** What one line parses to as a whole: a poll, or the first field that does not convert. */
  datatype RowResult = Parsed(row: Row) | BadField(field: nat)

  /** Field positions in a split line (PollReader.py:42-47). */
  const MonthField := 0
  const DateField := 1
  const SampleField := 2
  const SampleTypeField := 3
  const HarrisField := 4
  const TrumpField := 5

  /** `[p.strip() for p in line.strip().split(',')]`. */
  function Parts(line: string): seq<string> {
    var fields := Split(Strip(line), ',');
    seq(|fields|, i requires 0 <= i < |fields| => Strip(fields[i]))
  }

  /** The four conversions of a split line; `None` where Python raises ValueError. */
  datatype Converted = Converted(date: Option<int>, sample: Option<int>, harris: Option<real>, trump: Option<real>)

  /** `int(parts[1])`, `int(parts[2])`, `float(parts[4])`, `float(parts[5])`. */
  function Convert(parts: seq<string>): Converted
    requires |parts| >= 6
  {
    Converted(ParseInt(parts[DateField]), ParseInt(parts[SampleField]),
              ParseFloat(parts[HarrisField]), ParseFloat(parts[TrumpField]))
  }

  /**
   * One line of the file as the loop sees it: fewer than six fields (the
   * line is skipped), or the two text fields and the four conversions the
   * appends use. Fields after the sixth are not looked at.
   */
  datatype LineRead = Short | Wide(month: string, sampleType: string, values: Converted)

  /** Splits and converts one line (PollReader.py:37-47, before any append). */
  function ReadLine(line: string): (l: LineRead)
    ensures l.Wide? <==> Occurrences(Strip(line), ',') >= 5
  {
    SplitSpec(Strip(line), ',');
    var parts := Parts(line);
    if |parts| < 6 then Short else Wide(parts[MonthField], parts[SampleTypeField], Convert(parts))
  }

  /** Every line of the file, read. */
  function ReadLines(lines: seq<string>): (ls: seq<LineRead>)
    ensures |ls| == |lines| && forall i :: 0 <= i < |lines| ==> ls[i] == ReadLine(lines[i])
  {
    seq(|lines|, i requires 0 <= i < |lines| => ReadLine(lines[i]))
  }

  /** A whole poll from its two text fields and four conversions, or the first failed conversion. */
  function Assemble(month: string, sampleType: string, v: Converted): RowResult {
    match v
    case Converted(Some(d), Some(n), Some(h), Some(t)) => Parsed(Row(month, d, n, sampleType, h, t))
    case Converted(None, _, _, _) => BadField(DateField)
    case Converted(_, None, _, _) => BadField(SampleField)
    case Converted(_, _, None, _) => BadField(HarrisField)
    case Converted(_, _, _, None) => BadField(TrumpField)
  }

  /**
   * The reference reading of a line that reaches the appends: the poll its
   * fields describe when all four numeric fields convert, otherwise the
   * first field that does not.
   */
  function Reading(l: LineRead): RowResult
    requires l.Wide?
  {
    Assemble(l.month, l.sampleType, l.values)
  }

  /**
   * PollReader.py:42-47 one column at a time: 'month' first, then each
   * conversion in turn; the first that fails stops the line, after the
   * appends made before it.
   */
  function Stage(c: Columns, idx: nat, month: string, sampleType: string, v: Converted): Outcome {
    var c1 := c.(month := c.month + [month]);
    match v.date
    case None => Failed(c1, idx, DateField)
    case Some(d) =>
      var c2 := c1.(date := c1.date + [d]);
      match v.sample
      case None => Failed(c2, idx, SampleField)
      case Some(n) =>
        var c4 := c2.(sample := c2.sample + [n], sampleType := c2.sampleType + [sampleType]);
        match v.harris
        case None => Failed(c4, idx, HarrisField)
        case Some(h) =>
          var c5 := c4.(harris := c4.harris + [h]);
          match v.trump
          case None => Failed(c5, idx, TrumpField)
          case Some(t) => Done(c5.(trump := c5.trump + [t]))
  }

  /** One turn of the loop of PollReader.py:35-47, for the line at index `idx`. */
  function Step(c: Columns, idx: nat, l: LineRead): Outcome {
    if idx == 0 || l.Short? then Done(c) else Stage(c, idx, l.month, l.sampleType, l.values)
  }

  /** The loop of `build_data_dict` over the read lines `ls`, starting from the columns `c0`. */
  function RunLines(c0: Columns, ls: seq<LineRead>): (o: Outcome)
    ensures o.cols.Extends(c0)
    ensures o.Failed? ==> 1 <= o.line < |ls|
    decreases |ls|
  {
    if ls == [] then Done(c0)
    else
      match RunLines(c0, ls[..|ls| - 1])
      case Failed(c, k, f) => Failed(c, k, f)
      case Done(c) => Step(c, |ls| - 1, ls[|ls| - 1])
  }

  /** The loop of `build_data_dict` over the lines of the file, starting from the columns `c0`. */
  function Run(c0: Columns, lines: seq<string>): Outcome {
    RunLines(c0, ReadLines(lines))
  }

  predicate IsWide(l: LineRead) {
    l.Wide?
  }

  /**
   * The indices past the first (the header) of the elements `keep` holds
   * for, in increasing order: exactly those, each once.
   */
  function KeptAfterHeader<T>(xs: seq<T>, keep: T -> bool): (ix: seq<nat>)
    ensures forall j :: 0 <= j < |ix| ==> 1 <= ix[j] < |xs| && keep(xs[ix[j]])
    ensures forall j, k :: 0 <= j < k < |ix| ==> ix[j] < ix[k]
    ensures forall i :: 1 <= i < |xs| && keep(xs[i]) ==> i in ix
    decreases |xs|
  {
    if |xs| <= 1 then []
    else
      var n := |xs| - 1;
      var init := xs[..n];
      assert forall i :: 0 <= i < n ==> init[i] == xs[i];
      KeptAfterHeader(init, keep) + (if keep(xs[n]) then [n] else [])
  }

  /** The indices of the lines that reach the appends, in file order. */
  function Accepted(ls: seq<LineRead>): seq<nat> {
    KeptAfterHeader(ls, IsWide)
  }

  /** The reference reading of every accepted line, in file order. */
  function Readings(ls: seq<LineRead>): (rs: seq<RowResult>)
    decreases |ls|
  {
    if |ls| <= 1 then []
    else
      var n := |ls| - 1;
      Readings(ls[..n]) + (if ls[n].Wide? then [Reading(ls[n])] else [])
  }

  /** Every reading is a whole poll: no conversion fails. */
  predicate AllParsed(rs: seq<RowResult>) {
    forall j :: 0 <= j < |rs| ==> rs[j].Parsed?
  }

  /**
   * `c` is `c0` with one poll appended per reading, in order: the columns
   * stay aligned, and the `j`-th new entry of every column is the `j`-th poll.
   */
  ghost predicate LoadedRows(c0: Columns, c: Columns, rs: seq<RowResult>)
    requires c0.Aligned()
  {
    c.Aligned() && c.Extends(c0) && |c.month| == |c0.month| + |rs| &&
    forall j :: 0 <= j < |rs| ==> rs[j] == Parsed(c.RowAt(|c0.month| + j))
  }

  /**
   * The staged appends against the reference reading: a line that parses
   * appends exactly its poll to every column; one that does not raises at
   * its first bad field, after appending to the columns before it (so a bad
   * date leaves 'month' one entry longer than the other five columns); each
   * of those partial appends is the line's own field or conversion.
   */
  lemma StageMeaning(c: Columns, idx: nat, month: string, sampleType: string, v: Converted)
    requires c.Aligned()
    ensures var r := Assemble(month, sampleType, v); var o := Stage(c, idx, month, sampleType, v);
      (r.Parsed? ==> o == Done(c.Push(r.row))) &&
      (r.BadField? ==>
        o.Failed? && o.line == idx && o.field == r.field &&
        o.field in {DateField, SampleField, HarrisField, TrumpField} &&
        o.cols.Extends(c) && o.cols.month == c.month + [month] &&
        (forall k :: 0 <= k < 6 ==> o.cols.Lengths()[k] == |c.month| + (if k < o.field then 1 else 0)) &&
        (o.field > DateField ==> o.cols.date == c.date + [v.date.value]) &&
        (o.field > SampleField ==>
          o.cols.sample == c.sample + [v.sample.value] && o.cols.sampleType == c.sampleType + [sampleType]) &&
        (o.field > HarrisField ==> o.cols.harris == c.harris + [v.harris.value]))
  {
  }

  /** One more line: the loop either has already failed or runs one more step. */
  lemma RunSnoc(c0: Columns, ls: seq<LineRead>, i: nat)
    requires i < |ls|
    ensures RunLines(c0, ls[..i + 1]) ==
      match RunLines(c0, ls[..i])
      case Failed(c, k, f) => Failed(c, k, f)
      case Done(c) => Step(c, i, ls[i])
  {
    assert ls[..i + 1][..i] == ls[..i];
  }

  /** Once a conversion has failed, the later lines are never looked at. */
  lemma {:induction false} RunStaysFailed(c0: Columns, ls: seq<LineRead>, k: nat)
    requires k <= |ls| && RunLines(c0, ls[..k]).Failed?
    ensures RunLines(c0, ls) == RunLines(c0, ls[..k])
    decreases |ls| - k
  {
    if k < |ls| {
      RunSnoc(c0, ls, k);
      RunStaysFailed(c0, ls, k + 1);
    } else {
      assert ls[..k] == ls;
    }
  }

  /** The line at index 0 never reaches the columns, whatever it holds. */
  lemma {:induction false} RunIgnoresHeader(c0: Columns, a: seq<LineRead>, b: seq<LineRead>)
    requires |a| == |b| > 0 && a[1..] == b[1..]
    ensures RunLines(c0, a) == RunLines(c0, b)
    decreases |a|
  {
    var n := |a| - 1;
    if n == 0 {
      assert a[..0] == b[..0] == [];
    } else {
      assert a[..n][1..] == b[..n][1..] by {
        assert a[..n][1..] == a[1..][..n - 1];
        assert b[..n][1..] == b[1..][..n - 1];
      }
      RunIgnoresHeader(c0, a[..n], b[..n]);
      assert a[n] == a[1..][n - 1] == b[n];
    }
  }

  /** A line of whitespace only (a blank line) splits to one empty field and is skipped. */
  lemma BlankLineSkipped(line: string)
    requires forall i :: 0 <= i < |line| ==> IsSpace(line[i])
    ensures Parts(line) == [""] && ReadLine(line) == Short
  {
    StripBlank(line);
    assert Split([], ',') == [[]];
    StripKeeps([]);
  }

  /** Python's `build_data_dict` never looks at the line at index 0: two files that differ only there build alike. */
  lemma HeaderIgnored(c0: Columns, a: seq<string>, b: seq<string>)
    requires |a| == |b| > 0 && a[1..] == b[1..]
    ensures Run(c0, a) == Run(c0, b)
  {
    var la, lb := ReadLines(a), ReadLines(b);
    forall i | 0 <= i < |la| - 1 ensures la[1..][i] == lb[1..][i] {
      assert a[i + 1] == a[1..][i] == b[i + 1];
    }
    RunIgnoresHeader(c0, la, lb);
  }

  /** A line with fewer than six fields leaves all six columns as they were. */
  lemma ShortLineSkipped(c: Columns, idx: nat, line: string)
    requires |Parts(line)| < 6
    ensures Step(c, idx, ReadLine(line)) == Done(c)
  {
  }

  /** Only the first six fields are read: lines that agree on those are read alike. */
  lemma ExtraFieldsIgnored(a: string, b: string)
    requires |Parts(a)| >= 6 && |Parts(b)| >= 6 && Parts(a)[..6] == Parts(b)[..6]
    ensures ReadLine(a) == ReadLine(b)
  {
    var pa, pb := Parts(a), Parts(b);
    assert forall k :: 0 <= k < 6 ==> pa[k] == pa[..6][k] == pb[..6][k] == pb[k];
  }

  /**
   * A reading is a whole poll exactly when all four conversions succeed;
   * otherwise it names the first of date, sample, Harris and Trump (in that
   * order) that failed.
   */
  lemma AssembleFirstFailure(month: string, sampleType: string, v: Converted)
    ensures var r := Assemble(month, sampleType, v);
      (r.Parsed? <==> v.date.Some? && v.sample.Some? && v.harris.Some? && v.trump.Some?) &&
      (r.Parsed? ==>
         r.row.month == month && r.row.sampleType == sampleType &&
         Some(r.row.date) == v.date && Some(r.row.sample) == v.sample &&
         Some(r.row.harris) == v.harris && Some(r.row.trump) == v.trump) &&
      (r.BadField? ==>
         (r.field == DateField <==> v.date.None?) &&
         (r.field == SampleField <==> v.date.Some? && v.sample.None?) &&
         (r.field == HarrisField <==> v.date.Some? && v.sample.Some? && v.harris.None?) &&
         (r.field == TrumpField <==> v.date.Some? && v.sample.Some? && v.harris.Some? && v.trump.None?))
  {
  }

  /**
   * A line written as fields joined by commas, where no field holds a comma
   * or is empty and none starts or ends with whitespace, splits back into
   * exactly those fields.
   */
  lemma PartsOfJoin(fields: seq<string>)
    requires |fields| > 0
    requires forall i :: 0 <= i < |fields| ==>
      ',' !in fields[i] &&
      (fields[i] == [] || (!IsSpace(fields[i][0]) && !IsSpace(fields[i][|fields[i]| - 1])))
    ensures Parts(Join(fields, ',')) == fields
  {
    var line := Join(fields, ',');
    JoinEndsNotSpace(fields, ',');
    StripKeeps(line);
    SplitJoin(fields, ',');
    forall i | 0 <= i < |fields| ensures Strip(fields[i]) == fields[i] {
      StripKeeps(fields[i]);
    }
  }

  /** The `j`-th reading is that of the `j`-th accepted line. */
  lemma {:induction false} ReadingsAt(ls: seq<LineRead>)
    ensures |Readings(ls)| == |Accepted(ls)|
    ensures forall j :: 0 <= j < |Accepted(ls)| ==> Readings(ls)[j] == Reading(ls[Accepted(ls)[j]])
    decreases |ls|
  {
    if |ls| > 1 {
      var n := |ls| - 1;
      var init := ls[..n];
      ReadingsAt(init);
      var ix, rs := Accepted(init), Readings(init);
      assert Accepted(ls) == ix + (if IsWide(ls[n]) then [n] else []);
      forall j | 0 <= j < |ix| ensures ls[ix[j]] == init[ix[j]] {
      }
    }
  }

  /** Appending a poll that parsed extends the loaded columns by that poll. */
  lemma LoadedPush(c0: Columns, c: Columns, rs: seq<RowResult>, r: Row)
    requires c0.Aligned() && LoadedRows(c0, c, rs)
    ensures LoadedRows(c0, c.Push(r), rs + [Parsed(r)])
  {
    var c' := c.Push(r);
    forall j | 0 <= j < |rs| ensures rs[j] == Parsed(c'.RowAt(|c0.month| + j)) {
      assert c'.RowAt(|c0.month| + j) == c.RowAt(|c0.month| + j);
    }
  }

  /**
   * `build_data_dict` from the columns `c0` reaches the end of the file exactly
   * when every accepted line converts, and then it has appended one poll per
   * accepted line, in file order, keeping the columns aligned.
   */
  lemma {:induction false} RunLoads(c0: Columns, ls: seq<LineRead>)
    requires c0.Aligned()
    ensures RunLines(c0, ls).Done? <==> AllParsed(Readings(ls))
    ensures RunLines(c0, ls).Done? ==> LoadedRows(c0, RunLines(c0, ls).cols, Readings(ls))
    decreases |ls|
  {
    if |ls| == 0 {
    } else if |ls| == 1 {
      assert ls[..0] == [];
    } else {
      var n := |ls| - 1;
      var init := ls[..n];
      RunLoads(c0, init);
      var rs := Readings(init);
      match RunLines(c0, init)
      case Failed(_, _, _) =>
        var j :| 0 <= j < |rs| && !rs[j].Parsed?;
        assert Readings(ls)[j] == rs[j];
      case Done(c) =>
        var l := ls[n];
        if l.Wide? {
          StageMeaning(c, n, l.month, l.sampleType, l.values);
          var r := Reading(l);
          if r.Parsed? {
            LoadedPush(c0, c, rs, r.row);
          } else {
            assert Readings(ls)[|rs|] == r;
          }
        }
    }
  }

  /**
   * A build from empty columns that reaches the end holds, in every column,
   * one entry per accepted line: entry `j` of each column is the poll of the
   * `j`-th accepted line, in file order.
   */
  lemma BuildFromEmpty(ls: seq<LineRead>)
    requires RunLines(Empty, ls).Done?
    ensures var c := RunLines(Empty, ls).cols;
      c.Aligned() && |c.month| == |Accepted(ls)| &&
      forall j :: 0 <= j < |Accepted(ls)| ==> Reading(ls[Accepted(ls)[j]]) == Parsed(c.RowAt(j))
  {
    RunLoads(Empty, ls);
    ReadingsAt(ls);
  }

  /**
   * A failed build failed at the step for line `k`: the build over the lines
   * before `k` reached its end, and the step for line `k` gave the failure.
   */
  lemma {:induction false} RunFailsAt(c0: Columns, ls: seq<LineRead>)
    requires RunLines(c0, ls).Failed?
    ensures var o := RunLines(c0, ls); var k := o.line; var before := RunLines(c0, ls[..k]);
      1 <= k < |ls| && before.Done? && o == Step(before.cols, k, ls[k])
    decreases |ls|
  {
    var n := |ls| - 1;
    var init := ls[..n];
    match RunLines(c0, init)
    case Failed(_, k, _) =>
      RunFailsAt(c0, init);
      assert init[..k] == ls[..k] && init[k] == ls[k];
    case Done(c) =>
  }

  /**
   * A failed build stopped at an accepted line `k` whose reading names the
   * failing field; every earlier line was loaded in full; and the columns
   * before the failing field hold one entry more than the others. The
   * columns are exactly the polls of the lines before `k`, followed by the
   * staged appends that line `k` made before its conversion raised.
   */
  lemma RunFails(c0: Columns, ls: seq<LineRead>)
    requires c0.Aligned() && RunLines(c0, ls).Failed?
    ensures var o := RunLines(c0, ls); var k := o.line;
      1 <= k < |ls| && ls[k].Wide? && Reading(ls[k]) == BadField(o.field) &&
      AllParsed(Readings(ls[..k])) &&
      o.cols.Extends(c0) && |o.cols.month| > 0 && o.cols.month[|o.cols.month| - 1] == ls[k].month &&
      forall col :: 0 <= col < 6 ==>
        o.cols.Lengths()[col] == |c0.month| + |Readings(ls[..k])| + (if col < o.field then 1 else 0)
    ensures var o := RunLines(c0, ls); var k := o.line; var before := RunLines(c0, ls[..k]);
      before.Done? && LoadedRows(c0, before.cols, Readings(ls[..k])) &&
      o == Stage(before.cols, k, ls[k].month, ls[k].sampleType, ls[k].values)
  {
    RunFailsAt(c0, ls);
    var k := RunLines(c0, ls).line;
    RunLoads(c0, ls[..k]);
    var l := ls[k];
    StageMeaning(RunLines(c0, ls[..k]).cols, k, l.month, l.sampleType, l.values);
  }
}
