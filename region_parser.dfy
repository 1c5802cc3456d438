/** The region report parser: a report is tab-delimited text whose first line
    is a header, whose last three lines are label/value totals, and whose
    lines in between are data rows keyed by the header. */
module RegionParser {
  import opened Wrappers
  import opened Strings
  import opened OrderedDicts
  import opened Errors

  /** A data row: an ordered dictionary from column name to field text. */
  type Row = seq<(string, string)>

  /** The parsed report: its data rows in file order and its totals block. */
  datatype RegionReport = RegionReport(rows: seq<Row>, totals: map<string, string>)

  /** `lines[1:-3]`, with Python's clamping of a negative bound: the lines
      strictly between the header and the last three. */
  function DataLines(lines: seq<string>): seq<string>
  {
    if |lines| >= 4 then lines[1..|lines| - 3] else []
  }

  /** `lines[-3:]`: the last three lines, or all of them when there are fewer. */
  function TotalsLines(lines: seq<string>): seq<string>
  {
    if |lines| >= 3 then lines[|lines| - 3..] else lines
  }

  /** `OrderedDict(zip(header, fields))`. */
  function ZipRow(header: seq<string>, fields: seq<string>): Row
  {
    FromPairs(Zip(header, fields))
  }

  /** A totals line unpacks into exactly a label and a value. */
  predicate IsTotalsLine(t: string)
  {
    |Split(t, Tab)| == 2
  }

  /** The totals dictionary built from `ts` line by line: each line adds its
      label with its value, a repeated label keeps the later value, and the
      first line that is not a label/value pair is the error. */
  function TotalsOf(ts: seq<string>): (r: Result<map<string, string>, Error>)
    ensures r.Success? <==> forall i :: 0 <= i < |ts| ==> IsTotalsLine(ts[i])
    ensures r.Success? ==> |r.value| <= |ts|
  {
    if ts == [] then Success(map[])
    else
      var n := |ts| - 1;
      match TotalsOf(ts[..n])
      case Failure(e) => Failure(e)
      case Success(m) =>
        var fields := Split(ts[n], Tab);
        if |fields| != 2 then Failure(MalformedTotals(ts[n]))
        else Success(m[fields[0] := fields[1]])
  }

  /** The specification of `parse_region_report` on decoded text. */
  function ParsedReport(content: string): Result<RegionReport, Error>
  {
    var lines := SplitLines(content);
    if lines == [] then Failure(EmptyReport)
    else
      var header := Split(lines[0], Tab);
      var data := DataLines(lines);
      match TotalsOf(TotalsLines(lines))
      case Failure(e) => Failure(e)
      case Success(totals) =>
        Success(RegionReport(seq(|data|, i requires 0 <= i < |data| => ZipRow(header, Split(data[i], Tab))), totals))
  }

  /** `parse_region_report`: one loop appends the rows, a second one fills in
      the totals and stops at the first malformed totals line. */
  method ParseRegionReport(content: string) returns (r: Result<RegionReport, Error>)
    ensures r == ParsedReport(content)
  {
    var lines := SplitLines(content);
    if |lines| == 0 {
      return Failure(EmptyReport);
    }
    var header := Split(lines[0], Tab);
    var rowContent := DataLines(lines);
    var rows: seq<Row> := [];
    for i := 0 to |rowContent|
      invariant |rows| == i
      invariant forall j :: 0 <= j < i ==> rows[j] == ZipRow(header, Split(rowContent[j], Tab))
    {
      var vals := Split(rowContent[i], Tab);
      rows := rows + [ZipRow(header, vals)];
    }
    var totalsLines := TotalsLines(lines);
    var totals: map<string, string> := map[];
    for i := 0 to |totalsLines|
      invariant TotalsOf(totalsLines[..i]) == Success(totals)
    {
      var fields := Split(totalsLines[i], Tab);
      assert totalsLines[..i + 1][..i] == totalsLines[..i];
      if |fields| != 2 {
        TotalsFailurePersists(totalsLines, i + 1);
        return Failure(MalformedTotals(totalsLines[i]));
      }
      totals := totals[fields[0] := fields[1]];
    }
    assert totalsLines[..|totalsLines|] == totalsLines;
    ParsedReportIs(content, rows, totals);
    r := Success(RegionReport(rows, totals));
  }

  /** What a successful run of the two loops adds up to. */
  lemma ParsedReportIs(content: string, rows: seq<Row>, totals: map<string, string>)
    requires SplitLines(content) != []
    requires var lines := SplitLines(content);
             && |rows| == |DataLines(lines)|
             && (forall j :: 0 <= j < |rows| ==> rows[j] == ZipRow(Split(lines[0], Tab), Split(DataLines(lines)[j], Tab)))
             && TotalsOf(TotalsLines(lines)) == Success(totals)
    ensures ParsedReport(content) == Success(RegionReport(rows, totals))
  {
    var lines := SplitLines(content);
    var data := DataLines(lines);
    assert rows == seq(|data|, i requires 0 <= i < |data| => ZipRow(Split(lines[0], Tab), Split(data[i], Tab)));
  }

  /** Once a prefix of the totals lines has failed, the whole block fails with
      the same error. */
  lemma {:induction false} TotalsFailurePersists(ts: seq<string>, j: nat)
    requires j <= |ts| && TotalsOf(ts[..j]).Failure?
    ensures TotalsOf(ts) == TotalsOf(ts[..j])
  {
    if j < |ts| {
      var n := |ts| - 1;
      assert ts[..n][..j] == ts[..j];
      TotalsFailurePersists(ts[..n], j);
    } else {
      assert ts[..j] == ts;
    }
  }

  // ---------------------------------------------------------------------------
  // Rows

  /** A report of L lines has L - 4 rows (none when L < 4), and row i is
      line i + 1 zipped against the header. */
  lemma ParsedRows(content: string)
    requires ParsedReport(content).Success?
    ensures var lines := SplitLines(content);
            var rows := ParsedReport(content).value.rows;
            && |rows| == (if |lines| >= 4 then |lines| - 4 else 0)
            && forall i :: 0 <= i < |rows| ==> rows[i] == ZipRow(Split(lines[0], Tab), Split(lines[i + 1], Tab))
  {
  }

  /** A row never has more entries than the shorter of the header and the
      line's fields, and the value under a column is the field at the last
      position (within that shorter length) where the column name occurs. */
  lemma ZipRowTruncates(header: seq<string>, fields: seq<string>, k: string)
    ensures |ZipRow(header, fields)| <= if |header| <= |fields| then |header| else |fields|
    ensures Get(ZipRow(header, fields), k) == LastValue(Zip(header, fields), k)
  {
    ZipPairs(header, fields);
    FromPairsSpec(Zip(header, fields));
  }

  /** With distinct column names a row holds exactly the pairs
      (header[i], fields[i]) for i below the shorter length, in column order:
      surplus columns and surplus fields are dropped. */
  lemma ZipRowOfDistinctHeader(header: seq<string>, fields: seq<string>)
    requires forall i, j :: 0 <= i < j < |header| ==> header[i] != header[j]
    ensures ZipRow(header, fields) == Zip(header, fields)
    ensures |ZipRow(header, fields)| == if |header| <= |fields| then |header| else |fields|
  {
    ZipPairs(header, fields);
    FromPairsOfDistinct(Zip(header, fields));
  }

  // ---------------------------------------------------------------------------
  // Totals

  /** Every label of a well-formed totals block is a key, every key comes with
      the value of a line that carries it, and that line is the last one with
      the label: a repeated label keeps its later value. */
  lemma {:induction false} TotalsEntries(ts: seq<string>, m: map<string, string>)
    requires TotalsOf(ts) == Success(m)
    ensures forall i :: 0 <= i < |ts| ==> Split(ts[i], Tab)[0] in m
    ensures forall k :: k in m ==> exists i :: 0 <= i < |ts| && Split(ts[i], Tab) == [k, m[k]]
    ensures forall i :: 0 <= i < |ts| && (forall j :: i < j < |ts| ==> Split(ts[j], Tab)[0] != Split(ts[i], Tab)[0])
              ==> m[Split(ts[i], Tab)[0]] == Split(ts[i], Tab)[1]
  {
    TotalsEntriesPresent(ts, m);
    forall i | 0 <= i < |ts| && (forall j :: i < j < |ts| ==> Split(ts[j], Tab)[0] != Split(ts[i], Tab)[0])
      ensures m[Split(ts[i], Tab)[0]] == Split(ts[i], Tab)[1]
    {
      TotalsLastWins(ts, m, i);
    }
  }

  /** The line that last carries a label gives that label's value. */
  lemma {:induction false} TotalsLastWins(ts: seq<string>, m: map<string, string>, i: nat)
    requires TotalsOf(ts) == Success(m)
    requires i < |ts|
    requires forall j :: i < j < |ts| ==> Split(ts[j], Tab)[0] != Split(ts[i], Tab)[0]
    ensures Split(ts[i], Tab)[0] in m && m[Split(ts[i], Tab)[0]] == Split(ts[i], Tab)[1]
  {
    var n := |ts| - 1;
    var m' := TotalsOf(ts[..n]).value;
    var fields := Split(ts[n], Tab);
    assert m == m'[fields[0] := fields[1]];
    if i < n {
      assert ts[..n][i] == ts[i];
      assert forall j :: i < j < n ==> ts[..n][j] == ts[j];
      TotalsLastWins(ts[..n], m', i);
    }
  }

  /** Every label of a well-formed totals block is a key, and every key comes
      with the value of a line that carries it. */
  lemma {:induction false} TotalsEntriesPresent(ts: seq<string>, m: map<string, string>)
    requires TotalsOf(ts) == Success(m)
    ensures forall i :: 0 <= i < |ts| ==> Split(ts[i], Tab)[0] in m
    ensures forall k :: k in m ==> exists i :: 0 <= i < |ts| && Split(ts[i], Tab) == [k, m[k]]
  {
    if ts != [] {
      var n := |ts| - 1;
      var m' := TotalsOf(ts[..n]).value;
      TotalsEntriesPresent(ts[..n], m');
      var fields := Split(ts[n], Tab);
      assert m == m'[fields[0] := fields[1]];
      assert fields == [fields[0], fields[1]];
      forall k | k in m ensures exists i :: 0 <= i < |ts| && Split(ts[i], Tab) == [k, m[k]] {
        if k != fields[0] {
          var i :| 0 <= i < n && Split(ts[..n][i], Tab) == [k, m'[k]];
          assert ts[..n][i] == ts[i];
        }
      }
      forall i | 0 <= i < |ts| ensures Split(ts[i], Tab)[0] in m {
        if i < n { assert ts[..n][i] == ts[i]; }
      }
    }
  }

  /** With distinct labels every line adds its own entry: the block has as
      many entries as lines, and each label maps to its line's value. */
  lemma {:induction false} TotalsOfDistinctLabels(ts: seq<string>, m: map<string, string>)
    requires TotalsOf(ts) == Success(m)
    requires forall i, j :: 0 <= i < j < |ts| ==> Split(ts[i], Tab)[0] != Split(ts[j], Tab)[0]
    ensures |m| == |ts|
    ensures forall i :: 0 <= i < |ts| ==> Split(ts[i], Tab)[0] in m && m[Split(ts[i], Tab)[0]] == Split(ts[i], Tab)[1]
  {
    if ts != [] {
      var n := |ts| - 1;
      var prefix := ts[..n];
      var m' := TotalsOf(prefix).value;
      assert forall i :: 0 <= i < n ==> prefix[i] == ts[i];
      TotalsOfDistinctLabels(prefix, m');
      LastLabelIsNew(ts, m');
      var fields := Split(ts[n], Tab);
      assert m == m'[fields[0] := fields[1]];
    }
  }

  /** Under distinct labels the last line's label is not yet a key when that
      line is reached. */
  lemma LastLabelIsNew(ts: seq<string>, m': map<string, string>)
    requires ts != [] && TotalsOf(ts[..|ts| - 1]) == Success(m')
    requires forall i, j :: 0 <= i < j < |ts| ==> Split(ts[i], Tab)[0] != Split(ts[j], Tab)[0]
    ensures Split(ts[|ts| - 1], Tab)[0] !in m'
  {
    var n := |ts| - 1;
    TotalsEntriesPresent(ts[..n], m');
    forall k | k in m' ensures k != Split(ts[n], Tab)[0] {
      var i :| 0 <= i < n && Split(ts[..n][i], Tab) == [k, m'[k]];
      assert ts[..n][i] == ts[i];
    }
  }

  /** A failing totals block reports its first line that is not a label/value
      pair. */
  lemma {:induction false} TotalsFailure(ts: seq<string>)
    requires TotalsOf(ts).Failure?
    ensures exists i :: 0 <= i < |ts| && TotalsOf(ts).error == MalformedTotals(ts[i])
                        && !IsTotalsLine(ts[i]) && forall j :: 0 <= j < i ==> IsTotalsLine(ts[j])
  {
    var n := |ts| - 1;
    if TotalsOf(ts[..n]).Failure? {
      TotalsFailure(ts[..n]);
      var i :| 0 <= i < n && TotalsOf(ts[..n]).error == MalformedTotals(ts[..n][i])
               && !IsTotalsLine(ts[..n][i]) && forall j :: 0 <= j < i ==> IsTotalsLine(ts[..n][j]);
      assert forall j :: 0 <= j <= i ==> ts[..n][j] == ts[j];
    } else {
      assert forall j :: 0 <= j < n ==> ts[..n][j] == ts[j];
    }
  }

  // ---------------------------------------------------------------------------
  // The whole report

  /** Parsing fails exactly when the text has no lines, or when one of its last
      three lines (all of them, when there are fewer) is not a label/value
      pair; the error names which. */
  lemma ParseFailure(content: string)
    ensures ParsedReport(content) == Failure(EmptyReport) <==> content == []
    ensures ParsedReport(content).Failure? <==>
              content == [] || exists t :: t in TotalsLines(SplitLines(content)) && !IsTotalsLine(t)
    ensures content != [] && ParsedReport(content).Failure? ==>
              exists t :: t in TotalsLines(SplitLines(content)) && ParsedReport(content).error == MalformedTotals(t)
  {
    if content != [] && ParsedReport(content).Failure? {
      TotalsFailure(TotalsLines(SplitLines(content)));
    }
  }

  /** The totals block never has more than three entries, and has exactly
      three when the report has at least three lines and the last three carry
      distinct labels. */
  lemma ParsedTotalsSize(content: string)
    requires ParsedReport(content).Success?
    ensures |ParsedReport(content).value.totals| <= 3
    ensures var ts := TotalsLines(SplitLines(content));
            |ts| == 3 && (forall i, j :: 0 <= i < j < 3 ==> Split(ts[i], Tab)[0] != Split(ts[j], Tab)[0])
            ==> |ParsedReport(content).value.totals| == 3
  {
    var ts := TotalsLines(SplitLines(content));
    if |ts| == 3 && (forall i, j :: 0 <= i < j < 3 ==> Split(ts[i], Tab)[0] != Split(ts[j], Tab)[0]) {
      TotalsOfDistinctLabels(ts, ParsedReport(content).value.totals);
    }
  }

  /** With fewer than four lines there are no data rows, and the header line is
      itself read as one of the totals lines. */
  lemma ShortReport(content: string)
    requires 1 <= |SplitLines(content)| <= 3
    ensures ParsedReport(content).Success? ==> ParsedReport(content).value.rows == []
    ensures SplitLines(content)[0] in TotalsLines(SplitLines(content))
  {
  }

  /** The text of the three totals lines: each label, a tab, its value. */
  function TotalsText(totals: seq<(string, string)>): seq<string>
  {
    seq(|totals|, i requires 0 <= i < |totals| => totals[i].0 + [Tab] + totals[i].1)
  }

  /** A report written in the vendor's layout -- a header, any number of data
      lines and three label/value lines -- parses back into one row per data
      line, in order, and into those three totals. */
  lemma ParseOfLayout(header: string, data: seq<string>, totals: seq<(string, string)>)
    requires |totals| == 3
    requires Newline !in header && forall i :: 0 <= i < |data| ==> Newline !in data[i]
    requires forall i :: 0 <= i < 3 ==> Tab !in totals[i].0 && Tab !in totals[i].1
    requires forall i :: 0 <= i < 3 ==> Newline !in totals[i].0 && Newline !in totals[i].1
    requires forall i, j :: 0 <= i < j < 3 ==> totals[i].0 != totals[j].0
    ensures var r := ParsedReport(JoinLines([header] + data + TotalsText(totals)));
            && r.Success?
            && |r.value.rows| == |data|
            && (forall i :: 0 <= i < |data| ==> r.value.rows[i] == ZipRow(Split(header, Tab), Split(data[i], Tab)))
            && |r.value.totals| == 3
            && forall i :: 0 <= i < 3 ==> totals[i].0 in r.value.totals && r.value.totals[totals[i].0] == totals[i].1
  {
    var text := TotalsText(totals);
    var lines := [header] + data + text;
    forall i | 0 <= i < 3 ensures Split(text[i], Tab) == [totals[i].0, totals[i].1] {
      SplitOfJoin([totals[i].0, totals[i].1], Tab);
    }
    forall i | 0 <= i < |lines| ensures Newline !in lines[i] {
      if i > |data| {
        var j := i - |data| - 1;
        assert lines[i] == totals[j].0 + [Tab] + totals[j].1;
      }
    }
    SplitLinesOfJoinLines(lines);
    assert TotalsLines(lines) == text;
    assert DataLines(lines) == data;
    TotalsOfDistinctLabels(text, TotalsOf(text).value);
  }
}
