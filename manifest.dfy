/** The manifest reader: the summary file lists one record per region, and
    every key and value of a record is stripped of padding. */
module Manifest {
  import opened Wrappers
  import opened Strings
  import opened Errors
  import Resolver

  /** A manifest row as the CSV reader yields it: its (column, value) items in
      the order the dictionary is iterated. */
  type RawRow = seq<(string, string)>

  /** A sanitised manifest record: column name to value. */
  type Record = map<string, string>

  /** `sanitize_row`: a dictionary comprehension that strips every key and
      every value; when two keys strip to the same text, the item iterated
      later wins. */
  function SanitizeRow(row: RawRow): Record
  {
    if row == [] then map[]
    else
      var n := |row| - 1;
      SanitizeRow(row[..n])[Strip(row[n].0) := Strip(row[n].1)]
  }

  /** No key and no value of a sanitised row has surrounding whitespace. */
  lemma {:induction false} SanitizeRowStripped(row: RawRow)
    ensures forall k :: k in SanitizeRow(row) ==> IsStripped(k) && IsStripped(SanitizeRow(row)[k])
  {
    if row != [] {
      SanitizeRowStripped(row[..|row| - 1]);
    }
  }

  /** The keys of a sanitised row are exactly the stripped keys of its items. */
  lemma {:induction false} SanitizeRowKeys(row: RawRow)
    ensures SanitizeRow(row).Keys == set i | 0 <= i < |row| :: Strip(row[i].0)
  {
    if row != [] {
      var n := |row| - 1;
      var prefix := row[..n];
      SanitizeRowKeys(prefix);
      var ks := set i | 0 <= i < |row| :: Strip(row[i].0);
      var pks := set i | 0 <= i < n :: Strip(prefix[i].0);
      assert ks == pks + {Strip(row[n].0)} by {
        forall k | k in ks ensures k in pks + {Strip(row[n].0)} {
          var i :| 0 <= i < |row| && Strip(row[i].0) == k;
          if i < n { assert prefix[i] == row[i]; }
        }
        forall k | k in pks ensures k in ks {
          var i :| 0 <= i < n && Strip(prefix[i].0) == k;
          assert prefix[i] == row[i];
        }
      }
    }
  }

  /** Each stripped key holds the stripped value of the last item whose key
      strips to it. */
  lemma {:induction false} SanitizeRowValues(row: RawRow, i: nat)
    requires i < |row|
    requires forall j :: i < j < |row| ==> Strip(row[j].0) != Strip(row[i].0)
    ensures Strip(row[i].0) in SanitizeRow(row)
    ensures SanitizeRow(row)[Strip(row[i].0)] == Strip(row[i].1)
  {
    var n := |row| - 1;
    if i < n {
      assert row[..n][i] == row[i];
      assert forall j :: i < j < n ==> row[..n][j] == row[j];
      SanitizeRowValues(row[..n], i);
    }
  }

  /** `items` lists the entries of `m`, each once: what iterating over the
      dictionary `m` yields. */
  ghost predicate Enumerates(items: RawRow, m: Record)
  {
    && (forall i, j :: 0 <= i < j < |items| ==> items[i].0 != items[j].0)
    && (forall i :: 0 <= i < |items| ==> items[i].0 in m && m[items[i].0] == items[i].1)
    && (forall k :: k in m ==> exists i :: 0 <= i < |items| && items[i].0 == k)
  }

  /** Sanitising a record that is already sanitised, in any iteration order,
      gives it back unchanged. */
  lemma {:induction false} SanitizeRowOfStripped(items: RawRow, m: Record)
    requires Enumerates(items, m)
    requires forall k :: k in m ==> IsStripped(k) && IsStripped(m[k])
    ensures SanitizeRow(items) == m
  {
    if items == [] {
      assert m == map[];
    } else {
      var n := |items| - 1;
      var k, v := items[n].0, items[n].1;
      EnumeratesPrefix(items, m);
      SanitizeRowOfStripped(items[..n], m - {k});
      StripOfStripped(k);
      StripOfStripped(v);
      assert SanitizeRow(items) == (m - {k})[k := v];
    }
  }

  /** Dropping the last item enumerates the record without that item's key. */
  lemma EnumeratesPrefix(items: RawRow, m: Record)
    requires items != [] && Enumerates(items, m)
    ensures Enumerates(items[..|items| - 1], m - {items[|items| - 1].0})
  {
    var n := |items| - 1;
    var prefix, rest := items[..n], m - {items[n].0};
    assert forall i :: 0 <= i < n ==> prefix[i] == items[i];
    forall k | k in rest ensures exists i :: 0 <= i < n && prefix[i].0 == k {
      var i :| 0 <= i < |items| && items[i].0 == k;
      assert i != n;
    }
  }

  /** Sanitising is idempotent: sanitising the items of a sanitised record
      changes nothing. */
  lemma SanitizeRowIdempotent(row: RawRow, items: RawRow)
    requires Enumerates(items, SanitizeRow(row))
    ensures SanitizeRow(items) == SanitizeRow(row)
  {
    SanitizeRowStripped(row);
    SanitizeRowOfStripped(items, SanitizeRow(row));
  }

  /** `summary_contents`: the manifest is located among the extracted files and
      its rows, as the CSV reader `readRows` yields them, are sanitised one by
      one. */
  function SummaryContents(unzippedFiles: seq<string>, readRows: string -> seq<RawRow>): (r: Result<seq<Record>, Error>)
    ensures r.Failure? <==> Resolver.SummaryLocation(unzippedFiles).Failure?
    ensures r.Success? ==> |r.value| == |readRows(Resolver.SummaryLocation(unzippedFiles).value)|
    ensures r.Success? ==> forall i :: 0 <= i < |r.value| ==>
              r.value[i] == SanitizeRow(readRows(Resolver.SummaryLocation(unzippedFiles).value)[i])
    ensures r.Success? ==> forall i, k :: 0 <= i < |r.value| && k in r.value[i] ==> IsStripped(k) && IsStripped(r.value[i][k])
  {
    match Resolver.SummaryLocation(unzippedFiles)
    case Failure(e) => Failure(e)
    case Success(summaryPath) =>
      var rows := readRows(summaryPath);
      var records := seq(|rows|, i requires 0 <= i < |rows| => SanitizeRow(rows[i]));
      assert forall i :: 0 <= i < |rows| ==> forall k :: k in records[i] ==> IsStripped(k) && IsStripped(records[i][k]) by {
        forall i | 0 <= i < |rows| { SanitizeRowStripped(rows[i]); }
      }
      Success(records)
  }
}
