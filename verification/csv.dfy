/**
 * The handler's "simple CSV parser": the trimmed content split into lines,
 * the header line split on commas, and one row object per data line that
 * maps each header to the value in the same column (index.mjs lines 40-59).
 * No quoting or escaping: every comma separates two fields.
 */
module Csv {
  import opened JsString

  /** `fileContent.trim().split('\n')`: never empty; line 0 holds the headers. */
  function Lines(content: string): (lines: seq<string>)
    ensures |lines| == Count(Trim(content), '\n') + 1
    ensures forall k :: 0 <= k < |lines| ==> '\n' !in lines[k]
  {
    SplitCount(Trim(content), '\n');
    SplitPiecesFree(Trim(content), '\n');
    Split(Trim(content), '\n')
  }

  /** `line.split(',').map(v => v.trim())`. */
  function Fields(line: string): (fields: seq<string>)
    ensures |fields| == Count(line, ',') + 1
    ensures forall k :: 0 <= k < |fields| ==> ',' !in fields[k] && fields[k] == Trim(fields[k])
  {
    var pieces := Split(line, ',');
    SplitCount(line, ',');
    SplitPiecesFree(line, ',');
    var fields := seq(|pieces|, k requires 0 <= k < |pieces| => Trim(pieces[k]));
    forall k | 0 <= k < |fields| ensures ',' !in fields[k] && fields[k] == Trim(fields[k]) {
      TrimIdempotent(pieces[k]);
      TrimKeepsAbsent(pieces[k], ',');
    }
    fields
  }

  /** A character that does not occur in `s` does not occur in `Trim(s)` either. */
  lemma TrimKeepsAbsent(s: string, c: char)
    requires c !in s
    ensures c !in Trim(s)
  {
    var r := Trim(s);
    var a, b :| 0 <= a <= b <= |s| && r == s[a..b];
    forall k | 0 <= k < |r|
      ensures r[k] != c
    {
      assert r[k] == s[a + k];
    }
  }

  /** The header row (line 41). */
  function Headers(content: string): seq<string> {
    Fields(Lines(content)[0])
  }

  /** `values[index] || ''`: a missing value reads as the empty string. */
  function ValueAt(values: seq<string>, k: nat): string {
    if k < |values| then values[k] else ""
  }

  /**
   * The row object after the `headers.forEach` of lines 53-55: each header
   * in turn set to the value in its column, so a later duplicate header
   * overwrites an earlier one.
   */
  function Columns(headers: seq<string>, values: seq<string>): (row: map<string, string>)
    ensures forall h :: h in row <==> h in headers
    decreases |headers|
  {
    if headers == [] then map[]
    else
      var n := |headers| - 1;
      var prefix := headers[..n];
      assert forall h :: h in headers <==> h in prefix || h == headers[n] by {
        assert headers == prefix + [headers[n]];
      }
      Columns(prefix, values)[headers[n] := ValueAt(values, n)]
  }

  const UploadedAt: string := "uploadedAt"
  const SourceFile: string := "sourceFile"

  /** The item written for one data line: the columns, then the two metadata fields (lines 52-59). */
  function RowItem(headers: seq<string>, values: seq<string>, uploadedAt: string, sourceFile: string): map<string, string> {
    Columns(headers, values)[UploadedAt := uploadedAt][SourceFile := sourceFile]
  }

  /** Builds the row object in place, header by header, as the source does. */
  method BuildRow(headers: seq<string>, values: seq<string>, uploadedAt: string, sourceFile: string)
    returns (row: map<string, string>)
    ensures row == RowItem(headers, values, uploadedAt, sourceFile)
  {
    row := map[];
    for index := 0 to |headers|
      invariant row == Columns(headers[..index], values)
    {
      assert headers[..index + 1][..index] == headers[..index];
      row := row[headers[index] := ValueAt(values, index)];
    }
    assert headers[..|headers|] == headers;
    row := row[UploadedAt := uploadedAt];
    row := row[SourceFile := sourceFile];
  }

  // ---- Properties of the parser ----

  /** There is always at least one header; empty or blank content gives the single header "". */
  lemma HeadersOfBlankContent(content: string)
    requires AllWhitespace(content)
    ensures Headers(content) == [""]
  {
    TrimAllWhitespace(content);
    assert Lines(content) == [""];
    assert Split("", ',') == [""];
  }

  /** Fields that hold no comma and no edge whitespace, joined by commas, are parsed back unchanged. */
  lemma FieldsOfJoin(fields: seq<string>)
    requires |fields| >= 1
    requires forall k :: 0 <= k < |fields| ==> ',' !in fields[k] && Trim(fields[k]) == fields[k]
    ensures Fields(Join(fields, ',')) == fields
  {
    SplitJoin(fields, ',');
    var r := Fields(Join(fields, ','));
    assert |r| == |fields|;
    forall k | 0 <= k < |fields|
      ensures r[k] == fields[k]
    {
      assert r[k] == Trim(Split(Join(fields, ','), ',')[k]);
    }
  }

  /** Lines without a line break, joined by line breaks into trimmed content, are split back unchanged. */
  lemma LinesOfJoin(lines: seq<string>)
    requires |lines| >= 1
    requires forall k :: 0 <= k < |lines| ==> '\n' !in lines[k]
    requires Trim(Join(lines, '\n')) == Join(lines, '\n')
    ensures Lines(Join(lines, '\n')) == lines
  {
    SplitJoin(lines, '\n');
  }

  /** The headers are the comma-separated fields of the first line of the trimmed content, each trimmed. */
  lemma HeadersAreFirstLineFields(content: string)
    ensures var first := Lines(content)[0];
      && (Trim(content) == first || (|first| < |Trim(content)| && Trim(content)[..|first| + 1] == first + "\n"))
      && |Headers(content)| == Count(first, ',') + 1
      && Join(Split(first, ','), ',') == first
      && forall k :: 0 <= k < |Headers(content)| ==> Headers(content)[k] == Trim(Split(first, ',')[k])
  {
    var t := Trim(content);
    var ls := Split(t, '\n');
    JoinSplit(t, '\n');
    JoinSplit(ls[0], ',');
    if |ls| > 1 {
      assert Join(ls, '\n') == ls[0] + ['\n'] + Join(ls[1..], '\n');
      assert t[..|ls[0]| + 1] == ls[0] + "\n";
    }
  }

  /** Trailing whitespace, a final newline included, adds no row. */
  lemma {:induction false} TrailingWhitespaceAddsNoRow(content: string, tail: string)
    requires AllWhitespace(tail)
    ensures Lines(content + tail) == Lines(content)
    decreases |tail|
  {
    if tail != [] {
      var n := |tail| - 1;
      assert content + tail == (content + tail[..n]) + [tail[n]];
      TrimAppendWhitespace(content + tail[..n], tail[n]);
      TrailingWhitespaceAddsNoRow(content, tail[..n]);
    } else {
      assert content + tail == content;
    }
  }

  /** A blank (or whitespace-only) data line still yields a row, every column of it "". */
  lemma BlankLineGivesEmptyColumns(headers: seq<string>, line: string)
    requires AllWhitespace(line)
    ensures forall h :: h in headers ==> Columns(headers, Fields(line))[h] == ""
  {
    assert !IsWhitespace(',');
    assert ',' !in line;
    SplitFree(line, ',');
    TrimAllWhitespace(line);
    assert Fields(line) == [""];
    ColumnsAllEmpty(headers, [""]);
  }

  lemma {:induction false} ColumnsAllEmpty(headers: seq<string>, values: seq<string>)
    requires forall k :: 0 <= k < |values| ==> values[k] == ""
    ensures forall h :: h in headers ==> Columns(headers, values)[h] == ""
    decreases |headers|
  {
    if headers != [] {
      ColumnsAllEmpty(headers[..|headers| - 1], values);
    }
  }

  /** The index of the last occurrence of `h` in `headers`. */
  predicate IsLastIndex(headers: seq<string>, k: nat) {
    k < |headers| && forall j :: k < j < |headers| ==> headers[j] != headers[k]
  }

  /**
   * Each header maps to the value in the column of its LAST occurrence:
   * when header names repeat, the later column's value wins.
   */
  lemma {:induction false} ColumnsLaterWins(headers: seq<string>, values: seq<string>, k: nat)
    requires IsLastIndex(headers, k)
    ensures Columns(headers, values)[headers[k]] == ValueAt(values, k)
    decreases |headers|
  {
    var n := |headers| - 1;
    if k < n {
      assert headers[..n][k] == headers[k];
      ColumnsLaterWins(headers[..n], values, k);
    }
  }

  /**
   * Padding and truncation: with distinct headers, header k maps to the
   * k-th value when the line has one and to "" otherwise.
   */
  lemma ColumnsByPosition(headers: seq<string>, values: seq<string>)
    requires forall i, j :: 0 <= i < j < |headers| ==> headers[i] != headers[j]
    ensures forall k :: 0 <= k < |headers| ==>
      Columns(headers, values)[headers[k]] == if k < |values| then values[k] else ""
  {
    forall k | 0 <= k < |headers|
      ensures Columns(headers, values)[headers[k]] == if k < |values| then values[k] else ""
    {
      ColumnsLaterWins(headers, values, k);
    }
  }

  /** `values` cut or padded with "" to exactly `n` entries. */
  function Fit(values: seq<string>, n: nat): (r: seq<string>)
    ensures |r| == n
  {
    seq(n, k requires 0 <= k < n => ValueAt(values, k))
  }

  /**
   * The row depends only on the first |headers| values, missing ones read
   * as "": surplus values are dropped and short lines are padded.
   */
  lemma {:induction false} ColumnsFit(headers: seq<string>, values: seq<string>)
    ensures Columns(headers, values) == Columns(headers, Fit(values, |headers|))
  {
    ColumnsFitFrom(headers, values, |headers|);
  }

  lemma {:induction false} ColumnsFitFrom(headers: seq<string>, values: seq<string>, n: nat)
    requires |headers| <= n
    ensures Columns(headers, values) == Columns(headers, Fit(values, n))
    decreases |headers|
  {
    if headers != [] {
      ColumnsFitFrom(headers[..|headers| - 1], values, n);
    }
  }

  /**
   * The metadata fields are assigned last: `sourceFile` and `uploadedAt`
   * always hold the given values, overriding a CSV column of the same
   * name, and every other header keeps its column value.
   */
  lemma RowItemMetadata(headers: seq<string>, values: seq<string>, uploadedAt: string, sourceFile: string)
    ensures var item := RowItem(headers, values, uploadedAt, sourceFile);
      && item[SourceFile] == sourceFile
      && item[UploadedAt] == uploadedAt
      && (forall h :: h in item <==> h in headers || h == UploadedAt || h == SourceFile)
      && (forall h :: h in headers && h != UploadedAt && h != SourceFile ==>
            item[h] == Columns(headers, values)[h])
  {
    assert UploadedAt != SourceFile;
  }
}
