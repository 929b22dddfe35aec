/**
 * The best-effort row loop of the handler (index.mjs lines 19-20, 47-77):
 * for every data line `i = 1 .. lines.length - 1` the row object is built
 * and written; a successful write increments `processedCount`, a failed
 * one appends `Error processing row i: <message>` to `errors`, and the
 * loop goes on with the next line either way.
 */
module RowLoop {
  import opened Wrappers
  import opened JsString
  import opened Csv

  /** The outcome of one table write, supplied by the environment. */
  datatype PutResult = Stored | Rejected(message: string)

  type Item = map<string, string>

  const RowErrorPrefix: string := "Error processing row "

  /** The message recorded for a failed row (line 73). */
  function RowErrorMessage(i: nat, message: string): string {
    RowErrorPrefix + Decimal(i) + ": " + message
  }

  /** Reads the row number and the write error back out of a recorded message. */
  function ParseRowError(e: string): Option<(nat, string)> {
    var n := |RowErrorPrefix|;
    if |e| >= n && e[..n] == RowErrorPrefix then
      var rest := e[n..];
      var digits := LeadingDigits(rest);
      var d := |digits|;
      if d > 0 && |rest| >= d + 2 && rest[d] == ':' && rest[d + 1] == ' '
      then Some((DigitsValue(digits), rest[d + 2..]))
      else None
    else None
  }

  /** Every recorded message names its row and its error unambiguously. */
  lemma ParseRowErrorMessage(i: nat, message: string)
    ensures ParseRowError(RowErrorMessage(i, message)) == Some((i, message))
  {
    var e := RowErrorMessage(i, message);
    var n := |RowErrorPrefix|;
    assert e[..n] == RowErrorPrefix;
    var rest := e[n..];
    assert rest == Decimal(i) + (": " + message);
    LeadingDigitsOf(Decimal(i), ": " + message);
    var d := |Decimal(i)|;
    assert rest[d..] == ": " + message;
  }

  /**
   * What the loop has accumulated: the success counter, the error list and,
   * for the proofs, every item handed to the table in order.
   */
  datatype Tally = Tally(processedCount: nat, errors: seq<string>, items: seq<Item>)

  /** The row object built for data line `i`, stamped with `clock(i)` (lines 49-59). */
  function RowObject(lines: seq<string>, headers: seq<string>, key: string, clock: nat -> string, i: nat): Item
    requires i < |lines|
  {
    RowItem(headers, Fields(lines[i]), clock(i), key)
  }

  /**
   * The state after the loop body has run for rows 1 .. n - 1. Row `i` is
   * written with the timestamp `clock(i)` and meets the write outcome
   * `put(i)`.
   */
  function Run(lines: seq<string>, headers: seq<string>, key: string,
               clock: nat -> string, put: nat -> PutResult, n: nat): Tally
    requires 1 <= n <= |lines|
  {
    if n == 1 then Tally(0, [], [])
    else
      var t := Run(lines, headers, key, clock, put, n - 1);
      var i := n - 1;
      var item := RowObject(lines, headers, key, clock, i);
      match put(i)
      case Stored => Tally(t.processedCount + 1, t.errors, t.items + [item])
      case Rejected(m) => Tally(t.processedCount, t.errors + [RowErrorMessage(i, m)], t.items + [item])
  }

  /** The row loop as the handler runs it: a counter and an append-only error list. */
  method ProcessRows(lines: seq<string>, headers: seq<string>, key: string,
                     clock: nat -> string, put: nat -> PutResult)
    returns (processedCount: nat, errors: seq<string>, items: seq<Item>)
    requires |lines| >= 1
    ensures Tally(processedCount, errors, items) == Run(lines, headers, key, clock, put, |lines|)
  {
    processedCount := 0;
    errors := [];
    items := [];
    var i := 1;
    while i < |lines|
      invariant 1 <= i <= |lines|
      invariant Tally(processedCount, errors, items) == Run(lines, headers, key, clock, put, i)
    {
      var values := Fields(lines[i]);
      var row := BuildRow(headers, values, clock(i), key);
      items := items + [row];
      match put(i) {
        case Stored =>
          processedCount := processedCount + 1;
        case Rejected(message) =>
          var errorMsg := RowErrorMessage(i, message);
          errors := errors + [errorMsg];
      }
      i := i + 1;
    }
  }

  // ---- Specification of the outcome, independent of the loop ----

  /** The rows among 1 .. n - 1 whose write failed, in increasing order. */
  function FailedRows(put: nat -> PutResult, n: nat): (rows: seq<nat>)
    ensures forall j :: 0 <= j < |rows| ==> 1 <= rows[j] < n && put(rows[j]).Rejected?
    ensures forall i :: 1 <= i < n && put(i).Rejected? ==> i in rows
    ensures forall j, k :: 0 <= j < k < |rows| ==> rows[j] < rows[k]
  {
    if n <= 1 then []
    else if put(n - 1).Rejected? then FailedRows(put, n - 1) + [n - 1]
    else FailedRows(put, n - 1)
  }

  /** The number of rows among 1 .. n - 1 whose write succeeded. */
  function StoredCount(put: nat -> PutResult, n: nat): nat {
    if n <= 1 then 0 else StoredCount(put, n - 1) + (if put(n - 1).Stored? then 1 else 0)
  }

  /**
   * Every data row is attempted exactly once, in order: the i-th item
   * written is the row object of line i + 1, and processed rows plus
   * recorded errors add up to the number of data rows.
   */
  lemma {:induction false} RunAttemptsEveryRow(lines: seq<string>, headers: seq<string>, key: string,
                                               clock: nat -> string, put: nat -> PutResult, n: nat)
    requires 1 <= n <= |lines|
    ensures var t := Run(lines, headers, key, clock, put, n);
      && |t.items| == n - 1
      && t.processedCount + |t.errors| == n - 1
      && forall j :: 0 <= j < n - 1 ==> t.items[j] == RowObject(lines, headers, key, clock, j + 1)
  {
    if n > 1 {
      RunAttemptsEveryRow(lines, headers, key, clock, put, n - 1);
      var prev := Run(lines, headers, key, clock, put, n - 1).items;
      var item := RowObject(lines, headers, key, clock, n - 1);
      assert Run(lines, headers, key, clock, put, n).items == prev + [item];
    }
  }

  /** The counter is the number of successful writes. */
  lemma {:induction false} RunCountsStored(lines: seq<string>, headers: seq<string>, key: string,
                                           clock: nat -> string, put: nat -> PutResult, n: nat)
    requires 1 <= n <= |lines|
    ensures Run(lines, headers, key, clock, put, n).processedCount == StoredCount(put, n)
  {
    if n > 1 {
      RunCountsStored(lines, headers, key, clock, put, n - 1);
    }
  }

  /**
   * The error list holds exactly one message per failed row, for the
   * failed rows in increasing order, each naming its row and its error.
   */
  lemma {:induction false} RunErrorsAreFailedRows(lines: seq<string>, headers: seq<string>, key: string,
                                                  clock: nat -> string, put: nat -> PutResult, n: nat)
    requires 1 <= n <= |lines|
    ensures var errors := Run(lines, headers, key, clock, put, n).errors;
      var rows := FailedRows(put, n);
      && |errors| == |rows|
      && forall j :: 0 <= j < |rows| ==> errors[j] == RowErrorMessage(rows[j], put(rows[j]).message)
  {
    if n > 1 {
      RunErrorsAreFailedRows(lines, headers, key, clock, put, n - 1);
    }
  }

  /**
   * Read back from the messages themselves, the error list is ordered by
   * strictly increasing row number, so no row is reported twice, and every
   * failed row is reported.
   */
  lemma RunErrorsOrdered(lines: seq<string>, headers: seq<string>, key: string,
                         clock: nat -> string, put: nat -> PutResult, n: nat)
    requires 1 <= n <= |lines|
    ensures var errors := Run(lines, headers, key, clock, put, n).errors;
      && (forall j :: 0 <= j < |errors| ==>
            ParseRowError(errors[j]).Some? && 1 <= ParseRowError(errors[j]).value.0 < n)
      && (forall j, k :: 0 <= j < k < |errors| ==>
            ParseRowError(errors[j]).value.0 < ParseRowError(errors[k]).value.0)
      && (forall i :: 1 <= i < n && put(i).Rejected? ==>
            exists j :: 0 <= j < |errors| && ParseRowError(errors[j]) == Some((i, put(i).message)))
  {
    var errors := Run(lines, headers, key, clock, put, n).errors;
    var rows := FailedRows(put, n);
    RunErrorsParse(lines, headers, key, clock, put, n);
    forall i | 1 <= i < n && put(i).Rejected?
      ensures exists j :: 0 <= j < |errors| && ParseRowError(errors[j]) == Some((i, put(i).message))
    {
      var j :| 0 <= j < |rows| && rows[j] == i;
      assert ParseRowError(errors[j]) == Some((rows[j], put(rows[j]).message));
    }
  }

  lemma RunErrorsParse(lines: seq<string>, headers: seq<string>, key: string,
                       clock: nat -> string, put: nat -> PutResult, n: nat)
    requires 1 <= n <= |lines|
    ensures var errors := Run(lines, headers, key, clock, put, n).errors;
      var rows := FailedRows(put, n);
      && |errors| == |rows|
      && forall j :: 0 <= j < |errors| ==> ParseRowError(errors[j]) == Some((rows[j], put(rows[j]).message))
  {
    var errors := Run(lines, headers, key, clock, put, n).errors;
    var rows := FailedRows(put, n);
    RunErrorsAreFailedRows(lines, headers, key, clock, put, n);
    forall j | 0 <= j < |errors|
      ensures ParseRowError(errors[j]) == Some((rows[j], put(rows[j]).message))
    {
      ParseRowErrorMessage(rows[j], put(rows[j]).message);
    }
  }
}
