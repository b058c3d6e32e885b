/**
 * The database helpers of source/database.cpp that do not talk to MySQL:
 * the batched INSERT buffer DBInsert, the quote wrapping of escapeBlob, and
 * the column lookups of DBResult over a fetched row. Whatever the MySQL
 * client library would answer (whether a query succeeds, the escaped text,
 * the row and its field lengths) is an input.
 */
module Database {
  import opened Wrappers

  /** std::string(p) of a char pointer: the text up to the first NUL. */
  function CString(s: string): (r: string)
    ensures r <= s && '\0' !in r
    ensures |r| < |s| ==> s[|r|] == '\0'
  {
    if |s| == 0 || s[0] == '\0' then "" else [s[0]] + CString(s[1..])
  }

  /** A text without NUL reads back whole. */
  lemma {:induction false} CStringOfText(s: string)
    requires '\0' !in s
    ensures CString(s) == s
  {
    if |s| > 0 {
      assert s[1..] <= s[1..] && forall i :: 0 <= i < |s[1..]| ==> s[1..][i] == s[i + 1];
      CStringOfText(s[1..]);
    }
  }

  /**
   * escapeBlob: `'`, then (for a non-empty input) the text
   * mysql_real_escape_string writes for it, then `'`. The escaping itself is
   * the client library's and is passed in.
   */
  function EscapeBlob(s: string, escape: string -> string): (r: string)
    ensures |r| >= 2 && r[0] == '\'' && r[|r| - 1] == '\''
    ensures |s| == 0 ==> r == "''"
    ensures |s| != 0 ==> r[1..|r| - 1] == CString(escape(s))
  {
    "'" + (if |s| == 0 then "" else CString(escape(s))) + "'"
  }

  /** The values text of a batch: `(r0),(r1),...`. */
  function Tuples(rows: seq<string>): (r: string)
    ensures r == "" <==> rows == []
  {
    if |rows| == 0 then ""
    else
      var n := |rows| - 1;
      Tuples(rows[..n]) + (if n == 0 then "" else ",") + "(" + rows[n] + ")"
  }

  function SumLengths(rows: seq<string>): nat
  {
    if |rows| == 0 then 0 else SumLengths(rows[..|rows| - 1]) + |rows[|rows| - 1]|
  }

  lemma TuplesSnoc(rows: seq<string>, row: string)
    ensures Tuples(rows + [row]) == Tuples(rows) + (if rows == [] then "" else ",") + "(" + row + ")"
    ensures SumLengths(rows + [row]) == SumLengths(rows) + |row|
  {
    assert (rows + [row])[..|rows|] == rows;
  }

  /** The values text is the rows plus two brackets each and the commas between them. */
  lemma {:induction false} TuplesLength(rows: seq<string>)
    requires rows != []
    ensures |Tuples(rows)| == SumLengths(rows) + 3 * |rows| - 1
  {
    var n := |rows| - 1;
    if n > 0 {
      TuplesLength(rows[..n]);
    }
  }

  /**
   * A DBInsert collects rows for one INSERT statement and sends it whenever
   * the counted length passes the server's packet size.
   */
  class DBInsert {
    const query: string
    var values: string
    /** m_length: the query's length plus the lengths of the rows counted. */
    var length: nat
    /** The statements sent through Database::executeQuery, in order. */
    var executed: seq<string>
    /** The rows in the current batch. */
    ghost var rows: seq<string>
    /** The length of a row appended right after the flush it caused, which is not counted. */
    ghost var uncounted: nat

    ghost predicate Valid()
      reads this`values, this`rows, this`length, this`uncounted
    {
      && values == Tuples(rows)
      && length + uncounted == |query| + SumLengths(rows)
      && (uncounted == 0 || (rows != [] && uncounted == |rows[0]|))
    }

    constructor (query: string)
      ensures Valid()
      ensures this.query == query && values == "" && length == |query| && executed == []
      ensures rows == [] && uncounted == 0
    {
      this.query := query;
      values := "";
      length := |query|;
      executed := [];
      rows := [];
      uncounted := 0;
    }

    /**
     * execute: an empty batch succeeds without a query. Otherwise the
     * statement is sent and, whatever its outcome, the batch is emptied and
     * the count restarts from the query's length.
     */
    method Execute(succeeds: bool) returns (ok: bool)
      requires values == Tuples(rows)
      modifies this`values, this`length, this`executed, this`rows, this`uncounted
      ensures old(Valid()) ==> Valid()
      ensures old(values) == "" ==> (ok && values == "" && length == old(length)
        && executed == old(executed) && rows == old(rows) && uncounted == old(uncounted))
      ensures old(values) != "" ==> (ok == succeeds && executed == old(executed) + [query + old(values)]
        && values == "" && length == |query| && rows == [] && uncounted == 0)
    {
      if values == "" {
        return true;
      }
      executed := executed + [query + values];
      values := "";
      length := |query|;
      rows := [];
      uncounted := 0;
      return succeeds;
    }

    /**
     * addRow: count the row first; past the packet size flush the batch, and
     * give up on the row when that flush fails. Then append `(row)`, after a
     * comma unless the batch is empty. A row that follows its own flush is
     * not counted.
     */
    method AddRow(row: string, maxPacketSize: nat, succeeds: bool) returns (ok: bool)
      requires Valid()
      modifies this`values, this`length, this`executed, this`rows, this`uncounted
      ensures Valid()
      ensures old(length) + |row| > maxPacketSize && old(values) != "" ==>
        && executed == old(executed) + [query + old(values)]
        && ok == succeeds && length == |query|
        && (if succeeds then values == "(" + row + ")" && rows == [row] && uncounted == |row|
            else values == "" && rows == [] && uncounted == 0)
      ensures !(old(length) + |row| > maxPacketSize && old(values) != "") ==>
        && ok && executed == old(executed) && length == old(length) + |row|
        && values == old(values) + (if old(values) == "" then "" else ",") + "(" + row + ")"
        && rows == old(rows) + [row] && uncounted == old(uncounted)
    {
      length := length + |row|;
      if length > maxPacketSize {
        ghost var wasEmpty := values == "";
        var flushed := Execute(succeeds);
        if !flushed {
          return false;
        }
        if !wasEmpty {
          uncounted := |row|;
        }
      }
      Append(row);
      return true;
    }

    /** The append step of addRow: `(row)`, after a comma unless the batch is empty. */
    method Append(row: string)
      requires values == Tuples(rows)
      modifies this`values, this`rows
      ensures values == Tuples(rows) && rows == old(rows) + [row]
      ensures values == old(values) + (if old(values) == "" then "" else ",") + "(" + row + ")"
      ensures SumLengths(rows) == SumLengths(old(rows)) + |row|
    {
      TuplesSnoc(rows, row);
      if values == "" {
        values := "(" + row + ")";
      } else {
        values := values + ",(" + row + ")";
      }
      rows := rows + [row];
    }
  }

  /**
   * What m_length misses: the statement a flush would send is longer than
   * the count by three characters per row less one, and by a row not counted.
   */
  lemma LengthUndercounts(ins: DBInsert)
    requires ins.Valid() && ins.rows != []
    ensures |ins.query + ins.values| == ins.length + ins.uncounted + 3 * |ins.rows| - 1
  {
    TuplesLength(ins.rows);
  }

  /**
   * A DBResult positioned on a fetched row: the column names with their
   * indices, the row's fields (None for SQL NULL) and their byte lengths.
   */
  datatype DBResult = DBResult(names: map<string, nat>, row: seq<Option<string>>, lengths: seq<nat>)
  {
    /** Every named column has a field and a length. */
    predicate WellFormed()
    {
      |lengths| == |row| && forall s :: s in names ==> names[s] < |row|
    }

    /** getString: "" for an unknown column or NULL, else the field as a C string. */
    function GetString(s: string): (r: string)
      requires WellFormed()
      ensures s !in names ==> r == ""
      ensures s in names && row[names[s]].None? ==> r == ""
      ensures s in names && row[names[s]].Some? ==> r == CString(row[names[s]].value)
    {
      if s !in names then ""
      else
        match row[names[s]]
        case None => ""
        case Some(field) => CString(field)
    }

    /** getStream: no data and size 0 for an unknown column or NULL, else the field and its length. */
    function GetStream(s: string): (r: (Option<string>, nat))
      requires WellFormed()
      ensures s !in names || row[names[s]].None? ==> r == (None, 0)
      ensures s in names && row[names[s]].Some? ==> r == (row[names[s]], lengths[names[s]])
    {
      if s !in names then (None, 0)
      else
        match row[names[s]]
        case None => (None, 0)
        case Some(_) => (row[names[s]], lengths[names[s]])
    }
  }

  /**
   * The two lookups agree: getString is empty exactly where getStream has no
   * data, or the data starts with NUL, and is otherwise the data's text up to
   * its first NUL.
   */
  lemma GetStringOfStream(res: DBResult, s: string)
    requires res.WellFormed()
    ensures res.GetStream(s).0.None? ==> res.GetString(s) == "" && res.GetStream(s).1 == 0
    ensures res.GetStream(s).0.Some? ==> res.GetString(s) == CString(res.GetStream(s).0.value)
    ensures res.GetStream(s).0.Some? && '\0' !in res.GetStream(s).0.value ==>
      res.GetString(s) == res.GetStream(s).0.value
  {
    if res.GetStream(s).0.Some? {
      var field := res.GetStream(s).0.value;
      if '\0' !in field {
        CStringOfText(field);
      }
    }
  }
}
