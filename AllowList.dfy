/** The allow-list part of `read_allowed_emails` (tools/cleanup_kdbx.py:43-74):
    choosing the column and collecting its normalised values. The CSV file is
    given as its header list and its rows, each row a map from header to cell. */
module AllowList {
  import opened Wrappers
  import opened Errors
  import opened Text

  /** `[name for name in fieldnames if name.lower() == column.lower()]`. */
  function Matches(headers: seq<string>, column: string): (r: seq<string>)
    ensures forall h :: h in r <==> h in headers && Lower(h) == Lower(column)
  {
    if headers == [] then []
    else if Lower(headers[0]) == Lower(column) then [headers[0]] + Matches(headers[1..], column)
    else Matches(headers[1..], column)
  }

  /** `matches[0]` is the first header that equals the column ignoring case. */
  lemma {:induction false} MatchesFirst(headers: seq<string>, column: string) returns (k: nat)
    requires Matches(headers, column) != []
    ensures k < |headers| && Matches(headers, column)[0] == headers[k]
    ensures Lower(headers[k]) == Lower(column)
    ensures forall j :: 0 <= j < k ==> Lower(headers[j]) != Lower(column)
  {
    if Lower(headers[0]) == Lower(column) {
      k := 0;
    } else {
      var k' := MatchesFirst(headers[1..], column);
      k := k' + 1;
      forall j | 0 < j < k ensures Lower(headers[j]) != Lower(column) {
        assert headers[j] == headers[1..][j - 1];
      }
    }
  }

  /** The column `read_allowed_emails` reads: the first header when none is
      named, else the first header equal to the named one ignoring case. */
  function SelectColumn(headers: seq<string>, column: Option<string>): (r: Result<string, CleanupError>)
    ensures headers == [] ==> r == Failure(NoHeaders)
    ensures headers != [] && column.None? ==> r == Success(headers[0])
    ensures headers != [] && column.Some? ==>
              (r.Failure? <==> forall k :: 0 <= k < |headers| ==> Lower(headers[k]) != Lower(column.value))
    ensures headers != [] && column.Some? && r.Failure? ==> r.error == ColumnNotFound(column.value, headers)
  {
    if headers == [] then Failure(NoHeaders)
    else if column.None? then Success(headers[0])
    else
      var matches := Matches(headers, column.value);
      if matches == [] then
        assert forall k :: 0 <= k < |headers| ==> headers[k] in headers;
        Failure(ColumnNotFound(column.value, headers))
      else
        assert matches[0] in matches;
        Success(matches[0])
  }

  /** A named column selects the first header equal to it ignoring case. */
  lemma SelectColumnFirst(headers: seq<string>, column: string) returns (k: nat)
    requires SelectColumn(headers, Some(column)).Success?
    ensures k < |headers| && SelectColumn(headers, Some(column)).value == headers[k]
    ensures Lower(headers[k]) == Lower(column)
    ensures forall j :: 0 <= j < k ==> Lower(headers[j]) != Lower(column)
  {
    k := MatchesFirst(headers, column);
  }

  /** `normalize_email(row.get(column))`. */
  function Cell(row: map<string, string>, column: string): (r: Option<string>)
    ensures column !in row ==> r.None?
    ensures r.Some? ==> r.value != "" && NormalizeEmail(r) == r
  {
    var value := if column in row then Some(row[column]) else None;
    NormalizeIdempotent(value);
    NormalizeEmail(value)
  }

  /** The normalised cells of `column`, row by row. */
  function ColumnCells(rows: seq<map<string, string>>, column: string): (r: seq<Option<string>>)
    ensures |r| == |rows|
    ensures forall i :: 0 <= i < |rows| ==> r[i] == Cell(rows[i], column)
  {
    seq(|rows|, i requires 0 <= i < |rows| => Cell(rows[i], column))
  }

  /** The values present among `cells`. */
  function Present(cells: seq<Option<string>>): (r: set<string>)
    ensures forall x :: x in r <==> Some(x) in cells
  {
    if cells == [] then {}
    else
      var init := cells[..|cells| - 1];
      var last := cells[|cells| - 1];
      assert cells == init + [last];
      Present(init) + (if last.Some? then {last.value} else {})
  }

  /** The set of normalised values of `column` over `rows`. */
  function EmailsIn(rows: seq<map<string, string>>, column: string): (r: set<string>)
    ensures forall x :: x in r <==> exists i :: 0 <= i < |rows| && Cell(rows[i], column) == Some(x)
  {
    var cells := ColumnCells(rows, column);
    assert forall x :: Some(x) in cells <==> exists i :: 0 <= i < |rows| && Cell(rows[i], column) == Some(x) by {
      forall x ensures Some(x) in cells ==> exists i :: 0 <= i < |rows| && Cell(rows[i], column) == Some(x) {
        if Some(x) in cells {
          var i :| 0 <= i < |cells| && cells[i] == Some(x);
        }
      }
    }
    Present(cells)
  }

  /** What `read_allowed_emails` returns or raises for a readable file. */
  function AllowedEmails(headers: seq<string>, rows: seq<map<string, string>>, column: Option<string>): (r: Result<set<string>, CleanupError>)
    ensures headers == [] ==> r == Failure(NoHeaders)
    ensures rows == [] ==> r.Failure?
    ensures r.Success? ==> r.value != {}
    ensures SelectColumn(headers, column).Failure? ==> r == Failure(SelectColumn(headers, column).error)
    ensures SelectColumn(headers, column).Success? ==>
              var target := SelectColumn(headers, column).value;
              r == if EmailsIn(rows, target) == {} then Failure(NoEmails(target)) else Success(EmailsIn(rows, target))
  {
    match SelectColumn(headers, column)
    case Failure(e) => Failure(e)
    case Success(target) =>
      var emails := EmailsIn(rows, target);
      if emails == {} then Failure(NoEmails(target)) else Success(emails)
  }

  /** `read_allowed_emails` after the file is open. */
  method ReadAllowedEmails(headers: seq<string>, rows: seq<map<string, string>>, column: Option<string>)
    returns (r: Result<set<string>, CleanupError>)
    ensures r == AllowedEmails(headers, rows, column)
  {
    if headers == [] {
      return Failure(NoHeaders);
    }
    var target: string;
    if column.None? {
      target := headers[0];
    } else {
      var matches := Matches(headers, column.value);
      if matches == [] {
        return Failure(ColumnNotFound(column.value, headers));
      }
      target := matches[0];
    }
    var emails := CollectEmails(rows, target);
    if emails == {} {
      return Failure(NoEmails(target));
    }
    return Success(emails);
  }

  /** The loop over the rows: add each normalised cell that is present. */
  method CollectEmails(rows: seq<map<string, string>>, target: string) returns (emails: set<string>)
    ensures emails == EmailsIn(rows, target)
  {
    ghost var cells := ColumnCells(rows, target);
    emails := {};
    for i := 0 to |rows|
      invariant emails == Present(cells[..i])
    {
      var normalized := Cell(rows[i], target);
      PresentStep(cells, i);
      if normalized.Some? {
        emails := emails + {normalized.value};
      }
    }
    assert cells[..|rows|] == cells;
  }

  lemma PresentStep(cells: seq<Option<string>>, i: nat)
    requires i < |cells|
    ensures Present(cells[..i + 1]) == Present(cells[..i]) + if cells[i].Some? then {cells[i].value} else {}
  {
    assert cells[..i + 1][..i] == cells[..i];
  }

  /** The allow-list is exactly the set of addresses some row yields in the
      chosen column, each already in normal form. */
  lemma AllowedEmailsExactly(headers: seq<string>, rows: seq<map<string, string>>, column: Option<string>, x: string)
    requires AllowedEmails(headers, rows, column).Success?
    ensures var target := SelectColumn(headers, column).value;
            x in AllowedEmails(headers, rows, column).value <==>
              exists i :: 0 <= i < |rows| && Cell(rows[i], target) == Some(x)
    ensures x in AllowedEmails(headers, rows, column).value ==> NormalizeEmail(Some(x)) == Some(x)
  {
    var target := SelectColumn(headers, column).value;
    if x in AllowedEmails(headers, rows, column).value {
      var i :| 0 <= i < |rows| && Cell(rows[i], target) == Some(x);
      NormalizeIdempotent(if target in rows[i] then Some(rows[i][target]) else None);
    }
  }
}
