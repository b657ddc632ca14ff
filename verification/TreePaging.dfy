/**
 * Paging through the immediate children of a directory. Models the query of
 * `list_project_tree_entries_async` of `backend/app/services/project_service.py`: when following the
 * cursors lists every child once.
 */
module TreePaging {
  import opened Basics
  import opened PyText
  import opened TextOrder
  import opened TreeListing

  // ----- Following the cursors -----

  /** `limit * 40` rows are looked at, but no more than 20000. */
  function ScanLimit(limit: nat): nat {
    if limit * 40 > 20000 then 20000 else if limit * 40 < limit + 1 then limit + 1 else limit * 40
  }

  /** A cursor as the query takes it: stripped, with slashes for backslashes, and none if blank. */
  function NormCursor(cursor: Option<string>): Option<string> {
    if cursor.None? || Strip(cursor.value) == "" then None else Some(Slashed(Strip(cursor.value)))
  }

  function Slashed(s: string): string {
    if s == "" then "" else [if s[0] == '\\' then '/' else s[0]] + Slashed(s[1..])
  }

  /** The sorted rows the query picks: those that its pattern admits, past the cursor. */
  function Above(table: seq<string>, picked: string -> bool, cursor: Option<string>): seq<string> {
    if table == [] then []
    else
      (if picked(table[0]) && (cursor.None? || Less(cursor.value, table[0])) then [table[0]] else [])
      + Above(table[1..], picked, cursor)
  }

  datatype Listing = Listing(table: seq<string>, picked: string -> bool, prefix: Option<string>, limit: nat)
  {
    function Remaining(cursor: Option<string>): seq<string> {
      Above(table, picked, NormCursor(cursor))
    }

    function PageAt(cursor: Option<string>): Page {
      var rows := Window(Remaining(cursor), ScanLimit(limit) + 1);
      PageOf(prefix, rows, limit, ScanLimit(limit), |rows| > ScanLimit(limit))
    }

    function ConsumedAt(cursor: Option<string>): nat {
      Consumed(prefix, Window(Remaining(cursor), ScanLimit(limit)), limit)
    }

    ghost predicate Valid() {
      limit > 0 && Ascending(table)
    }
  }

  lemma {:induction false} SlashedIsSame(s: string)
    ensures |Slashed(s)| == |s|
    ensures forall i | 0 <= i < |s| :: Slashed(s)[i] == if s[i] == '\\' then '/' else s[i]
    ensures Slashed(s) == s <==> '\\' !in s
    decreases |s|
  {
    if s != "" {
      SlashedIsSame(s[1..]);
      assert s == [s[0]] + s[1..];
    }
  }

  /** Which paths come back unchanged: those not blank, with no space at either end and no backslash. */
  lemma OwnCursor(path: string)
    ensures NormCursor(Some(path)) == Some(path) <==> path != "" && Trimmed(path) && '\\' !in path
  {
    var left, right := StripCuts(path);
    SlashedIsSame(Strip(path));
    if |Strip(path)| == |path| {
      assert left == "" && right == "" && path == left + Strip(path) + right;
    }
    if Trimmed(path) {
      StripOfTrimmed(path);
    }
  }

  /** A cursor is read without the whitespace around it and with slashes for backslashes, and not at all if blank. */
  lemma CursorRead(left: string, path: string, right: string)
    requires Blank(left) && Blank(right) && Trimmed(path)
    ensures var read := NormCursor(Some(left + path + right));
            if path == "" then read.None?
            else
              && read.Some? && |read.value| == |path|
              && forall i | 0 <= i < |path| :: read.value[i] == if path[i] == '\\' then '/' else path[i]
  {
    StripOfPadded(left, path, right);
    SlashedIsSame(path);
  }

  lemma {:induction false} AboveSelects(table: seq<string>, picked: string -> bool, cursor: Option<string>)
    ensures forall row | row in Above(table, picked, cursor) :: row in table
    ensures Ascending(table) ==> Ascending(Above(table, picked, cursor))
    decreases |table|
  {
    if table != [] {
      AboveSelects(table[1..], picked, cursor);
      var rest := Above(table[1..], picked, cursor);
      if Ascending(table) {
        forall row | row in rest ensures Less(table[0], row) {
          assert row in table[1..];
        }
        assert forall i | 0 <= i < |rest| :: rest[i] in rest;
      }
    }
  }

  predicate Takes(picked: string -> bool, cursor: Option<string>, row: string) {
    picked(row) && (cursor.None? || Less(cursor.value, row))
  }

  lemma {:induction false} AboveSame(table: seq<string>, picked: string -> bool, a: Option<string>, b: Option<string>)
    requires forall row | row in table :: Takes(picked, a, row) <==> Takes(picked, b, row)
    ensures Above(table, picked, a) == Above(table, picked, b)
    decreases |table|
  {
    hide Takes;
    if table != [] {
      AboveSame(table[1..], picked, a, b);
      AboveOne(table, picked, a);
      AboveOne(table, picked, b);
      assert table[0] in table;
    } else {
      AboveLength(table, picked, a);
      AboveLength(table, picked, b);
    }
  }

  lemma {:induction false} AboveHas(table: seq<string>, picked: string -> bool, cursor: Option<string>, row: string)
    ensures row in Above(table, picked, cursor) <==> row in table && Takes(picked, cursor, row)
    decreases |table|
  {
    hide Takes, Above;
    AboveLength(table, picked, cursor);
    if table != [] {
      AboveHas(table[1..], picked, cursor, row);
      AboveOne(table, picked, cursor);
    }
  }

  lemma AboveOne(table: seq<string>, picked: string -> bool, cursor: Option<string>)
    requires table != []
    ensures Above(table, picked, cursor) ==
            if Takes(picked, cursor, table[0]) then [table[0]] + Above(table[1..], picked, cursor)
            else Above(table[1..], picked, cursor)
  {
  }

  lemma FirstIsLeast(table: seq<string>, row: string)
    requires Ascending(table) && table != [] && row in table[1..]
    ensures Less(table[0], row) && !Less(row, table[0])
  {
    LessIsStrict(table[0], row);
  }

  lemma Shifted<T>(first: T, rest: seq<T>, k: nat)
    requires k <= |rest|
    ensures ([first] + rest)[k + 1..] == rest[k..]
    ensures ([first] + rest)[k] == if k == 0 then first else rest[k - 1]
    ensures rest[0..] == rest
  {
  }

  lemma TailAscends(table: seq<string>)
    requires Ascending(table) && table != []
    ensures Ascending(table[1..])
  {
  }

  lemma AboveLength(table: seq<string>, picked: string -> bool, cursor: Option<string>)
    ensures |Above(table, picked, cursor)| ==
            if table == [] then 0
            else |Above(table[1..], picked, cursor)| + if Takes(picked, cursor, table[0]) then 1 else 0
  {
  }

  lemma AboveMember(table: seq<string>, picked: string -> bool, cursor: Option<string>, k: nat)
    requires k < |Above(table, picked, cursor)|
    ensures Above(table, picked, cursor)[k] in table
  {
    AboveSelects(table, picked, cursor);
    hide Above, Ascending;
  }

  lemma AboveFirst(table: seq<string>, picked: string -> bool, cursor: Option<string>)
    requires Ascending(table) && table != [] && Takes(picked, cursor, table[0])
    ensures Above(table, picked, Some(table[0])) == Above(table[1..], picked, cursor)
  {
    hide Above;
    var first := table[0];
    LessIsStrict(first, first);
    forall row | row in table[1..] ensures Less(first, row) {
      FirstIsLeast(table, row);
    }
    AbovePast(table[1..], picked, cursor, first);
    AboveOne(table, picked, Some(first));
  }

  lemma AboveLater(table: seq<string>, picked: string -> bool, row: string)
    requires Ascending(table) && table != [] && row in table[1..]
    ensures Above(table, picked, Some(row)) == Above(table[1..], picked, Some(row))
  {
    hide Above, Less;
    FirstIsLeast(table, row);
    AboveOne(table, picked, Some(row));
  }

  /** The rows past the `k`th of those picked are those picked after it. */
  ghost predicate PickedInTurn(table: seq<string>, picked: string -> bool, cursor: Option<string>, k: nat) {
    var rows := Above(table, picked, cursor);
    k < |rows| && Above(table, picked, Some(rows[k])) == rows[k + 1..]
  }

  lemma PickedFirst(table: seq<string>, picked: string -> bool, cursor: Option<string>)
    requires Ascending(table) && table != [] && Takes(picked, cursor, table[0])
    ensures PickedInTurn(table, picked, cursor, 0)
  {
    AboveOne(table, picked, cursor);
    AboveFirst(table, picked, cursor);
    Shifted(table[0], Above(table[1..], picked, cursor), 0);
    hide Above, Takes, Ascending;
  }

  lemma PickedLater(table: seq<string>, picked: string -> bool, cursor: Option<string>, k: nat)
    requires Ascending(table) && table != [] && PickedInTurn(table[1..], picked, cursor, k)
    ensures PickedInTurn(table, picked, cursor, if Takes(picked, cursor, table[0]) then k + 1 else k)
  {
    hide Above, Takes, Ascending;
    var rest := Above(table[1..], picked, cursor);
    var left := Above(table, picked, Some(rest[k]));
    assert left == rest[k + 1..] by {
      AboveMember(table[1..], picked, cursor, k);
      AboveLater(table, picked, rest[k]);
    }
    AboveOne(table, picked, cursor);
    PickedShifted(table[0], rest, k);
  }

  lemma PickedShifted<T>(first: T, rest: seq<T>, k: nat)
    requires k < |rest|
    ensures ([first] + rest)[k + 1] == rest[k] && ([first] + rest)[k + 2..] == rest[k + 1..]
  {
  }

  lemma {:induction false} AbovePicked(table: seq<string>, picked: string -> bool, cursor: Option<string>, k: nat)
    requires Ascending(table) && k < |Above(table, picked, cursor)|
    ensures PickedInTurn(table, picked, cursor, k)
    decreases |table|
  {
    hide Above, Takes, Ascending, PickedInTurn;
    AboveLength(table, picked, cursor);
    TailAscends(table);
    if !Takes(picked, cursor, table[0]) {
      AbovePicked(table[1..], picked, cursor, k);
      PickedLater(table, picked, cursor, k);
    } else if k == 0 {
      PickedFirst(table, picked, cursor);
    } else {
      AbovePicked(table[1..], picked, cursor, k - 1);
      PickedLater(table, picked, cursor, k - 1);
    }
  }

  lemma AbovePast(tail: seq<string>, picked: string -> bool, cursor: Option<string>, first: string)
    requires cursor.None? || Less(cursor.value, first)
    requires forall row | row in tail :: Less(first, row)
    ensures Above(tail, picked, cursor) == Above(tail, picked, Some(first))
  {
    forall row | row in tail ensures Takes(picked, cursor, row) <==> Takes(picked, Some(first), row) {
      if cursor.Some? {
        LessIsTransitive(cursor.value, first, row);
      }
    }
    AboveSame(tail, picked, cursor, Some(first));
  }

  /** Where the rows that are past `at` begin, when it is not before the `k`th. */
  ghost predicate CutsAt(rows: seq<string>, at: string, q: nat) {
    && q <= |rows|
    && (forall i | 0 <= i < q :: !Less(at, rows[i]))
    && (forall i | q <= i < |rows| :: Less(at, rows[i]))
  }

  lemma {:induction false} CutExists(rows: seq<string>, at: string) returns (q: nat)
    requires Ascending(rows)
    ensures CutsAt(rows, at, q)
    decreases |rows|
  {
    if rows == [] {
      q := 0;
    } else {
      var last := |rows| - 1;
      q := CutExists(rows[..last], at);
      if !Less(at, rows[last]) {
        forall i | 0 <= i < last ensures !Less(at, rows[i]) {
          if Less(at, rows[i]) {
            LessIsTransitive(at, rows[i], rows[last]);
          }
        }
        q := |rows|;
      }
    }
  }

  /** A cursor not before the `k`th row leaves the rows past it, and none of those up to the `k`th. */
  lemma AboveCut(table: seq<string>, picked: string -> bool, cursor: Option<string>, k: nat, at: string, q: nat)
    requires Ascending(table) && k < |Above(table, picked, cursor)|
    requires !Less(at, Above(table, picked, cursor)[k]) && CutsAt(Above(table, picked, cursor), at, q)
    ensures k < q && Above(table, picked, Some(at)) == Above(table, picked, cursor)[q..]
  {
    hide Above, Less;
    var rows := Above(table, picked, cursor);
    var edge := rows[q - 1];
    AbovePicked(table, picked, cursor, q - 1);
    LessIsTotal(edge, at);
    forall row | row in table ensures Takes(picked, Some(edge), row) <==> Takes(picked, Some(at), row) {
      if Takes(picked, Some(edge), row) {
        AboveHas(table, picked, Some(edge), row);
        var i :| 0 <= i < |rows[q..]| && rows[q..][i] == row;
        assert rows[q + i] == row;
      } else if Takes(picked, Some(at), row) && edge != at {
        LessIsTransitive(edge, at, row);
      }
    }
    AboveSame(table, picked, Some(edge), Some(at));
  }

  /**
   * When a cursor leaves exactly the rows after the `k`th: it must be read, as the query reads it, as
   * a text that is not before that row and is before the next.
   */
  lemma CursorLeavesIff(table: seq<string>, picked: string -> bool, cursor: Option<string>, k: nat, read: Option<string>)
    requires Ascending(table) && k < |Above(table, picked, cursor)|
    ensures var rows := Above(table, picked, cursor);
            Above(table, picked, read) == rows[k + 1..] <==>
            read.Some? && !Less(read.value, rows[k]) && (k + 1 < |rows| ==> Less(read.value, rows[k + 1]))
  {
    hide Above, Less;
    var rows, left := Above(table, picked, cursor), Above(table, picked, read);
    AboveSelects(table, picked, cursor);
    if read.Some? && !Less(read.value, rows[k]) {
      var q := CutExists(rows, read.value);
      AboveCut(table, picked, cursor, k, read.value, q);
      assert left == rows[q..] && |left| == |rows| - q;
    } else {
      AboveHas(table, picked, cursor, rows[k]);
      AboveHas(table, picked, read, rows[k]);
      if left == rows[k + 1..] {
        var i :| 0 <= i < |left| && left[i] == rows[k];
        assert rows[k + 1 + i] == rows[k];
        LessIsStrict(rows[k], rows[k]);
      }
    }
  }

  lemma CursorIsRow(l: Listing, cursor: Option<string>)
    requires l.PageAt(cursor).nextCursor.Some?
    ensures var rows, n := l.Remaining(cursor), l.ConsumedAt(cursor);
            && 0 < n <= |rows| && l.PageAt(cursor).nextCursor == Some(rows[n - 1])
            && Child(l.prefix, rows[n - 1]).Some?
  {
    hide Listed, Above, NormCursor, ScanLimit, Child, Consumed;
    var rows, limit := l.Remaining(cursor), ScanLimit(l.limit);
    assert Window(Window(rows, limit + 1), limit) == Window(rows, limit);
    ConsumedHasChild(l.prefix, Window(rows, limit), l.limit);
  }

  lemma {:induction false} ConsumedHasChild(prefix: Option<string>, rows: seq<string>, limit: nat)
    requires Consumed(prefix, rows, limit) > 0
    ensures Child(prefix, rows[Consumed(prefix, rows, limit) - 1]).Some?
    decreases |rows|
  {
    hide Listed;
    if !(Child(prefix, rows[|rows| - 1]).Some? && |Listed(prefix, rows)| <= limit) {
      ConsumedHasChild(prefix, rows[..|rows| - 1], limit);
    }
  }

  /** The page sees all the rows there are, or one entry more than it may hold. */
  ghost predicate Settled(l: Listing, cursor: Option<string>) {
    var rows := l.Remaining(cursor);
    |rows| <= ScanLimit(l.limit) || |Listed(l.prefix, Window(rows, ScanLimit(l.limit)))| > l.limit
  }

  // ----- What a full page leaves -----

  lemma {:induction false} NoneAfterConsumed(prefix: Option<string>, rows: seq<string>, limit: nat, i: nat)
    requires |Listed(prefix, rows)| <= limit && Consumed(prefix, rows, limit) <= i < |rows|
    ensures Child(prefix, rows[i]).None?
    decreases |rows|
  {
    ListedGrows(prefix, rows, |rows| - 1);
    hide Child, Listed;
    if i < |rows| - 1 && Child(prefix, rows[|rows| - 1]).None? {
      NoneAfterConsumed(prefix, rows[..|rows| - 1], limit, i);
    }
  }

  lemma NewHasNoSibling(prefix: Option<string>, rows: seq<string>, row: string, x: string)
    requires Child(prefix, row).Some? && Child(prefix, row).value.path !in Keys(Listed(prefix, rows))
    requires x in rows
    ensures !Siblings(prefix, x, row)
  {
    KeysOfListed(prefix, rows, Child(prefix, row).value.path);
    hide Child, Listed;
  }

  /** Where a new child begins, the rows before and from there have no siblings in each other. */
  lemma ApartAtNew(prefix: Option<string>, rows: seq<string>, n: nat)
    requires Ascending(rows) && NoAncestors(rows) && n < |rows|
    requires Child(prefix, rows[n]).Some? && Child(prefix, rows[n]).value.path !in Keys(Listed(prefix, rows[..n]))
    ensures Apart(prefix, rows[..n], rows[n..])
  {
    hide Child, Listed, Ascending, NoAncestors;
    forall x, y | x in rows[..n] && y in rows[n..] ensures !Siblings(prefix, x, y) {
      var i :| 0 <= i < n && rows[i] == x;
      var j :| 0 <= j < |rows| - n && rows[n..][j] == y;
      NewHasNoSibling(prefix, rows[..n], rows[n], x);
      if j > 0 && Siblings(prefix, x, y) {
        SiblingsAreContiguous(prefix, rows, i, n, n + j);
      }
    }
  }

  lemma NewAtStop(prefix: Option<string>, rows: seq<string>, n: nat)
    requires n < |rows| && |Listed(prefix, rows[..n + 1])| == |Listed(prefix, rows[..n])| + 1
    ensures Child(prefix, rows[n]).Some? && Child(prefix, rows[n]).value.path !in Keys(Listed(prefix, rows[..n]))
  {
    hide Child;
    assert rows[..n + 1][..n] == rows[..n];
  }

  /** The rows read in vain before the listing passes the limit have no child. */
  lemma NoneBeforeStop(prefix: Option<string>, rows: seq<string>, limit: nat, n: nat, stop: nat)
    requires stop <= |rows| && |Listed(prefix, rows[..stop])| == limit && n == Consumed(prefix, rows[..stop], limit)
    ensures forall row | row in rows[n..stop] :: Child(prefix, row).None?
  {
    hide Child, Listed, Consumed;
    forall row | row in rows[n..stop] ensures Child(prefix, row).None? {
      var i :| 0 <= i < stop - n && rows[n..stop][i] == row;
      NoneAfterConsumed(prefix, rows[..stop], limit, n + i);
    }
  }

  /** Where the listing of a window passes the limit, and what the page has consumed by then. */
  lemma WindowStop(prefix: Option<string>, window: seq<string>, limit: nat) returns (stop: nat)
    requires |Listed(prefix, window)| > limit
    ensures stop < |window|
    ensures Listed(prefix, window[..stop]) == First(Listed(prefix, window), limit)
    ensures Consumed(prefix, window, limit) == Consumed(prefix, window[..stop], limit)
    ensures Child(prefix, window[stop]).Some?
    ensures Child(prefix, window[stop]).value.path !in Keys(Listed(prefix, window[..stop]))
  {
    stop := StopRow(prefix, window, limit);
    NewAtStop(prefix, window, stop);
    hide Child, Listed, Consumed, Keys;
    ConsumedStops(prefix, window, limit, stop);
    ListedGrows(prefix, window, stop);
  }

  /** A page that passes its limit leaves to the next what it has not listed. */
  lemma FullPage(prefix: Option<string>, rows: seq<string>, limit: nat, width: nat)
    requires Ascending(rows) && NoAncestors(rows) && width <= |rows|
    requires |Listed(prefix, rows[..width])| > limit
    ensures var n := Consumed(prefix, rows[..width], limit);
            && n <= |rows|
            && Listed(prefix, rows) == First(Listed(prefix, rows[..width]), limit) + Listed(prefix, rows[n..])
  {
    hide Child, Ascending, NoAncestors, Listed, Consumed, Keys, Apart;
    var stop := WindowStop(prefix, rows[..width], limit);
    FirstOfFirst(rows, width, stop);
    var n := Consumed(prefix, rows[..stop], limit);
    NoneBeforeStop(prefix, rows, limit, n, stop);
    ApartAtNew(prefix, rows, stop);
    SplitListing(prefix, rows, n, stop);
  }

  lemma FirstOfFirst<T>(s: seq<T>, m: nat, n: nat)
    requires n < m <= |s|
    ensures s[..m][..n] == s[..n] && s[..m][n] == s[n]
  {
  }

  /** A listing cut where both cuts are apart, with nothing to list between them. */
  lemma SplitListing(prefix: Option<string>, rows: seq<string>, n: nat, stop: nat)
    requires n <= stop <= |rows| && Apart(prefix, rows[..stop], rows[stop..])
    requires forall row | row in rows[n..stop] :: Child(prefix, row).None?
    ensures Listed(prefix, rows) == Listed(prefix, rows[..stop]) + Listed(prefix, rows[n..])
  {
    hide Child, Listed;
    assert rows == rows[..stop] + rows[stop..] && rows[n..] == rows[n..stop] + rows[stop..];
    ListedConcat(prefix, rows[..stop], rows[stop..]);
    ListedConcat(prefix, rows[n..stop], rows[stop..]);
    NoChildrenListNothing(prefix, rows[n..stop]);
  }

  lemma RemainingInOrder(l: Listing, cursor: Option<string>)
    requires l.Valid() && NoAncestors(l.table)
    ensures Ascending(l.Remaining(cursor)) && NoAncestors(l.Remaining(cursor))
  {
    AboveSelects(l.table, l.picked, NormCursor(cursor));
    hide Above, StartsWith;
    var rows := l.Remaining(cursor);
    forall i, j | 0 <= i < |rows| && 0 <= j < |rows| ensures !StartsWith(rows[j], rows[i] + "/") {
      assert rows[i] in l.table && rows[j] in l.table;
    }
  }

  /** A settled page lists all that is left, or as much as it may hold, and what the rows after it hold is left. */
  lemma SettledPage(l: Listing, cursor: Option<string>)
    requires l.Valid() && NoAncestors(l.table) && Settled(l, cursor)
    ensures var page, rows, n := l.PageAt(cursor), l.Remaining(cursor), l.ConsumedAt(cursor);
            && n <= |rows| && |page.entries| <= l.limit
            && (page.nextCursor.None? ==> page.entries == Listed(l.prefix, rows))
            && (page.nextCursor.Some? ==>
                  && |page.entries| == l.limit && Listed(l.prefix, rows[n..]) != []
                  && Listed(l.prefix, rows) == page.entries + Listed(l.prefix, rows[n..]))
  {
    hide Listed, Above, Ascending, NoAncestors, NormCursor, ScanLimit, Consumed;
    RemainingInOrder(l, cursor);
    var rows, limit := l.Remaining(cursor), ScanLimit(l.limit);
    var window := Window(rows, limit);
    assert Window(Window(rows, limit + 1), limit) == window == rows[..|window|];
    if |Listed(l.prefix, window)| > l.limit {
      FullPage(l.prefix, rows, l.limit, |window|);
      PassesLimit(l.prefix, window, l.limit);
      ListedGrows(l.prefix, rows, |window|);
    }
  }

  /** A page's entries are the first of what is left. */
  lemma PageBegins(l: Listing, cursor: Option<string>)
    requires l.Valid()
    ensures l.PageAt(cursor).entries <= Listed(l.prefix, l.Remaining(cursor))
  {
    hide Listed, Above, NormCursor, ScanLimit, Consumed;
    var rows, limit := l.Remaining(cursor), ScanLimit(l.limit);
    assert Window(Window(rows, limit + 1), limit) == Window(rows, limit) == rows[..|Window(rows, limit)|];
    ListedGrows(l.prefix, rows, |Window(rows, limit)|);
  }

  /** Forty rows are looked at for an entry, but no more than 20000 in all, and always more than there may be entries. */
  lemma ScanLimitIs(limit: nat)
    requires 0 < limit <= 2000
    ensures ScanLimit(limit) == if limit <= 500 then 40 * limit else 20000
    ensures limit < ScanLimit(limit)
  {
  }

  /**
   * When a page, settled or not, gives a cursor: it is full, and what is left has more entries or more
   * rows than were looked at. The cursor is the last row with a child up to which the listing fits.
   */
  lemma PageCursorIff(l: Listing, cursor: Option<string>)
    requires l.limit > 0
    ensures var page, rows := l.PageAt(cursor), l.Remaining(cursor);
            && (page.nextCursor.None? <==>
                  || |page.entries| < l.limit
                  || (|rows| <= ScanLimit(l.limit) && page.entries == Listed(l.prefix, rows)))
            && (page.nextCursor.Some? ==>
                  exists n: nat ::
                    && IsLastFitting(l.prefix, Window(rows, ScanLimit(l.limit)), l.limit, n)
                    && page.nextCursor.value == rows[n])
  {
    hide Listed, Above, NormCursor, ScanLimit, PageOf, Child;
    var rows, limit := l.Remaining(cursor), ScanLimit(l.limit);
    var read := Window(rows, limit + 1);
    assert Window(read, limit) == Window(rows, limit);
    CursorGivenIff(l.prefix, read, l.limit, limit, |read| > limit);
    var page := l.PageAt(cursor);
    if page.nextCursor.Some? {
      var n: nat :| IsLastFitting(l.prefix, Window(rows, limit), l.limit, n) && page.nextCursor.value == Window(rows, limit)[n];
      assert Window(rows, limit)[n] == rows[n];
    }
  }

  // ----- Where a cursor lands -----

  /**
   * The cursor of a page, as the query reads it, is not before the last path consumed and is before
   * some path of the next child: past it come only rows of that child, and of none before it.
   */
  ghost predicate LandsAt(l: Listing, cursor: Option<string>, k: nat) {
    var rows, n, read := l.Remaining(cursor), l.ConsumedAt(cursor), NormCursor(l.PageAt(cursor).nextCursor);
    && 0 < n <= k < |rows| && read.Some? && !Less(read.value, rows[n - 1]) && Less(read.value, rows[k])
    && Child(l.prefix, rows[k]).Some?
    && forall j | n <= j < k && Child(l.prefix, rows[j]).Some? :: Siblings(l.prefix, rows[j], rows[k])
  }

  ghost predicate Lands(l: Listing, cursor: Option<string>) {
    exists k: nat :: LandsAt(l, cursor, k)
  }

  lemma {:induction false} FirstListed(prefix: Option<string>, rows: seq<string>) returns (m: nat)
    requires Listed(prefix, rows) != []
    ensures m < |rows| && Child(prefix, rows[m]) == Some(Listed(prefix, rows)[0])
    ensures forall j | 0 <= j < m :: Child(prefix, rows[j]).None?
    decreases |rows|
  {
    hide Child;
    var last := |rows| - 1;
    if Listed(prefix, rows[..last]) != [] {
      ListedGrows(prefix, rows, last);
      m := FirstListed(prefix, rows[..last]);
    } else {
      m := last;
      forall j | 0 <= j < last ensures Child(prefix, rows[j]).None? {
        if Child(prefix, rows[j]).Some? {
          assert rows[..last][j] == rows[j] && rows[j] in rows[..last];
          KeysOfListed(prefix, rows[..last], Child(prefix, rows[j]).value.path);
        }
      }
    }
  }

  /** What is listed after a part depends only on what the part lists. */
  lemma {:induction false} ListedOnwards(prefix: Option<string>, a: seq<string>, b: seq<string>, rest: seq<string>)
    requires Listed(prefix, a) == Listed(prefix, b)
    ensures Listed(prefix, a + rest) == Listed(prefix, b + rest)
    decreases |rest|
  {
    hide Child, Keys;
    if rest == [] {
      assert a + rest == a && b + rest == b;
    } else {
      var last := |rest| - 1;
      ListedOnwards(prefix, a, b, rest[..last]);
      assert (a + rest)[..|a + rest| - 1] == a + rest[..last];
      assert (b + rest)[..|b + rest| - 1] == b + rest[..last];
    }
  }

  /** Rows of one child list that child. */
  lemma {:induction false} OneChildListed(prefix: Option<string>, rows: seq<string>, child: Entry)
    requires forall row | row in rows :: Child(prefix, row).None? || Child(prefix, row) == Some(child)
    ensures Listed(prefix, rows) == [] || Listed(prefix, rows) == [child]
    ensures rows != [] && Child(prefix, rows[|rows| - 1]).Some? ==> Listed(prefix, rows) == [child]
    decreases |rows|
  {
    hide Child;
    if rows != [] {
      var last := |rows| - 1;
      OneChildListed(prefix, rows[..last], child);
      assert rows[last] in rows;
      assert Keys([child]) == {child.path} && Keys([]) == {};
    }
  }

  lemma OneChildUpTo(prefix: Option<string>, rows: seq<string>, n: nat, k: nat)
    requires n <= k < |rows| && Child(prefix, rows[k]).Some?
    requires forall j | n <= j < k && Child(prefix, rows[j]).Some? :: Child(prefix, rows[j]) == Child(prefix, rows[k])
    ensures Listed(prefix, rows[n..k + 1]) == [Child(prefix, rows[k]).value]
  {
    hide Child, Listed;
    var child := Child(prefix, rows[k]).value;
    forall row | row in rows[n..k + 1] ensures Child(prefix, row).None? || Child(prefix, row) == Some(child) {
      var j :| 0 <= j < k + 1 - n && rows[n..k + 1][j] == row;
      assert rows[n + j] == row;
    }
    assert rows[n..k + 1][k - n] == rows[k];
    OneChildListed(prefix, rows[n..k + 1], child);
  }

  /** Cutting rows off the front loses nothing when a later row is of the one child they are of. */
  lemma CutWithinChild(prefix: Option<string>, rows: seq<string>, n: nat, q: nat, k: nat)
    requires n <= q <= k < |rows| && Child(prefix, rows[k]).Some?
    requires forall j | n <= j < k && Child(prefix, rows[j]).Some? :: Child(prefix, rows[j]) == Child(prefix, rows[k])
    ensures Listed(prefix, rows[n..]) == Listed(prefix, rows[q..])
  {
    hide Child, Listed;
    OneChildUpTo(prefix, rows, n, k);
    OneChildUpTo(prefix, rows, q, k);
    assert rows[n..] == rows[n..k + 1] + rows[k + 1..] && rows[q..] == rows[q..k + 1] + rows[k + 1..];
    ListedOnwards(prefix, rows[n..k + 1], rows[q..k + 1], rows[k + 1..]);
  }

  /** A cursor that lands leaves fewer rows, and the listing that the page has left. */
  lemma LandingLeaves(l: Listing, cursor: Option<string>)
    requires l.Valid() && Lands(l, cursor) && l.PageAt(cursor).nextCursor.Some?
    ensures |l.Remaining(l.PageAt(cursor).nextCursor)| < |l.Remaining(cursor)|
    ensures NoAncestors(l.table) ==>
              Listed(l.prefix, l.Remaining(l.PageAt(cursor).nextCursor))
              == Listed(l.prefix, l.Remaining(cursor)[l.ConsumedAt(cursor)..])
  {
    hide Listed, Above, Ascending, NoAncestors, NormCursor, ScanLimit, Consumed, Child, Less, PageOf;
    var rows, n, next := l.Remaining(cursor), l.ConsumedAt(cursor), l.PageAt(cursor).nextCursor;
    var k: nat :| LandsAt(l, cursor, k);
    RowsAscend(l, cursor);
    var q := CutExists(rows, NormCursor(next).value);
    AboveCut(l.table, l.picked, NormCursor(cursor), n - 1, NormCursor(next).value, q);
    assert l.Remaining(next) == rows[q..] && q <= k;
    if NoAncestors(l.table) {
      RemainingInOrder(l, cursor);
      forall j | n <= j < k && Child(l.prefix, rows[j]).Some?
        ensures Child(l.prefix, rows[j]) == Child(l.prefix, rows[k])
      {
        SiblingsAgree(l.prefix, rows, j, k);
      }
      CutWithinChild(l.prefix, rows, n, q, k);
    }
  }

  lemma RowsAscend(l: Listing, cursor: Option<string>)
    requires l.Valid()
    ensures Ascending(l.Remaining(cursor))
  {
    hide Above;
    AboveSelects(l.table, l.picked, NormCursor(cursor));
  }

  /** No child listed by a page is left to the next. */
  lemma NothingTwice(prefix: Option<string>, rows: seq<string>, n: nat, entries: seq<Entry>, m: nat)
    requires 0 < n <= m < |rows| && Child(prefix, rows[n - 1]).Some? && Child(prefix, rows[m]).Some?
    requires Listed(prefix, rows) == entries + Listed(prefix, rows[n..])
    requires Listed(prefix, rows[..n]) <= entries
    ensures !Siblings(prefix, rows[n - 1], rows[m])
  {
    hide Child, Listed;
    var left := Listed(prefix, rows[n..]);
    var a, b := Child(prefix, rows[n - 1]).value.path, Child(prefix, rows[m]).value.path;
    assert rows[..n][n - 1] == rows[n - 1] && rows[n..][m - n] == rows[m];
    KeysOfListed(prefix, rows[..n], a);
    KeysOfListed(prefix, rows[n..], b);
    var e :| e in Listed(prefix, rows[..n]) && e.path == a;
    var f :| f in left && f.path == b;
    var i :| 0 <= i < |entries| && entries[i] == e;
    var j :| 0 <= j < |left| && left[j] == f;
    ListedIsSound(prefix, rows);
    assert Listed(prefix, rows)[i] == e && Listed(prefix, rows)[|entries| + j] == f;
  }

  lemma {:induction false} ConsumedListed(prefix: Option<string>, rows: seq<string>, limit: nat)
    ensures |Listed(prefix, rows[..Consumed(prefix, rows, limit)])| <= limit
    decreases |rows|
  {
    hide Child, Listed;
    if rows == [] {
      assert rows[..0] == [];
      NothingListed(prefix, rows, limit);
    } else if Child(prefix, rows[|rows| - 1]).Some? && |Listed(prefix, rows)| <= limit {
      assert rows[..|rows|] == rows;
    } else {
      var front := rows[..|rows| - 1];
      ConsumedListed(prefix, front, limit);
      assert front[..Consumed(prefix, front, limit)] == rows[..Consumed(prefix, front, limit)];
    }
  }

  /** The rows that a page has consumed list no more than it holds. */
  lemma ConsumedByPage(l: Listing, cursor: Option<string>)
    requires l.Valid() && l.PageAt(cursor).nextCursor.Some?
    ensures l.ConsumedAt(cursor) <= |l.Remaining(cursor)|
    ensures Listed(l.prefix, l.Remaining(cursor)[..l.ConsumedAt(cursor)]) <= l.PageAt(cursor).entries
  {
    hide Listed, Above, NormCursor, ScanLimit, Consumed, Child;
    var rows, limit, n := l.Remaining(cursor), ScanLimit(l.limit), l.ConsumedAt(cursor);
    var window := Window(rows, limit);
    assert Window(Window(rows, limit + 1), limit) == window;
    assert window[..n] == rows[..n];
    ConsumedListed(l.prefix, window, l.limit);
    ListedGrows(l.prefix, window, n);
  }

  /** Past a cursor that is before the last path consumed, a page begins with a child listed before. */
  lemma BackwardRepeats(l: Listing, cursor: Option<string>, m: nat)
    requires l.Valid() && NoAncestors(l.table) && Settled(l, cursor) && l.PageAt(cursor).nextCursor.Some?
    requires var rows, n, next := l.Remaining(cursor), l.ConsumedAt(cursor), l.PageAt(cursor).nextCursor;
             && 0 < n <= m < |rows| && Child(l.prefix, rows[m]).Some?
             && Takes(l.picked, NormCursor(next), rows[n - 1])
             && Listed(l.prefix, l.Remaining(next)) != []
    ensures Child(l.prefix, l.Remaining(cursor)[m]) != Some(Listed(l.prefix, l.Remaining(l.PageAt(cursor).nextCursor))[0])
  {
    hide Listed, Above, Ascending, NoAncestors, NormCursor, ScanLimit, Consumed, Child, Less, PageOf, Settled;
    var rows, n, next := l.Remaining(cursor), l.ConsumedAt(cursor), l.PageAt(cursor).nextCursor;
    var again := l.Remaining(next);
    CursorIsRow(l, cursor);
    SettledPage(l, cursor);
    ConsumedByPage(l, cursor);
    NothingTwice(l.prefix, rows, n, l.PageAt(cursor).entries, m);
    var i1, i2 := BothTaken(l, cursor, n, m);
    var i0 := FirstListed(l.prefix, again);
    if Child(l.prefix, rows[m]) == Child(l.prefix, again[i0]) {
      RemainingInOrder(l, next);
      if i0 < i1 {
        SiblingsAreContiguous(l.prefix, again, i0, i1, i2);
      }
    }
  }

  lemma InOrder(rows: seq<string>, i: nat, j: nat)
    requires Ascending(rows) && i < |rows| && j < |rows|
    ensures i < j ==> Less(rows[i], rows[j])
    ensures Less(rows[i], rows[j]) ==> i < j
  {
    LessIsStrict(rows[i], rows[i]);
    LessIsStrict(rows[i], rows[j]);
    if j < i {
      assert Less(rows[j], rows[i]);
    }
  }

  /** Rows of a page that the next query takes again stand in the same order there. */
  lemma BothTaken(l: Listing, cursor: Option<string>, n: nat, m: nat) returns (i1: nat, i2: nat)
    requires l.Valid()
    requires var rows, next := l.Remaining(cursor), l.PageAt(cursor).nextCursor;
             0 < n <= m < |rows| && Takes(l.picked, NormCursor(next), rows[n - 1])
    ensures var rows, again := l.Remaining(cursor), l.Remaining(l.PageAt(cursor).nextCursor);
            i1 < i2 < |again| && again[i1] == rows[n - 1] && again[i2] == rows[m]
  {
    hide Above, NormCursor, Less, PageOf;
    var rows, read := l.Remaining(cursor), NormCursor(l.PageAt(cursor).nextCursor);
    var again := Above(l.table, l.picked, read);
    var a, b := rows[n - 1], rows[m];
    AboveSelects(l.table, l.picked, NormCursor(cursor));
    AboveSelects(l.table, l.picked, read);
    AboveHas(l.table, l.picked, NormCursor(cursor), a);
    AboveHas(l.table, l.picked, NormCursor(cursor), b);
    assert Less(a, b);
    if read.Some? {
      LessIsTransitive(read.value, a, b);
    }
    AboveHas(l.table, l.picked, read, a);
    AboveHas(l.table, l.picked, read, b);
    LessIsStrict(a, b);
    LessIsStrict(a, a);
    i1 :| 0 <= i1 < |again| && again[i1] == a;
    i2 :| 0 <= i2 < |again| && again[i2] == b;
    InOrder(again, i1, i2);
  }

  /** A cursor past which a page begins with the first child not yet listed has landed. */
  lemma FirstMatchesLands(l: Listing, cursor: Option<string>)
    requires l.Valid() && NoAncestors(l.table) && Settled(l, cursor) && l.PageAt(cursor).nextCursor.Some?
    requires l.ConsumedAt(cursor) <= |l.Remaining(cursor)|
    requires var left := Listed(l.prefix, l.Remaining(cursor)[l.ConsumedAt(cursor)..]);
             var again := Listed(l.prefix, l.Remaining(l.PageAt(cursor).nextCursor));
             left != [] && again != [] && left[0] == again[0]
    ensures Lands(l, cursor)
  {
    hide Listed, Above, Ascending, NoAncestors, NormCursor, ScanLimit, Consumed, Child, Less, PageOf, Settled;
    var rows, n, next := l.Remaining(cursor), l.ConsumedAt(cursor), l.PageAt(cursor).nextCursor;
    var read := NormCursor(next);
    CursorIsRow(l, cursor);
    var first := FirstListed(l.prefix, rows[n..]);
    var m := n + first;
    assert rows[n..][first] == rows[m];
    AboveHas(l.table, l.picked, NormCursor(cursor), rows[n - 1]);
    if Takes(l.picked, read, rows[n - 1]) {
      BackwardRepeats(l, cursor, m);
    } else {
      RemainingInOrder(l, cursor);
      var q := CutExists(rows, read.value);
      AboveCut(l.table, l.picked, NormCursor(cursor), n - 1, read.value, q);
      var again := FirstListed(l.prefix, rows[q..]);
      var k := q + again;
      assert rows[q..][again] == rows[k];
      forall j | n <= j < k && Child(l.prefix, rows[j]).Some? ensures Siblings(l.prefix, rows[j], rows[k]) {
        assert rows[n..][j - n] == rows[j];
        if m < j {
          SiblingsAreContiguous(l.prefix, rows, m, j, k);
        }
      }
      assert LandsAt(l, cursor, k);
    }
  }

  // ----- The pages together -----

  function AllEntries(pages: seq<Page>): seq<Entry> {
    if pages == [] then [] else pages[0].entries + AllEntries(pages[1..])
  }

  /** The pages from a cursor on, each asked for with the cursor of the one before, until one has none. */
  ghost predicate IsChain(l: Listing, cursor: Option<string>, pages: seq<Page>)
    decreases |pages|
  {
    && pages != [] && pages[0] == l.PageAt(cursor)
    && if pages[0].nextCursor.None? then |pages| == 1 else IsChain(l, pages[0].nextCursor, pages[1..])
  }

  ghost predicate ChainSettled(l: Listing, cursor: Option<string>, pages: seq<Page>)
    decreases |pages|
  {
    |pages| > 0 ==> Settled(l, cursor) && ChainSettled(l, pages[0].nextCursor, pages[1..])
  }

  /** Every cursor that the pages give lands. */
  ghost predicate ChainLands(l: Listing, cursor: Option<string>, pages: seq<Page>)
    decreases |pages|
  {
    |pages| > 1 ==> Lands(l, cursor) && ChainLands(l, pages[0].nextCursor, pages[1..])
  }

  /** Every page but the last holds as many entries as it may, and only the last gives no cursor. */
  predicate FullButLast(pages: seq<Page>, limit: nat) {
    forall k | 0 <= k < |pages| ::
      if k < |pages| - 1 then |pages[k].entries| == limit && pages[k].nextCursor.Some?
      else |pages[k].entries| <= limit && pages[k].nextCursor.None?
  }

  lemma {:induction false} ChainIsFull(l: Listing, cursor: Option<string>, pages: seq<Page>)
    requires l.Valid() && NoAncestors(l.table) && IsChain(l, cursor, pages) && ChainSettled(l, cursor, pages)
    ensures FullButLast(pages, l.limit)
    decreases |pages|
  {
    hide Listed, NoAncestors, Settled, PageOf, Above, Ascending, FullButLast;
    SettledPage(l, cursor);
    if |pages| > 1 {
      ChainIsFull(l, pages[0].nextCursor, pages[1..]);
    }
    FullFromFront(pages, l.limit);
  }

  lemma FullFromFront(pages: seq<Page>, limit: nat)
    requires pages != []
    requires if |pages| == 1 then |pages[0].entries| <= limit && pages[0].nextCursor.None?
             else |pages[0].entries| == limit && pages[0].nextCursor.Some? && FullButLast(pages[1..], limit)
    ensures FullButLast(pages, limit)
  {
    forall k | 1 <= k < |pages|
      ensures if k < |pages| - 1 then |pages[k].entries| == limit && pages[k].nextCursor.Some?
              else |pages[k].entries| <= limit && pages[k].nextCursor.None?
    {
      assert pages[k] == pages[1..][k - 1];
    }
  }

  /** Entries that are told apart by their fronts are told apart by their rests. */
  lemma SameRest(a: seq<Entry>, b: seq<Entry>, c: seq<Entry>)
    requires a + b == a + c
    ensures b == c
  {
    assert b == (a + b)[|a|..] && c == (a + c)[|a|..];
  }

  /** A chain that lists something does so on its first page. */
  lemma ChainStarts(l: Listing, cursor: Option<string>, pages: seq<Page>)
    requires l.Valid() && NoAncestors(l.table) && IsChain(l, cursor, pages) && Settled(l, cursor)
    ensures AllEntries(pages) != [] ==> pages[0].entries != []
  {
    hide Listed, Above, Ascending, NoAncestors, PageOf, Settled;
    SettledPage(l, cursor);
    if |pages| == 1 {
      assert pages[1..] == [] && AllEntries(pages[1..]) == [] && pages[0].entries + [] == pages[0].entries;
    }
  }

  lemma ChainGoesOn(l: Listing, cursor: Option<string>, pages: seq<Page>)
    requires l.Valid() && NoAncestors(l.table) && IsChain(l, cursor, pages) && ChainSettled(l, cursor, pages)
    requires |pages| > 1 && AllEntries(pages) == Listed(l.prefix, l.Remaining(cursor))
    ensures Lands(l, cursor)
    ensures AllEntries(pages[1..]) == Listed(l.prefix, l.Remaining(pages[0].nextCursor))
  {
    hide Listed, Above, Ascending, NoAncestors, NormCursor, ScanLimit, Consumed, Child, Less, PageOf, Settled, Lands;
    var next := pages[0].nextCursor;
    var left := Listed(l.prefix, l.Remaining(cursor)[l.ConsumedAt(cursor)..]);
    SettledPage(l, cursor);
    SameRest(pages[0].entries, AllEntries(pages[1..]), left);
    PageBegins(l, next);
    ChainStarts(l, next, pages[1..]);
    assert AllEntries(pages[1..]) == pages[1].entries + AllEntries(pages[1..][1..]);
    FirstMatchesLands(l, cursor);
    LandingLeaves(l, cursor);
  }

  /**
   * When every page is settled, the pages from a cursor on are together the unpaged listing of what is
   * left, each child once and in the order of the first rows, exactly when every cursor they give
   * lands.
   */
  lemma {:induction false} PagesListAllIff(l: Listing, cursor: Option<string>, pages: seq<Page>)
    requires l.Valid() && NoAncestors(l.table) && IsChain(l, cursor, pages) && ChainSettled(l, cursor, pages)
    ensures AllEntries(pages) == Listed(l.prefix, l.Remaining(cursor)) <==> ChainLands(l, cursor, pages)
    decreases |pages|
  {
    hide Listed, NoAncestors, Ascending, Settled, PageOf, Above, Lands;
    SettledPage(l, cursor);
    if |pages| == 1 {
      assert pages[1..] == [] && pages[0].entries + [] == pages[0].entries;
    } else {
      var next := pages[0].nextCursor;
      PagesListAllIff(l, next, pages[1..]);
      if AllEntries(pages) == Listed(l.prefix, l.Remaining(cursor)) {
        ChainGoesOn(l, cursor, pages);
      } else if ChainLands(l, cursor, pages) {
        LandingLeaves(l, cursor);
      }
    }
  }

  // ----- Following the cursors ends -----

  /** Every cursor that is given from here on lands. */
  ghost predicate AllLand(l: Listing, cursor: Option<string>)
    requires l.Valid()
    decreases |l.Remaining(cursor)|
  {
    l.PageAt(cursor).nextCursor.None? ||
    (Lands(l, cursor) && (LandingLeaves(l, cursor); AllLand(l, l.PageAt(cursor).nextCursor)))
  }

  /** When every cursor lands, following them ends, after no more pages than there are rows and one. */
  lemma {:induction false} FollowingEnds(l: Listing, cursor: Option<string>) returns (pages: seq<Page>)
    requires l.Valid() && AllLand(l, cursor)
    ensures IsChain(l, cursor, pages) && ChainLands(l, cursor, pages)
    ensures |pages| <= |l.Remaining(cursor)| + 1
    decreases |l.Remaining(cursor)|
  {
    hide PageOf, Above, Lands, Ascending;
    var page := l.PageAt(cursor);
    if page.nextCursor.None? {
      pages := [page];
    } else {
      LandingLeaves(l, cursor);
      var rest := FollowingEnds(l, page.nextCursor);
      pages := [page] + rest;
      assert pages[1..] == rest;
    }
  }

  lemma {:induction false} ChainLandsAll(l: Listing, cursor: Option<string>, pages: seq<Page>)
    requires l.Valid() && IsChain(l, cursor, pages) && ChainLands(l, cursor, pages)
    ensures AllLand(l, cursor)
    decreases |pages|
  {
    hide PageOf, Above, Lands, Ascending;
    if |pages| > 1 {
      ChainLandsAll(l, pages[0].nextCursor, pages[1..]);
    }
  }

  lemma {:induction false} FewerAbove(table: seq<string>, picked: string -> bool, cursor: Option<string>)
    ensures |Above(table, picked, cursor)| <= |Above(table, picked, None)|
    decreases |table|
  {
    hide Above, Less;
    AboveLength(table, picked, cursor);
    AboveLength(table, picked, None);
    if table != [] {
      FewerAbove(table[1..], picked, cursor);
    }
  }

  /** Rows that fit one scan window settle every page. */
  lemma {:induction false} FittingRowsSettle(l: Listing, cursor: Option<string>, pages: seq<Page>)
    requires |l.Remaining(None)| <= ScanLimit(l.limit)
    ensures Settled(l, cursor) && ChainSettled(l, cursor, pages)
    decreases |pages|
  {
    hide Above, ScanLimit, Listed;
    assert NormCursor(None) == None;
    FewerAbove(l.table, l.picked, NormCursor(cursor));
    if pages != [] {
      FittingRowsSettle(l, pages[0].nextCursor, pages[1..]);
    }
  }

  /**
   * For rows that fit one scan window: following the cursors from the first page ends and lists each
   * immediate child exactly once, in the order of the first rows, exactly when every cursor lands.
   */
  lemma PagingListsAllIff(l: Listing)
    requires l.Valid() && NoAncestors(l.table) && |l.Remaining(None)| <= ScanLimit(l.limit)
    ensures AllLand(l, None) <==>
            exists pages :: IsChain(l, None, pages) && AllEntries(pages) == Listed(l.prefix, l.Remaining(None))
  {
    hide Listed, NoAncestors, Ascending, PageOf, Above, ScanLimit, IsChain, ChainLands, ChainSettled, AllEntries;
    if AllLand(l, None) {
      var pages := FollowingEnds(l, None);
      FittingRowsSettle(l, None, pages);
      PagesListAllIff(l, None, pages);
    }
    if pages :| IsChain(l, None, pages) && AllEntries(pages) == Listed(l.prefix, l.Remaining(None)) {
      FittingRowsSettle(l, None, pages);
      PagesListAllIff(l, None, pages);
      ChainLandsAll(l, None, pages);
    }
  }

  /** A path that comes back from the query unchanged lands where it stands. */
  lemma OwnCursorLands(l: Listing, cursor: Option<string>)
    requires l.Valid() && NoAncestors(l.table) && Settled(l, cursor)
    requires var next := l.PageAt(cursor).nextCursor; next.Some? && NormCursor(next) == next
    ensures Lands(l, cursor)
  {
    hide Listed, Above, Ascending, NoAncestors, NormCursor, ScanLimit, Consumed, Child, Less, PageOf, Settled;
    var rows, n := l.Remaining(cursor), l.ConsumedAt(cursor);
    CursorIsRow(l, cursor);
    SettledPage(l, cursor);
    RowsAscend(l, cursor);
    var first := FirstListed(l.prefix, rows[n..]);
    assert rows[n..][first] == rows[n + first];
    LessIsStrict(rows[n - 1], rows[n - 1]);
    InOrder(rows, n - 1, n + first);
    forall j | n <= j < n + first ensures Child(l.prefix, rows[j]).None? {
      assert rows[n..][j - n] == rows[j];
    }
    assert LandsAt(l, cursor, n + first);
  }

  /** Where no stored path has a space at an end or a backslash, every cursor lands. */
  lemma {:induction false} PlainPathsLand(l: Listing, cursor: Option<string>)
    requires l.Valid() && NoAncestors(l.table) && |l.Remaining(None)| <= ScanLimit(l.limit)
    requires forall row | row in l.table && row != "" :: Trimmed(row) && '\\' !in row
    ensures AllLand(l, cursor)
    decreases |l.Remaining(cursor)|
  {
    hide Listed, Above, Ascending, NoAncestors, NormCursor, ScanLimit, Consumed, PageOf, Settled, Lands, Trimmed;
    var next := l.PageAt(cursor).nextCursor;
    if next.Some? {
      FittingRowsSettle(l, cursor, []);
      CursorIsRow(l, cursor);
      AboveHas(l.table, l.picked, NormCursor(cursor), next.value);
      OwnCursor(next.value);
      OwnCursorLands(l, cursor);
      LandingLeaves(l, cursor);
      PlainPathsLand(l, next);
    }
  }

  // ----- A file that is never listed -----

  /** Three files, the first with a space before its name, listed one to a page. */
  function SpacedListing(): Listing {
    Listing([" c.py", "a.py", "d.py"], _ => true, None, 1)
  }

  lemma SpacedNames()
    ensures NormCursor(None) == None && NormCursor(Some(" c.py")) == Some("c.py")
    ensures Less(" c.py", "a.py") && Less("a.py", "d.py") && Less(" c.py", "d.py")
    ensures !Less("c.py", " c.py") && !Less("c.py", "a.py") && Less("c.py", "d.py")
    ensures forall p | p in SpacedListing().table :: Child(None, p) == Some(File(p, p))
  {
    assert StripLeft(" c.py") == StripLeft("c.py") == "c.py";
    assert Slashed("c.py") == "c.py" by {
      SlashedIsSame("c.py");
    }
  }

  lemma NextFile(rows: seq<string>, n: nat, before: seq<Entry>)
    requires n < |rows| && Listed(None, rows[..n]) == before
    requires Child(None, rows[n]) == Some(File(rows[n], rows[n])) && forall e | e in before :: e.path != rows[n]
    ensures Listed(None, rows[..n + 1]) == before + [File(rows[n], rows[n])]
    ensures before == [] ==> Consumed(None, rows[..n + 1], 1) == n + 1
  {
    hide Child, Listed, Consumed;
    ListedOneMore(None, rows, 1, n);
  }

  lemma TwoFilesToList(rows: seq<string>)
    requires |rows| > 1 && rows[0] != rows[1]
    requires Child(None, rows[0]) == Some(File(rows[0], rows[0]))
    requires Child(None, rows[1]) == Some(File(rows[1], rows[1]))
    ensures |Listed(None, rows)| > 1 && Listed(None, rows)[0] == File(rows[0], rows[0])
    ensures Listed(None, rows)[1] == File(rows[1], rows[1])
    ensures Consumed(None, rows, 1) == 1
  {
    hide Child, Listed, Consumed, Keys;
    var a, b := File(rows[0], rows[0]), File(rows[1], rows[1]);
    NothingListed(None, rows, 1);
    NextFile(rows, 0, []);
    NextFile(rows, 1, [a]);
    SecondOf([a], b, Listed(None, rows[..2]));
    ListedGrows(None, rows, 2);
    ConsumedStops(None, rows, 1, 1);
  }

  lemma SecondOf(before: seq<Entry>, e: Entry, after: seq<Entry>)
    requires |before| == 1 && after == before + [e]
    ensures |after| == 2 && after[0] == before[0] && after[1] == e
  {
  }

  lemma OneFileToList(rows: seq<string>)
    requires |rows| == 1 && Child(None, rows[0]) == Some(File(rows[0], rows[0]))
    ensures Listed(None, rows) == [File(rows[0], rows[0])]
  {
    hide Child, Listed, Consumed;
    NothingListed(None, rows, 1);
    ListedOneMore(None, rows, 1, 0);
    assert rows[..1] == rows;
  }

  lemma {:induction false} AllAbove(table: seq<string>, picked: string -> bool)
    requires forall row | row in table :: picked(row)
    ensures Above(table, picked, None) == table
    decreases |table|
  {
    if table != [] {
      AllAbove(table[1..], picked);
      assert table[0] in table && [table[0]] + table[1..] == table;
    }
  }

  lemma SpacedRows()
    ensures var l := SpacedListing();
            l.Valid() && l.Remaining(None) == l.table && l.Remaining(Some(" c.py")) == ["d.py"]
  {
    hide NormCursor, Less, Above, Child;
    SpacedNames();
    var l := SpacedListing();
    AllAbove(l.table, l.picked);
    AboveCut(l.table, l.picked, None, 0, "c.py", 2);
    assert l.table[2..] == ["d.py"];
  }

  lemma SpacedPages()
    ensures var l := SpacedListing();
            && l.PageAt(None) == Page([File(" c.py", " c.py")], Some(" c.py"))
            && l.PageAt(Some(" c.py")) == Page([File("d.py", "d.py")], None)
            && File("a.py", "a.py") in Listed(None, l.table) && ScanLimit(1) == 40
  {
    hide Child, Less, Above, NormCursor, Listed, Consumed;
    var l := SpacedListing();
    SpacedRows();
    SpacedNames();
    TwoFilesToList(l.table);
    OneFileToList(["d.py"]);
    assert File("a.py", "a.py") == Listed(None, l.table)[1];
  }

  lemma SlashIn(s: string, start: string)
    requires StartsWith(s, start + "/")
    ensures '/' in s
  {
    StartsInParts(s, start, "/");
    assert s[|start|..][..1] == "/";
    assert s[|start|] == '/';
  }

  lemma NoSlashNoAncestors(rows: seq<string>)
    requires forall row | row in rows :: '/' !in row
    ensures NoAncestors(rows)
  {
    hide StartsWith;
    forall i, j | 0 <= i < |rows| && 0 <= j < |rows| ensures !StartsWith(rows[j], rows[i] + "/") {
      assert '/' !in rows[j];
      if StartsWith(rows[j], rows[i] + "/") {
        SlashIn(rows[j], rows[i]);
      }
    }
  }

  /**
   * The page that " c.py" ends gives it as the cursor, the query reads that as "c.py", and "a.py",
   * which lies between them, is on no page.
   */
  lemma LeadingSpaceLosesFile(pages: seq<Page>)
    requires IsChain(SpacedListing(), None, pages)
    ensures var l := SpacedListing();
            && l.Valid() && NoAncestors(l.table) && |l.Remaining(None)| <= ScanLimit(l.limit)
            && l.PageAt(None).nextCursor == Some(" c.py") && l.Remaining(Some(" c.py")) == ["d.py"]
            && File("a.py", "a.py") in Listed(None, l.Remaining(None))
            && File("a.py", "a.py") !in AllEntries(pages)
  {
    hide PageOf, Above, Listed, NoAncestors, Ascending, NormCursor, StartsWith;
    var l := SpacedListing();
    SpacedRows();
    SpacedPages();
    NoSlashNoAncestors(l.table);
    assert pages[1..][0] == pages[1] && |pages| == 2;
    assert pages == [l.PageAt(None), l.PageAt(Some(" c.py"))];
    assert pages[1..][1..] == [] && AllEntries([]) == [];
    assert AllEntries(pages[1..]) == pages[1].entries + [];
    assert AllEntries(pages) == [File(" c.py", " c.py"), File("d.py", "d.py")];
  }
}
