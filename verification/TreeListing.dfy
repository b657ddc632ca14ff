/**
 * The immediate children of a directory, listed from the sorted paths of its files, and one page of
 * them. Models `_build_project_tree_payload` of `backend/app/services/project_service.py`.
 */
module TreeListing {
  import opened Basics
  import opened TextOrder

  datatype Entry = Dir(path: string, name: string) | File(path: string, name: string)

  // ----- The child that a path stands for -----

  predicate StartsWith(s: string, start: string) {
    |start| <= |s| && s[..|start|] == start
  }

  /** `s.split("/", 1)[0]`. */
  function FirstSegment(s: string): (name: string)
    ensures '/' !in name
    ensures '/' in s ==> StartsWith(s, name + "/")
  {
    if s == "" || s[0] == '/' then "" else [s[0]] + FirstSegment(s[1..])
  }

  /** `s.split("/")[-1]`. */
  function LastSegment(s: string): (name: string)
    ensures '/' !in name
  {
    if '/' in s then LastSegment(s[1..]) else s
  }

  /** The path as seen from the prefix, if it is under it. */
  function Relative(prefix: Option<string>, path: string): Option<string> {
    if path == "" then None
    else if prefix.None? then Some(path)
    else if path == prefix.value then Some(LastSegment(path))
    else if StartsWith(path, prefix.value + "/") then Some(path[|prefix.value| + 1..])
    else None
  }

  function Child(prefix: Option<string>, path: string): Option<Entry> {
    var rel := Relative(prefix, path);
    if rel.None? || rel.value == "" then None
    else if '/' in rel.value then
      var name := FirstSegment(rel.value);
      Some(Dir(if prefix.Some? then prefix.value + "/" + name else name, name))
    else Some(File(path, LastSegment(path)))
  }

  // ----- The unpaged listing -----

  function Keys(entries: seq<Entry>): set<string> {
    set e | e in entries :: e.path
  }

  /** The children of the rows, each where its first row stands. */
  function Listed(prefix: Option<string>, rows: seq<string>): seq<Entry> {
    if rows == [] then []
    else
      var before := Listed(prefix, rows[..|rows| - 1]);
      var child := Child(prefix, rows[|rows| - 1]);
      if child.None? || child.value.path in Keys(before) then before else before + [child.value]
  }

  /** How many rows go up to the last one with a child, among those that give no more than `limit` entries. */
  function Consumed(prefix: Option<string>, rows: seq<string>, limit: nat): (n: nat)
    ensures n <= |rows|
  {
    if rows == [] then 0
    else if Child(prefix, rows[|rows| - 1]).Some? && |Listed(prefix, rows)| <= limit then |rows|
    else Consumed(prefix, rows[..|rows| - 1], limit)
  }

  lemma {:induction false} ListedGrows(prefix: Option<string>, rows: seq<string>, n: nat)
    requires n <= |rows|
    ensures Listed(prefix, rows[..n]) <= Listed(prefix, rows)
    decreases |rows| - n
  {
    if n < |rows| {
      ListedGrows(prefix, rows, n + 1);
      ListedNext(prefix, rows, n);
      hide Listed;
    } else {
      assert rows[..n] == rows;
    }
  }

  lemma ListedNext(prefix: Option<string>, rows: seq<string>, n: nat)
    requires n < |rows|
    ensures Listed(prefix, rows[..n]) <= Listed(prefix, rows[..n + 1])
  {
    hide Child, Keys;
    assert rows[..n + 1][..n] == rows[..n];
  }

  lemma {:induction false} ConsumedStops(prefix: Option<string>, rows: seq<string>, limit: nat, n: nat)
    requires n < |rows| && |Listed(prefix, rows[..n + 1])| > limit
    ensures Consumed(prefix, rows, limit) == Consumed(prefix, rows[..n], limit)
    decreases |rows|
  {
    hide Child, Listed;
    ListedGrows(prefix, rows, n + 1);
    var last := |rows| - 1;
    if n < last {
      assert rows[..last][..n + 1] == rows[..n + 1] && rows[..last][..n] == rows[..n];
      ConsumedStops(prefix, rows[..last], limit, n);
    }
  }

  // ----- One page -----

  datatype Page = Page(entries: seq<Entry>, nextCursor: Option<string>)

  function Window(rows: seq<string>, scanLimit: nat): seq<string> {
    if |rows| <= scanLimit then rows else rows[..scanLimit]
  }

  function First(entries: seq<Entry>, limit: nat): seq<Entry> {
    if |entries| <= limit then entries else entries[..limit]
  }

  /** What a page of the rows is: the first entries of the window's listing, and where the next page starts. */
  function PageOf(prefix: Option<string>, rows: seq<string>, limit: nat, scanLimit: nat, hasMoreRows: bool): Page {
    var window := Window(rows, scanLimit);
    var listed := Listed(prefix, window);
    var consumed := Consumed(prefix, window, limit);
    var truncated := |listed| > limit || (|listed| == limit && hasMoreRows);
    Page(First(listed, limit), if truncated && consumed > 0 then Some(window[consumed - 1]) else None)
  }

  /** The last row with a child among those up to which the listing is within the limit. */
  ghost predicate IsLastFitting(prefix: Option<string>, window: seq<string>, limit: nat, n: nat) {
    && n < |window| && Child(prefix, window[n]).Some? && |Listed(prefix, window[..n + 1])| <= limit
    && forall m | n < m < |window| && Child(prefix, window[m]).Some? :: |Listed(prefix, window[..m + 1])| > limit
  }

  lemma {:induction false} ConsumedIsLastFitting(prefix: Option<string>, rows: seq<string>, limit: nat)
    requires Consumed(prefix, rows, limit) > 0
    ensures IsLastFitting(prefix, rows, limit, Consumed(prefix, rows, limit) - 1)
    decreases |rows|
  {
    hide Child, Listed;
    var last := |rows| - 1;
    assert rows[..last + 1] == rows;
    if !(Child(prefix, rows[last]).Some? && |Listed(prefix, rows)| <= limit) {
      var front, n := rows[..last], Consumed(prefix, rows, limit) - 1;
      ConsumedIsLastFitting(prefix, front, limit);
      assert forall m | 0 <= m < last :: front[m] == rows[m] && front[..m + 1] == rows[..m + 1];
    }
  }

  /** A page without a cursor is below its limit, or is full with all the window's entries and no row cut off. */
  lemma CursorGivenIff(prefix: Option<string>, rows: seq<string>, limit: nat, scanLimit: nat, hasMoreRows: bool)
    requires limit > 0
    ensures var page, listed := PageOf(prefix, rows, limit, scanLimit, hasMoreRows), Listed(prefix, Window(rows, scanLimit));
            && page.entries <= listed && |page.entries| <= limit
            && (|page.entries| == limit || page.entries == listed)
            && (page.nextCursor.None? <==> |page.entries| < limit || (page.entries == listed && !hasMoreRows))
            && (page.nextCursor.Some? ==>
                  exists n: nat ::
                    && IsLastFitting(prefix, Window(rows, scanLimit), limit, n)
                    && page.nextCursor.value == Window(rows, scanLimit)[n])
  {
    hide Child, Listed, Consumed, IsLastFitting;
    var window := Window(rows, scanLimit);
    var listed := Listed(prefix, window);
    if |listed| > limit {
      PassesLimit(prefix, window, limit);
    } else if |listed| == limit {
      ListedNeedsRows(prefix, window, limit);
    }
    if Consumed(prefix, window, limit) > 0 {
      ConsumedIsLastFitting(prefix, window, limit);
    }
  }

  method BuildProjectTreePayload(
    rows: seq<string>, prefix: Option<string>, limit: nat, scanLimit: nat, hasMoreRows: bool)
    returns (entries: seq<Entry>, nextCursor: Option<string>, truncated: bool)
    requires limit > 0
    ensures Page(entries, nextCursor) == PageOf(prefix, rows, limit, scanLimit, hasMoreRows)
    ensures truncated <==> nextCursor.Some?
    ensures var listed := Listed(prefix, Window(rows, scanLimit));
            && entries <= listed && |entries| <= limit && (|entries| == limit || entries == listed)
            && (truncated <==> |entries| == limit && (entries != listed || hasMoreRows))
    ensures truncated ==>
              exists n: nat ::
                && IsLastFitting(prefix, Window(rows, scanLimit), limit, n)
                && nextCursor.value == Window(rows, scanLimit)[n]
  {
    hide Child, Listed, Consumed, IsLastFitting;
    CursorGivenIff(prefix, rows, limit, scanLimit, hasMoreRows);
    entries := [];
    var seen: set<string> := {};
    var lastConsumed: Option<string> := None;
    var reachedLimit, hasNextUniqueEntry := false, false;
    var scanned := if |rows| <= scanLimit then rows else rows[..scanLimit];
    NothingListed(prefix, scanned, limit);
    var n: nat := 0;
    while n < |scanned|
      invariant n <= |scanned|
      invariant entries == Listed(prefix, scanned[..n]) && |entries| <= limit && seen == Keys(entries)
      invariant reachedLimit ==> |entries| == limit
      invariant var consumed := Consumed(prefix, scanned[..n], limit);
                lastConsumed == if consumed == 0 then None else Some(scanned[consumed - 1])
    {
      var path := scanned[n];
      var child := Child(prefix, path);
      ListedOneMore(prefix, scanned, limit, n);
      if child.None? {
        n := n + 1;
        continue;
      }
      if |entries| >= limit {
        reachedLimit := true;
        if child.value.path in seen {
          lastConsumed := Some(path);
          n := n + 1;
          continue;
        }
        hasNextUniqueEntry := true;
        break;
      }
      if child.value.path !in seen {
        seen := seen + {child.value.path};
        entries := entries + [child.value];
      }
      lastConsumed := Some(path);
      n := n + 1;
    }
    if |entries| >= limit {
      reachedLimit := true;
    }
    truncated := reachedLimit && (hasNextUniqueEntry || hasMoreRows);
    nextCursor := if truncated then lastConsumed else None;
    if hasNextUniqueEntry {
      ListedGrows(prefix, scanned, n);
      ListedGrows(prefix, scanned, n + 1);
      ConsumedStops(prefix, scanned, limit, n);
    } else {
      assert scanned[..n] == scanned;
    }
    if truncated {
      ListedNeedsRows(prefix, scanned[..n], limit);
    }
  }

  /** Where a listing passes the limit. */
  lemma {:induction false} StopRow(prefix: Option<string>, rows: seq<string>, limit: nat) returns (n: nat)
    requires |Listed(prefix, rows)| > limit
    ensures n < |rows| && |Listed(prefix, rows[..n])| == limit && |Listed(prefix, rows[..n + 1])| == limit + 1
    decreases |rows|
  {
    var last := |rows| - 1;
    hide Child;
    if |Listed(prefix, rows[..last])| > limit {
      n := StopRow(prefix, rows[..last], limit);
      assert rows[..last][..n] == rows[..n] && rows[..last][..n + 1] == rows[..n + 1];
    } else {
      n := last;
      assert rows[..n + 1] == rows;
    }
  }

  lemma PassesLimit(prefix: Option<string>, rows: seq<string>, limit: nat)
    requires |Listed(prefix, rows)| > limit > 0
    ensures Consumed(prefix, rows, limit) > 0
  {
    var stop := StopRow(prefix, rows, limit);
    hide Listed, Child;
    ConsumedStops(prefix, rows, limit, stop);
    ListedNeedsRows(prefix, rows[..stop], limit);
  }

  lemma NothingListed(prefix: Option<string>, rows: seq<string>, limit: nat)
    ensures Listed(prefix, rows[..0]) == [] && Consumed(prefix, rows[..0], limit) == 0
  {
  }

  lemma ListedOneMore(prefix: Option<string>, rows: seq<string>, limit: nat, n: nat)
    requires n < |rows|
    ensures var before, child, after := Listed(prefix, rows[..n]), Child(prefix, rows[n]), Listed(prefix, rows[..n + 1]);
            && after == (if child.None? || child.value.path in Keys(before) then before else before + [child.value])
            && Consumed(prefix, rows[..n + 1], limit) ==
               if child.Some? && |after| <= limit then n + 1 else Consumed(prefix, rows[..n], limit)
  {
    assert rows[..n + 1][..n] == rows[..n];
  }

  /** Rows that list something have a row with a child. */
  lemma {:induction false} ListedNeedsRows(prefix: Option<string>, rows: seq<string>, limit: nat)
    requires 0 < |Listed(prefix, rows)| <= limit
    ensures Consumed(prefix, rows, limit) > 0
    decreases |rows|
  {
    if Child(prefix, rows[|rows| - 1]).None? {
      ListedNeedsRows(prefix, rows[..|rows| - 1], limit);
    }
  }

  // ----- Rows of one directory stand together -----

  ghost predicate Ascending(rows: seq<string>) {
    forall i, j | 0 <= i < j < |rows| :: Less(rows[i], rows[j])
  }

  /** No path is a directory that another lies in. */
  ghost predicate NoAncestors(rows: seq<string>) {
    forall i, j | 0 <= i < |rows| && 0 <= j < |rows| :: !StartsWith(rows[j], rows[i] + "/")
  }

  /** Two rows stand for the same child. */
  predicate Siblings(prefix: Option<string>, a: string, b: string) {
    Child(prefix, a).Some? && Child(prefix, b).Some? && Child(prefix, a).value.path == Child(prefix, b).value.path
  }

  lemma StartsInParts(s: string, a: string, b: string)
    requires StartsWith(s, a + b)
    ensures StartsWith(s, a) && StartsWith(s[|a|..], b)
  {
    forall i | 0 <= i < |a| + |b| ensures s[i] == (a + b)[i] {
      assert s[..|a + b|][i] == (a + b)[i];
    }
    assert s[..|a|] == a;
    assert s[|a|..][..|b|] == b;
  }

  lemma StartsTail(s: string, start: string)
    requires StartsWith(s, start) && start != ""
    ensures s != "" && s[0] == start[0] && StartsWith(s[1..], start[1..])
  {
    assert [start[0]] + start[1..] == start;
    StartsInParts(s, [start[0]], start[1..]);
    assert s[0] == s[..1][0];
  }

  lemma StartsFrom(s: string, start: string)
    requires s != "" && start != "" && s[0] == start[0] && StartsWith(s[1..], start[1..])
    ensures StartsWith(s, start)
  {
    assert s[..|start|] == [s[0]] + s[1..][..|start| - 1];
    assert start == [start[0]] + start[1..];
  }

  /** The strings that start alike are an interval of the order. */
  lemma {:induction false} StartsAreIntervals(start: string, a: string, b: string, c: string)
    requires StartsWith(a, start) && StartsWith(c, start) && Less(a, b) && Less(b, c)
    ensures StartsWith(b, start)
    decreases |start|
  {
    if start != "" {
      StartsTail(a, start);
      StartsTail(c, start);
      hide StartsWith;
      StartsAreIntervals(start[1..], a[1..], b[1..], c[1..]);
      StartsFrom(b, start);
    }
  }

  lemma {:induction false} FirstSegmentOf(s: string, name: string)
    requires '/' !in name && StartsWith(s, name + "/")
    ensures '/' in s && FirstSegment(s) == name
    decreases |name|
  {
    StartsTail(s, name + "/");
    hide StartsWith;
    if name == "" {
      assert (name + "/")[0] == '/';
    } else {
      assert (name + "/")[0] == name[0] && (name + "/")[1..] == name[1..] + "/" && name[0] in name;
      FirstSegmentOf(s[1..], name[1..]);
    }
  }

  /** A path under a directory child, and only such a path, stands for that child. */
  lemma DirOfPath(prefix: Option<string>, a: string, b: string)
    requires Child(prefix, a).Some? && Child(prefix, a).value.Dir?
    requires StartsWith(b, Child(prefix, a).value.path + "/")
    ensures Child(prefix, b) == Child(prefix, a)
  {
    var name := Child(prefix, a).value.name;
    if prefix.None? {
      FirstSegmentOf(b, name);
    } else {
      var p := prefix.value;
      assert p + "/" + name + "/" == (p + "/") + (name + "/");
      StartsInParts(b, p + "/", name + "/");
      FirstSegmentOf(b[|p| + 1..], name);
    }
  }

  lemma JoinStarts(front: string, rel: string, name: string)
    requires StartsWith(rel, name + "/")
    ensures StartsWith(front + rel, front + name + "/")
  {
    assert (front + rel)[..|front| + |name| + 1] == front + rel[..|name| + 1];
    assert front + (name + "/") == front + name + "/";
  }

  lemma PathOfDir(prefix: Option<string>, a: string)
    requires Child(prefix, a).Some? && Child(prefix, a).value.Dir?
    ensures StartsWith(a, Child(prefix, a).value.path + "/")
  {
    hide FirstSegment, LastSegment;
    if prefix.Some? {
      var front, rel := prefix.value + "/", Relative(prefix, a).value;
      assert a == front + rel by {
        assert a[..|front|] == front;
      }
      JoinStarts(front, rel, FirstSegment(rel));
    }
  }

  /** Siblings have the same entry: a path is never both a file and a directory of others. */
  lemma SiblingsAgree(prefix: Option<string>, rows: seq<string>, i: nat, j: nat)
    requires NoAncestors(rows) && i < |rows| && j < |rows| && Siblings(prefix, rows[i], rows[j])
    ensures Child(prefix, rows[i]) == Child(prefix, rows[j])
    ensures Child(prefix, rows[i]).value.File? ==> rows[i] == rows[j]
  {
    var a, b := Child(prefix, rows[i]).value, Child(prefix, rows[j]).value;
    if a.Dir? {
      PathOfDir(prefix, rows[i]);
    }
    if b.Dir? {
      PathOfDir(prefix, rows[j]);
    }
    if a.Dir? && b.Dir? {
      DirOfPath(prefix, rows[i], rows[j]);
    }
  }

  /** Every row between two siblings is their sibling. */
  lemma SiblingsAreContiguous(prefix: Option<string>, rows: seq<string>, i: nat, j: nat, k: nat)
    requires Ascending(rows) && NoAncestors(rows) && i < j < k < |rows| && Siblings(prefix, rows[i], rows[k])
    ensures Siblings(prefix, rows[i], rows[j])
  {
    hide Child, StartsWith;
    SiblingsAgree(prefix, rows, i, k);
    LessIsStrict(rows[i], rows[k]);
    assert Less(rows[i], rows[k]);
    PathOfDir(prefix, rows[i]);
    PathOfDir(prefix, rows[k]);
    StartsAreIntervals(Child(prefix, rows[i]).value.path + "/", rows[i], rows[j], rows[k]);
    DirOfPath(prefix, rows[i], rows[j]);
  }

  // ----- Which child a path stands for -----

  function Base(prefix: Option<string>): string {
    if prefix.Some? then prefix.value + "/" else ""
  }

  lemma {:induction false} LastSegmentOf(front: string, name: string)
    requires '/' !in name
    ensures LastSegment(name) == name
    ensures LastSegment(front + "/" + name) == name
    decreases |front|
  {
    var s := front + "/" + name;
    assert s[|front|] == '/';
    if front == "" {
      assert s[1..] == name;
    } else {
      assert s[1..] == front[1..] + "/" + name;
      LastSegmentOf(front[1..], name);
    }
  }

  lemma RelativeOf(prefix: Option<string>, rel: string)
    requires rel != ""
    ensures Relative(prefix, Base(prefix) + rel) == Some(rel)
  {
    hide LastSegment;
    var path := Base(prefix) + rel;
    if prefix.Some? {
      assert path[..|prefix.value + "/"|] == prefix.value + "/";
      assert path[|prefix.value| + 1..] == rel;
      assert |path| > |prefix.value|;
    } else {
      assert path == rel;
    }
  }

  /** A path with more segments below the prefix stands for the directory of the first of them. */
  lemma ChildOfNested(prefix: Option<string>, name: string, rest: string)
    requires '/' !in name
    ensures Child(prefix, Base(prefix) + name + "/" + rest) == Some(Dir(Base(prefix) + name, name))
  {
    hide FirstSegment, LastSegment, Relative, StartsWith, Base;
    var rel := name + "/" + rest;
    NestedStarts(name, rest);
    FirstSegmentOf(rel, name);
    RelativeOf(prefix, rel);
    NestedJoin(Base(prefix), name, rest);
    BaseName(prefix, name);
  }

  lemma NestedStarts(name: string, rest: string)
    ensures StartsWith(name + "/" + rest, name + "/")
  {
    assert (name + "/" + rest)[..|name + "/"|] == name + "/";
  }

  lemma NestedJoin(base: string, name: string, rest: string)
    ensures base + name + "/" + rest == base + (name + "/" + rest)
  {
  }

  lemma BaseName(prefix: Option<string>, name: string)
    ensures Base(prefix) + name == if prefix.Some? then prefix.value + "/" + name else name
  {
  }

  /** A path with one segment below the prefix stands for that file. */
  lemma ChildOfFile(prefix: Option<string>, name: string)
    requires '/' !in name && name != ""
    ensures Child(prefix, Base(prefix) + name) == Some(File(Base(prefix) + name, name))
  {
    hide FirstSegment, LastSegment, Relative;
    RelativeOf(prefix, name);
    if prefix.Some? {
      LastSegmentOf(prefix.value, name);
    } else {
      LastSegmentOf("", name);
      assert "" + name == name;
    }
  }

  /** The path that is the prefix itself stands for its own file. */
  lemma ChildOfPrefix(front: string, name: string)
    requires '/' !in name && name != ""
    ensures Child(Some(name), name) == Some(File(name, name))
    ensures Child(Some(front + "/" + name), front + "/" + name) == Some(File(front + "/" + name, name))
  {
    LastSegmentOf(front, name);
    hide LastSegment;
    assert front + "/" + name != "";
  }

  /** A path has no child exactly when it is empty, lies outside the prefix, or leaves no name. */
  lemma ChildlessIff(prefix: Option<string>, path: string)
    ensures Child(prefix, path).None? <==>
              || path == ""
              || (prefix.Some? && path != prefix.value && !StartsWith(path, prefix.value + "/"))
              || (prefix.Some? && path == prefix.value && path[|path| - 1] == '/')
              || (prefix.Some? && path == prefix.value + "/")
  {
    hide FirstSegment;
    if path != "" {
      LastSegmentBlankIff(path);
    }
    if prefix.Some? && StartsWith(path, prefix.value + "/") {
      assert path == path[..|prefix.value| + 1] + path[|prefix.value| + 1..];
    }
  }

  lemma {:induction false} LastSegmentBlankIff(s: string)
    requires s != ""
    ensures LastSegment(s) == "" <==> s[|s| - 1] == '/'
    decreases |s|
  {
    if '/' in s && |s| > 1 {
      assert s[1..][|s| - 2] == s[|s| - 1];
      LastSegmentBlankIff(s[1..]);
    }
  }

  // ----- Listings of parts -----

  ghost predicate HasKey(prefix: Option<string>, rows: seq<string>, key: string) {
    exists row | row in rows :: Child(prefix, row).Some? && Child(prefix, row).value.path == key
  }

  lemma HasKeyOneMore(prefix: Option<string>, rows: seq<string>, key: string)
    requires rows != []
    ensures var last := Child(prefix, rows[|rows| - 1]);
            HasKey(prefix, rows, key) <==>
            HasKey(prefix, rows[..|rows| - 1], key) || (last.Some? && last.value.path == key)
  {
    hide Child;
    var front, last := rows[..|rows| - 1], rows[|rows| - 1];
    if row :| row in rows && Child(prefix, row).Some? && Child(prefix, row).value.path == key {
      assert row in front || row == last;
    }
    assert last in rows;
    assert forall row | row in front :: row in rows;
  }

  lemma KeysOneMore(entries: seq<Entry>, entry: Entry)
    ensures Keys(entries + [entry]) == Keys(entries) + {entry.path}
  {
  }

  lemma {:induction false} KeysOfListed(prefix: Option<string>, rows: seq<string>, key: string)
    ensures key in Keys(Listed(prefix, rows)) <==> HasKey(prefix, rows, key)
    decreases |rows|
  {
    if rows != [] {
      hide Child, HasKey, Keys;
      HasKeyOneMore(prefix, rows, key);
      var before, child := Listed(prefix, rows[..|rows| - 1]), Child(prefix, rows[|rows| - 1]);
      KeysOfListed(prefix, rows[..|rows| - 1], key);
      if child.Some? {
        KeysOneMore(before, child.value);
      }
    }
  }

  /** No row of the one part is a sibling of a row of the other. */
  ghost predicate Apart(prefix: Option<string>, a: seq<string>, b: seq<string>) {
    forall x, y | x in a && y in b :: !Siblings(prefix, x, y)
  }

  lemma {:induction false} ListedConcat(prefix: Option<string>, a: seq<string>, b: seq<string>)
    requires Apart(prefix, a, b)
    ensures Listed(prefix, a + b) == Listed(prefix, a) + Listed(prefix, b)
    decreases |b|
  {
    if b == [] {
      assert a + b == a;
    } else {
      var last := |b| - 1;
      var front := b[..last];
      assert (a + b)[..|a + b| - 1] == a + front && b == front + [b[last]];
      ListedConcat(prefix, a, front);
      var child := Child(prefix, b[last]);
      if child.Some? {
        KeysOfListed(prefix, a, child.value.path);
        hide Child;
        forall row | row in a && Child(prefix, row).Some? ensures Child(prefix, row).value.path != child.value.path {
          assert !Siblings(prefix, row, b[last]);
        }
        var la, lf := Listed(prefix, a), Listed(prefix, front);
        assert Keys(la + lf) == Keys(la) + Keys(lf);
      }
    }
  }

  lemma {:induction false} NoChildrenListNothing(prefix: Option<string>, rows: seq<string>)
    requires forall row | row in rows :: Child(prefix, row).None?
    ensures Listed(prefix, rows) == []
    decreases |rows|
  {
    if rows != [] {
      NoChildrenListNothing(prefix, rows[..|rows| - 1]);
    }
  }

  /** Listed entries have distinct keys, and each is the child of a row. */
  lemma {:induction false} ListedIsSound(prefix: Option<string>, rows: seq<string>)
    ensures forall i, j | 0 <= i < j < |Listed(prefix, rows)| ::
              Listed(prefix, rows)[i].path != Listed(prefix, rows)[j].path
    ensures forall e | e in Listed(prefix, rows) :: exists row | row in rows :: Child(prefix, row) == Some(e)
    decreases |rows|
  {
    if rows != [] {
      var last := |rows| - 1;
      ListedIsSound(prefix, rows[..last]);
      hide Child;
      assert rows == rows[..last] + [rows[last]];
      var before, child := Listed(prefix, rows[..last]), Child(prefix, rows[last]);
      if child.Some? && child.value.path !in Keys(before) {
        assert forall i | 0 <= i < |before| :: before[i] in before;
      }
    }
  }

  /** The listing has each immediate child exactly once. */
  lemma ListedIsExact(prefix: Option<string>, rows: seq<string>, entry: Entry)
    requires NoAncestors(rows)
    ensures entry in Listed(prefix, rows) <==> exists row | row in rows :: Child(prefix, row) == Some(entry)
    ensures forall i, j | 0 <= i < j < |Listed(prefix, rows)| :: Listed(prefix, rows)[i] != Listed(prefix, rows)[j]
  {
    ListedIsSound(prefix, rows);
    KeysOfListed(prefix, rows, entry.path);
    hide Child, Listed;
    if row :| row in rows && Child(prefix, row) == Some(entry) {
      var other :| other in Listed(prefix, rows) && other.path == entry.path;
      var origin :| origin in rows && Child(prefix, origin) == Some(other);
      var i :| 0 <= i < |rows| && rows[i] == row;
      var j :| 0 <= j < |rows| && rows[j] == origin;
      SiblingsAgree(prefix, rows, i, j);
    }
  }

  /** An entry is listed as soon as a row that it comes from has been read. */
  lemma ListedByRow(prefix: Option<string>, rows: seq<string>, j: nat, b: nat)
    requires j < |Listed(prefix, rows)| && b < |rows| && Child(prefix, rows[b]) == Some(Listed(prefix, rows)[j])
    ensures j < |Listed(prefix, rows[..b + 1])|
  {
    var all, some := Listed(prefix, rows), Listed(prefix, rows[..b + 1]);
    ListedGrows(prefix, rows, b + 1);
    ListedIsSound(prefix, rows);
    assert rows[..b + 1][b] == rows[b];
    KeysOfListed(prefix, rows[..b + 1], all[j].path);
    hide Child, Listed;
    var k :| 0 <= k < |some| && some[k].path == all[j].path;
    assert all[k] == some[k];
  }

  /** Entries stand in the order of the first rows they come from. */
  lemma ListedInRowOrder(prefix: Option<string>, rows: seq<string>, i: nat, j: nat, b: nat)
    requires i < j < |Listed(prefix, rows)| && b < |rows|
    requires Child(prefix, rows[b]) == Some(Listed(prefix, rows)[j])
    ensures exists a :: 0 <= a < b && Child(prefix, rows[a]) == Some(Listed(prefix, rows)[i])
  {
    hide Child, Listed;
    var all, read := Listed(prefix, rows), rows[..b + 1];
    ListedByRow(prefix, rows, j, b);
    ListedGrows(prefix, rows, b + 1);
    ListedIsSound(prefix, rows);
    ListedIsSound(prefix, read);
    assert Listed(prefix, read)[i] == all[i] && all[i] in Listed(prefix, read);
    var row :| row in read && Child(prefix, row) == Some(all[i]);
    var a :| 0 <= a < |read| && read[a] == row;
    assert a != b;
  }
}
