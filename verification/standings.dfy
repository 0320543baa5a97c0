/** The standings report (`get_league_standings` after the fetch): the rows
    cut to team name, conference and record, sorted descending by
    conference and then record, both compared as text, with one blank row
    added at index label 14.5. */
module Standings {
  import opened Tables

  /** A row of the standings table the statistics service returns (only a
      few of its many columns). */
  datatype LeagueStanding = LeagueStanding(teamId: int, teamCity: string, teamName: string,
                                           conference: string, record: string, wins: int, losses: int)

  /** A row of the report: `TeamName`, `Conference`, `Record`. */
  datatype StandingRow = StandingRow(teamName: string, conference: string, record: string)

  /** The divider: every column empty. */
  const Blank := StandingRow("", "", "")

  function Project(standings: seq<LeagueStanding>): seq<StandingRow> {
    seq(|standings|, i requires 0 <= i < |standings| =>
      StandingRow(standings[i].teamName, standings[i].conference, standings[i].record))
  }

  // ----- text order -----

  /** Python's `a < b` on strings: by code point, a proper prefix first. */
  predicate TextLess(a: string, b: string) {
    if |a| == 0 then |b| > 0
    else if |b| == 0 then false
    else if a[0] != b[0] then a[0] < b[0]
    else TextLess(a[1..], b[1..])
  }

  lemma {:induction false} TextLessIrreflexive(a: string)
    ensures !TextLess(a, a)
  {
    if |a| > 0 {
      TextLessIrreflexive(a[1..]);
    }
  }

  lemma {:induction false} TextLessTransitive(a: string, b: string, c: string)
    requires TextLess(a, b) && TextLess(b, c)
    ensures TextLess(a, c)
  {
    if |a| > 0 && a[0] == b[0] && b[0] == c[0] {
      TextLessTransitive(a[1..], b[1..], c[1..]);
    }
  }

  lemma {:induction false} TextLessTotal(a: string, b: string)
    requires a != b
    ensures TextLess(a, b) || TextLess(b, a)
  {
    if |a| > 0 && |b| > 0 && a[0] == b[0] {
      assert a == [a[0]] + a[1..] && b == [b[0]] + b[1..];
      TextLessTotal(a[1..], b[1..]);
    }
  }

  // ----- row order -----

  /** The two rows agree on both sort columns. */
  predicate SameKey(x: StandingRow, y: StandingRow) {
    x.conference == y.conference && x.record == y.record
  }

  /** `x` sorts after `y` in the descending order: its (conference, record)
      pair is smaller as text. */
  predicate RowLess(x: StandingRow, y: StandingRow) {
    TextLess(x.conference, y.conference) ||
    (x.conference == y.conference && TextLess(x.record, y.record))
  }

  lemma RowLessIrreflexive(x: StandingRow, y: StandingRow)
    requires SameKey(x, y)
    ensures !RowLess(x, y)
  {
    TextLessIrreflexive(x.conference);
    TextLessIrreflexive(x.record);
  }

  lemma RowLessTransitive(x: StandingRow, y: StandingRow, z: StandingRow)
    requires RowLess(x, y) && RowLess(y, z)
    ensures RowLess(x, z)
  {
    if TextLess(x.conference, y.conference) && TextLess(y.conference, z.conference) {
      TextLessTransitive(x.conference, y.conference, z.conference);
    } else if x.conference == y.conference && y.conference == z.conference {
      TextLessTransitive(x.record, y.record, z.record);
    }
  }

  lemma RowLessTotal(x: StandingRow, y: StandingRow)
    requires !SameKey(x, y)
    ensures RowLess(x, y) || RowLess(y, x)
  {
    if x.conference != y.conference {
      TextLessTotal(x.conference, y.conference);
    } else {
      TextLessTotal(x.record, y.record);
    }
  }

  /** "Not after" is transitive. */
  lemma NotLessTransitive(x: StandingRow, y: StandingRow, z: StandingRow)
    requires !RowLess(x, y) && !RowLess(y, z)
    ensures !RowLess(x, z)
  {
    if RowLess(x, z) && !SameKey(x, y) {
      RowLessTotal(x, y);
      RowLessTransitive(y, x, z);
    }
  }

  /** A row not above `y` is below every row that `y` is below. */
  lemma LessThroughNotLess(x: StandingRow, y: StandingRow, z: StandingRow)
    requires !RowLess(y, x) && RowLess(y, z)
    ensures RowLess(x, z)
  {
    if !SameKey(x, y) {
      RowLessTotal(x, y);
      RowLessTransitive(x, y, z);
    }
  }

  /** No row is followed by one that sorts above it. */
  predicate Descending(s: seq<StandingRow>) {
    forall i, j {:trigger RowLess(s[i], s[j])} :: 0 <= i < j < |s| ==> !RowLess(s[i], s[j])
  }

  // ----- the sort -----

  /** `x` placed after every row of `s` that sorts at or above it. */
  function Insert(s: seq<StandingRow>, x: StandingRow): seq<StandingRow>
  {
    if |s| == 0 then [x]
    else if RowLess(s[0], x) then [x] + s
    else
      assert s == [s[0]] + s[1..];
      [s[0]] + Insert(s[1..], x)
  }

  /** Inserting adds exactly `x` to the rows. */
  lemma {:induction false} InsertPermutes(s: seq<StandingRow>, x: StandingRow)
    ensures multiset(Insert(s, x)) == multiset(s) + multiset{x}
  {
    if |s| > 0 && !RowLess(s[0], x) {
      InsertPermutes(s[1..], x);
      assert s == [s[0]] + s[1..];
    }
  }

  /** The rows in descending (conference, record) order, rows with equal keys
      in their original order: the order `sort_values(by=["Conference",
      "Record"], ascending=False)` produces with its stable multi-key sort. */
  function SortDescending(s: seq<StandingRow>): seq<StandingRow> {
    if |s| == 0 then [] else Insert(SortDescending(s[..|s| - 1]), s[|s| - 1])
  }

  /** The sort yields a descending permutation of its input. */
  lemma {:induction false} SortDescendingSpec(s: seq<StandingRow>)
    ensures Descending(SortDescending(s))
    ensures multiset(SortDescending(s)) == multiset(s)
  {
    if |s| > 0 {
      var init, last := s[..|s| - 1], s[|s| - 1];
      SortDescendingSpec(init);
      InsertDescending(SortDescending(init), last);
      InsertPermutes(SortDescending(init), last);
      assert s == init + [last];
    }
  }

  lemma {:induction false} InsertDescending(s: seq<StandingRow>, x: StandingRow)
    requires Descending(s)
    ensures Descending(Insert(s, x))
  {
    if |s| > 0 {
      var r := Insert(s, x);
      if RowLess(s[0], x) {
        forall i, j | 0 <= i < j < |r| ensures !RowLess(r[i], r[j]) {
          if i == 0 && RowLess(x, s[j - 1]) {
            RowLessTransitive(s[0], x, s[j - 1]);
            if j - 1 == 0 {
              RowLessIrreflexive(s[0], s[0]);
            }
          }
        }
      } else {
        var t := s[1..];
        InsertDescending(t, x);
        InsertPermutes(t, x);
        var rt := Insert(t, x);
        assert r == [s[0]] + rt;
        forall j | 0 <= j < |rt| ensures !RowLess(s[0], rt[j]) {
          assert rt[j] in multiset(rt);
          if rt[j] != x {
            assert rt[j] in t;
          }
        }
      }
    }
  }

  /** Dropping the first row keeps the rows descending. */
  lemma DescendingTail(s: seq<StandingRow>)
    requires Descending(s) && |s| > 0
    ensures Descending(s[1..])
  {
    var t := s[1..];
    forall i, k | 0 <= i < k < |t| ensures !RowLess(t[i], t[k]) {
      assert t[i] == s[i + 1] && t[k] == s[k + 1];
    }
  }

  /** The row that goes to index `j` of a descending `s`: everything from `j`
      on sorts below `x`, and the row before `j`, if any, does not. */
  lemma {:induction false} InsertAt(s: seq<StandingRow>, x: StandingRow, j: nat)
    requires Descending(s) && j <= |s|
    requires forall k :: j <= k < |s| ==> RowLess(s[k], x)
    requires j == 0 || !RowLess(s[j - 1], x)
    ensures Insert(s, x) == s[..j] + [x] + s[j..]
  {
    if j == 0 {
      assert s[..0] == [] && s[0..] == s;
    } else {
      var t := s[1..];
      if j - 1 > 0 {
        NotLessTransitive(s[0], s[j - 1], x);
      }
      DescendingTail(s);
      InsertAt(t, x, j - 1);
      assert s[..j] == [s[0]] + t[..j - 1];
      assert s[j..] == t[j - 1..];
    }
  }

  /** Sorting one more row of `s` inserts that row into the sorted prefix. */
  lemma SortPrefixStep(s: seq<StandingRow>, i: nat)
    requires i < |s|
    ensures SortDescending(s[..i + 1]) == Insert(SortDescending(s[..i]), s[i])
  {
    assert s[..i + 1][..i] == s[..i];
  }

  /** The array after the shifting loop: the prefix up to `j`, then `x`, then
      the rest of the prefix moved one place right, is the prefix with `x`
      inserted. */
  lemma ShiftedIsInsert(sorted: seq<StandingRow>, x: StandingRow, j: nat, b: seq<StandingRow>)
    requires Descending(sorted) && j <= |sorted| && |b| == |sorted| + 1
    requires forall k :: j <= k < |sorted| ==> RowLess(sorted[k], x)
    requires j == 0 || !RowLess(sorted[j - 1], x)
    requires forall k :: 0 <= k < j ==> b[k] == sorted[k]
    requires b[j] == x
    requires forall k :: j < k < |b| ==> b[k] == sorted[k - 1]
    ensures b == Insert(sorted, x)
  {
    InsertAt(sorted, x, j);
    var inserted := sorted[..j] + [x] + sorted[j..];
    forall k | 0 <= k < |b| ensures b[k] == inserted[k] {
      if k < j {
        assert inserted[k] == sorted[k];
      } else if k > j {
        assert inserted[k] == sorted[k - 1];
      }
    }
  }

  /** One step of the in-place insertion sort: the row at `i` moves left past
      every row of the sorted prefix that sorts below it. */
  method InsertInPlace(a: array<StandingRow>, i: nat)
    requires i < a.Length && Descending(a[..i])
    modifies a
    ensures a[..i + 1] == Insert(old(a[..i]), old(a[i]))
    ensures a[i + 1..] == old(a[i + 1..])
  {
    ghost var sorted := a[..i];
    var x := a[i];
    var j := i;
    while j > 0 && RowLess(a[j - 1], x)
      invariant 0 <= j <= i
      invariant forall k :: 0 <= k < j ==> a[k] == sorted[k]
      invariant forall k :: j < k <= i ==> a[k] == sorted[k - 1]
      invariant forall k :: i < k < a.Length ==> a[k] == old(a[k])
      invariant forall k :: j <= k < i ==> RowLess(sorted[k], x)
    {
      a[j] := a[j - 1];
      j := j - 1;
    }
    a[j] := x;
    ShiftedIsInsert(sorted, x, j, a[..i + 1]);
  }

  /** The in-place sort: insertion sort on the array, growing a sorted
      prefix one row at a time. */
  method SortInPlace(a: array<StandingRow>)
    modifies a
    ensures a[..] == SortDescending(old(a[..]))
  {
    ghost var orig := a[..];
    for i := 0 to a.Length
      invariant a[..i] == SortDescending(orig[..i])
      invariant forall k :: i <= k < a.Length ==> a[k] == orig[k]
    {
      SortDescendingSpec(orig[..i]);
      InsertInPlace(a, i);
      SortPrefixStep(orig, i);
    }
    assert orig[..a.Length] == orig;
  }

  // ----- stability -----

  function HasKey(conference: string, record: string): StandingRow -> bool {
    (row: StandingRow) => row.conference == conference && row.record == record
  }

  /** When `x` sorts above the first row of a descending `s`, no row of `s`
      shares its key. */
  lemma NoTiesBelow(s: seq<StandingRow>, x: StandingRow, conference: string, record: string)
    requires Descending(s) && |s| > 0 && RowLess(s[0], x)
    requires x.conference == conference && x.record == record
    ensures Filter(s, HasKey(conference, record)) == []
  {
    var p := HasKey(conference, record);
    var f := Filter(s, p);
    if |f| > 0 {
      assert f[0] in f;
      var k :| 0 <= k < |s| && s[k] == f[0];
      if k > 0 {
        LessThroughNotLess(s[k], s[0], x);
      }
      RowLessIrreflexive(s[k], x);
    }
  }

  /** `x` in front of a descending `s` that it sorts above keeps the rows
      of its key in the same order as `x` after `s`. */
  lemma FrontTies(s: seq<StandingRow>, x: StandingRow, conference: string, record: string)
    requires Descending(s) && |s| > 0 && RowLess(s[0], x)
    ensures Filter([x] + s, HasKey(conference, record)) ==
            Filter(s, HasKey(conference, record)) + Filter([x], HasKey(conference, record))
  {
    var p := HasKey(conference, record);
    FilterConcat([x], s, p);
    if p(x) {
      NoTiesBelow(s, x, conference, record);
      calc {
        Filter([x] + s, p);
        Filter([x], p) + [];
        { assert Filter(s, p) == []; }
        Filter(s, p) + Filter([x], p);
      }
    } else {
      assert Filter([x], p) == [];
    }
  }

  lemma {:induction false} InsertKeepsTies(s: seq<StandingRow>, x: StandingRow, conference: string, record: string)
    requires Descending(s)
    ensures Filter(Insert(s, x), HasKey(conference, record)) ==
            Filter(s, HasKey(conference, record)) + Filter([x], HasKey(conference, record))
  {
    var p := HasKey(conference, record);
    if |s| > 0 {
      if RowLess(s[0], x) {
        assert Insert(s, x) == [x] + s;
        FrontTies(s, x, conference, record);
      } else {
        var t := s[1..];
        assert Insert(s, x) == [s[0]] + Insert(t, x);
        assert s == [s[0]] + t;
        FilterConcat([s[0]], t, p);
        FilterConcat([s[0]], Insert(t, x), p);
        DescendingTail(s);
        InsertKeepsTies(t, x, conference, record);
      }
    }
  }

  /** Rows that tie on both sort columns keep their original relative order. */
  lemma {:induction false} SortStable(s: seq<StandingRow>, conference: string, record: string)
    ensures Filter(SortDescending(s), HasKey(conference, record)) == Filter(s, HasKey(conference, record))
  {
    if |s| > 0 {
      var p := HasKey(conference, record);
      var n := |s| - 1;
      var init, last := s[..n], s[n];
      var sorted := SortDescending(init);
      SortDescendingSpec(init);
      SortStable(init, conference, record);
      InsertKeepsTies(sorted, last, conference, record);
      assert s == init + [last];
      FilterConcat(init, [last], p);
    }
  }

  /** Records are compared as text: in one conference a "9-3" team is listed
      above a "10-2" team. */
  lemma TextualRecordOrder()
    ensures var ten := StandingRow("Warriors", "West", "10-2");
      var nine := StandingRow("Suns", "West", "9-3");
      SortDescending([ten, nine]) == [nine, ten]
  {
    var ten := StandingRow("Warriors", "West", "10-2");
    var nine := StandingRow("Suns", "West", "9-3");
    assert [ten, nine][..1] == [ten];
    assert SortDescending([ten]) == [ten];
    assert "10-2"[0] < "9-3"[0];
    assert RowLess(ten, nine);
    assert Insert([ten], nine) == [nine, ten];
  }

  // ----- the divider -----

  /** The index label `.loc[14.5]` gives the blank row. */
  const DividerLabel: real := 14.5

  /** Rows labelled `first`, `first + 1`, ... together with the blank row
      labelled `DividerLabel`, in label order (`sort_index`). */
  function InsertByLabel(rows: seq<StandingRow>, first: nat): (r: seq<StandingRow>)
    ensures |r| == |rows| + 1 && Blank in r
  {
    if |rows| == 0 then [Blank]
    else if DividerLabel < first as real then [Blank] + rows
    else [rows[0]] + InsertByLabel(rows[1..], first + 1)
  }

  /** Where the blank row lands among `n` rows labelled `0 .. n - 1`. */
  function DividerIndex(n: nat): nat {
    if n < 15 then n else 15
  }

  lemma {:induction false} InsertByLabelAt(rows: seq<StandingRow>, first: nat)
    ensures var p := if first >= 15 then 0 else if 15 - first < |rows| then 15 - first else |rows|;
      InsertByLabel(rows, first) == rows[..p] + [Blank] + rows[p..]
  {
    if |rows| > 0 && first < 15 {
      InsertByLabelAt(rows[1..], first + 1);
      var p := if 15 - first < |rows| then 15 - first else |rows|;
      assert rows[..p] == [rows[0]] + rows[1..][..p - 1];
      assert rows[p..] == rows[1..][p - 1..];
    } else if |rows| > 0 {
      assert rows[..0] == [] && rows[0..] == rows;
    }
  }

  /** The blank row added to rows labelled from 0 sits at `DividerIndex`,
      and taking it out gives the rows back. */
  lemma DividerAt(rows: seq<StandingRow>)
    ensures var table, p := InsertByLabel(rows, 0), DividerIndex(|rows|);
      |table| == |rows| + 1 && table[p] == Blank && table[..p] + table[p + 1..] == rows
  {
    var table, p := InsertByLabel(rows, 0), DividerIndex(|rows|);
    InsertByLabelAt(rows, 0);
    assert table[..p] == rows[..p];
    assert table[p + 1..] == rows[p..];
    assert rows == rows[..p] + rows[p..];
  }

  /** `get_league_standings` after the fetch. */
  method GetLeagueStandings(standings: seq<LeagueStanding>) returns (table: seq<StandingRow>)
    ensures var rows, p := Project(standings), DividerIndex(|standings|);
      |table| == |rows| + 1 && table[p] == Blank &&
      table[..p] + table[p + 1..] == SortDescending(rows)
  {
    var rows := Project(standings);
    var a := new StandingRow[|rows|](i requires 0 <= i < |rows| => rows[i]);
    assert a[..] == rows;
    SortInPlace(a);
    var sorted := a[..];
    table := InsertByLabel(sorted, 0);
    DividerAt(sorted);
  }

  /** The report has one row more than the standings; without the divider
      it is a descending permutation of the projected rows; and when no
      team row is blank, the divider is the only blank row. */
  lemma StandingsReport(standings: seq<LeagueStanding>, table: seq<StandingRow>)
    requires var rows, p := Project(standings), DividerIndex(|standings|);
      |table| == |rows| + 1 && table[p] == Blank &&
      table[..p] + table[p + 1..] == SortDescending(rows)
    ensures var rows, p := Project(standings), DividerIndex(|standings|);
      var rest := table[..p] + table[p + 1..];
      Descending(rest) && multiset(rest) == multiset(rows) &&
      ((forall i :: 0 <= i < |rows| ==> rows[i] != Blank) ==>
         forall i :: 0 <= i < |table| ==> (table[i] == Blank <==> i == p))
  {
    var rows, p := Project(standings), DividerIndex(|standings|);
    var rest := table[..p] + table[p + 1..];
    SortDescendingSpec(rows);
    if forall i :: 0 <= i < |rows| ==> rows[i] != Blank {
      forall i | 0 <= i < |table| && i != p ensures table[i] != Blank {
        var k := if i < p then i else i - 1;
        assert table[i] == rest[k];
        assert rest[k] in multiset(rows);
      }
    }
  }
}
