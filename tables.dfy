/** Tables as the stages see them once the CSV file is read: a header of column names and
    data rows of cells, plus the vocabulary used to state what a header scan finds. */
module Tables {
  import opened Ucf

  type Row = seq<string>

  /** One input table: the file name (used only in error messages), its header and its rows. */
  datatype Table = Table(file: string, header: seq<string>, rows: seq<Row>)

  /** The rows a stage processes: every row of non-zero length, in order. */
  function NonEmptyRows(rows: seq<Row>): (ne: seq<Row>)
    ensures |ne| <= |rows|
    ensures forall j :: 0 <= j < |ne| ==> |ne[j]| > 0 && ne[j] in rows
    decreases |rows|
  {
    if rows == [] then []
    else
      var last := rows[|rows| - 1];
      assert forall r :: r in rows[..|rows| - 1] ==> r in rows;
      NonEmptyRows(rows[..|rows| - 1]) + (if |last| > 0 then [last] else [])
  }

  /** The positions p, lo <= p < hi, at which header `h` holds `token`, in increasing order. */
  function PositionsIn(h: seq<string>, token: string, lo: nat, hi: nat): (ps: seq<nat>)
    requires hi <= |h|
    ensures forall a :: 0 <= a < |ps| ==> lo <= ps[a] < hi && h[ps[a]] == token
    decreases hi
  {
    if hi <= lo then []
    else
      PositionsIn(h, token, lo, hi - 1) + (if h[hi - 1] == token then [hi - 1] else [])
  }

  /** Every position in the range that holds `token` is listed. */
  lemma {:induction false} PositionsInComplete(h: seq<string>, token: string, lo: nat, hi: nat)
    requires hi <= |h|
    ensures forall p :: lo <= p < hi && h[p] == token ==> p in PositionsIn(h, token, lo, hi)
    decreases hi
  {
    if lo < hi {
      PositionsInComplete(h, token, lo, hi - 1);
    }
  }

  /** Where the group opened at `ps[j]` ends: at the next opener, or at column `n`. */
  function Next(ps: seq<nat>, j: nat, n: nat): nat
    requires j < |ps|
  {
    if j + 1 < |ps| then ps[j + 1] else n
  }

  /** The columns recorded in an optional column index. */
  function Members(o: Option<nat>): seq<nat> {
    match o
    case None => []
    case Some(p) => [p]
  }

  /** `o` records the one column among the first `n` of `h` that holds `token`, or `None`
      when none of them does. */
  predicate SingleColumn(h: seq<string>, n: nat, token: string, o: Option<nat>)
    requires n <= |h|
  {
    (o.Some? ==> o.value < n) &&
    forall p :: 0 <= p < n ==> (h[p] == token <==> o == Some(p))
  }

  /** Recording column `n` when it holds `token` and `token` has not occurred before keeps
      `SingleColumn`; any other column leaves the record as it is. */
  lemma SingleColumnStep(h: seq<string>, n: nat, token: string, o: Option<nat>)
    requires n < |h| && SingleColumn(h, n, token, o)
    requires h[n] == token ==> o.None?
    ensures SingleColumn(h, n + 1, token, if h[n] == token then Some(n) else o)
  {
  }

  /** A column that does not hold `token` leaves the record as it is. */
  lemma SingleColumnKept(h: seq<string>, n: nat, token: string, o: Option<nat>)
    requires n < |h| && SingleColumn(h, n, token, o) && h[n] != token
    ensures SingleColumn(h, n + 1, token, o)
  {
  }

  /** Whether a group opened by an `opener` column is still open just before column `n`:
      going back from `n`, an `opener` column comes before any column in `closers`. */
  predicate Open(h: seq<string>, n: nat, opener: string, closers: set<string>)
    requires n <= |h|
  {
    n > 0 && (h[n - 1] == opener || (h[n - 1] !in closers && Open(h, n - 1, opener, closers)))
  }

  /** The same notion, stated without recursion: some `opener` column stands before `n`
      with no column of `closers` between it and `n`. */
  lemma {:induction false} OpenSince(h: seq<string>, n: nat, opener: string, closers: set<string>)
    requires n <= |h|
    ensures Open(h, n, opener, closers) <==>
      exists j :: 0 <= j < n && h[j] == opener && forall q :: j < q < n ==> h[q] !in closers
  {
    if n > 0 {
      OpenSince(h, n - 1, opener, closers);
      if Open(h, n, opener, closers) && h[n - 1] != opener {
        var j :| 0 <= j < n - 1 && h[j] == opener && forall q :: j < q < n - 1 ==> h[q] !in closers;
        assert forall q :: j < q < n ==> h[q] !in closers;
      }
      if exists j :: 0 <= j < n && h[j] == opener && forall q :: j < q < n ==> h[q] !in closers {
        var j :| 0 <= j < n && h[j] == opener && forall q :: j < q < n ==> h[q] !in closers;
        if j < n - 1 {
          assert h[n - 1] !in closers;
          assert forall q :: j < q < n - 1 ==> h[q] !in closers;
        }
      }
    }
  }

  /** While a group is open, none of its closers occurs after the last opener: some opener
      stands before `n`, and `closer` does not occur between the last one and `n`. */
  lemma {:induction false} OpenClearSince(h: seq<string>, n: nat, opener: string, closers: set<string>, closer: string)
    requires n <= |h| && closer in closers && Open(h, n, opener, closers)
    ensures var ps := PositionsIn(h, opener, 0, n);
      |ps| > 0 && |PositionsIn(h, closer, ps[|ps| - 1] + 1, n)| == 0
    decreases n
  {
    var ps := PositionsIn(h, opener, 0, n);
    var before := PositionsIn(h, opener, 0, n - 1);
    if h[n - 1] == opener {
      assert ps == before + [n - 1];
      assert ps[|ps| - 1] + 1 == n;
    } else {
      OpenClearSince(h, n - 1, opener, closers, closer);
      assert ps == before;
      var lo := before[|before| - 1] + 1;
      SkipColumn(h, closer, lo, n - 1);
    }
  }

  lemma SkipColumn(h: seq<string>, token: string, lo: nat, m: nat)
    requires lo <= m < |h| && h[m] != token
    ensures PositionsIn(h, token, lo, m + 1) == PositionsIn(h, token, lo, m)
  {
  }

  /** The optional column `col` records the occurrences of `token` inside group `j` of the groups
      opened at the columns `ps`; a group ends at the next opener or at column `n`. */
  ghost predicate AttachedIn(h: seq<string>, n: nat, ps: seq<nat>, j: nat, token: string, col: Option<nat>)
    requires n <= |h| && j < |ps| && forall a :: 0 <= a < |ps| ==> ps[a] < n
  {
    Members(col) == PositionsIn(h, token, ps[j] + 1, Next(ps, j, n))
  }

  /** A group opened at column `n` holds nothing yet. */
  lemma AttachedAfterOpening(h: seq<string>, n: nat, ps: seq<nat>, token: string)
    requires n < |h| && forall a :: 0 <= a < |ps| ==> ps[a] < n
    ensures AttachedIn(h, n + 1, ps + [n], |ps|, token, None)
  {
    assert |PositionsIn(h, token, n + 1, n + 1)| == 0;
  }

  /** Opening a group at column `n` closes the group before it and leaves every earlier one as it was. */
  lemma AttachedKeptByOpening(h: seq<string>, n: nat, ps: seq<nat>, j: nat, token: string, col: Option<nat>)
    requires n < |h| && j < |ps| && forall a :: 0 <= a < |ps| ==> ps[a] < n
    requires AttachedIn(h, n, ps, j, token, col)
    ensures AttachedIn(h, n + 1, ps + [n], j, token, col)
  {
    assert Next(ps + [n], j, n + 1) == Next(ps, j, n);
  }

  /** A column that opens no group leaves the record of every group as it was, provided it does not
      hold `token` or the group is not the last one. */
  lemma AttachedKeptByOther(h: seq<string>, n: nat, ps: seq<nat>, j: nat, token: string, col: Option<nat>)
    requires n < |h| && j < |ps| && forall a :: 0 <= a < |ps| ==> ps[a] < n
    requires h[n] != token || j + 1 < |ps|
    requires AttachedIn(h, n, ps, j, token, col)
    ensures AttachedIn(h, n + 1, ps, j, token, col)
  {
    if j + 1 == |ps| {
      SkipColumn(h, token, ps[j] + 1, n);
    }
  }

  /** A column that neither opens a group nor holds `token` leaves the last group's record as it was. */
  lemma AttachedKeptInLast(h: seq<string>, n: nat, ps: seq<nat>, token: string, col: Option<nat>)
    requires n < |h| && |ps| > 0 && forall a :: 0 <= a < |ps| ==> ps[a] < n
    requires h[n] != token && AttachedIn(h, n, ps, |ps| - 1, token, col)
    ensures AttachedIn(h, n + 1, ps, |ps| - 1, token, col)
  {
    SkipColumn(h, token, ps[|ps| - 1] + 1, n);
  }

  /** Only the last group grows: every earlier one already ends at the next opener. */
  lemma AttachedKeptEarlier(h: seq<string>, n: nat, ps: seq<nat>, j: nat, token: string, col: Option<nat>)
    requires n < |h| && j + 1 < |ps| && forall a :: 0 <= a < |ps| ==> ps[a] < n
    requires AttachedIn(h, n, ps, j, token, col)
    ensures AttachedIn(h, n + 1, ps, j, token, col)
  {
  }

  /** A column holding `token` while the last group holds none is recorded as that group's one occurrence. */
  lemma AttachedToLast(h: seq<string>, n: nat, ps: seq<nat>, token: string, col: Option<nat>)
    requires n < |h| && |ps| > 0 && forall a :: 0 <= a < |ps| ==> ps[a] < n
    requires h[n] == token && |PositionsIn(h, token, ps[|ps| - 1] + 1, n)| == 0
    ensures AttachedIn(h, n + 1, ps, |ps| - 1, token, Some(n))
  {
    var lo := ps[|ps| - 1] + 1;
    assert Next(ps, |ps| - 1, n + 1) == n + 1;
    FirstInSpan(h, token, lo, n);
  }

  lemma FirstInSpan(h: seq<string>, token: string, lo: nat, m: nat)
    requires lo <= m < |h| && h[m] == token && |PositionsIn(h, token, lo, m)| == 0
    ensures PositionsIn(h, token, lo, m + 1) == [m]
  {
    var before := PositionsIn(h, token, lo, m);
    assert before == [];
    assert PositionsIn(h, token, lo, m + 1) == before + [m];
  }

  /** The non-empty cells of `row` at the columns `cols`, in column order. */
  function NonBlankCells(row: Row, cols: seq<nat>): (cells: seq<string>)
    requires forall q :: 0 <= q < |cols| ==> cols[q] < |row|
    ensures |cells| <= |cols|
    ensures forall x :: x in cells ==> x != ""
    decreases |cols|
  {
    if cols == [] then []
    else
      var cell := row[cols[|cols| - 1]];
      NonBlankCells(row, cols[..|cols| - 1]) + (if cell == "" then [] else [cell])
  }

  /** A cell is collected exactly when it is non-empty and stands at one of the columns `cols`. */
  lemma {:induction false} NonBlankCellsMembers(row: Row, cols: seq<nat>)
    requires forall q :: 0 <= q < |cols| ==> cols[q] < |row|
    ensures forall x :: x in NonBlankCells(row, cols) <==>
      x != "" && exists q :: 0 <= q < |cols| && row[cols[q]] == x
    decreases |cols|
  {
    if cols != [] {
      var p := cols[..|cols| - 1];
      var cell := row[cols[|cols| - 1]];
      NonBlankCellsMembers(row, p);
      assert NonBlankCells(row, cols) == NonBlankCells(row, p) + (if cell == "" then [] else [cell]);
      forall x
        ensures x in NonBlankCells(row, cols) <==> x != "" && exists q :: 0 <= q < |cols| && row[cols[q]] == x
      {
        if x in NonBlankCells(row, p) {
          var q :| 0 <= q < |p| && row[p[q]] == x;
          assert row[cols[q]] == x;
        }
        if x != "" && exists q :: 0 <= q < |cols| && row[cols[q]] == x {
          var q :| 0 <= q < |cols| && row[cols[q]] == x;
          if q < |p| {
            assert row[p[q]] == x;
          }
        }
      }
    }
  }

  /** Collects the non-empty cells of `row` at `cols`. */
  method CollectNonBlank(row: Row, cols: seq<nat>) returns (cells: seq<string>)
    requires forall q :: 0 <= q < |cols| ==> cols[q] < |row|
    ensures cells == NonBlankCells(row, cols)
  {
    cells := [];
    var q := 0;
    while q < |cols|
      invariant q <= |cols|
      invariant cells == NonBlankCells(row, cols[..q])
    {
      assert cols[..q + 1][..q] == cols[..q];
      if |row[cols[q]]| > 0 {
        cells := cells + [row[cols[q]]];
      }
      q := q + 1;
    }
    assert cols[..|cols|] == cols;
  }
}
