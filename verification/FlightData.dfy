/** The flight-data reader: one current row per flight, folded file by file and row group by row group,
    and the choice of files that makes reading the older ones unnecessary. Stamps are comparable
    numbers. */
module FlightData {
  import opened Sequences

  datatype Row = Row(key: string, stamp: int, data: string)

  /** An insertion-ordered map from flight key to row. */
  datatype Table = Table(order: seq<string>, held: map<string, Row>)

  const NO_ROWS := Table([], map[])

  ghost predicate Consistent(t: Table) {
    NoDup(t.order) && (forall k :: k in t.order <==> k in t.held) && forall k | k in t.held :: t.held[k].key == k
  }

  function Keep(t: Table, row: Row): Table {
    if row.key !in t.held then Table(t.order + [row.key], t.held[row.key := row])
    else if row.stamp > t.held[row.key].stamp then t.(held := t.held[row.key := row])
    else t
  }

  function Fold(t: Table, rows: seq<Row>): Table {
    if rows == [] then t else Keep(Fold(t, rows[..|rows| - 1]), rows[|rows| - 1])
  }

  lemma FoldSnoc(t: Table, rows: seq<Row>, row: Row)
    ensures Fold(t, rows + [row]) == Keep(Fold(t, rows), row)
  {
    assert (rows + [row])[..|rows|] == rows;
  }

  lemma {:induction false} FoldConcat(t: Table, a: seq<Row>, b: seq<Row>)
    ensures Fold(t, a + b) == Fold(Fold(t, a), b)
  {
    if b == [] {
      assert a + b == a;
    } else {
      var n := |b| - 1;
      assert (a + b)[..|a + b| - 1] == a + b[..n];
      FoldConcat(t, a, b[..n]);
    }
  }

  lemma {:induction false} FoldConsistent(t: Table, rows: seq<Row>)
    requires Consistent(t)
    ensures Consistent(Fold(t, rows))
  {
    if rows != [] {
      FoldConsistent(t, rows[..|rows| - 1]);
    }
  }

  function RowsOf(t: Table): seq<Row>
    requires forall i | 0 <= i < |t.order| :: t.order[i] in t.held
  {
    seq(|t.order|, i requires 0 <= i < |t.order| => t.held[t.order[i]])
  }

  /** The map object the program fills. */
  class Latest {
    var order: seq<string>
    var held: map<string, Row>

    function View(): Table
      reads this
    {
      Table(order, held)
    }

    constructor ()
      ensures View() == NO_ROWS
    {
      order, held := [], map[];
    }

    method KeepLatest(rows: seq<Row>)
      modifies this
      ensures View() == Fold(old(View()), rows)
    {
      ghost var before := View();
      for n := 0 to |rows|
        invariant View() == Fold(before, rows[..n])
      {
        var row := rows[n];
        assert rows[..n + 1] == rows[..n] + [row];
        FoldSnoc(before, rows[..n], row);
        if row.key !in held {
          order := order + [row.key];
          held := held[row.key := row];
        } else if row.stamp > held[row.key].stamp {
          held := held[row.key := row];
        }
      }
      assert rows[..|rows|] == rows;
    }
  }

  /** The current record of every flight in `rows`. */
  function CurrentRecords(rows: seq<Row>): seq<Row> {
    FoldConsistent(NO_ROWS, rows);
    RowsOf(Fold(NO_ROWS, rows))
  }

  method CurrentRecordsOnly(rows: seq<Row>) returns (r: seq<Row>)
    ensures r == CurrentRecords(rows)
  {
    var latest := new Latest();
    latest.KeepLatest(rows);
    FoldConsistent(NO_ROWS, rows);
    r := RowsOf(latest.View());
  }

  // ----- what a current record is ----------------------------------------------------------

  function KeysIn(rows: seq<Row>): (ks: seq<string>)
    ensures |ks| == |rows|
  {
    seq(|rows|, i requires 0 <= i < |rows| => rows[i].key)
  }

  /** `rows[i]` is the earliest row of its flight with the highest stamp of that flight. */
  ghost predicate IsCurrent(rows: seq<Row>, i: nat)
    requires i < |rows|
  {
    forall j | 0 <= j < |rows| && rows[j].key == rows[i].key ::
      rows[j].stamp <= rows[i].stamp && (j < i ==> rows[j].stamp < rows[i].stamp)
  }

  lemma {:induction false} HeldIsCurrent(rows: seq<Row>, k: string) returns (i: nat)
    requires k in Fold(NO_ROWS, rows).held
    ensures i < |rows| && rows[i].key == k && rows[i] == Fold(NO_ROWS, rows).held[k] && IsCurrent(rows, i)
  {
    hide IsCurrent, FirstSeen, NoDup, KeysIn;
    var n := |rows| - 1;
    var init, row := rows[..n], rows[n];
    var t := Fold(NO_ROWS, init);
    if k in t.held {
      i := HeldIsCurrent(init, k);
      CurrentAfterOneMore(init, i, row);
      assert rows == init + [row];
      i := if row.key == k && row.stamp > t.held[k].stamp then n else i;
    } else {
      i := n;
      HeldIffSeen(init, k);
      NewKeyIsCurrent(init, row);
      assert rows == init + [row];
    }
  }

  /** One more row: a newer one of the same flight takes over, any other leaves the current row current. */
  lemma CurrentAfterOneMore(rows: seq<Row>, i: nat, row: Row)
    requires i < |rows| && IsCurrent(rows, i)
    ensures IsCurrent(rows + [row], if row.key == rows[i].key && row.stamp > rows[i].stamp then |rows| else i)
  {
    assert forall j | 0 <= j < |rows| :: (rows + [row])[j] == rows[j];
  }

  lemma NewKeyIsCurrent(rows: seq<Row>, row: Row)
    requires row.key !in KeysIn(rows)
    ensures IsCurrent(rows + [row], |rows|)
  {
    forall j | 0 <= j < |rows| ensures rows[j].key != row.key {
      assert KeysIn(rows)[j] == rows[j].key;
    }
  }

  lemma {:induction false} HeldIffSeen(rows: seq<Row>, k: string)
    ensures k in Fold(NO_ROWS, rows).held <==> k in KeysIn(rows)
    ensures Fold(NO_ROWS, rows).order == FirstSeen(KeysIn(rows))
  {
    if rows != [] {
      var n := |rows| - 1;
      HeldIffSeen(rows[..n], k);
      HeldIffSeen(rows[..n], rows[n].key);
      assert KeysIn(rows) == KeysIn(rows[..n]) + [rows[n].key];
      FirstSeenSnoc(KeysIn(rows[..n]), rows[n].key);
    }
  }

  lemma RecordsAreHeld(rows: seq<Row>, r: Row)
    ensures r in CurrentRecords(rows) <==> r.key in Fold(NO_ROWS, rows).held && Fold(NO_ROWS, rows).held[r.key] == r
  {
    hide Fold, NoDup, FirstSeen, KeysIn;
    var t := Fold(NO_ROWS, rows);
    FoldConsistent(NO_ROWS, rows);
    HeldIffSeen(rows, r.key);
    if r.key in t.held && t.held[r.key] == r {
      var i :| 0 <= i < |t.order| && t.order[i] == r.key;
      assert CurrentRecords(rows)[i] == r;
    }
  }

  /** One record per flight, in the order flights are first met, and each is the earliest of that
      flight's rows with its highest stamp: it is in the result exactly when it is current. */
  lemma CurrentRecordsMeaning(rows: seq<Row>)
    ensures KeysIn(CurrentRecords(rows)) == FirstSeen(KeysIn(rows))
    ensures forall i | 0 <= i < |rows| && IsCurrent(rows, i) :: rows[i] in CurrentRecords(rows)
    ensures forall r | r in CurrentRecords(rows) :: exists i: nat :: i < |rows| && rows[i] == r && IsCurrent(rows, i)
  {
    RecordKeys(rows);
    hide Fold, FirstSeen, KeysIn, NoDup, CurrentRecords;
    forall r | r in CurrentRecords(rows)
      ensures exists i: nat :: i < |rows| && rows[i] == r && IsCurrent(rows, i)
    {
      RecordsAreHeld(rows, r);
      var i := HeldIsCurrent(rows, r.key);
      assert rows[i] == r;
    }
    forall i | 0 <= i < |rows| && IsCurrent(rows, i) ensures rows[i] in CurrentRecords(rows) {
      KeyIsHeld(rows, i);
      var m := HeldIsCurrent(rows, rows[i].key);
      assert m == i;
      RecordsAreHeld(rows, rows[i]);
    }
  }

  lemma KeyIsHeld(rows: seq<Row>, i: nat)
    requires i < |rows|
    ensures rows[i].key in Fold(NO_ROWS, rows).held
  {
    HeldIffSeen(rows, rows[i].key);
    hide Fold, FirstSeen, NoDup;
    assert KeysIn(rows)[i] == rows[i].key;
  }

  lemma RecordKeys(rows: seq<Row>)
    ensures KeysIn(CurrentRecords(rows)) == FirstSeen(KeysIn(rows))
  {
    HeldIffSeen(rows, "");
    FoldConsistent(NO_ROWS, rows);
    hide Fold, FirstSeen, NoDup;
    var t := Fold(NO_ROWS, rows);
    assert forall i | 0 <= i < |t.order| :: KeysIn(CurrentRecords(rows))[i] == t.order[i];
  }

  // ----- reading files ---------------------------------------------------------------------

  function Sum(ns: seq<nat>): nat {
    if ns == [] then 0 else Sum(ns[..|ns| - 1]) + ns[|ns| - 1]
  }

  lemma {:induction false} SumPrefix(ns: seq<nat>, k: nat)
    requires k <= |ns|
    ensures Sum(ns[..k]) <= Sum(ns)
  {
    if k < |ns| {
      SumPrefix(ns[..|ns| - 1], k);
      assert ns[..|ns| - 1][..k] == ns[..k];
    } else {
      assert ns[..k] == ns;
    }
  }

  /** A file's index lists its row groups; together they are the file's rows. */
  datatype LakeFile = LakeFile(size: nat, rows: seq<Row>, groups: seq<nat>)

  predicate Indexed(f: LakeFile) {
    Sum(f.groups) == |f.rows|
  }

  function Concat(files: seq<LakeFile>): seq<Row> {
    if files == [] then [] else Concat(files[..|files| - 1]) + files[|files| - 1].rows
  }

  /** Reads the files one row group at a time; agrees with folding everything at once. */
  method ReadCurrentRecords(files: seq<LakeFile>) returns (r: seq<Row>)
    requires forall i | 0 <= i < |files| :: Indexed(files[i])
    ensures r == CurrentRecords(Concat(files))
  {
    var latest := new Latest();
    for n := 0 to |files|
      invariant fresh(latest)
      invariant latest.View() == Fold(NO_ROWS, Concat(files[..n]))
    {
      ReadFile(latest, files[n]);
      assert files[..n + 1][..n] == files[..n];
      FoldConcat(NO_ROWS, Concat(files[..n]), files[n].rows);
    }
    assert files[..|files|] == files;
    FoldConsistent(NO_ROWS, Concat(files));
    r := RowsOf(latest.View());
  }

  /** The loop over one file's row groups. */
  method ReadFile(latest: Latest, file: LakeFile)
    requires Indexed(file)
    modifies latest
    ensures latest.View() == Fold(old(latest.View()), file.rows)
  {
    ghost var before := latest.View();
    var rowStart := 0;
    for g := 0 to |file.groups|
      invariant rowStart == Sum(file.groups[..g]) <= |file.rows|
      invariant latest.View() == Fold(before, file.rows[..rowStart])
    {
      var rowEnd := rowStart + file.groups[g];
      assert file.groups[..g + 1][..g] == file.groups[..g];
      SumPrefix(file.groups, g + 1);
      assert file.rows[..rowEnd] == file.rows[..rowStart] + file.rows[rowStart..rowEnd];
      FoldConcat(before, file.rows[..rowStart], file.rows[rowStart..rowEnd]);
      latest.KeepLatest(file.rows[rowStart..rowEnd]);
      rowStart := rowEnd;
    }
    assert file.groups[..|file.groups|] == file.groups;
    assert file.rows[..|file.rows|] == file.rows;
  }

  // ----- choosing files --------------------------------------------------------------------

  function Insert(x: nat, s: seq<nat>): seq<nat> {
    if s == [] || x <= s[0] then [x] + s else [s[0]] + Insert(x, s[1..])
  }

  function Sort(s: seq<nat>): seq<nat> {
    if s == [] then [] else Insert(s[0], Sort(s[1..]))
  }

  ghost predicate Ascending(s: seq<nat>) {
    forall i, j | 0 <= i < j < |s| :: s[i] <= s[j]
  }

  lemma {:induction false} InsertSorts(x: nat, s: seq<nat>)
    requires Ascending(s)
    ensures Ascending(Insert(x, s))
  {
    if s != [] && x > s[0] {
      InsertSorts(x, s[1..]);
      InsertStaysAbove(x, s[1..], s[0]);
    }
  }

  lemma {:induction false} InsertStaysAbove(x: nat, s: seq<nat>, low: nat)
    requires low <= x && forall i | 0 <= i < |s| :: low <= s[i]
    ensures forall i | 0 <= i < |Insert(x, s)| :: low <= Insert(x, s)[i]
  {
    if s != [] && x > s[0] {
      InsertStaysAbove(x, s[1..], low);
    }
  }

  lemma {:induction false} InsertPermutes(x: nat, s: seq<nat>)
    ensures multiset(Insert(x, s)) == multiset(s) + multiset{x} && |Insert(x, s)| == |s| + 1
  {
    if s != [] && x > s[0] {
      InsertPermutes(x, s[1..]);
      assert s == [s[0]] + s[1..];
    }
  }

  lemma {:induction false} SortSorts(s: seq<nat>)
    ensures Ascending(Sort(s)) && multiset(Sort(s)) == multiset(s) && |Sort(s)| == |s|
  {
    if s != [] {
      hide Ascending, Insert;
      SortSorts(s[1..]);
      InsertSorts(s[0], Sort(s[1..]));
      InsertPermutes(s[0], Sort(s[1..]));
      assert s == [s[0]] + s[1..];
    }
  }

  function Sizes(files: seq<LakeFile>): (r: seq<nat>)
    ensures |r| == |files|
  {
    seq(|files|, i requires 0 <= i < |files| => files[i].size)
  }

  /** The middle of the ascending sizes, 0 for none. */
  function Typical(files: seq<LakeFile>): nat {
    SortSorts(Sizes(files));
    if files == [] then 0 else Sort(Sizes(files))[|files| / 2]
  }

  /** The newest of the largest files. */
  ghost predicate IsNewestLargest(files: seq<LakeFile>, start: nat) {
    && start < |files|
    && forall i | 0 <= i < |files| :: files[i].size <= files[start].size && (i > start ==> files[i].size < files[start].size)
  }

  function NewestLargest(files: seq<LakeFile>): (start: nat)
    requires files != []
    ensures IsNewestLargest(files, start)
  {
    var n := |files| - 1;
    if n == 0 then 0
    else
      var before := NewestLargest(files[..n]);
      assert forall i | 0 <= i < n :: files[..n][i] == files[i];
      if files[n].size >= files[before].size then n else before
  }

  /** How many files are left unread: those before the newest largest one, when it is ten times the
      typical one or more. */
  function Skipped(files: seq<LakeFile>): (n: nat)
    ensures n < |files| || n == 0
  {
    if files != [] && files[NewestLargest(files)].size >= 10 * Typical(files) then NewestLargest(files) else 0
  }

  method FilesToRead(files: seq<LakeFile>) returns (r: seq<LakeFile>)
    ensures r == files[Skipped(files)..]
  {
    hide Typical;
    var typical := Typical(files);
    var start, largest := 0, 0;
    for index := 0 to |files|
      invariant index == 0 ==> start == 0 && largest == 0
      invariant index > 0 ==> start < index && largest == files[start].size
      invariant forall i | 0 <= i < index :: files[i].size <= largest && (i > start ==> files[i].size < largest)
    {
      if files[index].size >= largest {
        largest := files[index].size;
        start := index;
      }
    }
    assert files != [] ==> IsNewestLargest(files, start) && IsNewestLargest(files, NewestLargest(files));
    r := if largest >= 10 * typical then files[start..] else files;
  }

  // ----- what the middle size is -----------------------------------------------------------

  /** How many of the sizes are below `m`. */
  function Below(s: seq<nat>, m: nat): (n: nat)
    ensures n <= |s|
  {
    if s == [] then 0 else (if s[0] < m then 1 else 0) + Below(s[1..], m)
  }

  /** At most half of the sizes are below `m`, and more than half are not above it. */
  ghost predicate Middle(s: seq<nat>, m: nat) {
    Below(s, m) <= |s| / 2 < Below(s, m + 1)
  }

  lemma {:induction false} BelowInsert(x: nat, s: seq<nat>, m: nat)
    ensures Below(Insert(x, s), m) == Below(s, m) + if x < m then 1 else 0
  {
    if s != [] && x > s[0] {
      BelowInsert(x, s[1..], m);
    }
  }

  lemma {:induction false} BelowSort(s: seq<nat>, m: nat)
    ensures Below(Sort(s), m) == Below(s, m)
  {
    if s != [] {
      BelowSort(s[1..], m);
      BelowInsert(s[0], Sort(s[1..]), m);
    }
  }

  lemma {:induction false} BelowAscending(s: seq<nat>, k: nat, m: nat)
    requires Ascending(s) && k < |s|
    ensures s[k] >= m ==> Below(s, m) <= k
    ensures s[k] < m ==> Below(s, m) > k
  {
    if k > 0 {
      BelowAscending(s[1..], k - 1, m);
      assert s[0] <= s[k];
    } else if s[0] >= m {
      NoneBelow(s, m);
    }
  }

  lemma {:induction false} NoneBelow(s: seq<nat>, m: nat)
    requires forall i | 0 <= i < |s| :: s[i] >= m
    ensures Below(s, m) == 0
  {
    if s != [] {
      NoneBelow(s[1..], m);
    }
  }

  lemma TypicalIsMiddle(files: seq<LakeFile>)
    requires files != []
    ensures Middle(Sizes(files), Typical(files))
  {
    var sizes, m := Sizes(files), Typical(files);
    SortSorts(sizes);
    BelowAscending(Sort(sizes), |sizes| / 2, m);
    BelowAscending(Sort(sizes), |sizes| / 2, m + 1);
    BelowSort(sizes, m);
    BelowSort(sizes, m + 1);
  }

  lemma {:induction false} BelowGrows(s: seq<nat>, m: nat, n: nat)
    requires m <= n
    ensures Below(s, m) <= Below(s, n)
  {
    if s != [] {
      BelowGrows(s[1..], m, n);
    }
  }

  lemma OneMiddle(s: seq<nat>, m: nat, n: nat)
    requires Middle(s, m) && Middle(s, n)
    ensures m == n
  {
    if m < n {
      BelowGrows(s, m + 1, n);
    } else if n < m {
      BelowGrows(s, n + 1, m);
    }
  }

  /** Reading starts at the newest of the largest files exactly when it is ten times the middle size or more, and
      at the oldest file otherwise. */
  lemma SkippedMeaning(files: seq<LakeFile>, start: nat, middle: nat)
    requires IsNewestLargest(files, start) && Middle(Sizes(files), middle)
    ensures Skipped(files) == if files[start].size >= 10 * middle then start else 0
  {
    hide Typical, Middle;
    TypicalIsMiddle(files);
    OneMiddle(Sizes(files), Typical(files), middle);
    assert IsNewestLargest(files, NewestLargest(files));
    hide NewestLargest;
  }

  // ----- skipping the older files ----------------------------------------------------------

  /** The row that wins when later rows are folded after earlier ones. */
  function Winner(early: map<string, Row>, late: map<string, Row>, k: string): Option<Row> {
    if k in late && (k !in early || late[k].stamp > early[k].stamp) then Some(late[k])
    else if k in early then Some(early[k])
    else None
  }

  function Lookup(m: map<string, Row>, k: string): Option<Row> {
    if k in m then Some(m[k]) else None
  }

  lemma {:induction false} FoldMerges(a: seq<Row>, b: seq<Row>, k: string)
    ensures Lookup(Fold(NO_ROWS, a + b).held, k) == Winner(Fold(NO_ROWS, a).held, Fold(NO_ROWS, b).held, k)
  {
    if b == [] {
      assert a + b == a;
    } else {
      hide Keep, Winner, Lookup;
      var n := |b| - 1;
      FoldMerges(a, b[..n], k);
      FoldMerges(a, b[..n], b[n].key);
      assert a + b == (a + b[..n]) + [b[n]];
      FoldSnoc(NO_ROWS, a + b[..n], b[n]);
      MergeStep(Fold(NO_ROWS, a + b[..n]), Fold(NO_ROWS, a).held, Fold(NO_ROWS, b[..n]), b[n], k);
    }
  }

  lemma MergeStep(all: Table, early: map<string, Row>, late: Table, row: Row, k: string)
    requires Lookup(all.held, k) == Winner(early, late.held, k)
    requires Lookup(all.held, row.key) == Winner(early, late.held, row.key)
    ensures Lookup(Keep(all, row).held, k) == Winner(early, Keep(late, row).held, k)
  {
  }

  /** For every flight in `a`, the rows `b` hold a newer current record or the same one. */
  ghost predicate HeldByRest(a: seq<Row>, b: seq<Row>) {
    var early, late := Fold(NO_ROWS, a).held, Fold(NO_ROWS, b).held;
    forall k | k in early :: k in late && (late[k].stamp > early[k].stamp || late[k] == early[k])
  }

  /** Skipping `a` changes no current record exactly when the rest holds all of it. */
  lemma SkipIff(a: seq<Row>, b: seq<Row>)
    ensures Fold(NO_ROWS, a + b).held == Fold(NO_ROWS, b).held <==> HeldByRest(a, b)
  {
    var early, late, all := Fold(NO_ROWS, a).held, Fold(NO_ROWS, b).held, Fold(NO_ROWS, a + b).held;
    forall k ensures Lookup(all, k) == Winner(early, late, k) {
      FoldMerges(a, b, k);
    }
    hide Fold;
    if HeldByRest(a, b) {
      forall k ensures Lookup(all, k) == Lookup(late, k) {
      }
      SameLookups(all, late);
    }
    if all == late {
      forall k | k in early ensures k in late && (late[k].stamp > early[k].stamp || late[k] == early[k]) {
        assert Lookup(all, k) == Winner(early, late, k);
      }
    }
  }

  lemma SameLookups(m: map<string, Row>, n: map<string, Row>)
    requires forall k :: Lookup(m, k) == Lookup(n, k)
    ensures m == n
  {
    forall k ensures k in m <==> k in n {
      assert Lookup(m, k) == Lookup(n, k);
    }
    forall k | k in m ensures m[k] == n[k] {
      assert Lookup(m, k) == Lookup(n, k);
    }
  }

  /** `whole` holds every flight of `a` at a stamp at least as new. */
  ghost predicate HoldsAll(whole: seq<Row>, a: seq<Row>) {
    forall i | 0 <= i < |a| :: exists j :: 0 <= j < |whole| && whole[j].key == a[i].key && whole[j].stamp >= a[i].stamp
  }

  ghost predicate EqualStampsEqualRows(a: seq<Row>, b: seq<Row>) {
    forall i, j | 0 <= i < |a| && 0 <= j < |b| && a[i].key == b[j].key && a[i].stamp == b[j].stamp :: a[i] == b[j]
  }

  /** The flight of a row in `whole` still has a record after more rows, at least as new. */
  lemma StillHeldAsNew(whole: seq<Row>, more: seq<Row>, j: nat) returns (m: nat)
    requires j < |whole|
    ensures
      var late := Fold(NO_ROWS, whole + more).held;
      && m < |whole + more|
      && whole[j].key in late
      && late[whole[j].key] == (whole + more)[m]
      && late[whole[j].key].stamp >= whole[j].stamp
  {
    var b := whole + more;
    assert b[j] == whole[j];
    KeyIsHeld(b, j);
    m := HeldIsCurrent(b, whole[j].key);
    assert b[j].stamp <= b[m].stamp;
  }

  /** When the file read first is a complete copy of everything before it, the older files may be
      skipped: every flight keeps the record it would have had. */
  lemma CompleteCopyMakesSkipSafe(a: seq<Row>, copy: seq<Row>, newer: seq<Row>)
    requires HoldsAll(copy, a)
    requires EqualStampsEqualRows(a, copy + newer)
    ensures Fold(NO_ROWS, a + (copy + newer)).held == Fold(NO_ROWS, copy + newer).held
  {
    hide Fold, IsCurrent;
    var b := copy + newer;
    var early, late := Fold(NO_ROWS, a).held, Fold(NO_ROWS, b).held;
    forall k | k in early ensures k in late && (late[k].stamp > early[k].stamp || late[k] == early[k]) {
      var i := HeldIsCurrent(a, k);
      var j :| 0 <= j < |copy| && copy[j].key == a[i].key && copy[j].stamp >= a[i].stamp;
      var m := StillHeldAsNew(copy, newer, j);
      FoldConsistent(NO_ROWS, b);
      assert late[k].key == k;
    }
    SkipIff(a, b);
  }

  /** The file reading starts from holds every earlier flight at a stamp at least as new, and a flight
      stated twice at one stamp is stated alike. */
  ghost predicate StartsFromCompleteCopy(files: seq<LakeFile>, start: nat)
    requires start < |files|
  {
    && HoldsAll(files[start].rows, Concat(files[..start]))
    && EqualStampsEqualRows(Concat(files[..start]), Concat(files[start..]))
  }

  /** Leaving out the first `n` files changes no record exactly when the rest hold all of them. */
  lemma SkipKeepsRecordsIff(files: seq<LakeFile>, n: nat)
    requires n <= |files|
    ensures multiset(CurrentRecords(Concat(files[n..]))) == multiset(CurrentRecords(Concat(files))) <==>
            HeldByRest(Concat(files[..n]), Concat(files[n..]))
  {
    hide Fold, CurrentRecords, Concat, HeldByRest;
    assert files == files[..n] + files[n..];
    ConcatSplit(files[..n], files[n..]);
    SkipIff(Concat(files[..n]), Concat(files[n..]));
    SameHeldIffSameRecords(Concat(files), Concat(files[n..]));
  }

  lemma CompleteCopyHolds(files: seq<LakeFile>, start: nat)
    requires start < |files| && StartsFromCompleteCopy(files, start)
    ensures HeldByRest(Concat(files[..start]), Concat(files[start..]))
  {
    hide Fold, HoldsAll, EqualStampsEqualRows, Concat, HeldByRest;
    var copy, newer := files[start], files[start + 1..];
    ConcatSplit([copy], newer);
    ConcatOne(copy);
    assert files[start..] == [copy] + newer;
    CompleteCopyMakesSkipSafe(Concat(files[..start]), copy.rows, Concat(newer));
    SkipIff(Concat(files[..start]), Concat(files[start..]));
  }

  lemma SameHeldIffSameRecords(a: seq<Row>, b: seq<Row>)
    ensures Fold(NO_ROWS, a).held == Fold(NO_ROWS, b).held <==>
            multiset(CurrentRecords(a)) == multiset(CurrentRecords(b))
  {
    hide Fold, CurrentRecords;
    if Fold(NO_ROWS, a).held == Fold(NO_ROWS, b).held {
      SameHeldSameRecords(a, b);
    }
    if multiset(CurrentRecords(a)) == multiset(CurrentRecords(b)) {
      var m, n := Fold(NO_ROWS, a).held, Fold(NO_ROWS, b).held;
      forall k ensures Lookup(m, k) == Lookup(n, k) {
        HeldThere(a, b, k);
        HeldThere(b, a, k);
      }
      SameLookups(m, n);
    }
  }

  lemma HeldThere(a: seq<Row>, b: seq<Row>, k: string)
    requires multiset(CurrentRecords(a)) == multiset(CurrentRecords(b))
    ensures k in Fold(NO_ROWS, a).held ==> Lookup(Fold(NO_ROWS, b).held, k) == Some(Fold(NO_ROWS, a).held[k])
  {
    FoldConsistent(NO_ROWS, a);
    hide Fold, CurrentRecords, NoDup;
    if k in Fold(NO_ROWS, a).held {
      var r := Fold(NO_ROWS, a).held[k];
      RecordsAreHeld(a, r);
      assert r in multiset(CurrentRecords(b));
      RecordsAreHeld(b, r);
    }
  }

  lemma SameHeldSameRecords(a: seq<Row>, b: seq<Row>)
    requires Fold(NO_ROWS, a).held == Fold(NO_ROWS, b).held
    ensures multiset(CurrentRecords(a)) == multiset(CurrentRecords(b))
  {
    RecordsDistinct(a);
    RecordsDistinct(b);
    hide Fold, CurrentRecords, NoDup;
    forall r: Row ensures multiset(CurrentRecords(a))[r] == multiset(CurrentRecords(b))[r] {
      RecordsAreHeld(a, r);
      RecordsAreHeld(b, r);
      NoDupMultiset(CurrentRecords(a), r);
      NoDupMultiset(CurrentRecords(b), r);
    }
  }

  lemma RecordsDistinct(rows: seq<Row>)
    ensures NoDup(CurrentRecords(rows))
  {
    RecordKeys(rows);
    hide FirstSeen, CurrentRecords, Fold;
    var rs := CurrentRecords(rows);
    forall i, j | 0 <= i < j < |rs| ensures rs[i] != rs[j] {
      assert KeysIn(rs)[i] != KeysIn(rs)[j];
    }
  }

  /** The whole query: every flight once, with the current records of the files read. They are those that
      reading every file would give exactly when the files read hold every skipped flight at a newer
      record or the same one: so when none is skipped, or when the file reading starts from is a complete
      copy. */
  method CurrentFlights(files: seq<LakeFile>) returns (r: seq<Row>)
    requires forall i | 0 <= i < |files| :: Indexed(files[i])
    ensures NoDup(KeysIn(r))
    ensures r == CurrentRecords(Concat(files[Skipped(files)..]))
    ensures multiset(r) == multiset(CurrentRecords(Concat(files))) <==>
            HeldByRest(Concat(files[..Skipped(files)]), Concat(files[Skipped(files)..]))
    ensures Skipped(files) == 0 || StartsFromCompleteCopy(files, Skipped(files)) ==>
              multiset(r) == multiset(CurrentRecords(Concat(files)))
  {
    var chosen := FilesToRead(files);
    r := ReadCurrentRecords(chosen);
    RecordKeys(Concat(chosen));
    hide Fold, CurrentRecords, FirstSeen, Concat, Typical, StartsFromCompleteCopy, KeysIn, Indexed, HeldByRest;
    SkipKeepsRecordsIff(files, Skipped(files));
    if Skipped(files) == 0 {
      assert files[0..] == files;
    } else if StartsFromCompleteCopy(files, Skipped(files)) {
      CompleteCopyHolds(files, Skipped(files));
    }
  }

  lemma {:induction false} ConcatSplit(x: seq<LakeFile>, y: seq<LakeFile>)
    ensures Concat(x + y) == Concat(x) + Concat(y)
  {
    if y == [] {
      assert x + y == x;
    } else {
      var n := |y| - 1;
      assert (x + y)[..|x + y| - 1] == x + y[..n];
      ConcatSplit(x, y[..n]);
    }
  }

  lemma ConcatOne(f: LakeFile)
    ensures Concat([f]) == f.rows
  {
    assert [f][..0] == [];
  }
}
