/**
  A model of the dataset bookkeeping in the Fisher corpus importer
  (util/importers/fisher.py): how a producer thread walks the file list,
  how many batches an epoch has and how large the example queue is, how a
  file list is ordered, partitioned and thinned out, and how a transcript
  file is cut into segments and mapped to per-channel audio files.
*/
module FisherImporter {

  // ---------------------------------------------------------------------
  // Errors
  // ---------------------------------------------------------------------

  /** The Python exceptions the modelled code raises on bad input. */
  datatype Error =
    | DivisionByZero          // ZeroDivisionError: `% 0` or `/ 0`
    | SliceStepZero           // ValueError: a slice with step 0
    | MissingField(line: nat) // IndexError: transcript line `line` has fewer than three tokens

  datatype Result<T> = Success(value: T) | Failure(error: Error)

  // ---------------------------------------------------------------------
  // Rows of a split
  // ---------------------------------------------------------------------

  /** One row of a split's table: the columns wav_filename, wav_filesize, transcript. */
  datatype Row = Row(wavFilename: string, wavFilesize: int, transcript: string)

  /** One row of `_files_list`: the two columns the producers read. */
  datatype FileEntry = FileEntry(wavFilename: string, transcript: string)

  // ---------------------------------------------------------------------
  // Row traversal: DataSet._indices
  // ---------------------------------------------------------------------

  /** The default advance function of a DataSet, `lambda x: x + 1`. */
  function DefaultNextIndex(x: int): int
  {
    x + 1
  }

  /** The generator's local `index` after it has yielded `k` rows of a list
      of `n` rows, every step applying `next` and reducing modulo `n`
      (Python's `%` and Dafny's agree for a positive divisor). */
  function IndexAfter(next: int -> int, n: nat, k: nat): (r: int)
    requires n > 0 || k == 0
    ensures k == 0 ==> r == -1
    ensures k > 0 ==> 0 <= r < n
  {
    if k == 0 then -1 else next(IndexAfter(next, n, k - 1)) % n
  }

  lemma MultiplyMonotonic(x: int, y: int, b: nat)
    requires x <= y
    ensures x * b <= y * b
  {
    assert y * b - x * b == (y - x) * b;
  }

  lemma MultiplySuccessor(n: int, b: int)
    ensures (n + 1) * b == n * b + b
  {
  }

  /** Euclidean remainders are unique. */
  lemma ModUnique(a: int, n: nat, q: int, r: int)
    requires n > 0 && 0 <= r < n && a == q * n + r
    ensures a % n == r
  {
    var q', r' := a / n, a % n;
    assert a == q' * n + r';
    if q' < q {
      MultiplyMonotonic(q' + 1, q, n);
    } else if q' > q {
      MultiplyMonotonic(q + 1, q', n);
    }
  }

  lemma ModSuccessor(a: int, n: nat)
    requires n > 0
    ensures (a % n + 1) % n == (a + 1) % n
  {
    var q, r := a / n, a % n;
    assert a == q * n + r;
    if r + 1 < n {
      ModUnique(r + 1, n, 0, r + 1);
      ModUnique(a + 1, n, q, r + 1);
    } else {
      ModUnique(n, n, 1, 0);
      assert (q + 1) * n == q * n + n;
      ModUnique(a + 1, n, q + 1, 0);
    }
  }

  /** With the default advance function, the k-th row yielded (counting
      from 0) is row `k % n`: traversal wraps around the list. */
  lemma {:induction false} DefaultTraversal(n: nat, k: nat)
    requires n > 0
    ensures IndexAfter(DefaultNextIndex, n, k + 1) == k % n
  {
    if k > 0 {
      DefaultTraversal(n, k - 1);
      ModSuccessor(k - 1, n);
    }
  }

  /** What one call of `next()` on the generator gives back. */
  datatype Step =
    | Yielded(row: FileEntry) // the generator yields a row
    | Exhausted               // StopIteration: the stop flag was seen (now or earlier)
    | Raised(error: Error)    // the generator raised, and is finished

  /** The state of one `_indices()` generator.  Every producer thread calls
      `_indices()` itself, so each has a cursor of its own. */
  class RowCursor {
    const filesList: seq<FileEntry>
    const nextIndex: int -> int
    var index: int
    var finished: bool
    ghost var steps: nat
    ghost var yielded: seq<FileEntry>

    ghost predicate Valid()
      reads this
    {
      && (filesList == [] ==> steps == 0)
      && index == IndexAfter(nextIndex, |filesList|, steps)
      && |yielded| == steps
      && forall k :: 0 <= k < steps ==>
           yielded[k] == filesList[IndexAfter(nextIndex, |filesList|, k + 1)]
    }

    /** The generator as `_indices()` creates it: `index = -1`. */
    constructor (filesList: seq<FileEntry>, nextIndex: int -> int)
      ensures Valid()
      ensures this.filesList == filesList && this.nextIndex == nextIndex
      ensures index == -1 && !finished && yielded == []
    {
      this.filesList := filesList;
      this.nextIndex := nextIndex;
      index := -1;
      finished := false;
      steps := 0;
      yielded := [];
    }

    /** One resumption of the generator; `shouldStop` is what
        `coord.should_stop()` answers at the loop test. */
    method Next(shouldStop: bool) returns (step: Step)
      requires Valid()
      modifies this
      ensures Valid()
      ensures old(finished) ==>
        step == Exhausted && finished && index == old(index) && yielded == old(yielded)
      ensures !old(finished) && shouldStop ==>
        step == Exhausted && finished && index == old(index) && yielded == old(yielded)
      ensures !old(finished) && !shouldStop && filesList == [] ==>
        step == Raised(DivisionByZero) && finished && index == old(index) && yielded == old(yielded)
      ensures !old(finished) && !shouldStop && filesList != [] ==>
        && !finished
        && index == nextIndex(old(index)) % |filesList|
        && 0 <= index < |filesList|
        && step == Yielded(filesList[index])
        && yielded == old(yielded) + [filesList[index]]
    {
      if finished {
        step := Exhausted;
      } else if shouldStop {
        finished := true;
        step := Exhausted;
      } else if |filesList| == 0 {
        finished := true;
        step := Raised(DivisionByZero);
      } else {
        index := nextIndex(index) % |filesList|;
        steps := steps + 1;
        yielded := yielded + [filesList[index]];
        step := Yielded(filesList[index]);
      }
    }
  }

  /** A cursor with the default advance function has yielded the rows
      0, 1, ..., n - 1, 0, 1, ... of its list, in that order. */
  lemma DefaultCursorYieldsInOrder(c: RowCursor)
    requires c.Valid()
    requires c.nextIndex == DefaultNextIndex
    ensures forall k :: 0 <= k < |c.yielded| ==> c.yielded[k] == c.filesList[k % |c.filesList|]
  {
    forall k | 0 <= k < |c.yielded|
      ensures c.yielded[k] == c.filesList[k % |c.filesList|]
    {
      DefaultTraversal(|c.filesList|, k);
    }
  }

  // ---------------------------------------------------------------------
  // Batch and capacity arithmetic
  // ---------------------------------------------------------------------

  lemma CeilingDivision(n: nat, b: nat)
    requires b > 0
    ensures var t := (n + b - 1) / b; t * b >= n && (t - 1) * b < n
  {
    var t, r := (n + b - 1) / b, (n + b - 1) % b;
    assert n + b - 1 == t * b + r;
    assert (t - 1) * b == t * b - b;
  }

  /** `DataSet.total_batches`: `int(ceil(len(filelist) / batch_size))`. */
  function TotalBatches(rowCount: nat, batchSize: nat): (r: Result<nat>)
    ensures batchSize == 0 <==> r.Failure?
    ensures r.Failure? ==> r.error == DivisionByZero
    ensures r.Success? ==> r.value * batchSize >= rowCount && (r.value - 1) * batchSize < rowCount
  {
    if batchSize == 0 then Failure(DivisionByZero)
    else
      CeilingDivision(rowCount, batchSize);
      Success((rowCount + batchSize - 1) / batchSize)
  }

  /** The batch count is the only number with those two bounds: it is the
      ceiling of rowCount / batchSize. */
  lemma TotalBatchesIsCeiling(rowCount: nat, batchSize: nat, t: int)
    requires batchSize > 0
    requires t * batchSize >= rowCount && (t - 1) * batchSize < rowCount
    ensures TotalBatches(rowCount, batchSize) == Success(t)
  {
    var u := TotalBatches(rowCount, batchSize).value;
    if u < t {
      MultiplyMonotonic(u, t - 1, batchSize);
    } else if u > t {
      MultiplyMonotonic(t, u - 1, batchSize);
    }
  }

  /** An epoch of `total_batches` batches runs past the end of the list by
      fewer than one batch, and with the default traversal those extra
      steps re-read rows from the start of the list. */
  lemma FinalBatchReusesInitialRows(rowCount: nat, batchSize: nat, k: nat)
    requires 0 < batchSize <= rowCount
    requires rowCount <= k < TotalBatches(rowCount, batchSize).value * batchSize
    ensures k - rowCount < batchSize
    ensures IndexAfter(DefaultNextIndex, rowCount, k + 1) == k - rowCount
  {
    DefaultTraversal(rowCount, k);
    var t := TotalBatches(rowCount, batchSize).value;
    assert (t - 1) * batchSize == t * batchSize - batchSize;
    ModUnique(k, rowCount, 1, k - rowCount);
  }

  /** `DataSet._get_device_count`: `max(len(available_gpus), 1)`. */
  function DeviceCount(gpus: seq<string>): (r: nat)
    ensures r >= 1 && r >= |gpus|
    ensures r == 1 || r == |gpus|
  {
    if |gpus| > 1 then |gpus| else 1
  }

  /** The capacity of the example queue: `2 * device_count * batch_size`. */
  function QueueCapacity(gpus: seq<string>, batchSize: nat): (r: nat)
    ensures r >= 2 * batchSize
    ensures r >= 2 * |gpus| * batchSize
    ensures r == 2 * batchSize || r == 2 * |gpus| * batchSize
  {
    var d := DeviceCount(gpus);
    MultiplyMonotonic(1, d, 2 * batchSize);
    MultiplyMonotonic(|gpus|, d, 2 * batchSize);
    2 * d * batchSize
  }

  // ---------------------------------------------------------------------
  // DataSet._create_files_list: sort by wav_filesize, keep two columns
  // ---------------------------------------------------------------------

  predicate SortedBySize(rows: seq<Row>)
  {
    forall i, j :: 0 <= i < j < |rows| ==> rows[i].wavFilesize <= rows[j].wavFilesize
  }

  lemma SortedCons(h: Row, rest: seq<Row>)
    requires SortedBySize(rest)
    requires rest == [] || h.wavFilesize <= rest[0].wavFilesize
    ensures SortedBySize([h] + rest)
  {
    var r := [h] + rest;
    forall i, j | 0 <= i < j < |r|
      ensures r[i].wavFilesize <= r[j].wavFilesize
    {
      if i == 0 && j > 1 {
        assert rest[0].wavFilesize <= rest[j - 1].wavFilesize;
      }
    }
  }

  /** Inserts `x` before the first row that is at least as large. */
  function InsertBySize(x: Row, sorted: seq<Row>): (r: seq<Row>)
    ensures multiset(r) == multiset(sorted) + multiset{x}
    ensures r[0] == x || (sorted != [] && r[0] == sorted[0])
  {
    if sorted == [] then [x]
    else if x.wavFilesize <= sorted[0].wavFilesize then [x] + sorted
    else
      var rest := InsertBySize(x, sorted[1..]);
      assert sorted == [sorted[0]] + sorted[1..];
      [sorted[0]] + rest
  }

  lemma HeadTail(s: seq<Row>)
    requires s != []
    ensures [s[0]] + s[1..] == s
  {
  }

  lemma InsertPastHead(x: Row, sorted: seq<Row>)
    requires sorted != [] && x.wavFilesize > sorted[0].wavFilesize
    ensures InsertBySize(x, sorted) == [sorted[0]] + InsertBySize(x, sorted[1..])
  {
  }

  /** Insertion into a sorted list gives a sorted list. */
  lemma {:induction false} InsertKeepsSorted(x: Row, sorted: seq<Row>)
    requires SortedBySize(sorted)
    ensures SortedBySize(InsertBySize(x, sorted))
    decreases |sorted|
  {
    if sorted == [] {
    } else if x.wavFilesize <= sorted[0].wavFilesize {
      SortedCons(x, sorted);
    } else {
      InsertKeepsSorted(x, sorted[1..]);
      InsertPastHead(x, sorted);
      SortedCons(sorted[0], InsertBySize(x, sorted[1..]));
    }
  }

  /** `sort_values(by="wav_filesize")`: a permutation of the rows whose
      sizes are nondecreasing. */
  function SortBySize(rows: seq<Row>): (r: seq<Row>)
    ensures SortedBySize(r)
    ensures multiset(r) == multiset(rows)
  {
    if rows == [] then []
    else
      assert rows == [rows[0]] + rows[1..];
      InsertKeepsSorted(rows[0], SortBySize(rows[1..]));
      InsertBySize(rows[0], SortBySize(rows[1..]))
  }

  function Entry(row: Row): FileEntry
  {
    FileEntry(row.wavFilename, row.transcript)
  }

  /** `.ix[:, ["wav_filename", "transcript"]]`: the two columns, row by row. */
  function Project(rows: seq<Row>): (r: seq<FileEntry>)
    ensures |r| == |rows|
  {
    if rows == [] then [] else [Entry(rows[0])] + Project(rows[1..])
  }

  /** Position i of the projection is the projection of row i. */
  lemma {:induction false} ProjectAt(rows: seq<Row>, i: nat)
    requires i < |rows|
    ensures Project(rows)[i] == Entry(rows[i])
    decreases i
  {
    if i > 0 {
      ProjectAt(rows[1..], i - 1);
    }
  }

  lemma ProjectCons(h: Row, rest: seq<Row>)
    ensures Project([h] + rest) == [Entry(h)] + Project(rest)
  {
    assert ([h] + rest)[1..] == rest;
  }

  /** Putting the same row in front of both sides keeps an insertion claim. */
  lemma ProjectConsInsert(h: Row, x: Row, tail: seq<Row>, rest: seq<Row>)
    requires multiset(Project(rest)) == multiset(Project(tail)) + multiset{Entry(x)}
    ensures multiset(Project([h] + rest)) == multiset(Project([h] + tail)) + multiset{Entry(x)}
  {
    ProjectCons(h, rest);
    ProjectCons(h, tail);
  }

  lemma {:induction false} ProjectInsert(x: Row, sorted: seq<Row>)
    ensures multiset(Project(InsertBySize(x, sorted))) == multiset(Project(sorted)) + multiset{Entry(x)}
    decreases |sorted|
  {
    if sorted == [] {
      ProjectCons(x, []);
    } else if x.wavFilesize <= sorted[0].wavFilesize {
      ProjectCons(x, sorted);
    } else {
      InsertPastHead(x, sorted);
      ProjectInsert(x, sorted[1..]);
      ProjectConsInsert(sorted[0], x, sorted[1..], InsertBySize(x, sorted[1..]));
      HeadTail(sorted);
    }
  }

  /** Sorting and then projecting keeps every projected row, as often as it occurs. */
  lemma {:induction false} ProjectSortPermutation(rows: seq<Row>)
    ensures multiset(Project(SortBySize(rows))) == multiset(Project(rows))
    decreases |rows|
  {
    if rows != [] {
      ProjectSortPermutation(rows[1..]);
      ProjectInsert(rows[0], SortBySize(rows[1..]));
    }
  }

  /** `DataSet._create_files_list`. */
  function CreateFilesList(rows: seq<Row>): (r: seq<FileEntry>)
    ensures multiset(r) == multiset(Project(rows))
    ensures exists sorted :: multiset(sorted) == multiset(rows) && SortedBySize(sorted) && r == Project(sorted)
  {
    var sorted := SortBySize(rows);
    ProjectSortPermutation(rows);
    assert multiset(sorted) == multiset(rows) && SortedBySize(sorted);
    Project(sorted)
  }

  /** Any two positions of the files list come from rows of the input
      whose sizes are in the order of the positions. */
  lemma FilesListOrderedBySize(rows: seq<Row>, i: nat, j: nat)
    requires i < j < |rows|
    ensures |CreateFilesList(rows)| == |rows|
    ensures exists ri, rj ::
      && ri in rows && rj in rows
      && Entry(ri) == CreateFilesList(rows)[i] && Entry(rj) == CreateFilesList(rows)[j]
      && ri.wavFilesize <= rj.wavFilesize
  {
    var s := SortBySize(rows);
    ProjectAt(s, i);
    ProjectAt(s, j);
    assert s[i] in multiset(s) && s[j] in multiset(s);
    assert s[i] in rows && s[j] in rows;
  }

  // ---------------------------------------------------------------------
  // _split_sets
  // ---------------------------------------------------------------------

  /** A split of a file list into train, dev and test parts. */
  datatype Partition<T> = Partition(train: seq<T>, dev: seq<T>, test: seq<T>)

  /** `int(0.8 * n)`, computed as `4 * n / 5` (see the README). */
  function EightyPercent(n: nat): (r: nat)
    ensures 5 * r <= 4 * n < 5 * r + 5
    ensures r <= n
  {
    4 * n / 5
  }

  /** `_split_sets`: 80% train+dev and 20% test, then the train+dev part
      80% train and 20% dev, as contiguous slices in list order. */
  function SplitSets<T>(filelist: seq<T>): (r: Partition<T>)
    ensures r.train + r.dev + r.test == filelist
    ensures 5 * (|r.train| + |r.dev|) <= 4 * |filelist| < 5 * (|r.train| + |r.dev|) + 5
    ensures 5 * |r.train| <= 4 * (|r.train| + |r.dev|) < 5 * |r.train| + 5
  {
    var trainEnd := EightyPercent(|filelist|);
    var devBeg := EightyPercent(trainEnd);
    assert filelist[..devBeg] + filelist[devBeg..trainEnd] == filelist[..trainEnd];
    Partition(filelist[..devBeg], filelist[devBeg..trainEnd], filelist[trainEnd..])
  }

  /** From three rows on, none of the three parts is empty. */
  lemma SplitSetsNonEmpty<T>(filelist: seq<T>)
    requires |filelist| >= 3
    ensures SplitSets(filelist).train != []
    ensures SplitSets(filelist).dev != []
    ensures SplitSets(filelist).test != []
  {
    var p := SplitSets(filelist);
    assert |p.train| + |p.dev| + |p.test| == |filelist|;
  }

  // ---------------------------------------------------------------------
  // _read_data_set: limit, then [offset::stride]
  // ---------------------------------------------------------------------

  /** `filelist.iloc[:limit]` when `limit > 0`, else the whole list. */
  function ApplyLimit<T>(filelist: seq<T>, limit: int): (r: seq<T>)
    ensures |r| <= |filelist| && r == filelist[..|r|]
    ensures limit > 0 ==> |r| == if limit < |filelist| then limit else |filelist|
    ensures limit <= 0 ==> r == filelist
  {
    if 0 < limit < |filelist| then filelist[..limit] else filelist
  }

  /** Python's clamping of a slice start for a positive step. */
  function ClampStartUp(start: int, len: nat): (r: nat)
    ensures r <= len
    ensures 0 <= start <= len ==> r == start
    ensures start > len ==> r == len
    ensures start < 0 ==> r == if start + len < 0 then 0 else start + len
  {
    if start < 0 then (if start + len < 0 then 0 else start + len)
    else if start >= len then len
    else start
  }

  /** Python's clamping of a slice start for a negative step. */
  function ClampStartDown(start: int, len: nat): (r: int)
    ensures -1 <= r < len
    ensures 0 <= start < len ==> r == start
    ensures start >= len ==> r == len - 1
    ensures start < 0 ==> r == if start + len < 0 then -1 else start + len
  {
    if start < 0 then (if start + len < 0 then -1 else start + len)
    else if start >= len then len - 1
    else start
  }

  /** `l[start::step]` for a positive step, `start` already clamped. */
  function StridedUp<T>(l: seq<T>, start: nat, step: nat): seq<T>
    requires step > 0
    decreases |l| - start
  {
    if start >= |l| then [] else [l[start]] + StridedUp(l, start + step, step)
  }

  /** `l[start::step]` for a negative step, `start` already clamped. */
  function StridedDown<T>(l: seq<T>, start: int, step: int): seq<T>
    requires step < 0 && start < |l|
    decreases start + 1
  {
    if start < 0 then [] else [l[start]] + StridedDown(l, start + step, step)
  }

  /** The j-th element of `l[start::step]` is `l[start + j * step]`. */
  lemma {:induction false} StridedUpAt<T>(l: seq<T>, start: nat, step: nat, j: nat)
    requires step > 0 && j < |StridedUp(l, start, step)|
    ensures start + j * step < |l| && StridedUp(l, start, step)[j] == l[start + j * step]
    decreases j
  {
    if j > 0 {
      StridedUpAt(l, start + step, step, j - 1);
      MultiplySuccessor(j - 1, step);
    }
  }

  /** `l[start::step]` stops at the first position past the end. */
  lemma {:induction false} StridedUpEnd<T>(l: seq<T>, start: nat, step: nat)
    requires step > 0
    ensures start + |StridedUp(l, start, step)| * step >= |l|
    decreases |l| - start
  {
    if start < |l| {
      var n := |StridedUp(l, start + step, step)|;
      StridedUpEnd(l, start + step, step);
      assert |StridedUp(l, start, step)| == n + 1;
      MultiplySuccessor(n, step);
    }
  }

  lemma {:induction false} StridedDownAt<T>(l: seq<T>, start: int, step: int, j: nat)
    requires step < 0 && start < |l| && j < |StridedDown(l, start, step)|
    ensures 0 <= start + j * step && StridedDown(l, start, step)[j] == l[start + j * step]
    decreases j
  {
    if j > 0 {
      StridedDownAt(l, start + step, step, j - 1);
      MultiplySuccessor(j - 1, step);
    }
  }

  lemma {:induction false} StridedDownEnd<T>(l: seq<T>, start: int, step: int)
    requires step < 0 && start < |l|
    ensures start + |StridedDown(l, start, step)| * step < 0
    decreases start + 1
  {
    if start >= 0 {
      var n := |StridedDown(l, start + step, step)|;
      StridedDownEnd(l, start + step, step);
      MultiplySuccessor(n, step);
    }
  }

  /** `r` holds exactly the elements `l[s + j * step]`, j = 0, 1, ..., that
      lie below `m`, in that order (a positive step). */
  ghost predicate SelectedUp<T>(l: seq<T>, m: int, s: int, step: int, r: seq<T>)
  {
    && m <= |l|
    && (forall j :: 0 <= j < |r| ==> 0 <= s + j * step < m && r[j] == l[s + j * step])
    && s + |r| * step >= m
  }

  /** `r` holds exactly the elements `l[s + j * step]`, j = 0, 1, ..., that
      lie at or above 0, in that order (a negative step, `s < |l|`). */
  ghost predicate SelectedDown<T>(l: seq<T>, s: int, step: int, r: seq<T>)
  {
    && s < |l|
    && (forall j :: 0 <= j < |r| ==> 0 <= s + j * step < |l| && r[j] == l[s + j * step])
    && s + |r| * step < 0
  }

  /** What `kept[start::step]` keeps for a positive step, where `kept` is a
      prefix of `l`. */
  lemma StridedUpSpec<T>(l: seq<T>, kept: seq<T>, start: int, step: nat)
    requires step > 0
    requires |kept| <= |l| && kept == l[..|kept|]
    ensures SelectedUp(l, |kept|, ClampStartUp(start, |kept|), step, StridedUp(kept, ClampStartUp(start, |kept|), step))
  {
    var s := ClampStartUp(start, |kept|);
    forall j | 0 <= j < |StridedUp(kept, s, step)|
      ensures s + j * step < |kept| && StridedUp(kept, s, step)[j] == l[s + j * step]
    {
      StridedUpAt(kept, s, step, j);
    }
    StridedUpEnd(kept, s, step);
  }

  /** What `kept[start::step]` keeps for a negative step. */
  lemma StridedDownSpec<T>(l: seq<T>, kept: seq<T>, start: int, step: int)
    requires step < 0
    requires |kept| <= |l| && kept == l[..|kept|]
    ensures SelectedDown(l, ClampStartDown(start, |kept|), step, StridedDown(kept, ClampStartDown(start, |kept|), step))
  {
    var s := ClampStartDown(start, |kept|);
    forall j | 0 <= j < |StridedDown(kept, s, step)|
      ensures 0 <= s + j * step && StridedDown(kept, s, step)[j] == l[s + j * step]
    {
      StridedDownAt(kept, s, step, j);
    }
    StridedDownEnd(kept, s, step);
  }

  /** `_read_data_set`'s selection: optionally truncate to `limit` rows,
      then take `[offset::stride]`. */
  function ReadDataSet<T>(filelist: seq<T>, limit: int, offset: int, stride: int): (r: Result<seq<T>>)
    ensures stride == 0 <==> r == Failure(SliceStepZero)
    ensures stride > 0 ==>
      var m := if 0 < limit < |filelist| then limit else |filelist|;
      r.Success? && SelectedUp(filelist, m, ClampStartUp(offset, m), stride, r.value)
    ensures stride < 0 ==>
      var m := if 0 < limit < |filelist| then limit else |filelist|;
      r.Success? && SelectedDown(filelist, ClampStartDown(offset, m), stride, r.value)
  {
    var kept := ApplyLimit(filelist, limit);
    assert |kept| == if 0 < limit < |filelist| then limit else |filelist|;
    if stride == 0 then Failure(SliceStepZero)
    else if stride > 0 then
      StridedUpSpec(filelist, kept, offset, stride);
      Success(StridedUp(kept, ClampStartUp(offset, |kept|), stride))
    else
      StridedDownSpec(filelist, kept, offset, stride);
      Success(StridedDown(kept, ClampStartDown(offset, |kept|), stride))
  }

  /** With a positive stride and a non-negative offset, `_read_data_set`
      keeps exactly the rows `offset + j * stride` below the limit, in order. */
  lemma ReadDataSetFromOffset<T>(filelist: seq<T>, limit: int, offset: nat, stride: nat)
    requires stride > 0
    ensures var m := if 0 < limit < |filelist| then limit else |filelist|;
      var r := ReadDataSet(filelist, limit, offset, stride);
      r.Success? && SelectedUp(filelist, m, offset, stride, r.value)
  {
  }

  // ---------------------------------------------------------------------
  // _parse_transcriptions
  // ---------------------------------------------------------------------

  /** The characters `str.split()` splits on (Unicode white space). */
  predicate IsSpace(c: char)
  {
    || ('\U{9}' <= c <= '\U{D}')
    || ('\U{1C}' <= c <= '\U{20}')
    || c == '\U{85}' || c == '\U{A0}' || c == '\U{1680}'
    || ('\U{2000}' <= c <= '\U{200A}')
    || c == '\U{2028}' || c == '\U{2029}' || c == '\U{202F}' || c == '\U{205F}' || c == '\U{3000}'
  }

  /** A token of `str.split()`: non-empty, no white space. */
  predicate IsWord(w: string)
  {
    w != [] && forall i :: 0 <= i < |w| ==> !IsSpace(w[i])
  }

  /** The longest prefix of `s` without white space. */
  function LeadingWord(s: string): (w: string)
    ensures |w| <= |s| && w == s[..|w|]
    ensures forall i :: 0 <= i < |w| ==> !IsSpace(w[i])
    ensures |w| == |s| || IsSpace(s[|w|])
  {
    if s == [] || IsSpace(s[0]) then [] else [s[0]] + LeadingWord(s[1..])
  }

  /** `s.split()`: the maximal runs of non-white-space characters. */
  function Tokens(s: string): (r: seq<string>)
    ensures forall k :: 0 <= k < |r| ==> IsWord(r[k])
    decreases |s|
  {
    if s == [] then []
    else if IsSpace(s[0]) then Tokens(s[1..])
    else
      var w := LeadingWord(s);
      [w] + Tokens(s[|w|..])
  }

  lemma {:induction false} LeadingWordOf(w: string, rest: string)
    requires forall i :: 0 <= i < |w| ==> !IsSpace(w[i])
    requires rest == [] || IsSpace(rest[0])
    ensures LeadingWord(w + rest) == w
  {
    if w == [] {
      assert w + rest == rest;
    } else {
      assert (w + rest)[1..] == w[1..] + rest;
      LeadingWordOf(w[1..], rest);
    }
  }

  lemma TokensOfWordThen(w: string, rest: string)
    requires IsWord(w)
    requires rest == [] || IsSpace(rest[0])
    ensures Tokens(w + rest) == [w] + Tokens(rest)
  {
    LeadingWordOf(w, rest);
    assert (w + rest)[|w|..] == rest;
  }

  /** A string of white space only (possibly empty). */
  predicate AllSpace(g: string)
  {
    forall i :: 0 <= i < |g| ==> IsSpace(g[i])
  }

  /** `gaps[0] + words[0] + gaps[1] + ... + words[n-1] + gaps[n]`. */
  function Interleave(gaps: seq<string>, words: seq<string>): string
    requires |gaps| == |words| + 1
    decreases |words|
  {
    if words == [] then gaps[0]
    else gaps[0] + words[0] + Interleave(gaps[1..], words[1..])
  }

  /** White space put in front of the first gap goes in front of the whole. */
  lemma InterleavePrepend(c: string, gaps: seq<string>, words: seq<string>)
    requires |gaps| == |words| + 1
    ensures Interleave([c + gaps[0]] + gaps[1..], words) == c + Interleave(gaps, words)
  {
    var g := [c + gaps[0]] + gaps[1..];
    if words != [] {
      assert g[1..] == gaps[1..];
    }
  }

  /** The gaps are all white space and the inner ones are non-empty. */
  predicate ProperGaps(gaps: seq<string>)
  {
    && (forall k :: 0 <= k < |gaps| ==> AllSpace(gaps[k]))
    && (forall k :: 0 < k < |gaps| - 1 ==> gaps[k] != [])
  }

  /** One more white-space character in front widens the first gap. */
  lemma GapsAfterSpace(c: char, t: string, rest: seq<string>, words: seq<string>)
    requires IsSpace(c) && |rest| == |words| + 1 && ProperGaps(rest)
    requires Interleave(rest, words) == t
    ensures var g := [[c] + rest[0]] + rest[1..];
      && |g| == |words| + 1 && ProperGaps(g) && g[0] != []
      && Interleave(g, words) == [c] + t
  {
    var g := [[c] + rest[0]] + rest[1..];
    InterleavePrepend([c], rest, words);
    forall k | 0 <= k < |g|
      ensures AllSpace(g[k])
    {
      if k == 0 {
        assert AllSpace(rest[0]);
      } else {
        assert g[k] == rest[k];
      }
    }
    forall k | 0 < k < |g| - 1
      ensures g[k] != []
    {
      assert g[k] == rest[k];
    }
  }

  /** An empty gap in front keeps the gaps proper when the old first gap
      is non-empty or is the last one. */
  lemma ProperGapsCons(rest: seq<string>)
    requires rest != [] && ProperGaps(rest)
    requires |rest| > 1 ==> rest[0] != []
    ensures ProperGaps([""] + rest)
  {
    var g := [""] + rest;
    forall k | 0 < k < |g|
      ensures g[k] == rest[k - 1]
    {
    }
  }

  /** A word in front of text that is empty or starts with white space. */
  lemma GapsAfterWord(w: string, t: string, rest: seq<string>, words: seq<string>)
    requires |rest| == |words| + 1 && ProperGaps(rest)
    requires words != [] ==> rest[0] != []
    requires Interleave(rest, words) == t
    ensures var g := [""] + rest;
      && |g| == |words| + 2 && ProperGaps(g)
      && Interleave(g, [w] + words) == w + t
  {
    var g, ws := [""] + rest, [w] + words;
    ProperGapsCons(rest);
    assert g[1..] == rest && ws[1..] == words;
  }

  /** The white-space runs around and between the tokens of `s`: `s` is its
      tokens with these runs around them, the inner runs non-empty. */
  function TokenGaps(s: string): (g: seq<string>)
    ensures |g| == |Tokens(s)| + 1
    ensures ProperGaps(g)
    ensures s != [] && IsSpace(s[0]) ==> g[0] != []
    ensures Interleave(g, Tokens(s)) == s
    decreases |s|
  {
    if s == [] then [""]
    else if IsSpace(s[0]) then
      var rest := TokenGaps(s[1..]);
      GapsAfterSpace(s[0], s[1..], rest, Tokens(s[1..]));
      assert [s[0]] + s[1..] == s;
      [[s[0]] + rest[0]] + rest[1..]
    else
      var w := LeadingWord(s);
      var rest := TokenGaps(s[|w|..]);
      GapsAfterWord(w, s[|w|..], rest, Tokens(s[|w|..]));
      assert w + s[|w|..] == s;
      [""] + rest
  }

  lemma {:induction false} TokensOfSpace(g: string, rest: string)
    requires AllSpace(g)
    ensures Tokens(g + rest) == Tokens(rest)
    decreases |g|
  {
    if g == [] {
      assert g + rest == rest;
    } else {
      assert (g + rest)[1..] == g[1..] + rest;
      TokensOfSpace(g[1..], rest);
    }
  }

  /** Conversely, words laid out with white-space runs between them (and
      possibly around them) split back into exactly those words. */
  lemma {:induction false} TokensOfInterleave(gaps: seq<string>, words: seq<string>)
    requires |gaps| == |words| + 1
    requires forall k :: 0 <= k < |words| ==> IsWord(words[k])
    requires ProperGaps(gaps)
    ensures Tokens(Interleave(gaps, words)) == words
    decreases |words|
  {
    if words == [] {
      TokensOfSpace(gaps[0], []);
      assert gaps[0] + [] == gaps[0];
    } else {
      var tail := Interleave(gaps[1..], words[1..]);
      TokensOfInterleave(gaps[1..], words[1..]);
      assert tail == [] || IsSpace(tail[0]) by {
        if words[1..] != [] {
          assert gaps[1] != [] && AllSpace(gaps[1]);
          assert tail == gaps[1] + (words[1..][0] + Interleave(gaps[2..], words[2..]));
        } else {
          assert AllSpace(gaps[1]);
        }
      }
      TokensOfWordThen(words[0], tail);
      TokensOfSpace(gaps[0], words[0] + tail);
      assert Interleave(gaps, words) == gaps[0] + (words[0] + tail);
      assert words == [words[0]] + words[1..];
    }
  }

  /** `" ".join(words)`. */
  function JoinSpaces(words: seq<string>): string
  {
    if words == [] then ""
    else if |words| == 1 then words[0]
    else words[0] + " " + JoinSpaces(words[1..])
  }

  lemma TokensAfterSpace(rest: string)
    ensures Tokens(" " + rest) == Tokens(rest)
  {
    assert (" " + rest)[1..] == rest;
  }

  /** Splitting words joined by single spaces gives the words back. */
  lemma {:induction false} TokensOfJoin(words: seq<string>)
    requires forall k :: 0 <= k < |words| ==> IsWord(words[k])
    ensures Tokens(JoinSpaces(words)) == words
  {
    if |words| == 1 {
      TokensOfWordThen(words[0], []);
      assert words[0] + [] == words[0];
    } else if |words| > 1 {
      var w, rest := words[0], JoinSpaces(words[1..]);
      assert JoinSpaces(words) == w + (" " + rest);
      TokensOfJoin(words[1..]);
      TokensAfterSpace(rest);
      TokensOfWordThen(w, " " + rest);
      assert words == [w] + words[1..];
    }
  }

  /** One segment of a transcript; the two times are kept as their tokens. */
  datatype Segment = Segment(startTime: string, stopTime: string, speaker: string, transcript: string)

  /** What one line of a transcript file contributes. */
  datatype LineOutcome = Skip | Parsed(segment: Segment) | Malformed

  /** Comment lines and lines of at most one character (a bare line end). */
  predicate IsIgnored(line: string)
  {
    |line| <= 1 || line[0] == '#'
  }

  /** The body of the loop in `_parse_transcriptions` for one line (with its
      line end); `normalize` stands for the NFKD-and-ASCII folding. */
  function ParseLine(line: string, normalize: string -> string): (r: LineOutcome)
    ensures r.Skip? <==> IsIgnored(line)
    ensures r.Malformed? <==> !IsIgnored(line) && |Tokens(line)| < 3
    ensures r.Parsed? ==> Tokens(line)[..3] == [r.segment.startTime, r.segment.stopTime, r.segment.speaker]
  {
    if IsIgnored(line) then Skip
    else
      var tokens := Tokens(line);
      if |tokens| < 3 then Malformed
      else Parsed(Segment(tokens[0], tokens[1], tokens[2], normalize(JoinSpaces(tokens[3..]))))
  }

  /** A parsed line is fully accounted for: its tokens are the two times,
      the speaker and the tokens of the transcript text before folding. */
  lemma ParsedLineRoundTrip(line: string, normalize: string -> string)
    requires ParseLine(line, normalize).Parsed?
    ensures var seg := ParseLine(line, normalize).segment;
      var text := JoinSpaces(Tokens(line)[3..]);
      && seg.transcript == normalize(text)
      && Tokens(line) == [seg.startTime, seg.stopTime, seg.speaker] + Tokens(text)
  {
    var tokens := Tokens(line);
    TokensOfJoin(tokens[3..]);
    assert tokens == tokens[..3] + tokens[3..];
  }

  /** The result of `_parse_transcriptions` on a file's lines: the segments
      in line order, or the IndexError raised at the first bad line. */
  function ParseAll(lines: seq<string>, normalize: string -> string): (r: Result<seq<Segment>>)
    ensures r.Failure? ==> r.error.MissingField? && r.error.line < |lines|
    ensures r.Success? ==> |r.value| <= |lines|
    decreases |lines|
  {
    if lines == [] then Success([])
    else
      var last := |lines| - 1;
      match ParseAll(lines[..last], normalize)
      case Failure(e) => Failure(e)
      case Success(segments) =>
        match ParseLine(lines[last], normalize)
        case Skip => Success(segments)
        case Parsed(seg) => Success(segments + [seg])
        case Malformed => Failure(MissingField(last))
  }

  lemma {:induction false} FailureIsFinal(lines: seq<string>, k: nat, normalize: string -> string)
    requires k <= |lines|
    requires ParseAll(lines[..k], normalize).Failure?
    ensures ParseAll(lines, normalize) == ParseAll(lines[..k], normalize)
    decreases |lines|
  {
    if k < |lines| {
      var init := lines[..|lines| - 1];
      assert init[..k] == lines[..k];
      FailureIsFinal(init, k, normalize);
    } else {
      assert lines[..k] == lines;
    }
  }

  /** `_parse_transcriptions`. */
  method ParseTranscriptions(lines: seq<string>, normalize: string -> string) returns (r: Result<seq<Segment>>)
    ensures r == ParseAll(lines, normalize)
  {
    var segments: seq<Segment> := [];
    for i := 0 to |lines|
      invariant ParseAll(lines[..i], normalize) == Success(segments)
    {
      assert lines[..i + 1][..i] == lines[..i];
      var line := lines[i];
      if IsIgnored(line) {
        continue;
      }
      var tokens := Tokens(line);
      if |tokens| < 3 {
        FailureIsFinal(lines, i + 1, normalize);
        return Failure(MissingField(i));
      }
      segments := segments + [Segment(tokens[0], tokens[1], tokens[2], normalize(JoinSpaces(tokens[3..])))];
    }
    assert lines[..|lines|] == lines;
    r := Success(segments);
  }

  /** The lines that are neither comments nor bare line ends, in order. */
  function Kept(lines: seq<string>): seq<string>
  {
    if lines == [] then []
    else
      var last := |lines| - 1;
      Kept(lines[..last]) + (if IsIgnored(lines[last]) then [] else [lines[last]])
  }

  /** When parsing succeeds, every kept line yields exactly one segment,
      in input order, and ignored lines yield none. */
  lemma {:induction false} SegmentsFollowKeptLines(lines: seq<string>, normalize: string -> string)
    requires ParseAll(lines, normalize).Success?
    ensures var segments := ParseAll(lines, normalize).value;
      && |segments| == |Kept(lines)|
      && forall k :: 0 <= k < |segments| ==> ParseLine(Kept(lines)[k], normalize) == Parsed(segments[k])
    decreases |lines|
  {
    if lines != [] {
      SegmentsFollowKeptLines(lines[..|lines| - 1], normalize);
    }
  }

  /** Parsing fails exactly when some line is malformed, and it reports
      the first such line. */
  lemma {:induction false} ParseAllFailsAtFirstMalformed(lines: seq<string>, normalize: string -> string)
    ensures ParseAll(lines, normalize).Failure? <==>
      exists i :: 0 <= i < |lines| && ParseLine(lines[i], normalize).Malformed?
    ensures ParseAll(lines, normalize).Failure? ==>
      var e := ParseAll(lines, normalize).error;
      && e.MissingField?
      && e.line < |lines|
      && ParseLine(lines[e.line], normalize).Malformed?
      && forall j :: 0 <= j < e.line ==> !ParseLine(lines[j], normalize).Malformed?
    decreases |lines|
  {
    if lines != [] {
      var last := |lines| - 1;
      var init := lines[..last];
      ParseAllFailsAtFirstMalformed(init, normalize);
      assert forall i :: 0 <= i < |init| ==> init[i] == lines[i];
      if ParseAll(init, normalize).Failure? {
        var i := ParseAll(init, normalize).error.line;
        assert ParseLine(lines[i], normalize).Malformed?;
      } else if ParseLine(lines[last], normalize).Malformed? {
        assert ParseAll(lines, normalize).error.line == last;
      } else {
        forall i | 0 <= i < |lines|
          ensures !ParseLine(lines[i], normalize).Malformed?
        {
          if i < last {
            assert init[i] == lines[i];
          }
        }
      }
    }
  }

  // ---------------------------------------------------------------------
  // Channels and per-channel wav file names
  // ---------------------------------------------------------------------

  /** The channel a segment's audio is cut from: speaker "A:" is channel 0,
      every other speaker channel 1. */
  function ChannelOf(speaker: string): (ch: nat)
    ensures ch < 2
    ensures ch == 0 <==> speaker == "A:"
  {
    if speaker == "A:" then 0 else 1
  }

  /** The channel tags handed to `sph2pipe -c`, in channel order. */
  const ChannelTags: seq<string> := ["1", "2"]

  /** `os.path.basename`: the part after the last '/'. */
  function Basename(path: string): (b: string)
    ensures '/' !in b
    ensures |b| <= |path| && b == path[|path| - |b|..]
    ensures |b| == |path| || path[|path| - |b| - 1] == '/'
  {
    if path == [] || path[|path| - 1] == '/' then []
    else Basename(path[..|path| - 1]) + [path[|path| - 1]]
  }

  /** `s.rfind(c)`. */
  function LastIndexOf(s: string, c: char): (i: int)
    ensures -1 <= i < |s|
    ensures i >= 0 ==> s[i] == c
    ensures forall j :: i < j < |s| ==> s[j] != c
  {
    if s == [] then -1
    else if s[|s| - 1] == c then |s| - 1
    else LastIndexOf(s[..|s| - 1], c)
  }

  /** Position `d` of `name` starts its extension: it is the last '.' and
      some character before it is not a '.'. */
  predicate ExtensionDot(name: string, d: int)
  {
    && 0 <= d < |name| && name[d] == '.'
    && (forall j :: d < j < |name| ==> name[j] != '.')
    && (exists k :: 0 <= k < d && name[k] != '.')
  }

  /** The first half of `os.path.splitext` on a name without '/': the name
      up to its last '.', unless only dots precede that dot. */
  function SplitextRoot(name: string): (root: string)
    ensures |root| <= |name| && root == name[..|root|]
    ensures root != name ==> ExtensionDot(name, |root|)
    ensures root == name ==> forall d :: !ExtensionDot(name, d)
  {
    var dot := LastIndexOf(name, '.');
    if dot >= 0 && exists k :: 0 <= k < dot && name[k] != '.' then name[..dot] else name
  }

  /** `os.path.splitext(os.path.basename(path))[0]`. */
  function Stem(path: string): string
  {
    SplitextRoot(Basename(path))
  }

  /** The name of the wav file for one channel of a recording:
      `stem + "_c" + tag + ".wav"`. */
  function ChannelWavFilename(path: string, tag: string): (r: string)
    ensures var stem := Stem(path);
      && |r| == |stem| + |tag| + 6
      && r[..|stem|] == stem && r[|stem|..|stem| + 2] == "_c"
      && r[|stem| + 2..|r| - 4] == tag && r[|r| - 4..] == ".wav"
  {
    FourParts(Stem(path), "_c", tag, ".wav");
    Stem(path) + "_c" + tag + ".wav"
  }

  /** The four parts of `a + b + c + d` can be read back by position. */
  lemma FourParts(a: string, b: string, c: string, d: string)
    ensures var r := a + b + c + d;
      && |r| == |a| + |b| + |c| + |d|
      && r[..|a|] == a && r[|a|..|a| + |b|] == b
      && r[|a| + |b|..|r| - |d|] == c && r[|r| - |d|..] == d
  {
    var r := a + b + c + d;
    assert r == a + (b + (c + d));
    assert r[..|a|] == a;
    assert r[|a|..] == b + (c + d);
    assert r[|a|..][..|b|] == b;
    assert r[|a| + |b|..] == c + d;
    assert r[|a| + |b|..][..|c|] == c;
  }

  /** The two wav files opened for a transcript file, in channel order. */
  function ChannelWavFilenames(transFile: string): (r: seq<string>)
    ensures |r| == 2 && r[0] != r[1]
    ensures forall c :: 0 <= c < 2 ==> r[c] == ChannelWavFilename(transFile, ChannelTags[c])
  {
    ChannelNamesDiffer(transFile);
    [ChannelWavFilename(transFile, "1"), ChannelWavFilename(transFile, "2")]
  }

  /** The two channel tags give two different file names. */
  lemma ChannelNamesDiffer(path: string)
    ensures ChannelWavFilename(path, "1") != ChannelWavFilename(path, "2")
  {
    var stem := Stem(path);
    var one, two := stem + "_c" + "1" + ".wav", stem + "_c" + "2" + ".wav";
    assert one[|stem| + 2] == '1' && two[|stem| + 2] == '2';
  }

  /** The wav file a segment with this speaker is cut from. */
  function SegmentSourceWav(transFile: string, speaker: string): (r: string)
    ensures r in ChannelWavFilenames(transFile)
    ensures r == ChannelWavFilenames(transFile)[0] <==> speaker == "A:"
  {
    ChannelWavFilenames(transFile)[ChannelOf(speaker)]
  }

  lemma {:induction false} BasenameAfterSlash(dir: string, name: string)
    requires '/' !in name
    ensures Basename(dir + "/" + name) == name
  {
    if name == [] {
      assert dir + "/" + name == dir + "/";
    } else {
      var p := dir + "/" + name;
      var init := name[..|name| - 1];
      assert p[..|p| - 1] == dir + "/" + init;
      assert p[|p| - 1] == name[|name| - 1];
      BasenameAfterSlash(dir, init);
      assert name == init + [name[|name| - 1]];
    }
  }

  lemma {:induction false} LastDotBeforeExtension(base: string, ext: string)
    requires '.' !in ext
    ensures LastIndexOf(base + "." + ext, '.') == |base|
    decreases |ext|
  {
    var name := base + "." + ext;
    if ext == [] {
      assert name[|name| - 1] == '.';
    } else {
      var init := ext[..|ext| - 1];
      assert name[..|name| - 1] == base + "." + init;
      assert name[|name| - 1] == ext[|ext| - 1];
      LastDotBeforeExtension(base, init);
    }
  }

  lemma SplitextRootOf(base: string, ext: string)
    requires |ext| > 0 && ext[0] == '.' && '.' !in ext[1..]
    requires exists k :: 0 <= k < |base| && base[k] != '.'
    ensures SplitextRoot(base + ext) == base
  {
    var name := base + ext;
    assert name == base + "." + ext[1..];
    LastDotBeforeExtension(base, ext[1..]);
    var k :| 0 <= k < |base| && base[k] != '.';
    assert name[k] == base[k];
    assert name[..|base|] == base;
  }

  /** The stem of `dir/base.ext` is `base` when `base` has no '/' and is not
      all dots, and the extension is a '.' followed by no '.' or '/'. */
  lemma StemOfPath(dir: string, base: string, ext: string)
    requires '/' !in base && '/' !in ext
    requires |ext| > 0 && ext[0] == '.' && '.' !in ext[1..]
    requires exists k :: 0 <= k < |base| && base[k] != '.'
    ensures Stem(dir + "/" + base + ext) == base
  {
    var name := base + ext;
    assert '/' !in name;
    assert dir + "/" + base + ext == dir + "/" + name;
    BasenameAfterSlash(dir, name);
    SplitextRootOf(base, ext);
  }

  /** The wav file a segment is cut from (lines 232 and 247) is the one the
      conversion step wrote (line 188) for the speaker's channel: channel
      tag "1" for speaker "A:", tag "2" for any other speaker. */
  lemma SegmentAudioFromSpeakerChannel(sphDir: string, transDir: string, base: string, speaker: string)
    requires '/' !in base
    requires exists k :: 0 <= k < |base| && base[k] != '.'
    ensures SegmentSourceWav(transDir + "/" + base + ".txt", speaker)
      == ChannelWavFilename(sphDir + "/" + base + ".sph", if speaker == "A:" then "1" else "2")
  {
    var trans, sph := transDir + "/" + base + ".txt", sphDir + "/" + base + ".sph";
    StemOfPath(transDir, base, ".txt");
    StemOfPath(sphDir, base, ".sph");
    if speaker == "A:" {
      assert SegmentSourceWav(trans, speaker) == ChannelWavFilename(trans, "1");
    } else {
      assert SegmentSourceWav(trans, speaker) == ChannelWavFilename(trans, "2");
    }
  }
}
