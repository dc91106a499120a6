/** The older entry point: its own copies of the format 0-2 mergers, which
    return the statistics without a header; the format-id check; and the
    rows written to the output file, one per key in ascending key order. */
module Command {
  import opened Types
  import opened Seqs
  import opened Statistics
  import opened Keys
  import Formats

  // ---------------------------------------------------------------------
  // The mergers of the older entry point

  /** The statistics of a merge, without its header. */
  function StatsOnly<K>(r: Result<Merged<K>>): (s: Result<Stats<K>>)
    ensures s.Success? <==> r.Success?
    ensures s.Failure? ==> s.error == r.error
    ensures s.Success? ==> s.value == r.value.stats
  {
    match r
      case Success(m) => Success(m.stats)
      case Failure(e) => Failure(e)
  }

  /** The older `merge_format0`: no nested feature, the first file's key
      set in every file, each key summarised over its lists in file order.
      The code is the same as the current version's but for the bare
      return value. */
  function MergeFormat0<K(==, !new)>(data: seq<map<K, seq<real>>>, nested: Option<seq<string>>,
                               std: seq<real> -> real): (r: Result<Stats<K>>)
    ensures nested.Some? ==> r == Failure(FeaturesNotAllowed)
    ensures nested.None? && |data| == 0 ==> r == Failure(NoInput)
    ensures nested.None? && |data| > 0 ==> (r.Success? <==> Formats.SameKeys(data))
    ensures nested.None? && |data| > 0 && !Formats.SameKeys(data) ==> r.Failure? && r.error.KeyMismatch?
    ensures r.Failure? && r.error.KeyMismatch? ==>
      && 0 < r.error.file < |data|
      && data[r.error.file].Keys != data[0].Keys
      && forall f :: 0 <= f < r.error.file ==> data[f].Keys == data[0].Keys
    ensures r.Success? ==> |data| > 0 && forall k :: k in r.value <==> k in data[0]
    ensures r.Success? ==> forall k :: k in r.value ==>
      r.value[k] == Summary(Flatten(Formats.ExactEntries(data, k)), std)
  {
    StatsOnly(Formats.MergeFormat0(data, nested, std))
  }

  /** The older `merge_format1`: equal key counts, nearest-key pooling. */
  function MergeFormat1(data: seq<map<int, seq<real>>>, nested: Option<seq<string>>,
                        std: seq<real> -> real): (r: Result<Stats<int>>)
    ensures nested.Some? ==> r == Failure(FeaturesNotAllowed)
    ensures nested.None? && |data| == 0 ==> r == Failure(NoInput)
    ensures nested.None? && |data| > 0 ==> (r.Success? <==> Formats.SameKeyCount(data))
    ensures nested.None? && |data| > 0 && !Formats.SameKeyCount(data) ==> r.Failure? && r.error.KeyCountMismatch?
    ensures r.Failure? && r.error.KeyCountMismatch? ==>
      && 0 < r.error.file < |data|
      && |data[r.error.file]| != |data[0]|
      && forall f :: 0 <= f < r.error.file ==> |data[f]| == |data[0]|
    ensures r.Success? ==> |data| > 0 && forall k :: k in r.value <==> k in data[0]
    ensures r.Success? ==> forall k :: k in r.value ==>
      r.value[k] == Summary(Formats.Pooled1(data, k), std)
  {
    StatsOnly(Formats.MergeFormat1(data, nested, std))
  }

  /** The older `merge_format2`: equal key counts, one column count for
      every sample, and a mean and deviation per column. */
  function MergeFormat2(data: seq<map<int, seq<seq<real>>>>, nested: Option<seq<string>>,
                        std: seq<real> -> real): (r: Result<Stats<int>>)
    ensures nested.Some? ==> r == Failure(FeaturesNotAllowed)
    ensures nested.None? && |data| == 0 ==> r == Failure(NoInput)
    ensures nested.None? && |data| > 0 && !Formats.SameKeyCount(data) ==>
      r.Failure? && r.error.KeyCountMismatch?
    ensures nested.None? && |data| > 0 && Formats.SameKeyCount(data) ==>
      r == StatsOnly(Formats.MergeChecked2(data, std))
    ensures nested.None? && |data| > 0 && Formats.SameKeyCount(data) ==>
      (r == Failure(NoSamples) <==> !Formats.HasFirstSample(data))
    ensures nested.None? && |data| > 0 && Formats.SameKeyCount(data) && Formats.HasFirstSample(data) ==>
      (r.Success? <==> Formats.UniformWidth(data, Formats.FirstWidth(data)))
    ensures r.Success? ==> nested.None? && |data| > 0 && Formats.SameKeyCount(data)
  {
    StatsOnly(Formats.MergeFormat2(data, nested, std))
  }

  // ---------------------------------------------------------------------
  // Format selection

  /** The number of mergers the entry point lists. */
  const FormatCount := 4

  /** `format_id not in range(len(formats))`: only ids 0 to 3 select a
      merger; any other id, negative ones included, is rejected. */
  function SelectFormat(formatId: int): (r: Result<nat>)
    ensures r.Success? <==> 0 <= formatId < FormatCount
    ensures r.Success? ==> r.value == formatId
    ensures r.Failure? ==> r.error == UnsupportedFormat(formatId)
  {
    if 0 <= formatId < FormatCount then Success(formatId) else Failure(UnsupportedFormat(formatId))
  }

  // ---------------------------------------------------------------------
  // Output rows

  /** One field of an output row: the key, or one statistic. */
  datatype Cell = KeyCell(key: int) | StatCell(stat: Float)

  /** `[stat, *stats[stat]]`: the key followed by its statistics. */
  function RowOf(key: int, values: seq<Float>): (row: seq<Cell>)
    ensures |row| == |values| + 1
    ensures row[0] == KeyCell(key)
    ensures forall i :: 0 <= i < |values| ==> row[i + 1] == StatCell(values[i])
  {
    [KeyCell(key)] + seq(|values|, i requires 0 <= i < |values| => StatCell(values[i]))
  }

  /** `row` is the row of one key of `stats`. */
  predicate RowFor(row: seq<Cell>, stats: Stats<int>)
  {
    && |row| > 0 && row[0].KeyCell? && row[0].key in stats
    && row == RowOf(row[0].key, stats[row[0].key])
  }

  /** The rows of the listed keys, in list order. */
  function RowsOfKeys(keys: seq<int>, stats: Stats<int>): (rows: seq<seq<Cell>>)
    requires forall i :: 0 <= i < |keys| ==> keys[i] in stats
    ensures |rows| == |keys|
    ensures forall i :: 0 <= i < |rows| ==> |rows[i]| > 0 && rows[i][0] == KeyCell(keys[i]) && RowFor(rows[i], stats)
    ensures StrictlyIncreasing(keys) ==> forall i, j :: 0 <= i < j < |rows| ==> rows[i][0].key < rows[j][0].key
    ensures forall k :: k in keys ==> exists i :: 0 <= i < |rows| && rows[i] == RowOf(k, stats[k])
  {
    seq(|keys|, i requires 0 <= i < |keys| => RowOf(keys[i], stats[keys[i]]))
  }

  /** The rows written for `stats`: one per key, in ascending key order. */
  function Rows(stats: Stats<int>): (rows: seq<seq<Cell>>)
    ensures |rows| == |stats|
    ensures forall i :: 0 <= i < |rows| ==> |rows[i]| > 0 && rows[i][0].KeyCell? && RowFor(rows[i], stats)
    ensures forall i, j :: 0 <= i < j < |rows| ==> rows[i][0].key < rows[j][0].key
    ensures forall k :: k in stats ==> exists i :: 0 <= i < |rows| && rows[i] == RowOf(k, stats[k])
  {
    var keys := SortedKeys(stats.Keys);
    SortedKeysAscending(stats.Keys);
    assert |stats.Keys| == |stats|;
    assert forall k :: k in stats ==> k in keys;
    RowsOfKeys(keys, stats)
  }

  /** Reads rows back into statistics: every row must start with a key and
      hold statistics after it, and a later row replaces an earlier one of
      the same key. */
  function ReadRows(rows: seq<seq<Cell>>): (r: Option<Stats<int>>)
    ensures r.Some? <==> forall i :: 0 <= i < |rows| ==> WellFormedRow(rows[i])
    ensures r.Some? ==> forall i :: 0 <= i < |rows| ==> rows[i][0].key in r.value
    ensures r.Some? && |rows| > 0 ==> r.value[rows[|rows| - 1][0].key] == RowValues(rows[|rows| - 1])
  {
    if |rows| == 0 then Some(map[])
    else
      var last := rows[|rows| - 1];
      match ReadRows(rows[..|rows| - 1])
        case None => None
        case Some(prev) =>
          if WellFormedRow(last) then
            assert forall i :: 0 <= i < |rows| - 1 ==> rows[..|rows| - 1][i] == rows[i];
            Some(prev[last[0].key := RowValues(last)])
          else None
  }

  /** A row that starts with a key and holds only statistics after it. */
  predicate WellFormedRow(row: seq<Cell>)
  {
    |row| > 0 && row[0].KeyCell? && forall i :: 1 <= i < |row| ==> row[i].StatCell?
  }

  /** The statistics after a row's key. */
  function RowValues(row: seq<Cell>): (values: seq<Float>)
    requires WellFormedRow(row)
    ensures |values| == |row| - 1
    ensures forall i :: 0 <= i < |values| ==> row[i + 1] == StatCell(values[i])
  {
    seq(|row| - 1, i requires 0 <= i < |row| - 1 => row[i + 1].stat)
  }

  /** Reading a row back gives the key and statistics it was written from. */
  lemma ReadRowOf(key: int, values: seq<Float>)
    ensures WellFormedRow(RowOf(key, values))
    ensures RowValues(RowOf(key, values)) == values
  {
  }

  /** Rows that each hold one key of `stats` with its statistics, and that
      between them hold every key, read back into `stats`. */
  lemma ReadBack(stats: Stats<int>, rows: seq<seq<Cell>>)
    requires forall i :: 0 <= i < |rows| ==> |rows[i]| > 0 && rows[i][0].KeyCell? && RowFor(rows[i], stats)
    requires forall k :: k in stats ==> exists i :: 0 <= i < |rows| && rows[i] == RowOf(k, stats[k])
    ensures ReadRows(rows) == Some(stats)
  {
    forall i | 0 <= i < |rows|
      ensures WellFormedRow(rows[i])
    {
      ReadRowOf(rows[i][0].key, stats[rows[i][0].key]);
    }
    ReadPrefix(stats, rows, |rows|);
    assert rows[..|rows|] == rows;
    var m := ReadRows(rows).value;
    forall k | k in stats
      ensures k in m
    {
      var i :| 0 <= i < |rows| && rows[i] == RowOf(k, stats[k]);
      assert rows[i][0] == KeyCell(k);
    }
    assert forall k :: k in m ==> k in stats && m[k] == stats[k];
    assert m.Keys == stats.Keys;
    Formats.SameEntries(m, stats, stats.Keys);
  }

  /** Reading the rows back gives the statistics they were written from. */
  lemma ReadRowsOfRows(stats: Stats<int>)
    ensures ReadRows(Rows(stats)) == Some(stats)
  {
    ReadBack(stats, Rows(stats));
  }

  /** The first `n` ascending rows read back into the statistics of their
      keys. */
  lemma {:induction false} ReadPrefix(stats: Stats<int>, rows: seq<seq<Cell>>, n: nat)
    requires n <= |rows|
    requires forall i :: 0 <= i < |rows| ==> RowFor(rows[i], stats)
    requires forall i :: 0 <= i < |rows| ==> WellFormedRow(rows[i])
    ensures ReadRows(rows[..n]).Some?
    ensures forall k :: k in ReadRows(rows[..n]).value ==> k in stats && ReadRows(rows[..n]).value[k] == stats[k]
    decreases n
  {
    var pre := rows[..n];
    assert forall i :: 0 <= i < n ==> pre[i] == rows[i];
    if n > 0 {
      ReadPrefix(stats, rows, n - 1);
      assert pre[..n - 1] == rows[..n - 1];
      var last := rows[n - 1];
      ReadRowOf(last[0].key, stats[last[0].key]);
    }
  }

  // ---------------------------------------------------------------------
  // The entry point

  /** The loaded logs: flat per-key lists (formats 0 and 1) or per-key
      lists of samples (format 2). */
  datatype Logs =
    | ScalarLogs(scalars: seq<map<int, seq<real>>>)
    | VectorLogs(vectors: seq<map<int, seq<seq<real>>>>)

  /** The merge result of a valid format id, as the older entry point calls
      it: without a nested feature. Its format 3 placeholder returns nothing
      to write, which makes the write fail. */
  function Dispatch(id: nat, logs: Logs, std: seq<real> -> real): (r: Result<Stats<int>>)
    requires id < FormatCount
    ensures id == 3 ==> r == Failure(Unimplemented)
    ensures id == 0 && logs.ScalarLogs? ==> r == MergeFormat0(logs.scalars, None, std)
    ensures id == 1 && logs.ScalarLogs? ==> r == MergeFormat1(logs.scalars, None, std)
    ensures id == 2 && logs.VectorLogs? ==> r == MergeFormat2(logs.vectors, None, std)
    ensures (id == 0 || id == 1) && logs.VectorLogs? ==> r == Failure(WrongShape)
    ensures id == 2 && logs.ScalarLogs? ==> r == Failure(WrongShape)
    ensures r.Failure? ==> r.error != FeaturesNotAllowed
  {
    match logs
      case ScalarLogs(files) =>
        if id == 0 then MergeFormat0(files, None, std)
        else if id == 1 then MergeFormat1(files, None, std)
        else if id == 2 then Failure(WrongShape)
        else Failure(Unimplemented)
      case VectorLogs(files) =>
        if id == 2 then MergeFormat2(files, None, std)
        else if id == 3 then Failure(Unimplemented)
        else Failure(WrongShape)
  }

  /** `merge_formats` without the file input and output: check the format
      id, merge, and list the rows to write. */
  function MergeFormats(formatId: int, logs: Logs, std: seq<real> -> real): (r: Result<seq<seq<Cell>>>)
    ensures !(0 <= formatId < FormatCount) ==> r == Failure(UnsupportedFormat(formatId))
    ensures formatId == 3 ==> r == Failure(Unimplemented)
    ensures 0 <= formatId < FormatCount ==>
      (r.Success? <==> Dispatch(formatId, logs, std).Success?)
    ensures r.Success? ==> ReadRows(r.value) == Some(Dispatch(formatId, logs, std).value)
    ensures r.Success? ==> forall i, j :: 0 <= i < j < |r.value| ==> r.value[i][0].key < r.value[j][0].key
  {
    match SelectFormat(formatId)
      case Failure(e) => Failure(e)
      case Success(id) =>
        match Dispatch(id, logs, std)
          case Failure(e) => Failure(e)
          case Success(stats) =>
            ReadRowsOfRows(stats);
            Success(Rows(stats))
  }
}
