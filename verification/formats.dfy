/** The four mergers of the current revision. Each takes the loaded files
    (and, for format 3, the feature paths) and either fails or returns the
    statistics per canonical key. The standard deviation is the caller's
    `std` (numpy's `std` is not part of this model). */
module Formats {
  import opened Types
  import opened Seqs
  import opened Statistics
  import opened Keys
  import opened Nested

  // ---------------------------------------------------------------------
  // Format 0: exact keys

  /** The lists stored under `k` in every file, in file order. */
  function ExactEntries<K(==), T>(data: seq<map<K, seq<T>>>, k: K): (r: seq<seq<T>>)
    requires forall f :: 0 <= f < |data| ==> k in data[f]
    ensures |r| == |data|
    ensures forall f :: 0 <= f < |data| ==> r[f] == data[f][k]
  {
    if |data| == 0 then []
    else ExactEntries(data[..|data| - 1], k) + [data[|data| - 1][k]]
  }

  /** Every file has exactly the keys of the first. */
  ghost predicate SameKeys<K(!new), T>(data: seq<map<K, T>>)
    requires |data| > 0
  {
    forall f, k :: 0 <= f < |data| ==> (k in data[f] <==> k in data[0])
  }

  /** The first file whose key set differs from the first file's. */
  function FirstKeyMismatch<K(==, !new), T>(data: seq<map<K, T>>): (r: Option<nat>)
    requires |data| > 0
    ensures r.None? <==> SameKeys(data)
    ensures r.Some? ==> 0 < r.value < |data| && data[r.value].Keys != data[0].Keys
    ensures r.Some? ==> forall f :: 0 <= f < r.value ==> data[f].Keys == data[0].Keys
  {
    FirstIndexWhere(data, (file: map<K, T>) => file.Keys != data[0].Keys)
  }

  /** The statistics of format 0 once the key sets agree. */
  function Stats0<K(==, !new)>(data: seq<map<K, seq<real>>>, std: seq<real> -> real): (stats: Stats<K>)
    requires |data| > 0 && SameKeys(data)
    ensures forall k :: k in data[0] ==> k in stats && stats[k] == Summary(Flatten(ExactEntries(data, k)), std)
    ensures forall k :: k in stats ==> k in data[0]
  {
    map k | k in data[0].Keys :: Summary(Flatten(ExactEntries(data, k)), std)
  }

  /** `merge_format0`: every file must have the first file's key set; each
      key's lists are pooled in file order and summarised. */
  function MergeFormat0<K(==, !new)>(data: seq<map<K, seq<real>>>, features: Option<seq<string>>,
                               std: seq<real> -> real): (r: Result<Merged<K>>)
    ensures features.Some? ==> r == Failure(FeaturesNotAllowed)
    ensures features.None? && |data| == 0 ==> r == Failure(NoInput)
    ensures features.None? && |data| > 0 ==> (r.Success? <==> SameKeys(data))
    ensures features.None? && |data| > 0 && !SameKeys(data) ==> r.Failure? && r.error.KeyMismatch?
    ensures r.Failure? && r.error.KeyMismatch? ==>
      && 0 < r.error.file < |data|
      && data[r.error.file].Keys != data[0].Keys
      && forall f :: 0 <= f < r.error.file ==> data[f].Keys == data[0].Keys
    ensures r.Success? ==> r.value.header.None? && forall k :: k in r.value.stats <==> k in data[0]
    ensures r.Success? ==> forall k :: k in r.value.stats ==>
      r.value.stats[k] == Summary(Flatten(ExactEntries(data, k)), std)
  {
    if features.Some? then Failure(FeaturesNotAllowed)
    else if |data| == 0 then Failure(NoInput)
    else match FirstKeyMismatch(data)
      case Some(i) => Failure(KeyMismatch(i))
      case None => Success(Merged(Stats0(data, std), None))
  }

  // ---------------------------------------------------------------------
  // Formats 1 and 2: nearest keys

  /** The key of `file` nearest to `k`, searched over its sorted keys. */
  function NearestKey<T>(file: map<int, T>, k: int): (n: int)
    requires |file| > 0
    ensures n in file
  {
    assert |file.Keys| == |file|;
    Nearest(k, SortedKeys(file.Keys))
  }

  /** The nearest key minimises the distance to `k` over the file's keys,
      ties go to the smaller key, and a key present in the file is its own
      nearest key. */
  lemma NearestKeyChoice<T>(file: map<int, T>, k: int)
    requires |file| > 0
    ensures forall x :: x in file ==> Dist(k, NearestKey(file, k)) <= Dist(k, x)
    ensures forall x :: x in file && Dist(k, x) == Dist(k, NearestKey(file, k)) ==> NearestKey(file, k) <= x
    ensures k in file ==> NearestKey(file, k) == k
  {
    assert |file.Keys| == |file|;
    var keys := SortedKeys(file.Keys);
    SortedKeysAscending(file.Keys);
    forall x | x in file && Dist(k, x) == Dist(k, NearestKey(file, k))
      ensures NearestKey(file, k) <= x
    {
      NearestTieGoesToSmaller(k, keys, x);
    }
  }

  /** For each file in order, the list stored under its key nearest to `k`. */
  function NearestEntries<T>(data: seq<map<int, seq<T>>>, k: int): (r: seq<seq<T>>)
    requires forall f :: 0 <= f < |data| ==> |data[f]| > 0
    ensures |r| == |data|
    ensures forall f :: 0 <= f < |data| ==> r[f] == data[f][NearestKey(data[f], k)]
  {
    if |data| == 0 then []
    else
      var init := data[..|data| - 1];
      assert forall f :: 0 <= f < |init| ==> init[f] == data[f];
      NearestEntries(init, k) + [data[|data| - 1][NearestKey(data[|data| - 1], k)]]
  }

  /** Every file has as many keys as the first. */
  predicate SameKeyCount<T>(data: seq<map<int, T>>)
    requires |data| > 0
  {
    forall f :: 0 <= f < |data| ==> |data[f]| == |data[0]|
  }

  lemma NonEmptyFiles<T>(data: seq<map<int, T>>, k: int)
    requires |data| > 0 && SameKeyCount(data) && k in data[0]
    ensures forall f :: 0 <= f < |data| ==> |data[f]| > 0
  {
    assert |data[0].Keys| == |data[0]|;
    assert data[0].Keys != {};
  }

  /** The pooled samples of canonical key `k` in format 1. */
  function Pooled1(data: seq<map<int, seq<real>>>, k: int): seq<real>
    requires |data| > 0 && SameKeyCount(data) && k in data[0]
  {
    NonEmptyFiles(data, k);
    Flatten(NearestEntries(data, k))
  }

  /** The first file whose key count differs from the first file's. */
  function FirstCountMismatch<T>(data: seq<map<int, T>>): (r: Option<nat>)
    requires |data| > 0
    ensures r.None? <==> SameKeyCount(data)
    ensures r.Some? ==> 0 < r.value < |data| && |data[r.value]| != |data[0]|
    ensures r.Some? ==> forall f :: 0 <= f < r.value ==> |data[f]| == |data[0]|
  {
    FirstIndexWhere(data, (file: map<int, T>) => |file| != |data[0]|)
  }

  /** The statistics of format 1 once the key counts agree. */
  function Stats1(data: seq<map<int, seq<real>>>, std: seq<real> -> real): (stats: Stats<int>)
    requires |data| > 0 && SameKeyCount(data)
    ensures forall k :: k in data[0] ==> k in stats && stats[k] == Summary(Pooled1(data, k), std)
    ensures forall k :: k in stats ==> k in data[0]
  {
    map k | k in data[0].Keys :: Summary(Pooled1(data, k), std)
  }

  /** `merge_format1`: only the key counts must agree; each of the first
      file's keys pools, from every file in order, the list under that
      file's nearest key. */
  function MergeFormat1(data: seq<map<int, seq<real>>>, features: Option<seq<string>>,
                        std: seq<real> -> real): (r: Result<Merged<int>>)
    ensures features.Some? ==> r == Failure(FeaturesNotAllowed)
    ensures features.None? && |data| == 0 ==> r == Failure(NoInput)
    ensures features.None? && |data| > 0 ==> (r.Success? <==> SameKeyCount(data))
    ensures features.None? && |data| > 0 && !SameKeyCount(data) ==> r.Failure? && r.error.KeyCountMismatch?
    ensures r.Failure? && r.error.KeyCountMismatch? ==>
      && 0 < r.error.file < |data|
      && |data[r.error.file]| != |data[0]|
      && forall f :: 0 <= f < r.error.file ==> |data[f]| == |data[0]|
    ensures r.Success? ==> r.value.header.None? && forall k :: k in r.value.stats <==> k in data[0]
    ensures r.Success? ==> forall k :: k in r.value.stats ==>
      r.value.stats[k] == Summary(Pooled1(data, k), std)
  {
    if features.Some? then Failure(FeaturesNotAllowed)
    else if |data| == 0 then Failure(NoInput)
    else match FirstCountMismatch(data)
      case Some(i) => Failure(KeyCountMismatch(i))
      case None => Success(Merged(Stats1(data, std), None))
  }

  /** Where every file holds the canonical key, format 1 pools exactly what
      format 0 pools. */
  lemma {:induction false} NearestIsExactOnSharedKey(data: seq<map<int, seq<real>>>, k: int)
    requires forall f :: 0 <= f < |data| ==> k in data[f]
    ensures NearestEntries(data, k) == ExactEntries(data, k)
  {
    forall f | 0 <= f < |data|
      ensures NearestKey(data[f], k) == k
    {
      NearestKeyChoice(data[f], k);
    }
  }

  /** Files with one key set have one key count. */
  lemma SameKeysSameCount<T>(data: seq<map<int, T>>)
    requires |data| > 0 && SameKeys(data)
    ensures SameKeyCount(data)
  {
    forall f | 0 <= f < |data|
      ensures |data[f]| == |data[0]|
    {
      assert data[f].Keys == data[0].Keys;
      assert |data[f].Keys| == |data[f]|;
      assert |data[0].Keys| == |data[0]|;
    }
  }

  /** On files that share one key set, format 1's statistics are format 0's. */
  lemma Stats1AgreesWithStats0(data: seq<map<int, seq<real>>>, std: seq<real> -> real)
    requires |data| > 0 && SameKeys(data) && SameKeyCount(data)
    ensures Stats1(data, std) == Stats0(data, std)
  {
    var s1 := Stats1(data, std);
    var s0 := Stats0(data, std);
    forall k | k in data[0]
      ensures k in s1 && k in s0 && s1[k] == s0[k]
    {
      PooledSharedKey(data, k);
    }
    SameEntries(s1, s0, data[0].Keys);
  }

  lemma SameEntries<K, V>(a: map<K, V>, b: map<K, V>, keys: set<K>)
    requires a.Keys == keys && b.Keys == keys
    requires forall k :: k in keys ==> a[k] == b[k]
    ensures a == b
  {
  }

  lemma PooledSharedKey(data: seq<map<int, seq<real>>>, k: int)
    requires |data| > 0 && SameKeys(data) && SameKeyCount(data) && k in data[0]
    ensures forall f :: 0 <= f < |data| ==> k in data[f]
    ensures Pooled1(data, k) == Flatten(ExactEntries(data, k))
  {
    assert forall f :: 0 <= f < |data| ==> k in data[f].Keys;
    NearestIsExactOnSharedKey(data, k);
  }

  /** On files that share one key set, format 1 gives the same result as
      format 0. */
  lemma Format1AgreesWithFormat0(data: seq<map<int, seq<real>>>, features: Option<seq<string>>,
                                 std: seq<real> -> real)
    requires |data| > 0 ==> SameKeys(data)
    ensures MergeFormat1(data, features, std) == MergeFormat0(data, features, std)
  {
    if features.None? && |data| > 0 {
      SameKeysSameCount(data);
      Stats1AgreesWithStats0(data, std);
    }
  }

  /** The smallest key of a file: `sorted(file.keys())[0]`. */
  function FirstKey<T>(file: map<int, T>): (k: int)
    requires |file| > 0
    ensures k in file
    ensures forall x :: x in file ==> k <= x
  {
    assert |file.Keys| == |file|;
    var keys := SortedKeys(file.Keys);
    assert forall x :: x in file ==> x in keys;
    keys[0]
  }

  /** Every sample under every key of every file has `width` columns. */
  predicate UniformWidth(data: seq<map<int, seq<seq<real>>>>, width: nat)
  {
    forall f, k, j :: 0 <= f < |data| && k in data[f] && 0 <= j < |data[f][k]| ==>
      |data[f][k][j]| == width
  }

  /** Every sample has a value in column `i`. */
  predicate HasColumn(samples: seq<seq<real>>, i: nat)
  {
    forall s :: 0 <= s < |samples| ==> i < |samples[s]|
  }

  /** Column `i` of a list of samples. */
  function Column(samples: seq<seq<real>>, i: nat): (col: seq<real>)
    requires HasColumn(samples, i)
  {
    seq(|samples|, s requires 0 <= s < |samples| => samples[s][i])
  }

  /** The per-column lists built by appending each sample's `i`-th value to
      column `i`, sample by sample. */
  function Columns(samples: seq<seq<real>>, width: nat): (cols: seq<seq<real>>)
    requires forall s :: 0 <= s < |samples| ==> |samples[s]| == width
    ensures |cols| == width
    ensures forall i :: 0 <= i < width ==> cols[i] == Column(samples, i)
  {
    if |samples| == 0 then seq(width, _ => [])
    else
      var init := samples[..|samples| - 1];
      var last := samples[|samples| - 1];
      var prev := Columns(init, width);
      seq(width, i requires 0 <= i < width => prev[i] + [last[i]])
  }

  lemma {:induction false} FlattenWidth(xss: seq<seq<seq<real>>>, width: nat)
    requires forall f, j :: 0 <= f < |xss| && 0 <= j < |xss[f]| ==> |xss[f][j]| == width
    ensures forall s :: 0 <= s < |Flatten(xss)| ==> |Flatten(xss)[s]| == width
    decreases |xss|
  {
    if |xss| > 0 {
      var init := xss[..|xss| - 1];
      FlattenWidth(init, width);
    }
  }

  /** The pooled samples of canonical key `k` in format 2. */
  function Pooled2(data: seq<map<int, seq<seq<real>>>>, k: int, width: nat): (pooled: seq<seq<real>>)
    requires |data| > 0 && SameKeyCount(data) && k in data[0]
    requires UniformWidth(data, width)
    ensures forall s :: 0 <= s < |pooled| ==> |pooled[s]| == width
  {
    NonEmptyFiles(data, k);
    var entries := NearestEntries(data, k);
    FlattenWidth(entries, width);
    Flatten(entries)
  }

  /** The column count format 2 takes from the first file: the width of the
      first sample under its smallest key. */
  function FirstWidth(data: seq<map<int, seq<seq<real>>>>): (width: nat)
    requires |data| > 0 && |data[0]| > 0 && |data[0][FirstKey(data[0])]| > 0
    ensures forall k :: k in data[0] && (forall x :: x in data[0] ==> k <= x) ==>
      |data[0][k]| > 0 && width == |data[0][k][0]|
  {
    assert forall k :: k in data[0] && (forall x :: x in data[0] ==> k <= x) ==> k == FirstKey(data[0]);
    |data[0][FirstKey(data[0])][0]|
  }

  /** The first file holds a first sample to count columns from. */
  predicate HasFirstSample(data: seq<map<int, seq<seq<real>>>>)
    requires |data| > 0
  {
    |data[0]| > 0 && |data[0][FirstKey(data[0])]| > 0
  }

  /** Format 2's row for canonical key `k`: mean and deviation of every
      column of the pooled samples, column by column. */
  function Row2(data: seq<map<int, seq<seq<real>>>>, k: int, width: nat, std: seq<real> -> real): (row: seq<Float>)
    requires |data| > 0 && SameKeyCount(data) && k in data[0] && UniformWidth(data, width)
    ensures |row| == 2 * width
    ensures forall i :: 0 <= i < width ==>
      var col := Column(Pooled2(data, k, width), i);
      row[2 * i] == Mean(col) && row[2 * i + 1] == StdOf(col, std)
  {
    PairsRow(Columns(Pooled2(data, k, width), width), std)
  }

  /** The statistics of format 2 once key counts and widths are checked. */
  function Stats2(data: seq<map<int, seq<seq<real>>>>, width: nat, std: seq<real> -> real): (stats: Stats<int>)
    requires |data| > 0 && SameKeyCount(data) && UniformWidth(data, width)
    ensures forall k :: k in data[0] ==> k in stats && stats[k] == Row2(data, k, width, std)
    ensures forall k :: k in stats ==> k in data[0]
  {
    map k | k in data[0].Keys :: Row2(data, k, width, std)
  }

  /** The checks and result of format 2 once the key counts agree: the first
      file must hold a sample to count columns from, and every sample must
      have that many columns. */
  function MergeChecked2(data: seq<map<int, seq<seq<real>>>>, std: seq<real> -> real): (r: Result<Merged<int>>)
    requires |data| > 0 && SameKeyCount(data)
    ensures r == Failure(NoSamples) <==> !HasFirstSample(data)
    ensures r == Failure(ColumnCountMismatch) <==>
      HasFirstSample(data) && !UniformWidth(data, FirstWidth(data))
    ensures r.Failure? ==> r.error == NoSamples || r.error == ColumnCountMismatch
    ensures r.Success? ==>
      && HasFirstSample(data)
      && UniformWidth(data, FirstWidth(data))
      && r.value.header.None?
      && (forall k :: k in r.value.stats <==> k in data[0])
      && forall k :: k in r.value.stats ==> r.value.stats[k] == Row2(data, k, FirstWidth(data), std)
  {
    if !HasFirstSample(data) then Failure(NoSamples)
    else if !UniformWidth(data, FirstWidth(data)) then Failure(ColumnCountMismatch)
    else Success(Merged(Stats2(data, FirstWidth(data), std), None))
  }

  /** `merge_format2`: like format 1, but every sample is a row of
      `FirstWidth(data)` columns, each pooled and summarised on its own. */
  function MergeFormat2(data: seq<map<int, seq<seq<real>>>>, features: Option<seq<string>>,
                        std: seq<real> -> real): (r: Result<Merged<int>>)
    ensures features.Some? ==> r == Failure(FeaturesNotAllowed)
    ensures features.None? && |data| == 0 ==> r == Failure(NoInput)
    ensures features.None? && |data| > 0 && !SameKeyCount(data) ==> r.Failure? && r.error.KeyCountMismatch?
    ensures r.Failure? && r.error.KeyCountMismatch? ==>
      && 0 < r.error.file < |data|
      && |data[r.error.file]| != |data[0]|
      && forall f :: 0 <= f < r.error.file ==> |data[f]| == |data[0]|
    ensures features.None? && |data| > 0 && SameKeyCount(data) ==> r == MergeChecked2(data, std)
  {
    if features.Some? then Failure(FeaturesNotAllowed)
    else if |data| == 0 then Failure(NoInput)
    else match FirstCountMismatch(data)
      case Some(i) => Failure(KeyCountMismatch(i))
      case None => MergeChecked2(data, std)
  }

  /** One column of a format 2 file: every sample replaced by its `i`-th
      value. */
  function ProjectFile(file: map<int, seq<seq<real>>>, i: nat): (p: map<int, seq<real>>)
    requires forall k :: k in file ==> HasColumn(file[k], i)
    ensures p.Keys == file.Keys
    ensures forall k :: k in p ==> p[k] == Column(file[k], i)
  {
    map k | k in file :: Column(file[k], i)
  }

  /** Column `i` of every file, as format 1 input. */
  function Project(data: seq<map<int, seq<seq<real>>>>, i: nat, width: nat): (p: seq<map<int, seq<real>>>)
    requires UniformWidth(data, width) && i < width
    ensures |p| == |data|
    ensures forall f :: 0 <= f < |data| ==> p[f] == ProjectFile(data[f], i)
  {
    seq(|data|, f requires 0 <= f < |data| => ProjectFile(data[f], i))
  }

  /** Column `i` of each list of samples, list by list. */
  function EachColumn(xss: seq<seq<seq<real>>>, i: nat): (cols: seq<seq<real>>)
    requires forall f :: 0 <= f < |xss| ==> HasColumn(xss[f], i)
    ensures |cols| == |xss|
    ensures forall f :: 0 <= f < |xss| ==> cols[f] == Column(xss[f], i)
  {
    seq(|xss|, f requires 0 <= f < |xss| => Column(xss[f], i))
  }

  /** Pooling then taking a column is taking the column of each part then
      pooling. */
  lemma {:induction false} FlattenColumn(xss: seq<seq<seq<real>>>, i: nat)
    requires forall f :: 0 <= f < |xss| ==> HasColumn(xss[f], i)
    ensures HasColumn(Flatten(xss), i)
    ensures Column(Flatten(xss), i) == Flatten(EachColumn(xss, i))
    decreases |xss|
  {
    if |xss| > 0 {
      var init := xss[..|xss| - 1];
      var last := xss[|xss| - 1];
      FlattenColumn(init, i);
      assert EachColumn(xss, i)[..|xss| - 1] == EachColumn(init, i);
      assert Flatten(xss) == Flatten(init) + last;
      assert Column(Flatten(xss), i) == Column(Flatten(init), i) + Column(last, i);
    }
  }

  /** Projecting keeps every file's keys, so key counts still agree. */
  lemma ProjectKeys(data: seq<map<int, seq<seq<real>>>>, i: nat, width: nat)
    requires |data| > 0 && SameKeyCount(data) && UniformWidth(data, width) && i < width
    ensures forall f :: 0 <= f < |data| ==> Project(data, i, width)[f].Keys == data[f].Keys
    ensures SameKeyCount(Project(data, i, width))
    ensures forall f, x :: 0 <= f < |data| && x in data[f] ==> HasColumn(data[f][x], i)
    ensures forall f, x :: 0 <= f < |data| && x in data[f] ==>
      Project(data, i, width)[f][x] == Column(data[f][x], i)
  {
    var proj := Project(data, i, width);
    forall f | 0 <= f < |data|
      ensures proj[f].Keys == data[f].Keys && |proj[f]| == |data[f]|
    {
      assert |proj[f].Keys| == |proj[f]| && |data[f].Keys| == |data[f]|;
    }
  }

  /** Files with the same keys have the same nearest keys. */
  lemma {:induction false} NearestEntriesColumn(data: seq<map<int, seq<seq<real>>>>, proj: seq<map<int, seq<real>>>, k: int, i: nat)
    requires |proj| == |data|
    requires forall f :: 0 <= f < |data| ==> |data[f]| > 0 && proj[f].Keys == data[f].Keys
    requires forall f, x :: 0 <= f < |data| && x in data[f] ==> HasColumn(data[f][x], i)
    requires forall f, x :: 0 <= f < |data| && x in data[f] ==> proj[f][x] == Column(data[f][x], i)
    ensures forall f :: 0 <= f < |proj| ==> |proj[f]| > 0
    ensures forall f :: 0 <= f < |data| ==> HasColumn(NearestEntries(data, k)[f], i)
    ensures forall f :: 0 <= f < |data| ==>
      NearestEntries(proj, k)[f] == Column(NearestEntries(data, k)[f], i)
  {
    forall f | 0 <= f < |data|
      ensures |proj[f]| > 0 && NearestKey(proj[f], k) == NearestKey(data[f], k)
    {
      assert |proj[f].Keys| == |proj[f]| && |data[f].Keys| == |data[f]|;
    }
    var entries := NearestEntries(data, k);
    var projected := NearestEntries(proj, k);
    forall f | 0 <= f < |data|
      ensures projected[f] == Column(entries[f], i)
    {
      var x := NearestKey(data[f], k);
      assert projected[f] == proj[f][x];
      assert entries[f] == data[f][x];
    }
  }

  /** Format 2's column `i` pools what format 1 pools from column `i` of
      every file. */
  lemma PooledColumn(data: seq<map<int, seq<seq<real>>>>, k: int, width: nat, i: nat)
    requires |data| > 0 && SameKeyCount(data) && k in data[0] && UniformWidth(data, width) && i < width
    ensures SameKeyCount(Project(data, i, width)) && k in Project(data, i, width)[0]
    ensures Pooled1(Project(data, i, width), k) == Column(Pooled2(data, k, width), i)
  {
    var proj := Project(data, i, width);
    ProjectKeys(data, i, width);
    NonEmptyFiles(data, k);
    var entries := NearestEntries(data, k);
    NearestEntriesColumn(data, proj, k, i);
    assert NearestEntries(proj, k) == EachColumn(entries, i);
    FlattenColumn(entries, i);
    assert Pooled1(proj, k) == Flatten(EachColumn(entries, i));
    assert Pooled2(data, k, width) == Flatten(entries);
  }

  /** Column pair `i` of format 2's row for `k` is format 1's row for `k` on
      column `i` of every file, at the level of the statistics maps. */
  lemma Row2ColumnIsRow1(data: seq<map<int, seq<seq<real>>>>, width: nat, std: seq<real> -> real, k: int, i: nat)
    requires |data| > 0 && SameKeyCount(data) && k in data[0] && UniformWidth(data, width) && i < width
    ensures SameKeyCount(Project(data, i, width)) && k in Project(data, i, width)[0]
    ensures var row2 := Row2(data, k, width, std);
            var row1 := Summary(Pooled1(Project(data, i, width), k), std);
            row2[2 * i] == row1[0] && row2[2 * i + 1] == row1[1]
  {
    PooledColumn(data, k, width, i);
  }

  /** Column pair `i` of format 2's row for `k` is format 1's row for `k` on
      column `i` of every file. */
  lemma Format2ColumnIsFormat1(data: seq<map<int, seq<seq<real>>>>, std: seq<real> -> real, k: int, i: nat)
    requires MergeFormat2(data, None, std).Success?
    requires |data| > 0 && k in data[0]
    requires HasFirstSample(data) && i < FirstWidth(data)
    ensures UniformWidth(data, FirstWidth(data))
    ensures MergeFormat1(Project(data, i, FirstWidth(data)), None, std).Success?
    ensures k in MergeFormat1(Project(data, i, FirstWidth(data)), None, std).value.stats
    ensures k in MergeFormat2(data, None, std).value.stats
    ensures |MergeFormat2(data, None, std).value.stats[k]| == 2 * FirstWidth(data)
    ensures var row2 := MergeFormat2(data, None, std).value.stats[k];
            var row1 := MergeFormat1(Project(data, i, FirstWidth(data)), None, std).value.stats[k];
            |row1| == 2 && row2[2 * i] == row1[0] && row2[2 * i + 1] == row1[1]
  {
    var width := FirstWidth(data);
    var proj := Project(data, i, width);
    Row2ColumnIsRow1(data, width, std, k, i);
    assert MergeFormat2(data, None, std) == MergeChecked2(data, std);
    assert MergeFormat2(data, None, std).value.stats[k] == Row2(data, k, width, std);
    Format1Row(proj, std, k);
  }

  /** Format 1 succeeds on files of equal key counts, and the row of a key
      of the first file summarises that key's pooled samples. */
  lemma Format1Row(data: seq<map<int, seq<real>>>, std: seq<real> -> real, k: int)
    requires |data| > 0 && SameKeyCount(data) && k in data[0]
    ensures MergeFormat1(data, None, std).Success?
    ensures k in MergeFormat1(data, None, std).value.stats
    ensures MergeFormat1(data, None, std).value.stats[k] == Summary(Pooled1(data, k), std)
  {
  }

  // ---------------------------------------------------------------------
  // Format 3: steps by position, values by nested feature path

  /** The header of format 3: the display name of each feature path. */
  function Names(features: seq<string>): (names: seq<string>)
    ensures |names| == |features|
    ensures forall j :: 0 <= j < |features| ==> names[j] == LastSegment(features[j])
  {
    seq(|features|, j requires 0 <= j < |features| => LastSegment(features[j]))
  }

  /** The index of the last feature displayed as `name`: the one whose data
      `all_stats[name]` holds once the collection loop is over. */
  function LastWithName(features: seq<string>, name: string): (j: nat)
    requires name in Names(features)
    ensures j < |features| && LastSegment(features[j]) == name
    ensures forall i :: j < i < |features| ==> LastSegment(features[i]) != name
  {
    var last := |features| - 1;
    if LastSegment(features[last]) == name then last
    else
      assert Names(features[..last]) == Names(features)[..last];
      LastWithName(features[..last], name)
  }

  /** Every file has as many steps as the first. */
  predicate SameStepCount(data: seq<seq<Value>>)
    requires |data| > 0
  {
    forall f :: 0 <= f < |data| ==> |data[f]| == |data[0]|
  }

  /** The values of `feature` at `step`, one per file in file order, or `None`
      when some file's path lookup fails. */
  function StepSamples(data: seq<seq<Value>>, step: nat, feature: string): (r: Option<seq<Value>>)
    requires forall f :: 0 <= f < |data| ==> step < |data[f]|
    ensures r.Some? <==> forall f :: 0 <= f < |data| ==> GetNested(data[f][step], feature).Some?
    ensures r.Some? ==> |r.value| == |data|
    ensures r.Some? ==> forall f :: 0 <= f < |data| ==>
      r.value[f] == GetNested(data[f][step], feature).value
  {
    if |data| == 0 then Some([])
    else
      var last := |data| - 1;
      match StepSamples(data[..last], step, feature)
        case None => None
        case Some(prev) =>
          match GetNested(data[last][step], feature)
            case None => None
            case Some(v) => Some(prev + [v])
  }

  /** Every file resolves `feature` at every step below `n`. */
  predicate Resolves(data: seq<seq<Value>>, n: nat, feature: string)
    requires forall f :: 0 <= f < |data| ==> n <= |data[f]|
  {
    forall s: nat :: s < n ==> StepSamples(data, s, feature).Some?
  }

  /** `feat_stats` of one feature: its samples at steps `0 .. n - 1`, or
      `None` when some step's lookup fails. */
  function FeatureTable(data: seq<seq<Value>>, n: nat, feature: string): (r: Option<seq<seq<Value>>>)
    requires forall f :: 0 <= f < |data| ==> n <= |data[f]|
    ensures r.Some? <==> Resolves(data, n, feature)
    ensures r.Some? ==> |r.value| == n
    ensures r.Some? ==> forall s: nat :: s < n ==> r.value[s] == StepSamples(data, s, feature).value
  {
    if n == 0 then Some([])
    else
      var prev := FeatureTable(data, n - 1, feature);
      var samples := StepSamples(data, n - 1, feature);
      if prev.None? || samples.None? then None
      else Some(prev.value + [samples.value])
  }

  /** `all_stats`: the loop over the features in order, each storing its
      table under its display name and so replacing an earlier feature of
      the same name. `None` when a path lookup fails. */
  function Collect(data: seq<seq<Value>>, n: nat, features: seq<string>): (r: Option<map<string, seq<seq<Value>>>>)
    requires forall f :: 0 <= f < |data| ==> n <= |data[f]|
    ensures r.Some? <==> AllResolve(data, n, features)
    ensures r.Some? ==> forall name :: name in r.value <==> name in Names(features)
    ensures r.Some? ==> forall name :: name in r.value ==>
      r.value[name] == FeatureTable(data, n, features[LastWithName(features, name)]).value
  {
    if |features| == 0 then Some(map[])
    else
      var last := |features| - 1;
      FeaturesStep(data, n, features);
      match Collect(data, n, features[..last])
        case None => None
        case Some(prev) =>
          match FeatureTable(data, n, features[last])
            case None => None
            case Some(table) => Some(prev[LastSegment(features[last]) := table])
  }

  /** The names of a feature list are those of the list without its last
      feature, then the last feature's. */
  lemma NamesStep(features: seq<string>)
    requires |features| > 0
    ensures var last := |features| - 1;
      Names(features) == Names(features[..last]) + [LastSegment(features[last])]
  {
    var last := |features| - 1;
    assert Names(features[..last]) == Names(features)[..last];
    assert Names(features) == Names(features)[..last] + [Names(features)[last]];
  }

  /** All paths of a list resolve when those before the last one do and the
      last one does. */
  lemma ResolveStep(data: seq<seq<Value>>, n: nat, features: seq<string>)
    requires forall f :: 0 <= f < |data| ==> n <= |data[f]|
    requires |features| > 0
    ensures var last := |features| - 1;
      AllResolve(data, n, features) <==> AllResolve(data, n, features[..last]) && Resolves(data, n, features[last])
  {
    var last := |features| - 1;
    assert forall j :: 0 <= j < last ==> features[..last][j] == features[j];
  }

  /** How the names, the last-of-name choice and path resolution of a
      feature list follow from those of the list without its last feature. */
  lemma FeaturesStep(data: seq<seq<Value>>, n: nat, features: seq<string>)
    requires forall f :: 0 <= f < |data| ==> n <= |data[f]|
    requires |features| > 0
    ensures var last := |features| - 1;
      Names(features) == Names(features[..last]) + [LastSegment(features[last])]
    ensures var last := |features| - 1;
      AllResolve(data, n, features) <==> AllResolve(data, n, features[..last]) && Resolves(data, n, features[last])
    ensures var last := |features| - 1;
      forall name :: name in Names(features[..last]) && name != LastSegment(features[last]) ==>
        LastWithName(features, name) == LastWithName(features[..last], name)
  {
    NamesStep(features);
    ResolveStep(data, n, features);
  }

  /** The numbers of a sample list, or `None` when some value is not a
      number (numpy cannot average it). */
  function Numbers(vals: seq<Value>): (r: Option<seq<real>>)
    ensures r.Some? <==> forall i :: 0 <= i < |vals| ==> vals[i].Number?
    ensures r.Some? ==> |r.value| == |vals|
    ensures r.Some? ==> forall i :: 0 <= i < |vals| ==> r.value[i] == vals[i].x
  {
    if |vals| == 0 then Some([])
    else
      var last := |vals| - 1;
      match Numbers(vals[..last])
        case None => None
        case Some(prev) =>
          if vals[last].Number? then Some(prev + [vals[last].x]) else None
  }

  /** Every display name's samples at `step` are all numbers. */
  predicate NumericAt(table: map<string, seq<seq<Value>>>, names: seq<string>, step: nat)
    requires forall j :: 0 <= j < |names| ==> names[j] in table && step < |table[names[j]]|
  {
    forall j :: 0 <= j < |names| ==> Numbers(table[names[j]][step]).Some?
  }

  /** The per-name sample lists of one step, as numbers, in header order. */
  function StepColumns(table: map<string, seq<seq<Value>>>, names: seq<string>, step: nat): (cols: seq<seq<real>>)
    requires forall j :: 0 <= j < |names| ==> names[j] in table && step < |table[names[j]]|
    requires NumericAt(table, names, step)
    ensures |cols| == |names|
    ensures forall j :: 0 <= j < |names| ==> cols[j] == Numbers(table[names[j]][step]).value
  {
    seq(|names|, j requires 0 <= j < |names| => Numbers(table[names[j]][step]).value)
  }

  /** Every step below `n` is numeric. */
  predicate AllNumeric(table: map<string, seq<seq<Value>>>, names: seq<string>, n: nat)
    requires forall j :: 0 <= j < |names| ==> names[j] in table && n <= |table[names[j]]|
  {
    forall s: nat :: s < n ==> NumericAt(table, names, s)
  }

  /** The statistics of format 3: step `i` holds, for every display name in
      header order, the mean and deviation of that name's samples. */
  function Stats3(table: map<string, seq<seq<Value>>>, names: seq<string>, n: nat, std: seq<real> -> real): (stats: Stats<int>)
    requires forall j :: 0 <= j < |names| ==> names[j] in table && n <= |table[names[j]]|
    requires AllNumeric(table, names, n)
    ensures forall s :: s in stats <==> 0 <= s < n
    ensures forall s :: 0 <= s < n ==> |stats[s]| == 2 * |names|
    ensures forall s, j :: 0 <= s < n && 0 <= j < |names| ==>
      var col := StepColumns(table, names, s)[j];
      stats[s][2 * j] == Mean(col) && stats[s][2 * j + 1] == StdOf(col, std)
  {
    map s | 0 <= s < n :: PairsRow(StepColumns(table, names, s), std)
  }

  /** Every feature path resolves in every file at every step. */
  predicate AllResolve(data: seq<seq<Value>>, n: nat, features: seq<string>)
    requires forall f :: 0 <= f < |data| ==> n <= |data[f]|
  {
    forall j :: 0 <= j < |features| ==> Resolves(data, n, features[j])
  }

  /** Every feature path resolves to a number in every file at every step. */
  predicate AllNumbers(data: seq<seq<Value>>, features: seq<string>)
  {
    forall f, s, j :: 0 <= f < |data| && 0 <= s < |data[f]| && 0 <= j < |features| ==>
      GetNested(data[f][s], features[j]).Some? && GetNested(data[f][s], features[j]).value.Number?
  }

  /** The feature whose table format 3 keeps under feature `j`'s display
      name: the last feature with that name. */
  function KeptFeature(features: seq<string>, j: nat): (w: string)
    requires j < |features|
    ensures w in features
    ensures LastSegment(w) == LastSegment(features[j])
  {
    assert Names(features)[j] == LastSegment(features[j]);
    features[LastWithName(features, LastSegment(features[j]))]
  }

  /** Every kept feature resolves to a number in every file at every step. */
  predicate KeptNumbers(data: seq<seq<Value>>, features: seq<string>)
  {
    forall f, s, j :: 0 <= f < |data| && 0 <= s < |data[f]| && 0 <= j < |features| ==>
      GetNested(data[f][s], KeptFeature(features, j)).Some? && GetNested(data[f][s], KeptFeature(features, j)).value.Number?
  }

  /** Format 3 once the step counts agree: collect every feature's table,
      then summarise the numbers step by step. */
  function MergeSteps3(data: seq<seq<Value>>, features: seq<string>, std: seq<real> -> real): (r: Result<Merged<int>>)
    requires |data| > 0 && SameStepCount(data)
    ensures r == Failure(PathNotFound) <==> !AllResolve(data, |data[0]|, features)
    ensures r.Failure? ==> r.error == PathNotFound || r.error == NotNumeric
    ensures r.Success? ==>
      && r.value.header == Some(Names(features))
      && (forall s :: s in r.value.stats <==> 0 <= s < |data[0]|)
      && forall s :: s in r.value.stats ==> |r.value.stats[s]| == 2 * |features|
  {
    var names := Names(features);
    var n := |data[0]|;
    match Collect(data, n, features)
      case None => Failure(PathNotFound)
      case Some(table) =>
        if !AllNumeric(table, names, n) then Failure(NotNumeric)
        else Success(Merged(Stats3(table, names, n, std), Some(names)))
  }

  /** `merge_format3`: every file must have the first file's step count;
      every feature path is looked up at every step of every file; step `i`
      of the result holds a mean and a deviation per feature, and the header
      holds the features' display names. */
  function MergeFormat3(data: seq<seq<Value>>, features: seq<string>, std: seq<real> -> real): (r: Result<Merged<int>>)
    ensures |data| == 0 <==> r == Failure(NoInput)
    ensures |data| > 0 ==> (r == Failure(StepCountMismatch) <==> !SameStepCount(data))
    ensures |data| > 0 && SameStepCount(data) ==> r == MergeSteps3(data, features, std)
  {
    if |data| == 0 then Failure(NoInput)
    else if !SameStepCount(data) then Failure(StepCountMismatch)
    else MergeSteps3(data, features, std)
  }

  /** The numbers `feature` resolves to at `step`, one per file in file
      order. */
  function StepNumbers(data: seq<seq<Value>>, step: nat, feature: string): (xs: seq<real>)
    requires forall f :: 0 <= f < |data| ==> step < |data[f]|
    requires forall f :: 0 <= f < |data| ==>
      GetNested(data[f][step], feature).Some? && GetNested(data[f][step], feature).value.Number?
    ensures |xs| == |data|
  {
    seq(|data|, f requires 0 <= f < |data| => GetNested(data[f][step], feature).value.x)
  }

  /** The numbers of a step's samples are the numbers the files resolve
      to, in file order. */
  lemma SampleNumbers(data: seq<seq<Value>>, step: nat, feature: string)
    requires forall f :: 0 <= f < |data| ==> step < |data[f]|
    requires StepSamples(data, step, feature).Some?
    requires Numbers(StepSamples(data, step, feature).value).Some?
    ensures forall f :: 0 <= f < |data| ==>
      GetNested(data[f][step], feature).Some? && GetNested(data[f][step], feature).value.Number?
    ensures Numbers(StepSamples(data, step, feature).value).value == StepNumbers(data, step, feature)
  {
    var samples := StepSamples(data, step, feature).value;
    forall f | 0 <= f < |data|
      ensures GetNested(data[f][step], feature).Some? && GetNested(data[f][step], feature).value.Number?
    {
      assert samples[f] == GetNested(data[f][step], feature).value;
    }
  }

  /** Column pair `j` of step `s` in format 3's statistics summarises the
      samples kept under feature `j`'s display name. */
  lemma Stats3Cell(data: seq<seq<Value>>, features: seq<string>, std: seq<real> -> real, s: nat, j: nat)
    requires |data| > 0 && SameStepCount(data)
    requires MergeSteps3(data, features, std).Success?
    requires s < |data[0]| && j < |features|
    ensures Collect(data, |data[0]|, features).Some?
    ensures var names := Names(features);
      var table := Collect(data, |data[0]|, features).value;
      && names[j] in table && s < |table[names[j]]|
      && Numbers(table[names[j]][s]).Some?
      && var col := Numbers(table[names[j]][s]).value;
         var row := MergeSteps3(data, features, std).value.stats[s];
         row[2 * j] == Mean(col) && row[2 * j + 1] == StdOf(col, std)
  {
    var names := Names(features);
    var table := Collect(data, |data[0]|, features).value;
    assert NumericAt(table, names, s);
  }

  /** Column pair `j` of step `s` summarises, over the files in order, the
      number that the last feature sharing feature `j`'s display name
      resolves to at step `s`. */
  lemma MergeFormat3Cell(data: seq<seq<Value>>, features: seq<string>, std: seq<real> -> real, s: nat, j: nat)
    requires MergeFormat3(data, features, std).Success?
    requires |data| > 0 && s < |data[0]| && j < |features|
    ensures SameStepCount(data)
    ensures LastSegment(features[j]) in Names(features)
    ensures var w := features[LastWithName(features, LastSegment(features[j]))];
      && (forall f :: 0 <= f < |data| ==>
            GetNested(data[f][s], w).Some? && GetNested(data[f][s], w).value.Number?)
      && var xs := StepNumbers(data, s, w);
         var row := MergeFormat3(data, features, std).value.stats[s];
         row[2 * j] == Mean(xs) && row[2 * j + 1] == StdOf(xs, std)
  {
    var names := Names(features);
    assert names[j] == LastSegment(features[j]);
    Stats3Cell(data, features, std, s, j);
    var table := Collect(data, |data[0]|, features).value;
    var w := features[LastWithName(features, names[j])];
    assert table[names[j]][s] == StepSamples(data, s, w).value;
    SampleNumbers(data, s, w);
  }

  /** The samples kept under feature `j`'s display name at step `s` are all
      numbers exactly when the kept feature resolves to a number in every
      file at that step. */
  lemma KeptCell(data: seq<seq<Value>>, features: seq<string>, s: nat, j: nat)
    requires |data| > 0 && SameStepCount(data) && AllResolve(data, |data[0]|, features)
    requires s < |data[0]| && j < |features|
    ensures Collect(data, |data[0]|, features).Some?
    ensures var table := Collect(data, |data[0]|, features).value;
      var name := Names(features)[j];
      && name in table && s < |table[name]|
      && (Numbers(table[name][s]).Some? <==>
            forall f :: 0 <= f < |data| ==>
              GetNested(data[f][s], KeptFeature(features, j)).Some?
              && GetNested(data[f][s], KeptFeature(features, j)).value.Number?)
  {
    var n := |data[0]|;
    var table := Collect(data, n, features).value;
    var name := Names(features)[j];
    var w := KeptFeature(features, j);
    assert w == features[LastWithName(features, name)];
    assert forall f :: 0 <= f < |data| ==> s < |data[f]|;
    var samples := StepSamples(data, s, w).value;
    assert table[name][s] == samples;
    assert forall f :: 0 <= f < |data| ==> samples[f] == GetNested(data[f][s], w).value;
  }

  /** With every kept feature a number everywhere, every step is numeric. */
  lemma KeptNumbersNumeric(data: seq<seq<Value>>, features: seq<string>)
    requires |data| > 0 && SameStepCount(data) && AllResolve(data, |data[0]|, features)
    requires KeptNumbers(data, features)
    ensures Collect(data, |data[0]|, features).Some?
    ensures var table := Collect(data, |data[0]|, features).value;
      AllNumeric(table, Names(features), |data[0]|)
  {
    var names := Names(features);
    var n := |data[0]|;
    var table := Collect(data, n, features).value;
    forall st: nat | st < n
      ensures NumericAt(table, names, st)
    {
      forall j | 0 <= j < |names|
        ensures Numbers(table[names[j]][st]).Some?
      {
        KeptCell(data, features, st, j);
      }
    }
  }

  /** A kept feature that is not a number in file `f` at step `st` leaves
      that step not numeric. */
  lemma NonNumberAt(data: seq<seq<Value>>, features: seq<string>, f: nat, st: nat, j: nat)
    requires |data| > 0 && SameStepCount(data) && AllResolve(data, |data[0]|, features)
    requires f < |data| && st < |data[f]| && j < |features|
    requires !(GetNested(data[f][st], KeptFeature(features, j)).Some?
               && GetNested(data[f][st], KeptFeature(features, j)).value.Number?)
    ensures Collect(data, |data[0]|, features).Some?
    ensures var table := Collect(data, |data[0]|, features).value;
      !AllNumeric(table, Names(features), |data[0]|)
  {
    var names := Names(features);
    var table := Collect(data, |data[0]|, features).value;
    assert |data[f]| == |data[0]|;
    KeptCell(data, features, st, j);
    CollectCovers(data, features);
    assert !NumericAt(table, names, st);
  }

  /** A kept feature that is not a number somewhere leaves a step that is
      not numeric. */
  lemma NotKeptNumbersNotNumeric(data: seq<seq<Value>>, features: seq<string>)
    requires |data| > 0 && SameStepCount(data) && AllResolve(data, |data[0]|, features)
    requires !KeptNumbers(data, features)
    ensures Collect(data, |data[0]|, features).Some?
    ensures var table := Collect(data, |data[0]|, features).value;
      !AllNumeric(table, Names(features), |data[0]|)
  {
    var f, st, j :| 0 <= f < |data| && 0 <= st < |data[f]| && 0 <= j < |features| &&
      !(GetNested(data[f][st], KeptFeature(features, j)).Some? && GetNested(data[f][st], KeptFeature(features, j)).value.Number?);
    NonNumberAt(data, features, f, st, j);
  }

  /** Once every path resolves, the collected tables hold every display
      name with one sample list per step. */
  lemma CollectCovers(data: seq<seq<Value>>, features: seq<string>)
    requires |data| > 0 && SameStepCount(data) && AllResolve(data, |data[0]|, features)
    ensures Collect(data, |data[0]|, features).Some?
    ensures var table := Collect(data, |data[0]|, features).value;
      forall i :: 0 <= i < |Names(features)| ==>
        Names(features)[i] in table && |data[0]| <= |table[Names(features)[i]]|
  {
  }

  /** Once every path resolves, format 3 succeeds exactly when every kept
      feature is a number everywhere, and fails as non-numeric otherwise. A
      non-number under a feature whose name a later feature reuses is
      never averaged, so it does not make the merge fail. */
  lemma MergeSteps3Numeric(data: seq<seq<Value>>, features: seq<string>, std: seq<real> -> real)
    requires |data| > 0 && SameStepCount(data) && AllResolve(data, |data[0]|, features)
    ensures MergeSteps3(data, features, std).Success? <==> KeptNumbers(data, features)
    ensures !KeptNumbers(data, features) ==> MergeSteps3(data, features, std) == Failure(NotNumeric)
  {
    if KeptNumbers(data, features) {
      KeptNumbersNumeric(data, features);
    } else {
      NotKeptNumbersNotNumeric(data, features);
    }
  }

  /** When every path resolves to a number everywhere, format 3 succeeds on
      files of equal step counts. */
  lemma AllNumbersSucceeds(data: seq<seq<Value>>, features: seq<string>, std: seq<real> -> real)
    requires |data| > 0 && SameStepCount(data) && AllNumbers(data, features)
    ensures MergeFormat3(data, features, std).Success?
  {
    AllNumbersKept(data, features);
    MergeSteps3Numeric(data, features, std);
  }

  /** A feature list whose every path resolves to a number everywhere keeps
      only numbers, and every path resolves. */
  lemma AllNumbersKept(data: seq<seq<Value>>, features: seq<string>)
    requires |data| > 0 && SameStepCount(data) && AllNumbers(data, features)
    ensures AllResolve(data, |data[0]|, features)
    ensures KeptNumbers(data, features)
  {
    var n := |data[0]|;
    forall j | 0 <= j < |features|
      ensures Resolves(data, n, features[j])
    {
      forall st: nat | st < n
        ensures StepSamples(data, st, features[j]).Some?
      {
        assert forall f :: 0 <= f < |data| ==> st < |data[f]|;
      }
    }
    forall f, st, j | 0 <= f < |data| && 0 <= st < |data[f]| && 0 <= j < |features|
      ensures GetNested(data[f][st], KeptFeature(features, j)).Some?
      ensures GetNested(data[f][st], KeptFeature(features, j)).value.Number?
    {
      var i :| 0 <= i < |features| && features[i] == KeptFeature(features, j);
    }
  }

  /** A feature whose display name no other feature shares gets its own
      data. */
  lemma OwnDataWhenUnshared(features: seq<string>, j: nat)
    requires j < |features|
    requires forall i :: 0 <= i < |features| && i != j ==> LastSegment(features[i]) != LastSegment(features[j])
    ensures LastSegment(features[j]) in Names(features)
    ensures LastWithName(features, LastSegment(features[j])) == j
  {
    assert Names(features)[j] == LastSegment(features[j]);
  }

  /** Two features with the same display name get identical columns: the
      table kept under that name is the later feature's. */
  lemma SharedNameSameColumns(data: seq<seq<Value>>, features: seq<string>, std: seq<real> -> real,
                              s: nat, i: nat, j: nat)
    requires MergeFormat3(data, features, std).Success?
    requires |data| > 0 && s < |data[0]| && i < |features| && j < |features|
    requires LastSegment(features[i]) == LastSegment(features[j])
    ensures var row := MergeFormat3(data, features, std).value.stats[s];
      row[2 * i] == row[2 * j] && row[2 * i + 1] == row[2 * j + 1]
  {
    MergeFormat3Cell(data, features, std, s, i);
    MergeFormat3Cell(data, features, std, s, j);
  }
}
