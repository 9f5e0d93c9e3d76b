/**
 * The gold-table loader: walks the partitioned output of the batch
 * pipeline, reads every parquet file, sets its `city` column from the
 * `city=` partition directory in its path and collects the frames.
 */
module GoldTable {
  import opened Wrappers
  import opened Text

  const CityKey := "city="
  const ParquetSuffix := ".parquet"
  const NoParquetMessage := "No parquet files found. Run spark_pipeline.py first."

  /** One directory visited by `os.walk`: its path and the names of the files directly in it. */
  datatype WalkEntry = WalkEntry(root: string, files: seq<string>)

  /** One row of a loaded partition file, with the `city` column its frame was given. */
  datatype GoldRow<R> = GoldRow(record: R, city: Option<string>)

  // ---------------- City from the partition path ----------------

  /** `os.path.join(root, name)` for separator `sep`, as `posixpath.join` does it. */
  function JoinPath(root: string, name: string, sep: char): (path: string)
    ensures EndsWith(path, name)
  {
    if StartsWith(name, [sep]) then name
    else if root == "" || EndsWith(root, [sep]) then root + name
    else root + [sep] + name
  }

  /** `part.startswith("city=")`. */
  predicate IsCitySegment(part: string)
    ensures IsCitySegment(part) ==> |part| >= |CityKey| && part[4] == '='
  {
    StartsWith(part, CityKey)
  }

  /**
   * The city named by a list of path segments: the last segment that
   * starts with `city=`, with every `city=` in it removed; None when no
   * segment does. There is no city exactly when no segment starts with
   * `city=`.
   */
  function CityOf(parts: seq<string>): (city: Option<string>)
    ensures city == None <==> forall j :: 0 <= j < |parts| ==> !IsCitySegment(parts[j])
  {
    if |parts| == 0 then None
    else if IsCitySegment(parts[|parts| - 1]) then Some(RemoveAll(parts[|parts| - 1], CityKey))
    else
      var init := parts[..|parts| - 1];
      assert forall j :: 0 <= j < |init| ==> init[j] == parts[j];
      CityOf(init)
  }

  /** The segment loop: every matching segment overwrites `city`. */
  method ExtractCity(filePath: string, sep: char) returns (city: Option<string>)
    ensures city == CityOf(Split(filePath, sep))
  {
    var parts := Split(filePath, sep);
    city := None;
    for i := 0 to |parts|
      invariant city == CityOf(parts[..i])
    {
      assert parts[..i + 1][..i] == parts[..i];
      if IsCitySegment(parts[i]) {
        city := Some(RemoveAll(parts[i], CityKey));
      }
    }
    assert parts[..|parts|] == parts;
  }

  /** The last matching segment decides the city; earlier ones are overwritten. */
  lemma {:induction false} CityOfLast(parts: seq<string>, j: nat)
    requires j < |parts| && IsCitySegment(parts[j])
    requires forall k :: j < k < |parts| ==> !IsCitySegment(parts[k])
    ensures CityOf(parts) == Some(RemoveAll(parts[j], CityKey))
  {
    if j < |parts| - 1 {
      var init := parts[..|parts| - 1];
      assert forall k :: 0 <= k < |init| ==> init[k] == parts[k];
      CityOfLast(init, j);
    }
  }

  /** A city found comes from a last matching segment. */
  lemma {:induction false} CityOfSome(parts: seq<string>)
    requires CityOf(parts).Some?
    ensures exists j :: 0 <= j < |parts| && IsCitySegment(parts[j])
                        && (forall k :: j < k < |parts| ==> !IsCitySegment(parts[k]))
                        && CityOf(parts) == Some(RemoveAll(parts[j], CityKey))
  {
    var last := |parts| - 1;
    if !IsCitySegment(parts[last]) {
      var init := parts[..last];
      CityOfSome(init);
      var j :| 0 <= j < |init| && IsCitySegment(init[j])
               && (forall k :: j < k < |init| ==> !IsCitySegment(init[k]))
               && CityOf(init) == Some(RemoveAll(init[j], CityKey));
      assert forall k :: 0 <= k < |init| ==> init[k] == parts[k];
      assert forall k :: j < k < |parts| ==> !IsCitySegment(parts[k]);
    }
  }

  /** A partition directory `city=v` whose value holds no `=` names the city v. */
  lemma PartitionValue(v: string)
    requires '=' !in v
    ensures RemoveAll(CityKey + v, CityKey) == v
  {
    var s := CityKey + v;
    assert s[..|CityKey|] == CityKey && s[|CityKey|..] == v;
    RemoveAllKeeps(v, CityKey);
  }

  /**
   * The layout the batch pipeline writes: a file directly inside a
   * `city=v` partition directory, below directories that are not
   * partitions, names the city v when v holds no `=`.
   */
  lemma PartitionPath(dirs: seq<string>, v: string, name: string, sep: char)
    requires sep !in CityKey && sep !in v && sep !in name && '=' !in v
    requires forall k :: 0 <= k < |dirs| ==> sep !in dirs[k] && !IsCitySegment(dirs[k])
    requires !IsCitySegment(name)
    ensures CityOf(Split(Join(dirs + [CityKey + v, name], [sep]), sep)) == Some(v)
  {
    var parts := dirs + [CityKey + v, name];
    assert sep !in CityKey + v;
    assert forall k :: 0 <= k < |parts| ==> sep !in parts[k];
    SplitJoin(parts, sep);
    CityOfLast(parts, |dirs|);
    PartitionValue(v);
  }

  /**
   * Removing every `city=` in one scan can join the pieces around a
   * removed one into a new `city=`, so the extracted city may still hold it.
   */
  lemma RemovalCanReformKey()
    ensures IsCitySegment("city=ccity=ity=")
    ensures RemoveAll("city=ccity=ity=", CityKey) == CityKey
  {
    var s := "city=ccity=ity=";
    assert s[..5] == CityKey;
    var t := s[5..];
    assert t == "ccity=ity=";
    assert t[..5][1] != CityKey[1];
    assert t[1..] == "city=ity=";
    assert t[1..][..5] == CityKey;
    assert t[1..][5..] == "ity=";
    assert RemoveAll("ity=", CityKey) == "ity=";
  }

  // ---------------- Walking the partitions ----------------

  lemma EndsWithTransitive(s: string, t: string, u: string)
    requires EndsWith(s, t) && EndsWith(t, u)
    ensures EndsWith(s, u)
  {
    assert s[|s| - |u|..] == t[|t| - |u|..];
  }

  /** The parquet file paths among `files` of directory `root`, in order. */
  function ParquetPathsIn(root: string, files: seq<string>, sep: char): (paths: seq<string>)
    ensures |paths| <= |files|
    ensures forall k :: 0 <= k < |paths| ==> EndsWith(paths[k], ParquetSuffix)
  {
    if |files| == 0 then []
    else
      var name := files[|files| - 1];
      var init := ParquetPathsIn(root, files[..|files| - 1], sep);
      if EndsWith(name, ParquetSuffix) then
        EndsWithTransitive(JoinPath(root, name, sep), name, ParquetSuffix);
        init + [JoinPath(root, name, sep)]
      else init
  }

  /** The parquet file paths of the whole walk, in traversal order. */
  function ParquetPaths(walk: seq<WalkEntry>, sep: char): (paths: seq<string>)
    ensures forall k :: 0 <= k < |paths| ==> EndsWith(paths[k], ParquetSuffix)
  {
    if |walk| == 0 then []
    else
      var entry := walk[|walk| - 1];
      ParquetPaths(walk[..|walk| - 1], sep) + ParquetPathsIn(entry.root, entry.files, sep)
  }

  /** The positions of the `.parquet` names among `files`, in listing order. */
  function ParquetIndices(files: seq<string>): (idx: seq<nat>)
    ensures forall k :: 0 <= k < |idx| ==> idx[k] < |files|
  {
    if |files| == 0 then []
    else
      var last := |files| - 1;
      var rest := ParquetIndices(files[..last]);
      if EndsWith(files[last], ParquetSuffix) then rest + [last] else rest
  }

  /** Each position names a `.parquet` file. */
  lemma {:induction false} ParquetIndicesSound(files: seq<string>)
    ensures forall k :: 0 <= k < |ParquetIndices(files)| ==> EndsWith(files[ParquetIndices(files)[k]], ParquetSuffix)
  {
    if |files| > 0 {
      var last := |files| - 1;
      var init := files[..last];
      var rest := ParquetIndices(init);
      ParquetIndicesSound(init);
      var idx := ParquetIndices(files);
      assert idx == if EndsWith(files[last], ParquetSuffix) then rest + [last] else rest;
      forall k | 0 <= k < |idx|
        ensures EndsWith(files[idx[k]], ParquetSuffix)
      {
        if k < |rest| {
          assert EndsWith(init[rest[k]], ParquetSuffix);
          assert idx[k] == rest[k] && init[rest[k]] == files[rest[k]];
        } else {
          assert idx[k] == last;
        }
      }
    }
  }

  /** The positions are increasing, so they follow the listing order. */
  lemma {:induction false} ParquetIndicesSorted(files: seq<string>)
    ensures forall k, l :: 0 <= k < l < |ParquetIndices(files)| ==> ParquetIndices(files)[k] < ParquetIndices(files)[l]
  {
    if |files| > 0 {
      var last := |files| - 1;
      var rest := ParquetIndices(files[..last]);
      ParquetIndicesSorted(files[..last]);
      var idx := ParquetIndices(files);
      assert idx == if EndsWith(files[last], ParquetSuffix) then rest + [last] else rest;
      forall k, l | 0 <= k < l < |idx|
        ensures idx[k] < idx[l]
      {
        assert idx[k] == rest[k] && rest[k] < last;
        if l < |rest| {
          assert idx[l] == rest[l];
        }
      }
    }
  }

  /** Every `.parquet` name's position is among the positions. */
  lemma {:induction false} ParquetIndicesComplete(files: seq<string>)
    ensures forall j :: 0 <= j < |files| && EndsWith(files[j], ParquetSuffix) ==> j in ParquetIndices(files)
  {
    if |files| > 0 {
      var last := |files| - 1;
      var init := files[..last];
      ParquetIndicesComplete(init);
      assert forall j :: 0 <= j < last ==> init[j] == files[j];
    }
  }

  /** The paths of `files` match the positions of its `.parquet` names. */
  predicate PathsMatchIndices(root: string, files: seq<string>, sep: char) {
    var idx, paths := ParquetIndices(files), ParquetPathsIn(root, files, sep);
    && |paths| == |idx|
    && forall k :: 0 <= k < |idx| ==> paths[k] == JoinPath(root, files[idx[k]], sep)
  }

  /** One more listed name keeps paths and positions matched. */
  lemma PathsMatchStep(root: string, files: seq<string>, sep: char)
    requires |files| > 0 && PathsMatchIndices(root, files[..|files| - 1], sep)
    ensures PathsMatchIndices(root, files, sep)
  {
    var last := |files| - 1;
    var init := files[..last];
    var rest, done := ParquetIndices(init), ParquetPathsIn(root, init, sep);
    if EndsWith(files[last], ParquetSuffix) {
      var idx, paths := rest + [last], done + [JoinPath(root, files[last], sep)];
      assert ParquetIndices(files) == idx && ParquetPathsIn(root, files, sep) == paths;
      forall k | 0 <= k < |idx|
        ensures paths[k] == JoinPath(root, files[idx[k]], sep)
      {
        if k < |rest| {
          assert idx[k] == rest[k] && paths[k] == done[k];
          assert init[rest[k]] == files[rest[k]];
        }
      }
    } else {
      assert ParquetIndices(files) == rest && ParquetPathsIn(root, files, sep) == done;
      forall k | 0 <= k < |rest|
        ensures done[k] == JoinPath(root, files[rest[k]], sep)
      {
        assert init[rest[k]] == files[rest[k]];
      }
    }
  }

  /**
   * The paths of one directory are the joins of its `.parquet` names, one
   * per name, in the order the names are listed.
   */
  lemma {:induction false} ParquetPathsInIndexed(root: string, files: seq<string>, sep: char)
    ensures var idx, paths := ParquetIndices(files), ParquetPathsIn(root, files, sep);
      && |paths| == |idx|
      && forall k :: 0 <= k < |idx| ==> paths[k] == JoinPath(root, files[idx[k]], sep)
  {
    if |files| > 0 {
      ParquetPathsInIndexed(root, files[..|files| - 1], sep);
      PathsMatchStep(root, files, sep);
    }
  }

  /** Every `.parquet` name of a directory yields its path. */
  lemma ParquetPathsInComplete(root: string, files: seq<string>, sep: char, j: nat)
    requires j < |files| && EndsWith(files[j], ParquetSuffix)
    ensures JoinPath(root, files[j], sep) in ParquetPathsIn(root, files, sep)
  {
    ParquetPathsInIndexed(root, files, sep);
    ParquetIndicesComplete(files);
    var idx := ParquetIndices(files);
    var k :| 0 <= k < |idx| && idx[k] == j;
    assert ParquetPathsIn(root, files, sep)[k] == JoinPath(root, files[j], sep);
  }

  /** Directories contribute their paths in traversal order. */
  lemma ParquetPathsAppend(walk: seq<WalkEntry>, entry: WalkEntry, sep: char)
    ensures ParquetPaths(walk + [entry], sep) == ParquetPaths(walk, sep) + ParquetPathsIn(entry.root, entry.files, sep)
  {
    assert (walk + [entry])[..|walk|] == walk;
  }

  /** Every `.parquet` file visited by the walk yields its path. */
  lemma {:induction false} ParquetPathsComplete(walk: seq<WalkEntry>, sep: char, i: nat, j: nat)
    requires i < |walk| && j < |walk[i].files| && EndsWith(walk[i].files[j], ParquetSuffix)
    ensures JoinPath(walk[i].root, walk[i].files[j], sep) in ParquetPaths(walk, sep)
  {
    var last := |walk| - 1;
    var init := walk[..last];
    if i == last {
      ParquetPathsInComplete(walk[i].root, walk[i].files, sep, j);
    } else {
      assert init[i] == walk[i];
      ParquetPathsComplete(init, sep, i, j);
    }
  }

  /** Every collected path is the join of a `.parquet` file visited by the walk. */
  lemma {:induction false} ParquetPathsSound(walk: seq<WalkEntry>, sep: char, n: nat)
    requires n < |ParquetPaths(walk, sep)|
    ensures exists i, j :: 0 <= i < |walk| && 0 <= j < |walk[i].files| && EndsWith(walk[i].files[j], ParquetSuffix)
              && ParquetPaths(walk, sep)[n] == JoinPath(walk[i].root, walk[i].files[j], sep)
  {
    var last := |walk| - 1;
    var init := walk[..last];
    var entry := walk[last];
    var head := ParquetPaths(init, sep);
    if n < |head| {
      ParquetPathsSound(init, sep, n);
      var i, j :| 0 <= i < |init| && 0 <= j < |init[i].files| && EndsWith(init[i].files[j], ParquetSuffix)
                  && head[n] == JoinPath(init[i].root, init[i].files[j], sep);
      assert init[i] == walk[i];
    } else {
      ParquetPathsInIndexed(entry.root, entry.files, sep);
      ParquetIndicesSound(entry.files);
      var idx := ParquetIndices(entry.files);
      var k := n - |head|;
      assert ParquetPaths(walk, sep)[n] == JoinPath(entry.root, entry.files[idx[k]], sep);
    }
  }

  predicate HasParquet(files: seq<string>) {
    exists j :: 0 <= j < |files| && EndsWith(files[j], ParquetSuffix)
  }

  lemma {:induction false} ParquetPathsInEmpty(root: string, files: seq<string>, sep: char)
    ensures |ParquetPathsIn(root, files, sep)| == 0 <==> !HasParquet(files)
  {
    if |files| > 0 {
      var init := files[..|files| - 1];
      ParquetPathsInEmpty(root, init, sep);
      assert forall j :: 0 <= j < |init| ==> init[j] == files[j];
      if HasParquet(files) && !EndsWith(files[|files| - 1], ParquetSuffix) {
        var j :| 0 <= j < |files| && EndsWith(files[j], ParquetSuffix);
        assert j < |init|;
      }
    }
  }

  /** The walk yields no parquet path exactly when no visited file name ends in `.parquet`. */
  lemma {:induction false} ParquetPathsEmpty(walk: seq<WalkEntry>, sep: char)
    ensures |ParquetPaths(walk, sep)| == 0 <==> forall i :: 0 <= i < |walk| ==> !HasParquet(walk[i].files)
  {
    if |walk| > 0 {
      var init := walk[..|walk| - 1];
      var entry := walk[|walk| - 1];
      ParquetPathsEmpty(init, sep);
      ParquetPathsInEmpty(entry.root, entry.files, sep);
      assert forall i :: 0 <= i < |init| ==> init[i] == walk[i];
    }
  }

  // ---------------- Loading the frames ----------------

  /** `df["city"] = city`: every row of the frame gets the same city. */
  function WithCity<R>(records: seq<R>, city: Option<string>): (frame: seq<GoldRow<R>>)
    ensures |frame| == |records|
    ensures forall k :: 0 <= k < |frame| ==> frame[k].record == records[k] && frame[k].city == city
  {
    seq(|records|, k requires 0 <= k < |records| => GoldRow(records[k], city))
  }

  /** The frame loaded from one parquet path. */
  function FrameOf<R>(path: string, sep: char, read: string -> seq<R>): (frame: seq<GoldRow<R>>)
    ensures |frame| == |read(path)|
    ensures forall k :: 0 <= k < |frame| ==> frame[k] == GoldRow(read(path)[k], CityOf(Split(path, sep)))
  {
    WithCity(read(path), CityOf(Split(path, sep)))
  }

  function Frames<R>(paths: seq<string>, sep: char, read: string -> seq<R>): (frames: seq<seq<GoldRow<R>>>) {
    seq(|paths|, i requires 0 <= i < |paths| => FrameOf(paths[i], sep, read))
  }

  lemma FramesAppend<R>(paths: seq<string>, path: string, sep: char, read: string -> seq<R>)
    ensures Frames(paths + [path], sep, read) == Frames(paths, sep, read) + [FrameOf(path, sep, read)]
  {
  }

  /** Frame i holds the records of path i, each with the city of that path. */
  lemma FramesContents<R>(paths: seq<string>, sep: char, read: string -> seq<R>)
    ensures var frames := Frames(paths, sep, read);
      && |frames| == |paths|
      && forall i :: 0 <= i < |paths| ==>
           && |frames[i]| == |read(paths[i])|
           && forall k :: 0 <= k < |frames[i]| ==>
                frames[i][k] == GoldRow(read(paths[i])[k], CityOf(Split(paths[i], sep)))
  {
  }

  lemma FramesConcat<R>(a: seq<string>, b: seq<string>, sep: char, read: string -> seq<R>)
    ensures Frames(a + b, sep, read) == Frames(a, sep, read) + Frames(b, sep, read)
  {
  }

  /**
   * The inner loop of the loader, over the files of one walked directory:
   * each `.parquet` file is read, its frame gets the city of its path and
   * is appended.
   */
  method LoadDirectory<R>(root: string, files: seq<string>, sep: char, read: string -> seq<R>)
    returns (frames: seq<seq<GoldRow<R>>>)
    ensures frames == Frames(ParquetPathsIn(root, files, sep), sep, read)
  {
    frames := [];
    for j := 0 to |files|
      invariant frames == Frames(ParquetPathsIn(root, files[..j], sep), sep, read)
    {
      var file := files[j];
      ghost var done := ParquetPathsIn(root, files[..j], sep);
      assert files[..j + 1][..j] == files[..j] && files[..j + 1][j] == file;
      if EndsWith(file, ParquetSuffix) {
        var filePath := JoinPath(root, file, sep);
        var city := ExtractCity(filePath, sep);
        var df := WithCity(read(filePath), city);
        assert ParquetPathsIn(root, files[..j + 1], sep) == done + [filePath];
        assert df == FrameOf(filePath, sep, read);
        FramesAppend(done, filePath, sep, read);
        frames := frames + [df];
      } else {
        assert ParquetPathsIn(root, files[..j + 1], sep) == done;
      }
    }
    assert files[..|files|] == files;
  }

  /**
   * The loader: the walk, then the guard. `read` stands for
   * `pd.read_parquet`. Frame i is the contents of the i-th parquet file in
   * traversal order, with its city column set to the city of its path;
   * with no parquet file at all the loader raises.
   */
  method LoadFrames<R>(walk: seq<WalkEntry>, sep: char, read: string -> seq<R>)
    returns (r: Result<seq<seq<GoldRow<R>>>, string>)
    ensures r.Failure? <==> forall i :: 0 <= i < |walk| ==> !HasParquet(walk[i].files)
    ensures r.Failure? ==> r.error == NoParquetMessage
    ensures r.Success? ==> r.value == Frames(ParquetPaths(walk, sep), sep, read)
  {
    var dataframes: seq<seq<GoldRow<R>>> := [];
    for i := 0 to |walk|
      invariant dataframes == Frames(ParquetPaths(walk[..i], sep), sep, read)
    {
      var entry := walk[i];
      assert walk[..i + 1][..i] == walk[..i];
      var frames := LoadDirectory(entry.root, entry.files, sep, read);
      FramesConcat(ParquetPaths(walk[..i], sep), ParquetPathsIn(entry.root, entry.files, sep), sep, read);
      dataframes := dataframes + frames;
    }
    assert walk[..|walk|] == walk;
    ParquetPathsEmpty(walk, sep);
    if |dataframes| == 0 {
      return Failure(NoParquetMessage);
    }
    r := Success(dataframes);
  }

  /** The number of rows in all frames together. */
  function TotalRows<T>(frames: seq<seq<T>>): (n: nat) {
    if |frames| == 0 then 0 else TotalRows(frames[..|frames| - 1]) + |frames[|frames| - 1]|
  }

  /**
   * `pd.concat(dataframes, ignore_index=True)`: the frames' rows one after
   * another, as many as all frames hold together.
   */
  function Concat<R>(frames: seq<seq<GoldRow<R>>>): (rows: seq<GoldRow<R>>)
    ensures |rows| == TotalRows(frames)
  {
    if |frames| == 0 then [] else Concat(frames[..|frames| - 1]) + frames[|frames| - 1]
  }

  /**
   * Row k of frame i lands at offset k after the rows of the frames
   * before it: the concatenation keeps every row, in frame order.
   */
  lemma {:induction false} ConcatIndex<R>(frames: seq<seq<GoldRow<R>>>, i: nat, k: nat)
    requires i < |frames| && k < |frames[i]|
    ensures TotalRows(frames[..i]) + k < |Concat(frames)|
    ensures Concat(frames)[TotalRows(frames[..i]) + k] == frames[i][k]
  {
    var last := |frames| - 1;
    var init := frames[..last];
    if i == last {
      assert frames[..i] == init;
    } else {
      assert init[..i] == frames[..i] && init[i] == frames[i];
      ConcatIndex(init, i, k);
    }
  }

  /**
   * Every row of the concatenated table is a record read from one of the
   * parquet paths, carrying the city of that very path.
   */
  lemma {:induction false} ConcatCities<R>(paths: seq<string>, sep: char, read: string -> seq<R>, n: nat)
    requires n < |Concat(Frames(paths, sep, read))|
    ensures exists i, k :: 0 <= i < |paths| && 0 <= k < |read(paths[i])|
              && Concat(Frames(paths, sep, read))[n] == GoldRow(read(paths[i])[k], CityOf(Split(paths[i], sep)))
  {
    var frames := Frames(paths, sep, read);
    var init := paths[..|paths| - 1];
    assert |paths| > 0;
    assert Frames(init, sep, read) == frames[..|frames| - 1];
    var head := Concat(frames[..|frames| - 1]);
    if n < |head| {
      ConcatCities(init, sep, read, n);
      var i, k :| 0 <= i < |init| && 0 <= k < |read(init[i])|
                  && Concat(Frames(init, sep, read))[n] == GoldRow(read(init[i])[k], CityOf(Split(init[i], sep)));
      assert init[i] == paths[i];
      assert Concat(frames)[n] == head[n];
    } else {
      var last := |paths| - 1;
      var k := n - |head|;
      assert Concat(frames)[n] == frames[last][k];
      assert frames[last] == WithCity(read(paths[last]), CityOf(Split(paths[last], sep)));
    }
  }
}
