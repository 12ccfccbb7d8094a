/** The build-info plugin's helpers: the total size of a build and the map-to-record copy. */
module BuildInfo {

  /** One emitted file and its size in bytes. */
  datatype FileInfo = FileInfo(fileName: string, size: int)

  /** What one build produced. */
  datatype Build = Build(chunks: seq<FileInfo>, assets: seq<FileInfo>, totalSize: int)

  /** `files.reduce((sum, file) => sum + file.size, 0)`, folded from the left. */
  function SumSizes(files: seq<FileInfo>): int {
    if files == [] then 0 else SumSizes(files[..|files| - 1]) + files[|files| - 1].size
  }

  /** `calculateSize(buildInfo)`: the chunks' sizes plus the assets' sizes. */
  function CalculateSize(info: Build): int {
    SumSizes(info.chunks) + SumSizes(info.assets)
  }

  /** The fold over a concatenation is the sum of the folds. */
  lemma {:induction false} SumSizesAppend(a: seq<FileInfo>, b: seq<FileInfo>)
    ensures SumSizes(a + b) == SumSizes(a) + SumSizes(b)
    decreases |b|
  {
    if b != [] {
      var c := a + b;
      assert c[..|c| - 1] == a + b[..|b| - 1];
      SumSizesAppend(a, b[..|b| - 1]);
    } else {
      assert a + b == a;
    }
  }

  /** The same sum taken from the right, as an independent reference. */
  function SumFromRight(files: seq<FileInfo>): int {
    if files == [] then 0 else files[0].size + SumFromRight(files[1..])
  }

  /** Folding from the left and from the right agree. */
  lemma {:induction false} SumSizesFromRight(files: seq<FileInfo>)
    ensures SumSizes(files) == SumFromRight(files)
    decreases |files|
  {
    if files != [] {
      SumSizesFromRight(files[1..]);
      SumSizesAppend([files[0]], files[1..]);
      assert [files[0]] + files[1..] == files;
      assert [files[0]][..0] == [];
    }
  }

  /** No files, no size. */
  lemma EmptyBuildSize(totalSize: int)
    ensures CalculateSize(Build([], [], totalSize)) == 0
  {
  }

  /** One more chunk or asset of size `s` adds exactly `s`. */
  lemma AddFileSize(info: Build, f: FileInfo)
    ensures CalculateSize(info.(chunks := info.chunks + [f])) == CalculateSize(info) + f.size
    ensures CalculateSize(info.(assets := info.assets + [f])) == CalculateSize(info) + f.size
  {
    SumSizesAppend(info.chunks, [f]);
    SumSizesAppend(info.assets, [f]);
    assert [f][..0] == [];
  }

  /** `buildResultToJson`: copies every entry of the map into a fresh record. */
  method BuildResultToJson(buildResult: map<string, Build>) returns (json: map<string, Build>)
    ensures json.Keys == buildResult.Keys
    ensures forall k :: k in json ==> json[k] == buildResult[k]
  {
    json := map[];
    var keys := buildResult.Keys;
    while keys != {}
      invariant keys <= buildResult.Keys
      invariant json.Keys == buildResult.Keys - keys
      invariant forall k :: k in json ==> json[k] == buildResult[k]
      decreases keys
    {
      var key :| key in keys;
      json := json[key := buildResult[key]];
      keys := keys - {key};
    }
  }
}
