/** The file picker of src/utils/directive/vSelectFile.ts: the settings
    `useUpload` derives from its configuration, and what the input's
    `change` handler hands to the callback. The DOM input, the click and
    the browser's file dialog are outside the model; the chosen files
    arrive as a sequence. */
module SelectFile {
  import opened Wrappers
  import Strings

  datatype File = File(name: string, size: nat)

  /** `UploadConfig`: every field may be left out. The callback and the
      `beforeCheck` hook are not data and are left out. */
  datatype UploadConfig = UploadConfig(
    multiple: Option<bool>,
    accept: Option<seq<string>>,
    min: Option<int>,
    max: Option<int>)

  /** What the created input is configured with. */
  datatype Input = Input(multiple: bool, accept: string, min: int, max: int)

  /** The error text reported when some file was dropped. */
  const SizeError: string := "存在大小不在范围的文件"

  /** `useUpload(config)` up to the click: defaults `multiple = false`,
      `accept = []`, `min = 0`, `max = 0`, and the accept list joined with
      commas. */
  function UseUpload(config: UploadConfig): (r: Input)
    ensures r.multiple <==> config.multiple == Some(true)
    ensures r.min == (if config.min.Some? then config.min.value else 0)
    ensures r.max == (if config.max.Some? then config.max.value else 0)
    ensures config.accept.None? ==> r.accept == ""
    ensures config.accept.Some? ==> r.accept == Strings.Join(config.accept.value, ',')
  {
    Input(
      config.multiple.GetOr(false),
      Strings.Join(config.accept.GetOr([]), ','),
      config.min.GetOr(0),
      config.max.GetOr(0))
  }

  /** The filter's test: at least `min`, and at most `max` unless `max` is
      0, which means no upper bound. */
  predicate InRange(size: nat, min: int, max: int) {
    size >= min && (max == 0 || size <= max)
  }

  /** `Array.prototype.filter` with that test. */
  function Filter(files: seq<File>, min: int, max: int): (kept: seq<File>)
    ensures |kept| <= |files|
    ensures forall f :: f in kept ==> f in files && InRange(f.size, min, max)
    ensures forall f :: f in files && InRange(f.size, min, max) ==> f in kept
  {
    if |files| == 0 then []
    else if InRange(files[0].size, min, max) then [files[0]] + Filter(files[1..], min, max)
    else Filter(files[1..], min, max)
  }

  /** Counted with duplicates: every file in range is kept as many times as
      it was chosen, and a file out of range not at all. */
  lemma {:induction false} FilterCounts(files: seq<File>, min: int, max: int)
    ensures forall f: File ::
      multiset(Filter(files, min, max))[f] == if InRange(f.size, min, max) then multiset(files)[f] else 0
    decreases |files|
  {
    if |files| > 0 {
      FilterCounts(files[1..], min, max);
      assert files == [files[0]] + files[1..];
    }
  }

  /** `a` is `b` with some elements left out, the rest in their order. */
  predicate Subsequence<T(==)>(a: seq<T>, b: seq<T>)
    decreases |b|
  {
    if |a| == 0 then true
    else if |b| == 0 then false
    else (a[0] == b[0] && Subsequence(a[1..], b[1..])) || Subsequence(a, b[1..])
  }

  /** The kept files keep their order. */
  lemma {:induction false} FilterIsSubsequence(files: seq<File>, min: int, max: int)
    ensures Subsequence(Filter(files, min, max), files)
    decreases |files|
  {
    if |files| > 0 {
      FilterIsSubsequence(files[1..], min, max);
      var rest := Filter(files[1..], min, max);
      if InRange(files[0].size, min, max) {
        assert Filter(files, min, max) == [files[0]] + rest;
        assert ([files[0]] + rest)[1..] == rest;
      } else if |rest| > 0 {
        assert Filter(files, min, max) == rest;
      }
    }
  }

  /** Nothing is dropped exactly when every file is in range. */
  lemma {:induction false} FilterKeepsAllIff(files: seq<File>, min: int, max: int)
    ensures |Filter(files, min, max)| == |files| <==> forall i :: 0 <= i < |files| ==> InRange(files[i].size, min, max)
    ensures (forall i :: 0 <= i < |files| ==> InRange(files[i].size, min, max)) ==> Filter(files, min, max) == files
    decreases |files|
  {
    if |files| > 0 {
      FilterKeepsAllIff(files[1..], min, max);
      assert forall i :: 1 <= i < |files| ==> files[1..][i - 1] == files[i];
      if (forall i :: 0 <= i < |files| ==> InRange(files[i].size, min, max)) {
        assert [files[0]] + files[1..] == files;
      }
    }
  }

  /** What the `change` handler hands to the callback: the kept files, the
      error if some file was dropped, and the whole selection. */
  datatype Selection = Selection(files: seq<File>, err: Option<string>, all: seq<File>)

  function OnChange(input: Input, chosen: seq<File>): (r: Selection)
    ensures r.files == Filter(chosen, input.min, input.max) && r.all == chosen
    ensures r.err.Some? ==> r.err.value == SizeError
    ensures r.err.None? <==> forall i :: 0 <= i < |chosen| ==> InRange(chosen[i].size, input.min, input.max)
  {
    FilterKeepsAllIff(chosen, input.min, input.max);
    var files := Filter(chosen, input.min, input.max);
    Selection(files, if |files| != |chosen| then Some(SizeError) else None, chosen)
  }

  /** With the default bounds every file is kept and no error is reported. */
  lemma DefaultsKeepEverything(chosen: seq<File>)
    ensures OnChange(UseUpload(UploadConfig(None, None, None, None)), chosen) == Selection(chosen, None, chosen)
  {
    FilterKeepsAllIff(chosen, 0, 0);
  }

  /** A file larger than a non-zero `max`, or smaller than `min`, is
      dropped and reported. */
  lemma OutOfRangeIsReported(input: Input, chosen: seq<File>, i: nat)
    requires i < |chosen| && (chosen[i].size < input.min || (input.max != 0 && chosen[i].size > input.max))
    ensures chosen[i] !in OnChange(input, chosen).files
    ensures OnChange(input, chosen).err == Some(SizeError)
  {
  }

  /** The accept attribute reads back as the list when no entry holds a
      comma. */
  lemma AcceptReadsBack(accept: seq<string>)
    requires |accept| > 0 && forall i :: 0 <= i < |accept| ==> ',' !in accept[i]
    ensures Strings.Split(UseUpload(UploadConfig(None, Some(accept), None, None)).accept, ',') == accept
  {
    Strings.SplitJoin(accept, ',');
  }
}
