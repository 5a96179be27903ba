/**
 * The pure helpers and the freshness decision of slamdunk's general
 * utilities: file-name manipulation, DNA complement, sample lookup, and
 * `checkStep`, which decides whether a pipeline step must run.
 *
 * The file system is abstract: a map from the paths that exist to their
 * modification times.
 */
module Misc {
  import opened Wrappers
  import opened Strings
  import opened OsPath

  /** Existing paths and their modification times. */
  type FileSystem = map<string, real>

  /** The argument of `files_exist`: a list of paths or a single path. */
  datatype Paths = PathList(items: seq<string>) | SinglePath(path: string)

  /** What `checkStep` and `matchFile` raise. */
  datatype MiscError =
    | MissingInput        // RuntimeError: an input file does not exist
    | EmptyInputList      // IndexError on `inFiles[0]`
    | EmptyOutputList     // IndexError on `outFiles[0]`
    | MoreThanOneMatch    // RuntimeError raised by `matchFile`

  // ---------------------------------------------------------------- file names

  /** `replaceExtension(inFile, newExtension, suffix)`: the root of `inFile`, then `suffix`, then `newExtension`. */
  function ReplaceExtension(inFile: string, newExtension: string, suffix: string): (r: string)
    ensures var kept := |inFile| - |SplitExt(inFile).1|;
      && |r| == kept + |suffix| + |newExtension|
      && r[..kept] == inFile[..kept]
      && r[kept..kept + |suffix|] == suffix
      && r[kept + |suffix|..] == newExtension
  {
    SplitExt(inFile).0 + suffix + newExtension
  }

  /**
   * The new name splits back into the old root with the suffix, and the new
   * extension: the suffix is kept verbatim.
   */
  lemma ReplaceExtensionRoundTrip(inFile: string, newExtension: string, suffix: string)
    requires IsExtension(newExtension) && HasStem(SplitExt(inFile).0 + suffix)
    ensures SplitExt(ReplaceExtension(inFile, newExtension, suffix)) == (SplitExt(inFile).0 + suffix, newExtension)
  {
    SplitExtOfJoin(SplitExt(inFile).0 + suffix, newExtension);
  }

  /** `removeExtension(inFile)`: drop the right-most extension, and one more when it was `.gz`. */
  function RemoveExtension(inFile: string): (r: string)
    ensures r <= inFile
    ensures r == inFile <==> SplitExt(inFile).1 == ""
  {
    var (name, ext) := SplitExt(inFile);
    if ext == ".gz" then SplitExt(name).0 else name
  }

  /** A single extension other than `.gz` is removed and nothing else. */
  lemma RemoveExtensionStripsOne(base: string, ext: string)
    requires IsExtension(ext) && ext != ".gz" && HasStem(base)
    ensures RemoveExtension(base + ext) == base
  {
    SplitExtOfJoin(base, ext);
  }

  /** A `.gz` extension is removed together with the extension before it. */
  lemma RemoveExtensionStripsGz(base: string, ext: string)
    requires IsExtension(ext) && HasStem(base)
    ensures RemoveExtension(base + ext + ".gz") == base
  {
    HasStemAppend(base, ext);
    SplitExtOfJoin(base + ext, ".gz");
    SplitExtOfJoin(base, ext);
  }

  /** A `.gz` on a name without a further extension leaves that name. */
  lemma RemoveExtensionBareGz(base: string)
    requires HasStem(base) && SplitExt(base).1 == ""
    ensures RemoveExtension(base + ".gz") == base
  {
    SplitExtOfJoin(base, ".gz");
  }

  // ---------------------------------------------------------------- complement

  predicate IsBase(c: char) {
    c == 'A' || c == 'C' || c == 'G' || c == 'T' || c == 'N'
  }

  /** Watson-Crick pairing, with `N` paired to itself. */
  predicate Pairs(a: char, b: char) {
    (a == 'A' && b == 'T') || (a == 'T' && b == 'A') ||
    (a == 'C' && b == 'G') || (a == 'G' && b == 'C') ||
    (a == 'N' && b == 'N')
  }

  /** The lookup table of `complement`; `None` where the dict raises KeyError. */
  function ComplementBase(c: char): Option<char>
  {
    match c
    case 'A' => Some('T')
    case 'C' => Some('G')
    case 'G' => Some('C')
    case 'T' => Some('A')
    case 'N' => Some('N')
    case _ => None
  }

  /** `complement(seq)`; `None` where the comprehension raises KeyError. */
  function Complement(s: string): (r: Option<string>)
    ensures r.Some? <==> forall i :: 0 <= i < |s| ==> IsBase(s[i])
    ensures r.Some? ==> |r.value| == |s| && forall i :: 0 <= i < |s| ==> Pairs(s[i], r.value[i])
  {
    if forall i :: 0 <= i < |s| ==> ComplementBase(s[i]).Some? then
      Some(seq(|s|, i requires 0 <= i < |s| => ComplementBase(s[i]).value))
    else
      None
  }

  /** On strings over A, C, G, T, N the complement is an involution. */
  lemma ComplementInvolution(s: string)
    requires forall i :: 0 <= i < |s| ==> IsBase(s[i])
    ensures Complement(s).Some? && Complement(Complement(s).value) == Some(s)
  {
    var t := Complement(s).value;
    assert forall i :: 0 <= i < |t| ==> IsBase(t[i]);
    var u := Complement(t).value;
    assert |u| == |s|;
    assert forall i :: 0 <= i < |s| ==> Pairs(s[i], t[i]) && Pairs(t[i], u[i]) && u[i] == s[i];
    assert u == s;
  }

  // ---------------------------------------------------------------- lookups

  /** How many of `files` contain `sample`. */
  function MatchCount(sample: string, files: seq<string>): nat
  {
    if files == [] then 0
    else MatchCount(sample, files[..|files| - 1]) + (if Contains(files[|files| - 1], sample) then 1 else 0)
  }

  /** `matchFile(sample, files)`: the single file containing `sample`, `None` for none, an error for several. */
  method MatchFile(sample: string, files: seq<string>) returns (r: Result<Option<string>, MiscError>)
    ensures r == Ok(None) <==> MatchCount(sample, files) == 0
    ensures r.Err? <==> MatchCount(sample, files) >= 2
    ensures r.Err? ==> r.error == MoreThanOneMatch
    ensures r.Ok? && r.value.Some? ==> MatchCount(sample, files) == 1 && r.value.value in files && Contains(r.value.value, sample)
  {
    var fileName: Option<string> := None;
    for i := 0 to |files|
      invariant fileName.None? <==> MatchCount(sample, files[..i]) == 0
      invariant fileName.Some? ==> MatchCount(sample, files[..i]) == 1 && fileName.value in files && Contains(fileName.value, sample)
    {
      assert files[..i + 1][..i] == files[..i];
      var item := files[i];
      if Contains(item, sample) {
        if fileName.None? {
          fileName := Some(item);
        } else {
          assert MatchCount(sample, files[..i + 1]) == 2;
          MatchCountGrows(sample, files, i + 1);
          return Err(MoreThanOneMatch);
        }
      }
    }
    assert files[..|files|] == files;
    r := Ok(fileName);
  }

  lemma MatchCountGrows(sample: string, files: seq<string>, k: nat)
    requires k <= |files|
    ensures MatchCount(sample, files[..k]) <= MatchCount(sample, files)
    decreases |files| - k
  {
    if k < |files| {
      assert files[..k + 1][..k] == files[..k];
      MatchCountGrows(sample, files, k + 1);
    } else {
      assert files[..k] == files;
    }
  }

  /**
   * `getSampleName(fileName, samples)`: without a sample table, the file name
   * without its extension; otherwise the value of the first key (in the
   * table's iteration order) that occurs in the file name, or `None`.
   */
  method GetSampleName(fileName: string, samples: Option<seq<(string, string)>>) returns (r: Option<string>)
    ensures samples.None? ==> r == Some(RemoveExtension(fileName))
    ensures samples.Some? && r.None? ==> forall i :: 0 <= i < |samples.value| ==> !Contains(fileName, samples.value[i].0)
    ensures samples.Some? && r.Some? ==>
      exists i :: 0 <= i < |samples.value| && Contains(fileName, samples.value[i].0) && r.value == samples.value[i].1 &&
        forall j :: 0 <= j < i ==> !Contains(fileName, samples.value[j].0)
  {
    if samples.None? {
      return Some(RemoveExtension(fileName));
    }
    var table := samples.value;
    for i := 0 to |table|
      invariant forall j :: 0 <= j < i ==> !Contains(fileName, table[j].0)
    {
      if Contains(fileName, table[i].0) {
        return Some(table[i].1);
      }
    }
    return None;
  }

  // ---------------------------------------------------------------- freshness

  predicate AllExist(files: seq<string>, fs: FileSystem) {
    forall i :: 0 <= i < |files| ==> files[i] in fs
  }

  /** Every output is strictly newer than every input. */
  predicate AllNewer(outFiles: seq<string>, inFiles: seq<string>, fs: FileSystem)
    requires AllExist(outFiles, fs) && AllExist(inFiles, fs)
  {
    forall o, i :: 0 <= o < |outFiles| && 0 <= i < |inFiles| ==> fs[outFiles[o]] > fs[inFiles[i]]
  }

  /** `files_exist(files)`. */
  method FilesExist(files: Paths, fs: FileSystem) returns (r: bool)
    ensures files.PathList? ==> (r <==> AllExist(files.items, fs))
    ensures files.SinglePath? ==> (r <==> files.path in fs)
  {
    if files.PathList? {
      for i := 0 to |files.items|
        invariant forall j :: 0 <= j < i ==> files.items[j] in fs
      {
        if files.items[i] !in fs {
          return false;
        }
      }
    } else {
      if files.path !in fs {
        return false;
      }
    }
    return true;
  }

  /** The latest modification time of `files`, folded left to right with `max`. */
  method LatestMtime(files: seq<string>, fs: FileSystem) returns (date: real)
    requires |files| > 0 && AllExist(files, fs)
    ensures forall i :: 0 <= i < |files| ==> fs[files[i]] <= date
    ensures exists i :: 0 <= i < |files| && fs[files[i]] == date
  {
    date := fs[files[0]];
    for k := 1 to |files|
      invariant forall i :: 0 <= i < k ==> fs[files[i]] <= date
      invariant exists i :: 0 <= i < k && fs[files[i]] == date
    {
      if fs[files[k]] > date {
        date := fs[files[k]];
      }
    }
  }

  /** The earliest modification time of `files`, folded left to right with `min`. */
  method EarliestMtime(files: seq<string>, fs: FileSystem) returns (date: real)
    requires |files| > 0 && AllExist(files, fs)
    ensures forall i :: 0 <= i < |files| ==> date <= fs[files[i]]
    ensures exists i :: 0 <= i < |files| && fs[files[i]] == date
  {
    date := fs[files[0]];
    for k := 1 to |files|
      invariant forall i :: 0 <= i < k ==> date <= fs[files[i]]
      invariant exists i :: 0 <= i < k && fs[files[i]] == date
    {
      if fs[files[k]] < date {
        date := fs[files[k]];
      }
    }
  }

  /**
   * `checkStep(inFiles, outFiles, force)`: an error when an input is missing
   * or there is no input; otherwise `false` (skip the step) exactly when
   * there are outputs, they all exist, every one is newer than every input,
   * and `force` is off.
   */
  method CheckStep(inFiles: seq<string>, outFiles: seq<string>, force: bool, fs: FileSystem)
    returns (r: Result<bool, MiscError>)
    ensures !AllExist(inFiles, fs) ==> r == Err(MissingInput)
    ensures AllExist(inFiles, fs) && |inFiles| == 0 ==> r == Err(EmptyInputList)
    ensures AllExist(inFiles, fs) && |inFiles| > 0 ==>
      r == Ok(!(|outFiles| > 0 && AllExist(outFiles, fs) && AllNewer(outFiles, inFiles, fs) && !force))
  {
    var inputsExist := FilesExist(PathList(inFiles), fs);
    if !inputsExist {
      return Err(MissingInput);
    }
    if |inFiles| == 0 {
      return Err(EmptyInputList);
    }
    var inFileDate := LatestMtime(inFiles, fs);
    if |outFiles| > 0 {
      var outputsExist := FilesExist(PathList(outFiles), fs);
      if outputsExist {
        var outFileDate := EarliestMtime(outFiles, fs);
        if outFileDate > inFileDate {
          if force {
            return Ok(true);
          } else {
            return Ok(false);
          }
        }
      }
    }
    return Ok(true);
  }
}
