/**
 * The older copy of the utilities used inside the `dunks` package. Its
 * `replaceExtension` and `files_exist` are character for character those of
 * the general utilities; `removeExtension` lacks the `.gz` rule and
 * `checkStep` lacks the guard against an empty output list.
 */
module DunkUtils {
  import opened Wrappers
  import opened OsPath
  import Misc

  /** `replaceExtension(inFile, newExtension, suffix)` of this package. */
  function ReplaceExtension(inFile: string, newExtension: string, suffix: string): (r: string)
    ensures var kept := |inFile| - |SplitExt(inFile).1|;
      && |r| == kept + |suffix| + |newExtension|
      && r[..kept] == inFile[..kept]
      && r[kept..kept + |suffix|] == suffix
      && r[kept + |suffix|..] == newExtension
  {
    SplitExt(inFile).0 + suffix + newExtension
  }

  /** This copy computes what the general utilities' `replaceExtension` computes. */
  lemma ReplaceExtensionAgrees(inFile: string, newExtension: string, suffix: string)
    ensures ReplaceExtension(inFile, newExtension, suffix) == Misc.ReplaceExtension(inFile, newExtension, suffix)
  {
  }

  /** `removeExtension(inFile)`: the root returned by `splitext`. */
  function RemoveExtension(inFile: string): (r: string)
    ensures r <= inFile
    ensures r == inFile <==> SplitExt(inFile).1 == ""
  {
    SplitExt(inFile).0
  }

  /** Exactly one extension is removed, `.gz` included. */
  lemma RemoveExtensionStripsOne(base: string, ext: string)
    requires IsExtension(ext) && HasStem(base)
    ensures RemoveExtension(base + ext) == base
  {
    SplitExtOfJoin(base, ext);
  }

  /** Unlike the general utilities, a compressed name keeps its inner extension. */
  lemma RemoveExtensionKeepsInnerExtension(base: string, ext: string)
    requires IsExtension(ext) && HasStem(base)
    ensures RemoveExtension(base + ext + ".gz") == base + ext
    ensures Misc.RemoveExtension(base + ext + ".gz") == base
  {
    HasStemAppend(base, ext);
    SplitExtOfJoin(base + ext, ".gz");
    Misc.RemoveExtensionStripsGz(base, ext);
  }

  /** `files_exist(files)` of this package, the same loop as the general one. */
  method FilesExist(files: Misc.Paths, fs: Misc.FileSystem) returns (r: bool)
    ensures files.PathList? ==> (r <==> Misc.AllExist(files.items, fs))
    ensures files.SinglePath? ==> (r <==> files.path in fs)
  {
    r := Misc.FilesExist(files, fs);
  }

  /**
   * `checkStep(inFiles, outFiles, force)` of this package: as the general
   * one, except that an empty output list reaches `outFiles[0]` and raises.
   */
  method CheckStep(inFiles: seq<string>, outFiles: seq<string>, force: bool, fs: Misc.FileSystem)
    returns (r: Result<bool, Misc.MiscError>)
    ensures !Misc.AllExist(inFiles, fs) ==> r == Err(Misc.MissingInput)
    ensures Misc.AllExist(inFiles, fs) && |inFiles| == 0 ==> r == Err(Misc.EmptyInputList)
    ensures Misc.AllExist(inFiles, fs) && |inFiles| > 0 && |outFiles| == 0 ==> r == Err(Misc.EmptyOutputList)
    ensures Misc.AllExist(inFiles, fs) && |inFiles| > 0 && |outFiles| > 0 ==>
      r == Ok(!(Misc.AllExist(outFiles, fs) && Misc.AllNewer(outFiles, inFiles, fs) && !force))
  {
    var inputsExist := FilesExist(Misc.PathList(inFiles), fs);
    if !inputsExist {
      return Err(Misc.MissingInput);
    }
    if |inFiles| == 0 {
      return Err(Misc.EmptyInputList);
    }
    var inFileDate := Misc.LatestMtime(inFiles, fs);
    var outputsExist := FilesExist(Misc.PathList(outFiles), fs);
    if outputsExist {
      if |outFiles| == 0 {
        return Err(Misc.EmptyOutputList);
      }
      var outFileDate := Misc.EarliestMtime(outFiles, fs);
      if outFileDate > inFileDate {
        if force {
          return Ok(true);
        } else {
          return Ok(false);
        }
      }
    }
    return Ok(true);
  }
}
