/**
 * The generation entry point as far as it exists: validation of the output
 * archive path, and the manifest every archive carries.
 *
 * The process's current directory and the filesystem are not part of the
 * model: they come in as an `Environment`, whose `parent` stands for
 * `Path::parent` and whose `pathExists` stands for `Path::exists` (true
 * for any existing entry, a regular file included, not only a directory).
 */
module Generate {
  import opened RustStd

  datatype GenerateError =
    | InvalidOutputPath(message: string)
    | IoError(message: string)

  /**
   * What the running process can observe: its current directory (or the
   * reason it could not be read), the parent of a path, and which paths
   * exist (directories or any other entry).
   */
  datatype Environment = Environment(
    currentDir: Result<string, string>,
    parent: string -> Option<string>,
    pathExists: string -> bool)

  const JarSuffix: string := ".jar"
  const SrcjarSuffix: string := ".srcjar"

  /** The path names a `.jar` or `.srcjar` archive. */
  predicate HasArchiveSuffix(path: string): (r: bool)
    ensures r ==> |path| >= |JarSuffix| && path[|path| - 3..] == "jar"
    ensures r ==> path[|path| - 4] == '.' || (|path| >= 7 && path[|path| - 7..|path| - 3] == ".src")
  {
    EndsWith(path, JarSuffix) || EndsWith(path, SrcjarSuffix)
  }

  predicate IsAbsolute(path: string): (r: bool)
    ensures r <==> path != [] && path[0] == '/'
  {
    StartsWith(path, "/")
  }

  // The fixed heads of the four refusal messages; the two longer ones are
  // written in two pieces only so that their leading characters are cheap to read off.
  const SuffixMessageHead: string := "Output path must end" + " in '.jar' or '.srcjar'. Got: "
  const CurrentDirMessageHead: string := "Failed to get current directory: "
  const NoParentMessageHead: string := "Output path must have a parent directory. Got: "
  const MissingParentMessageHead: string := "Parent" + " directory of output path does not exist. Got: "

  /** The refusal of a path without an archive suffix; it quotes the path. */
  function SuffixMessage(path: string): (r: string)
    ensures StartsWith(r, SuffixMessageHead) && EndsWith(r, path)
    ensures |r| == |SuffixMessageHead| + |path|
  {
    SuffixMessageHead + path
  }

  /** The refusal when the current directory cannot be read; it quotes the reason. */
  function CurrentDirMessage(reason: string): (r: string)
    ensures StartsWith(r, CurrentDirMessageHead) && EndsWith(r, reason)
    ensures |r| == |CurrentDirMessageHead| + |reason|
  {
    CurrentDirMessageHead + reason
  }

  /** The refusal of a path without a parent; it quotes the absolute path. */
  function NoParentMessage(path: string): (r: string)
    ensures StartsWith(r, NoParentMessageHead) && EndsWith(r, path)
    ensures |r| == |NoParentMessageHead| + |path|
  {
    NoParentMessageHead + path
  }

  /** The refusal of a path whose parent does not exist; it quotes the absolute path. */
  function MissingParentMessage(path: string): (r: string)
    ensures StartsWith(r, MissingParentMessageHead) && EndsWith(r, path)
    ensures |r| == |MissingParentMessageHead| + |path|
  {
    MissingParentMessageHead + path
  }

  /**
   * The four messages never coincide, whatever path or reason they carry:
   * the message alone tells which check refused the path.
   */
  lemma MessagesTellChecksApart(p: string, q: string)
    ensures SuffixMessage(p) != CurrentDirMessage(q) && SuffixMessage(p) != NoParentMessage(q)
    ensures SuffixMessage(p) != MissingParentMessage(q) && CurrentDirMessage(p) != NoParentMessage(q)
    ensures CurrentDirMessage(p) != MissingParentMessage(q) && NoParentMessage(p) != MissingParentMessage(q)
  {
    assert SuffixMessageHead[0] == 'O' && SuffixMessageHead[17] == 'e';
    assert NoParentMessageHead[0] == 'O' && NoParentMessageHead[17] == 'h';
    assert CurrentDirMessageHead[0] == 'F' && MissingParentMessageHead[0] == 'P';
    HeadsTellApart(SuffixMessageHead, CurrentDirMessageHead, p, q, 0);
    HeadsTellApart(SuffixMessageHead, NoParentMessageHead, p, q, 17);
    HeadsTellApart(SuffixMessageHead, MissingParentMessageHead, p, q, 0);
    HeadsTellApart(CurrentDirMessageHead, NoParentMessageHead, p, q, 0);
    HeadsTellApart(CurrentDirMessageHead, MissingParentMessageHead, p, q, 0);
    HeadsTellApart(NoParentMessageHead, MissingParentMessageHead, p, q, 0);
  }

  /** Texts whose heads differ at some index differ, whatever follows the heads. */
  lemma HeadsTellApart(a: string, b: string, p: string, q: string, k: int)
    requires 0 <= k < |a| && k < |b| && a[k] != b[k]
    ensures a + p != b + q
  {
    assert (a + p)[k] == a[k];
  }

  /**
   * The absolute form of an output path: an absolute path as it is, a
   * relative one joined onto the current directory.
   */
  function Absolutize(outputPath: string, currentDir: Result<string, string>): (r: Result<string, GenerateError>)
    ensures IsAbsolute(outputPath) ==> r == Ok(outputPath)
    ensures !IsAbsolute(outputPath) && currentDir.Err? ==>
      r == Err(InvalidOutputPath(CurrentDirMessage(currentDir.error)))
    ensures !IsAbsolute(outputPath) && currentDir.Ok? ==>
      r == Ok(Join(currentDir.value, outputPath)) &&
      StartsWith(r.value, currentDir.value) && |r.value| >= |currentDir.value| + |outputPath|
    ensures r.Ok? ==> EndsWith(r.value, outputPath)
  {
    if IsAbsolute(outputPath) then
      Ok(outputPath)
    else
      match currentDir
      case Err(reason) => Err(InvalidOutputPath(CurrentDirMessage(reason)))
      case Ok(dir) => Ok(Join(dir, outputPath))
  }

  /**
   * `validate_output_path`: reject a path that does not name a `.jar` or
   * `.srcjar`, make it absolute, and require its parent directory to exist;
   * the absolute path is the result.
   */
  function ValidateOutputPath(outputPath: string, env: Environment): (r: Result<string, GenerateError>)
    ensures !HasArchiveSuffix(outputPath) ==> r == Err(InvalidOutputPath(SuffixMessage(outputPath)))
    ensures r.Err? ==> r.error.InvalidOutputPath?
    ensures r.Ok? ==> HasArchiveSuffix(r.value)
    ensures r.Ok? ==> env.parent(r.value).Some? && env.pathExists(env.parent(r.value).value)
    ensures r.Ok? && IsAbsolute(outputPath) ==> r.value == outputPath
    ensures (HasArchiveSuffix(outputPath) && IsAbsolute(outputPath) && env.parent(outputPath).None?) ==>
      r == Err(InvalidOutputPath(NoParentMessage(outputPath)))
    ensures (HasArchiveSuffix(outputPath) && IsAbsolute(outputPath) && env.parent(outputPath).Some? &&
      !env.pathExists(env.parent(outputPath).value)) ==>
      r == Err(InvalidOutputPath(MissingParentMessage(outputPath)))
  {
    if !EndsWith(outputPath, JarSuffix) && !EndsWith(outputPath, SrcjarSuffix) then
      Err(InvalidOutputPath(SuffixMessage(outputPath)))
    else
      match Absolutize(outputPath, env.currentDir)
      case Err(e) => Err(e)
      case Ok(path) =>
        ArchiveSuffixKept(path, outputPath);
        match env.parent(path)
        case None => Err(InvalidOutputPath(NoParentMessage(path)))
        case Some(parentDir) =>
          if !env.pathExists(parentDir) then
            Err(InvalidOutputPath(MissingParentMessage(path)))
          else
            Ok(path)
  }

  /** A path ending in a path with an archive suffix has that suffix too. */
  lemma ArchiveSuffixKept(path: string, outputPath: string)
    requires EndsWith(path, outputPath)
    ensures HasArchiveSuffix(outputPath) ==> HasArchiveSuffix(path)
  {
    if EndsWith(outputPath, JarSuffix) {
      SuffixOfSuffix(path, outputPath, JarSuffix);
    }
    if EndsWith(outputPath, SrcjarSuffix) {
      SuffixOfSuffix(path, outputPath, SrcjarSuffix);
    }
  }

  /** The suffix is checked before anything is looked up: the environment plays no part in that rejection. */
  lemma SuffixCheckedFirst(outputPath: string, env1: Environment, env2: Environment)
    requires !HasArchiveSuffix(outputPath)
    ensures ValidateOutputPath(outputPath, env1) == ValidateOutputPath(outputPath, env2)
    ensures ValidateOutputPath(outputPath, env1).Err?
  {
  }

  /** An absolute path with an archive suffix and an existing parent comes back unchanged. */
  lemma AbsolutePathUnchanged(outputPath: string, env: Environment)
    requires HasArchiveSuffix(outputPath) && IsAbsolute(outputPath)
    requires env.parent(outputPath).Some? && env.pathExists(env.parent(outputPath).value)
    ensures ValidateOutputPath(outputPath, env) == Ok(outputPath)
  {
  }

  /**
   * A relative path is joined onto the current directory; the joined path
   * keeps the archive suffix and is the result when its parent exists.
   */
  lemma RelativePathJoined(outputPath: string, env: Environment)
    requires HasArchiveSuffix(outputPath) && !IsAbsolute(outputPath) && env.currentDir.Ok?
    ensures var joined := Join(env.currentDir.value, outputPath);
      HasArchiveSuffix(joined) &&
      (env.parent(joined).None? ==>
        ValidateOutputPath(outputPath, env) == Err(InvalidOutputPath(NoParentMessage(joined)))) &&
      (env.parent(joined).Some? && !env.pathExists(env.parent(joined).value) ==>
        ValidateOutputPath(outputPath, env) == Err(InvalidOutputPath(MissingParentMessage(joined)))) &&
      (env.parent(joined).Some? && env.pathExists(env.parent(joined).value) ==>
        ValidateOutputPath(outputPath, env) == Ok(joined))
  {
    ArchiveSuffixKept(Join(env.currentDir.value, outputPath), outputPath);
  }

  /** A relative path cannot be validated when the current directory cannot be read. */
  lemma CurrentDirUnavailable(outputPath: string, env: Environment)
    requires HasArchiveSuffix(outputPath) && !IsAbsolute(outputPath) && env.currentDir.Err?
    ensures ValidateOutputPath(outputPath, env)
         == Err(InvalidOutputPath(CurrentDirMessage(env.currentDir.error)))
  {
  }

  /**
   * Validation is idempotent: when the current directory is absolute (as
   * the operating system reports it), a validated path validates again to
   * itself, whatever directory the second run starts in.
   */
  lemma ValidateOutputPathIdempotent(outputPath: string, env: Environment, laterDir: Result<string, string>)
    requires env.currentDir.Ok? ==> IsAbsolute(env.currentDir.value)
    requires ValidateOutputPath(outputPath, env).Ok?
    ensures var validated := ValidateOutputPath(outputPath, env).value;
      IsAbsolute(validated) &&
      ValidateOutputPath(validated, Environment(laterDir, env.parent, env.pathExists)) == Ok(validated)
  {
    if !IsAbsolute(outputPath) {
      JoinKeepsAbsolute(env.currentDir.value, outputPath);
    }
  }

  /** A `.zip` is refused for its suffix, whatever the environment. */
  lemma ZipPathRejected(env: Environment)
    ensures ValidateOutputPath("out.zip", env) == Err(InvalidOutputPath(SuffixMessage("out.zip")))
  {
    var path := "out.zip";
    assert path[3..][1] == 'z';
    assert path[0] == 'o';
  }

  /**
   * A relative `.srcjar` path checked in the working directory `/home/dev`,
   * which holds a `build` subdirectory, resolves below it.
   */
  lemma RelativeSrcjarResolved()
    ensures ValidateOutputPath("build/out.srcjar", ExampleEnvironment) == Ok(ExampleDir + "/" + "build/out.srcjar")
  {
    var rel := "build/out.srcjar";
    assert rel[0] == 'b';
    assert rel[|rel| - 7..] == SrcjarSuffix;
    assert ExampleDir[|ExampleDir| - 1] == 'v';
    RelativePathJoined(rel, ExampleEnvironment);
  }

  const ExampleDir: string := "/home/dev"

  /** The working directory `/home/dev`, holding only a `build` subdirectory. */
  const ExampleEnvironment: Environment := Environment(
    Ok(ExampleDir),
    p => if p == ExampleDir + "/" + "build/out.srcjar" then Some(ExampleDir + "/" + "build") else None,
    d => d == ExampleDir + "/" + "build")

  /**
   * `generate_code` as far as it is written: validate the output path and
   * stop; the generation itself is still to come, and the parse result it
   * takes plays no part yet.
   */
  function GenerateCode(outputPath: string, env: Environment): (r: Result<(), GenerateError>)
    ensures r.Ok? <==> ValidateOutputPath(outputPath, env).Ok?
    ensures r.Err? ==> r.error == ValidateOutputPath(outputPath, env).error
  {
    match ValidateOutputPath(outputPath, env)
    case Err(e) => Err(e)
    case Ok(_) => Ok(())
  }

  // ---------------------------------------------------------------------
  // Manifest of the staging directory
  // ---------------------------------------------------------------------

  newtype byte = x: int | 0 <= x < 256

  const ManifestVersionLine: string := "Manifest-Version: 1.0"
  const CreatedByLine: string := "Created-By: mavir"

  predicate IsAscii(s: string) {
    forall i :: 0 <= i < |s| ==> s[i] as int < 128
  }

  /** The one-byte-per-character encoding of an ASCII string. */
  function AsciiBytes(s: string): (b: seq<byte>)
    requires IsAscii(s)
    ensures |b| == |s|
    ensures forall i :: 0 <= i < |s| ==> b[i] as int == s[i] as int
  {
    seq(|s|, i requires 0 <= i < |s| => s[i] as int as byte)
  }

  /** Reading bytes below 128 back as characters. */
  function AsciiText(b: seq<byte>): (s: string)
    requires forall i :: 0 <= i < |b| ==> b[i] < 128
    ensures |s| == |b|
    ensures forall i :: 0 <= i < |b| ==> s[i] as int == b[i] as int
  {
    seq(|b|, i requires 0 <= i < |b| => b[i] as int as char)
  }

  lemma AsciiRoundTrip(s: string)
    requires IsAscii(s)
    ensures AsciiText(AsciiBytes(s)) == s
  {
  }

  /** The text of the manifest, as the source spells its byte string. */
  const ManifestText: string := "Manifest-Version: 1.0\nCreated-By: mavir\n"

  /** The bytes written to the manifest file. */
  const ManifestBytes: seq<byte> := AsciiBytes(ManifestText)

  /** The lines of `lines` each followed by a newline. */
  function JoinLines(lines: seq<string>): (s: string)
    ensures s == [] <==> lines == []
    ensures s != [] ==> s[|s| - 1] == '\n'
  {
    if lines == [] then [] else lines[0] + "\n" + JoinLines(lines[1..])
  }

  /** Index of the first newline in `s`, or `|s|` when there is none. */
  function NewlineIndex(s: string): (k: nat)
    ensures k <= |s|
    ensures k < |s| ==> s[k] == '\n'
    ensures forall i :: 0 <= i < k ==> s[i] != '\n'
  {
    if s == [] then 0
    else if s[0] == '\n' then 0
    else 1 + NewlineIndex(s[1..])
  }

  /** `s` cut at each newline; a final newline ends the last line rather than starting an empty one. */
  function Lines(s: string): (lines: seq<string>)
    ensures forall i :: 0 <= i < |lines| ==> '\n' !in lines[i]
    decreases |s|
  {
    if s == [] then []
    else
      var k := NewlineIndex(s);
      if k == |s| then [s] else [s[..k]] + Lines(s[k + 1..])
  }

  /** Lines without newlines, joined and cut again, come back unchanged. */
  lemma {:induction false} LinesOfJoinLines(lines: seq<string>)
    requires forall i :: 0 <= i < |lines| ==> '\n' !in lines[i]
    ensures Lines(JoinLines(lines)) == lines
  {
    if lines != [] {
      var rest := JoinLines(lines[1..]);
      var s := lines[0] + "\n" + rest;
      assert s[|lines[0]|] == '\n';
      assert NewlineIndex(s) == |lines[0]|;
      assert s[..|lines[0]|] == lines[0];
      assert s[|lines[0]| + 1..] == rest;
      LinesOfJoinLines(lines[1..]);
    }
  }

  /** The manifest text is the two header lines, each ended by a newline. */
  lemma ManifestTextIsHeaderLines()
    ensures ManifestText == JoinLines([ManifestVersionLine, CreatedByLine])
  {
    assert JoinLines([CreatedByLine]) == CreatedByLine + "\n";
  }

  /** The manifest bytes are the ASCII encoding of the manifest text. */
  lemma ManifestBytesEncodeText()
    ensures |ManifestBytes| == 40
    ensures forall i :: 0 <= i < |ManifestBytes| ==> ManifestBytes[i] < 128
    ensures AsciiText(ManifestBytes) == ManifestText
    ensures ManifestBytes[39] == 10
  {
    assert IsAscii(ManifestText) && |ManifestText| == 40 && ManifestText[39] == '\n';
    AsciiRoundTrip(ManifestText);
  }

  /** The manifest text splits into exactly the two header lines. */
  lemma ManifestTextLines()
    ensures Lines(ManifestText) == [ManifestVersionLine, CreatedByLine]
  {
    ManifestTextIsHeaderLines();
    LinesOfTwoLines(ManifestText, ManifestVersionLine, CreatedByLine);
  }

  /**
   * Text that is two newline-free lines, each ended by a newline, splits into
   * those lines. Stated over a variable text so that the proof of
   * `ManifestTextLines` need not read the manifest literal character by character.
   */
  lemma LinesOfTwoLines(s: string, first: string, second: string)
    requires '\n' !in first && '\n' !in second
    requires s == JoinLines([first, second])
    ensures Lines(s) == [first, second]
  {
    LinesOfJoinLines([first, second]);
  }

  /**
   * The manifest is exactly the two header lines `Manifest-Version: 1.0`
   * and `Created-By: mavir`, each ended by a newline, in ASCII.
   */
  lemma ManifestIsTwoHeaderLines()
    ensures |ManifestBytes| == 40
    ensures forall i :: 0 <= i < |ManifestBytes| ==> ManifestBytes[i] < 128
    ensures Lines(AsciiText(ManifestBytes)) == [ManifestVersionLine, CreatedByLine]
    ensures ManifestBytes[|ManifestBytes| - 1] == 10
  {
    ManifestBytesEncodeText();
    ManifestTextLines();
  }
}
