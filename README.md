# mavir core, modelled in Dafny

mavir is an early prototype of a generator for Java AutoValue
implementation classes. It reads Java sources with tree-sitter, finds the
package name and the `@AutoValue` classes, and is meant to write the
generated classes into a source JAR. Only three small pieces of its logic
exist so far. This project models those pieces and proves what they promise:

- `Util` (`src/util.rs`): the Java primitive-type classifier. It checks
  membership in the fixed set of eight primitive names. The source builds
  that set once, lazily, behind a `OnceLock`. Because the set never changes,
  it is a constant here, so repeated calls agree by construction.
- `Parse` (`src/parse.rs`): the `ParseError` type and `collect_package`.
  `collect_package` is a method with the source's two nested `for` loops and
  its early return, proved against the function `PackageOfMatches`. This
  module also holds `get_element_signature`, which slices a node's text up to
  its body or initializer and trims it.
- `Generate` (`src/generate.rs`): `GenerateError`, `validate_output_path`,
  the `generate_code` stub (which only validates) and the manifest bytes
  written by `init_working_directory`.
- `RustStd`: the Rust standard-library behaviour that these pieces depend on.
  It covers `Option`, `Result`, `starts_with`/`ends_with`,
  `strip_prefix`/`strip_suffix`, `trim` (whitespace is Unicode White_Space,
  as in `char::is_whitespace`) and, on Unix, `PathBuf::push` as used by
  `Path::join`.

Abstractions of the external parts:

- A tree-sitter query result is a `seq<seq<string>>`: the matches in order,
  each given as the texts of its captures in order.
- A syntax node is `Parse.Node`. It holds the node's kind, its start and end
  byte, and its children by field name (what `child_by_field_name` returns).
- A byte index of the source is an index into `string`.
- The process environment is `Generate.Environment`. It holds the result of
  `std::env::current_dir()` (the path, or the error text). It also holds two
  oracles: `parent` stands for `Path::parent` and `pathExists` for
  `Path::exists`, which holds for any existing entry, a regular file included.

The renderer for the companion classes is not modelled. It would produce
fields, the constructor, `equals`, `hashCode` and `toString`. The code has no
renderer: `generate_code` ends in a TODO. The model follows the function
bodies, not the crate's wiring. `generate.rs` imports a `ParseResult` that
`parse.rs` does not define, and `main.rs` declares neither `generate` nor
`util` as a module. So `GenerateCode` leaves out its unused parse-result
parameter.

## Model

| member | source | states |
|---|---|---|
| `Util.IsPrimitiveType` | src/util.rs:20-22 | a name classified as primitive has 3 to 7 characters, all of them lower-case ASCII letters, and starts with one of b, s, i, l, f, d, c |
| `Util.PrimitiveTypeCount` | src/util.rs:4-18 | the set of primitive names built once has exactly eight members |
| `Util.EveryPrimitiveNameIsPrimitive` | src/util.rs:8-15 | `boolean`, `byte`, `short`, `int`, `long`, `float`, `double` and `char` are each primitive |
| `Util.ReferenceTypesAreNotPrimitive` | src/util.rs:20-22 | `String`, `Integer`, `Int`, `int ` (trailing space), `java.lang.Integer`, `void` and the empty name are not primitive |
| `Util.NonLowercaseIsNotPrimitive` | src/util.rs:21 | matching is exact and case-sensitive: a name with any character other than a lower-case ASCII letter is never primitive |
| `Util.PrimitiveNamesPrefixFree` | src/util.rs:21 | appending characters to a primitive name never gives a primitive name |
| `Util.FixtureReturnTypes` | test/java_autovalue/src/main/java/com/github/johnmurray/mavir/OuterClassWithNestedAutoValue.java:16-43 | the fixture return types classify as expected: `long`, `int`, `float`, `double`, `boolean`, `char` are primitive; `String`, `Integer` are not |
| `RustStd.StartsWithCharwise` | src/generate.rs:34 | `StartsWith` (`str::starts_with`) holds exactly when the prefix fits and agrees with the text character by character |
| `RustStd.EndsWithCharwise` | src/generate.rs:28 | `EndsWith` (`str::ends_with`) holds exactly when the suffix fits and agrees with the end of the text character by character |
| `RustStd.StripPrefix` | src/parse.rs:146 | the result exists exactly when the text starts with the prefix, and then prefix + result is the text |
| `RustStd.StripSuffix` | src/parse.rs:147 | the result exists exactly when the text ends with the suffix, and then result + suffix is the text |
| `RustStd.StripPrefixOfConcat` | src/parse.rs:146 | stripping a prefix from prefix + t gives exactly t |
| `RustStd.StripSuffixOfConcat` | src/parse.rs:147 | stripping a suffix from t + suffix gives exactly t |
| `RustStd.AsciiWhitespace` | src/parse.rs:250 | `IsWhitespace` (`char::is_whitespace`, which `trim` uses) holds for an ASCII character exactly when it is a space or tab to carriage return; letters, digits, `{`, `;` and `=` are never whitespace |
| `RustStd.TrimStart` | src/parse.rs:250 | the result is a tail of the input; everything removed is whitespace; the result does not start with whitespace |
| `RustStd.TrimEnd` | src/parse.rs:250 | the result is a head of the input; everything removed is whitespace; the result does not end with whitespace |
| `RustStd.Trim` | src/parse.rs:250 | the result is an infix of the input with only whitespace around it and no whitespace at either edge |
| `RustStd.HeadOfTailTrimmed` | src/parse.rs:250 | a head of a tail, with only whitespace cut at each end, sits in the whole string with only whitespace around it |
| `RustStd.WhitespaceInTail` | src/parse.rs:250 | whitespace in a range of a tail is whitespace in the same range shifted into the whole string |
| `RustStd.TrimmedFromUnique` | src/parse.rs:250 | at most one string is an infix with only whitespace around it and no whitespace at its edges |
| `RustStd.TrimCharacterized` | src/parse.rs:250 | any such infix is what `Trim` returns |
| `RustStd.TrimIdempotent` | src/parse.rs:250 | trimming a trimmed string changes nothing |
| `RustStd.TrimPadded` | src/parse.rs:250 | text with no whitespace at its edges, followed by whitespace only, trims to that text |
| `RustStd.Join` | src/generate.rs:39 | joining an absolute path gives that path; joining a relative one gives base + `/` + path when the base is not empty and does not end in `/`, and base + path otherwise, so the result starts with the base and ends with the path |
| `RustStd.SuffixOfSuffix` | src/generate.rs:39 | a suffix of a suffix is a suffix |
| `RustStd.JoinKeepsAbsolute` | src/generate.rs:39 | a path joined onto an absolute directory is absolute |
| `Parse.PackageName` | src/parse.rs:145-149 | the name is extracted exactly when the capture starts with `package ` and ends with `;`; then `package ` + name + `;` is the capture; otherwise the error is `FileProcessingError("Malformed package declaration")` |
| `Parse.TerminatorAfterKeyword` | src/parse.rs:146-147 | when a capture starts with `package `, its final `;` lies in what remains after the keyword is stripped |
| `Parse.PackageNameRoundTrip` | src/parse.rs:145-149 | extraction from `package ` + n + `;` gives back exactly n, for every n |
| `Parse.EmptyPackageName` | src/parse.rs:145-149 | the name is not validated: `package ;` gives the empty name |
| `Parse.FixturePackageName` | test/mavir_autovalue/src/main/java/com/github/johnmurray/mavir/TestClass.java:1 | `package com.github.johnmurray.mavir;` gives `com.github.johnmurray.mavir` |
| `Parse.MalformedPackageTexts` | src/parse.rs:146-148 | a missing `;`, text after the `;`, a tab after the keyword, or the bare keyword is malformed; a second space is kept at the head of the name |
| `Parse.FirstCapture` | src/parse.rs:139-141 | there is no first capture exactly when no match captured; otherwise it is the first capture of the first match that captured |
| `Parse.FirstCapturingMatchUnique` | src/parse.rs:139-140 | only one match can be the first match that captured |
| `Parse.FirstCaptureAt` | src/parse.rs:139-141 | the first capture is the one in the first match that captured |
| `Parse.FirstCaptureEverywhere` | src/parse.rs:139-141 | whichever match is the first that captured, the first capture is its first capture |
| `Parse.PackageOfMatches` | src/parse.rs:139-153 | with no capture the result is `FileProcessingError("Could not find package declaration")`; otherwise it is exactly what `PackageName` gives for the first capture of the first match that captured, `Ok` exactly when that capture is well formed; every error is the missing or the malformed one |
| `Parse.CollectPackage` | src/parse.rs:132-154 | the loop over matches and captures returns what `PackageOfMatches` gives |
| `Parse.LaterMatchesIgnored` | src/parse.rs:139-151 | once some match has captured, appending more matches never changes the result, success or malformed error |
| `Parse.FirstIndexWithCapture` | src/parse.rs:139-140 | when some match captured, a first match that captured exists at or before it |
| `Parse.FirstDeclarationWins` | src/parse.rs:139-150 | a well-formed first declaration gives its name, whatever the later matches hold |
| `Parse.MalformedFirstDeclarationWins` | src/parse.rs:139-150 | a malformed first declaration is an error, even if a later declaration is well formed |
| `Parse.ChildByFieldName` | src/parse.rs:248 | a child is found exactly when the node has that field, and it is the child stored under that field |
| `Parse.SignatureEnd` | src/parse.rs:246-264 | a cut exists exactly for class, method and field declarations; a class or method is cut where its body starts, or at the node's end without a body; a field is cut where its declarator's value starts, or at the node's end without a declarator or value |
| `Parse.ElementSignature` | src/parse.rs:245-264 | for a class, method or field declaration, the result is the source from the node start to the cut, with surrounding whitespace trimmed; any other kind gives `Unknown element type` |
| `Parse.SignatureIgnoresRest` | src/parse.rs:247-261 | the text from the cut on (a body or an initializer) never affects the signature |
| `Parse.ClassFixtureSignature` | src/parse.rs:247-251 | an annotated class whose body starts at `{` has the annotation and header as its signature, with the space before `{` trimmed |
| `Parse.MethodFixtureSignature` | src/parse.rs:252-256 | an abstract method without a body has its whole text as its signature |
| `Parse.MethodWithBodyFixtureSignature` | test/mavir_autovalue/src/main/java/com/github/johnmurray/mavir/TestClass.java:21-23 | a concrete method, whatever its body holds, has its modifiers, return type, name and parameters as its signature, with the space before `{` trimmed |
| `Parse.FieldWithoutInitializerSignature` | src/parse.rs:257-261 | a field with no initializer has its whole declaration, trimmed, as its signature |
| `Parse.FieldFixtureSignature` | src/parse.rs:257-261 | a field whose declarator has an initializer stops before the value and keeps the `=` |
| `Parse.OtherKindsUnknown` | src/parse.rs:263 | any other node kind gives `Unknown element type` |
| `Generate.HasArchiveSuffix` | src/generate.rs:28 | a path with an archive suffix ends in `jar` preceded by `.` or `.src` |
| `Generate.IsAbsolute` | src/generate.rs:34 | a path is absolute exactly when its first character is `/` |
| `Generate.SuffixMessage` | src/generate.rs:29-30 | the suffix refusal is its fixed text followed by the path |
| `Generate.CurrentDirMessage` | src/generate.rs:38 | the current-directory refusal is its fixed text followed by the reason |
| `Generate.NoParentMessage` | src/generate.rs:45-46 | the no-parent refusal is its fixed text followed by the absolute path |
| `Generate.MissingParentMessage` | src/generate.rs:48-49 | the missing-parent refusal is its fixed text followed by the absolute path |
| `Generate.MessagesTellChecksApart` | src/generate.rs:29-49 | no two of the four refusal messages coincide, whatever path or reason they carry |
| `Generate.HeadsTellApart` | src/generate.rs:29-49 | helper fact, not source behaviour: texts whose heads differ at some index differ whatever follows; it tells the fixed message heads apart |
| `Generate.Absolutize` | src/generate.rs:34-41 | an absolute path is kept; a relative path either gets `InvalidOutputPath` with the current-directory error, or is `Join` of the current directory and the path; the result always ends with the given path |
| `Generate.ValidateOutputPath` | src/generate.rs:26-53 | a path without `.jar` or `.srcjar` is rejected with its message, whatever the environment; every error is `InvalidOutputPath`; an accepted path has an archive suffix and an existing parent; an accepted absolute path is returned unchanged; an absolute archive path without a parent gets the no-parent message, and one whose parent does not exist gets the missing-parent message, each quoting the path |
| `Generate.ArchiveSuffixKept` | src/generate.rs:28-41 | a path that ends with an archive-named path has an archive suffix |
| `Generate.SuffixCheckedFirst` | src/generate.rs:28-31 | a path without an archive suffix is rejected the same way in every environment, before any directory lookup |
| `Generate.AbsolutePathUnchanged` | src/generate.rs:34-35 | an absolute archive path whose parent exists comes back unchanged |
| `Generate.RelativePathJoined` | src/generate.rs:36-52 | a relative path is joined onto the current directory; the joined path keeps the archive suffix; it is rejected without a parent or with a missing parent, and returned otherwise |
| `Generate.CurrentDirUnavailable` | src/generate.rs:37-38 | if the current directory cannot be read, a relative path gets `InvalidOutputPath` |
| `Generate.ValidateOutputPathIdempotent` | src/generate.rs:28-52 | if the current directory is absolute, an accepted path is absolute and validates again to itself from any directory |
| `Generate.ZipPathRejected` | src/generate.rs:28-31 | `out.zip` is refused with the suffix message in every environment |
| `Generate.RelativeSrcjarResolved` | src/generate.rs:34-52 | `build/out.srcjar` in `/home/dev`, which has a `build` subdirectory, resolves to `/home/dev/build/out.srcjar` |
| `Generate.GenerateCode` | src/generate.rs:18-23 | succeeds exactly when validation succeeds, and otherwise fails with the validation error |
| `Generate.AsciiBytes` | src/generate.rs:67 | each character becomes one byte of the same value |
| `Generate.AsciiText` | src/generate.rs:67 | each byte below 128 becomes one character of the same value |
| `Generate.AsciiRoundTrip` | src/generate.rs:67 | decoding encoded ASCII text gives the text back |
| `Generate.JoinLines` | src/generate.rs:67 | reference definition used to state the manifest literal's layout, not a source function: the joined text is empty exactly when there are no lines, and otherwise ends in a newline |
| `Generate.NewlineIndex` | src/generate.rs:67 | reference definition used to read lines out of the manifest literal, not a source function: the index found is the first newline, or the length if there is none |
| `Generate.Lines` | src/generate.rs:67 | reference definition used to read lines out of the manifest literal, not a source function: no line of the split contains a newline |
| `Generate.LinesOfJoinLines` | src/generate.rs:67 | helper fact about the two reference definitions: splitting joined newline-free lines gives the lines back |
| `Generate.ManifestTextIsHeaderLines` | src/generate.rs:67 | the manifest text is the two header lines, each followed by a newline |
| `Generate.ManifestBytesEncodeText` | src/generate.rs:67 | the manifest bytes are 40 bytes below 128 that decode to the manifest text and end in a newline byte |
| `Generate.LinesOfTwoLines` | src/generate.rs:67 | helper fact about the reference definitions: text that is two newline-free lines, each followed by a newline, splits into exactly those two lines |
| `Generate.ManifestTextLines` | src/generate.rs:67 | the manifest text splits into exactly the lines `Manifest-Version: 1.0` and `Created-By: mavir` |
| `Generate.ManifestIsTwoHeaderLines` | src/generate.rs:67 | the manifest is 40 ASCII bytes ending in a newline, and its lines are exactly `Manifest-Version: 1.0` and `Created-By: mavir` |

## Left out

- `parse_file` (src/parse.rs:22-54) is not modelled. It sets up the tree-sitter
  parser, reads the file and prints. Its errors come from those calls, which
  are outside the model. The `ParseError` variants that only it produces are
  declared but never built.
- `collect_annotations` and `print_annotation_and_signature` (src/parse.rs:172-243)
  are not modelled. They run a tree-sitter query and print the captures, and
  they produce no value.
- The commented-out tree walk and the unused `ClassDeclarationState`,
  `CursorState`, `MatchState`, `ParseState` and `AutoValueClass` types are not
  modelled. They are dead code.
- `init_working_directory` (src/generate.rs:58-71) is not modelled. It creates
  a temporary directory and writes a file. Only the bytes it writes are
  modelled; where it writes them (`META-INF/MANIFEST.MF` below the temporary
  directory) is not.
- `Generate.GenerateCode` does not model the `debug!` log line. It also does
  not model the parse-result parameter, whose type is undefined in the source.
- `Generate.ValidateOutputPath`: `Path::parent` and `Path::exists` are
  oracles. Real component handling is not modelled, such as trailing slashes
  and `.` components. The `to_str().unwrap()` panic on a non-UTF-8 path is
  also out, because paths are strings here.
- `RustStd.Join` models `PathBuf::push` on Unix only. It does not model
  Windows prefixes or roots.
- `Parse.ElementSignature`: source positions are character indexes, not UTF-8
  byte offsets. So the panic on slicing inside a multi-byte character is not
  modelled. The node's range must lie inside the source, which tree-sitter
  guarantees.
- `Parse.CollectPackage` receives the captured texts, not the nodes. Slicing
  the source by a node's byte range is the query engine's job here.
- The companion-class renderer (fields, constructor, `equals`, `hashCode`,
  `toString`) and the archive writer are not modelled: the code has neither.
- `src/main.rs` is not modelled. It parses the command line and indexes
  `file_paths[0]` without checking that the list is non-empty.
