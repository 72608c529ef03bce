/**
 * The string handling of the Java source extractor: the package name taken
 * from the package-declaration query's captures, and the signature of an
 * annotated element sliced out of the source text.
 *
 * The syntax tree and its query engine are external. A query's result is
 * given here as its matches in order, each match as the texts of its
 * captures in order; a syntax node is given as its kind, its byte range and
 * its children by field name.
 */
module Parse {
  import opened RustStd

  datatype ParseError =
    | ParserInitializationError
    | CannotReadFile(path: string)
    | FileNotParsableAsJava
    | FileProcessingError(message: string)

  const PackageKeyword: string := "package "
  const PackageTerminator: string := ";"

  const MalformedPackage: ParseError := FileProcessingError("Malformed package declaration")
  const MissingPackage: ParseError := FileProcessingError("Could not find package declaration")

  // ---------------------------------------------------------------------
  // Package name
  // ---------------------------------------------------------------------

  /** A captured package declaration is well formed when it is keyword, name, terminator. */
  predicate WellFormedPackageText(packageText: string) {
    StartsWith(packageText, PackageKeyword) && EndsWith(packageText, PackageTerminator)
  }

  /**
   * The package name in one captured declaration: strip the literal
   * `package ` in front, then the `;` at the end. The name itself is not
   * checked.
   */
  function PackageName(packageText: string): (r: Result<string, ParseError>)
    ensures r.Ok? <==> WellFormedPackageText(packageText)
    ensures r.Ok? ==> PackageKeyword + r.value + PackageTerminator == packageText
    ensures r.Err? ==> r.error == MalformedPackage
  {
    match StripPrefix(packageText, PackageKeyword)
    case None => Err(MalformedPackage)
    case Some(rest) =>
      assert rest == packageText[|PackageKeyword|..];
      match StripSuffix(rest, PackageTerminator)
      case None =>
        TerminatorAfterKeyword(packageText);
        Err(MalformedPackage)
      case Some(name) =>
        Ok(name)
  }

  /** A terminator at the end of a declaration lies past the keyword. */
  lemma TerminatorAfterKeyword(packageText: string)
    requires StartsWith(packageText, PackageKeyword)
    ensures EndsWith(packageText, PackageTerminator)
        ==> EndsWith(packageText[|PackageKeyword|..], PackageTerminator)
  {
    if EndsWith(packageText, PackageTerminator) {
      assert packageText[7] == ' ';
      assert |packageText| > |PackageKeyword|;
      var rest := packageText[|PackageKeyword|..];
      assert rest[|rest| - 1] == packageText[|packageText| - 1];
    }
  }

  /** Wrapping any name in keyword and terminator and extracting it gives the name back. */
  lemma {:induction false} PackageNameRoundTrip(name: string)
    ensures PackageName(PackageKeyword + name + PackageTerminator) == Ok(name)
  {
    var text := PackageKeyword + name + PackageTerminator;
    assert text == PackageKeyword + (name + PackageTerminator);
    StripPrefixOfConcat(PackageKeyword, name + PackageTerminator);
    StripSuffixOfConcat(name, PackageTerminator);
  }

  /** The name is not validated: an empty one is accepted. */
  lemma EmptyPackageName()
    ensures PackageName("package ;") == Ok("")
  {
    PackageNameRoundTrip("");
  }

  /** The fixtures' declaration `package com.github.johnmurray.mavir;`. */
  lemma FixturePackageName()
    ensures PackageName("package " + "com.github.johnmurray.mavir" + ";") == Ok("com.github.johnmurray.mavir")
  {
    PackageNameRoundTrip("com.github.johnmurray.mavir");
  }

  /** Some texts that are not keyword, name, terminator. */
  lemma MalformedPackageTexts()
    ensures PackageName("package com.example") == Err(MalformedPackage)
    ensures PackageName("package com.example; ") == Err(MalformedPackage)
    ensures PackageName("package " + " com.example" + ";") == Ok(" com.example")
    ensures PackageName("package\tcom.example;") == Err(MalformedPackage)
    ensures PackageName("package ") == Err(MalformedPackage)
  {
    PackageNameRoundTrip(" com.example");
    assert "package\tcom.example;"[7] == '\t';
  }

  /** Whether no match of the query captured anything. */
  predicate NoCaptures(matches: seq<seq<string>>) {
    forall i :: 0 <= i < |matches| ==> matches[i] == []
  }

  /** `matches[i]` holds the first capture of all: the matches before it hold none. */
  predicate FirstCapturingMatch(matches: seq<seq<string>>, i: int) {
    0 <= i < |matches| && matches[i] != [] && NoCaptures(matches[..i])
  }

  /** The first capture of the first match that has one. */
  function FirstCapture(matches: seq<seq<string>>): (r: Option<string>)
    ensures r.None? <==> NoCaptures(matches)
    ensures r.Some? ==> exists i :: FirstCapturingMatch(matches, i) && r.value == matches[i][0]
  {
    if matches == [] then None
    else if matches[0] != [] then
      assert FirstCapturingMatch(matches, 0);
      Some(matches[0][0])
    else
      var r := FirstCapture(matches[1..]);
      if r.Some? then
        var i :| FirstCapturingMatch(matches[1..], i) && r.value == matches[1..][i][0];
        assert matches[..i + 1] == [matches[0]] + matches[1..][..i];
        assert FirstCapturingMatch(matches, i + 1);
        r
      else
        assert forall i :: 1 <= i < |matches| ==> matches[i] == matches[1..][i - 1];
        r
  }

  /** Only one match can hold the first capture. */
  lemma FirstCapturingMatchUnique(matches: seq<seq<string>>, i: int, j: int)
    requires FirstCapturingMatch(matches, i) && FirstCapturingMatch(matches, j)
    ensures i == j
  {
  }

  /** The capture `FirstCapture` returns is the one in the first capturing match. */
  lemma FirstCaptureAt(matches: seq<seq<string>>, i: int)
    requires FirstCapturingMatch(matches, i)
    ensures FirstCapture(matches) == Some(matches[i][0])
  {
    assert !NoCaptures(matches);
    var j :| FirstCapturingMatch(matches, j) && FirstCapture(matches).value == matches[j][0];
    FirstCapturingMatchUnique(matches, i, j);
  }

  /** `FirstCaptureAt` for every index at once. */
  lemma FirstCaptureEverywhere(matches: seq<seq<string>>)
    ensures forall i :: FirstCapturingMatch(matches, i) ==> FirstCapture(matches) == Some(matches[i][0])
  {
    forall i | FirstCapturingMatch(matches, i)
      ensures FirstCapture(matches) == Some(matches[i][0])
    {
      FirstCaptureAt(matches, i);
    }
  }

  /**
   * What the package query's matches yield: the name in the very first
   * capture, or an error when that capture is malformed or there is none.
   */
  function PackageOfMatches(matches: seq<seq<string>>): (r: Result<string, ParseError>)
    ensures NoCaptures(matches) ==> r == Err(MissingPackage)
    ensures r.Err? ==> r.error == MissingPackage || r.error == MalformedPackage
    ensures r.Ok? ==> exists i ::
      FirstCapturingMatch(matches, i) && PackageKeyword + r.value + PackageTerminator == matches[i][0]
    ensures forall i :: FirstCapturingMatch(matches, i) ==>
      r == PackageName(matches[i][0]) && (r.Ok? <==> WellFormedPackageText(matches[i][0]))
  {
    FirstCaptureEverywhere(matches);
    match FirstCapture(matches)
    case None => Err(MissingPackage)
    case Some(packageText) => PackageName(packageText)
  }

  /**
   * `collect_package`: walk the matches and their captures in order and
   * return on the first capture, whatever it holds.
   */
  method CollectPackage(matches: seq<seq<string>>) returns (r: Result<string, ParseError>)
    ensures r == PackageOfMatches(matches)
  {
    for i := 0 to |matches|
      invariant NoCaptures(matches[..i])
    {
      var captures := matches[i];
      for j := 0 to |captures|
        invariant j == 0
      {
        var packageText := captures[j];
        FirstCaptureAt(matches, i);
        r := PackageName(packageText);
        return;
      }
      assert matches[..i + 1] == matches[..i] + [captures];
    }
    assert matches[..|matches|] == matches;
    r := Err(MissingPackage);
  }

  /**
   * Later captures never change the result: once some match has captured,
   * appending matches to the query result leaves the package (or the
   * malformed-declaration error) as it was.
   */
  lemma {:induction false} LaterMatchesIgnored(matches: seq<seq<string>>, later: seq<seq<string>>)
    requires !NoCaptures(matches)
    ensures PackageOfMatches(matches + later) == PackageOfMatches(matches)
  {
    var i :| 0 <= i < |matches| && matches[i] != [];
    var k := FirstIndexWithCapture(matches, i);
    assert (matches + later)[..k] == matches[..k];
    FirstCaptureAt(matches, k);
    FirstCaptureAt(matches + later, k);
  }

  /** The first match that captured, given that match `i` did. */
  function FirstIndexWithCapture(matches: seq<seq<string>>, i: int): (k: int)
    requires 0 <= i < |matches| && matches[i] != []
    ensures k <= i && FirstCapturingMatch(matches, k)
    decreases i
  {
    if NoCaptures(matches[..i]) then i
    else
      var j :| 0 <= j < i && matches[..i][j] != [];
      var k := FirstIndexWithCapture(matches, j);
      k
  }

  /** A well-formed first declaration gives its name whatever follows it. */
  lemma FirstDeclarationWins(name: string, rest: seq<seq<string>>)
    ensures PackageOfMatches([[PackageKeyword + name + PackageTerminator]] + rest) == Ok(name)
  {
    var matches := [[PackageKeyword + name + PackageTerminator]] + rest;
    assert FirstCapturingMatch(matches, 0);
    FirstCaptureAt(matches, 0);
    PackageNameRoundTrip(name);
  }

  /** A malformed first declaration is an error even when a later one is well formed. */
  lemma MalformedFirstDeclarationWins(text: string, rest: seq<seq<string>>)
    requires !WellFormedPackageText(text)
    ensures PackageOfMatches([[text]] + rest) == Err(MalformedPackage)
  {
    var matches := [[text]] + rest;
    assert FirstCapturingMatch(matches, 0);
    FirstCaptureAt(matches, 0);
  }

  // ---------------------------------------------------------------------
  // Element signature
  // ---------------------------------------------------------------------

  /** A syntax node: its kind, byte range and named children. */
  datatype Node = Node(kind: string, startByte: nat, endByte: nat, fields: map<string, Node>)

  /** `Node::child_by_field_name`. */
  function ChildByFieldName(node: Node, name: string): (r: Option<Node>)
    ensures r.Some? <==> name in node.fields
    ensures r.Some? ==> r.value == node.fields[name]
  {
    if name in node.fields then Some(node.fields[name]) else None
  }

  const UnknownElementType: string := "Unknown element type"

  /**
   * Where the signature of an element ends: a class or method stops where
   * its body starts, a field where its declarator's initializer starts;
   * without that child, at the node's end. Other kinds have no signature.
   */
  function SignatureEnd(node: Node): (e: Option<nat>)
    ensures e.Some? <==> node.kind in {"class_declaration", "method_declaration", "field_declaration"}
    ensures node.kind in {"class_declaration", "method_declaration"} ==>
      e == Some(if "body" in node.fields then node.fields["body"].startByte else node.endByte)
    ensures node.kind == "field_declaration" ==>
      e == Some(if "declarator" in node.fields && "value" in node.fields["declarator"].fields
                then node.fields["declarator"].fields["value"].startByte
                else node.endByte)
  {
    if node.kind == "class_declaration" || node.kind == "method_declaration" then
      match ChildByFieldName(node, "body")
      case None => Some(node.endByte)
      case Some(body) => Some(body.startByte)
    else if node.kind == "field_declaration" then
      var value :=
        match ChildByFieldName(node, "declarator")
        case None => None
        case Some(declarator) => ChildByFieldName(declarator, "value");
      match value
      case None => Some(node.endByte)
      case Some(v) => Some(v.startByte)
    else
      None
  }

  /** The slice the signature is taken from lies inside the source. */
  predicate SliceInBounds(source: string, node: Node) {
    SignatureEnd(node).Some? ==> node.startByte <= SignatureEnd(node).value <= |source|
  }

  /**
   * `get_element_signature`: the source from the node's start up to the
   * signature end, with surrounding whitespace trimmed; a fixed text for
   * any other kind of node.
   */
  function ElementSignature(source: string, node: Node): (r: string)
    requires SliceInBounds(source, node)
    ensures SignatureEnd(node).None? ==> r == UnknownElementType
    ensures SignatureEnd(node).Some? ==>
      TrimmedFrom(source[node.startByte..SignatureEnd(node).value], r)
  {
    match SignatureEnd(node)
    case None => UnknownElementType
    case Some(end) => Trim(source[node.startByte..end])
  }

  /**
   * The text from the signature end on (a body, an initializer) never
   * affects the signature.
   */
  lemma SignatureIgnoresRest(source: string, other: string, node: Node)
    requires SliceInBounds(source, node)
    requires SignatureEnd(node).Some?
    ensures SliceInBounds(source[..SignatureEnd(node).value] + other, node)
    ensures ElementSignature(source[..SignatureEnd(node).value] + other, node)
         == ElementSignature(source, node)
  {
    var end := SignatureEnd(node).value;
    var source' := source[..end] + other;
    assert source'[node.startByte..end] == source[node.startByte..end];
  }

  /**
   * A class of the fixtures: the node starts at its annotation and the body
   * at the brace, so the signature is the annotation and header.
   */
  lemma ClassFixtureSignature()
    ensures
      var header := "@AutoValue\npublic abstract class TestClass";
      var bodyText := "{\n  abstract String name();\n}";
      var source := header + " " + bodyText + "\n";
      var body := Node("class_body", |header| + 1, |header| + 1 + |bodyText|, map[]);
      var node := Node("class_declaration", 0, |header| + 1 + |bodyText|, map["body" := body]);
      SliceInBounds(source, node) && ElementSignature(source, node) == header
  {
    var header := "@AutoValue\npublic abstract class TestClass";
    var bodyText := "{\n  abstract String name();\n}";
    var source := header + " " + bodyText + "\n";
    assert source[0..|header| + 1] == header + " ";
    TrimPadded(header, " ");
  }

  /** An abstract method has no body: its signature runs to the node's end. */
  lemma MethodFixtureSignature()
    ensures
      var text := "public abstract long longValue();";
      var source := "    " + text + "\n";
      var node := Node("method_declaration", 4, 4 + |text|, map[]);
      SliceInBounds(source, node) && ElementSignature(source, node) == text
  {
    var text := "public abstract long longValue();";
    var source := "    " + text + "\n";
    assert source[4..4 + |text|] == text + "";
    TrimPadded(text, "");
  }

  /**
   * A concrete method of the fixtures: the body starts at the brace, so the
   * signature is the modifiers, return type, name and parameters, whatever
   * the body holds.
   */
  lemma MethodWithBodyFixtureSignature(bodyText: string)
    ensures
      var header := "public TestClass create(" + "String name, long longValue)";
      var source := "    " + header + " " + bodyText + "\n";
      var body := Node("block", 4 + |header| + 1, 4 + |header| + 1 + |bodyText|, map[]);
      var node := Node("method_declaration", 4, 4 + |header| + 1 + |bodyText|, map["body" := body]);
      SliceInBounds(source, node) && ElementSignature(source, node) == header
  {
    var parameters := "String name, long longValue)";
    var header := "public TestClass create(" + parameters;
    var source := "    " + header + " " + bodyText + "\n";
    assert source[4..4 + |header| + 1] == header + " ";
    assert header[|header| - 1] == parameters[|parameters| - 1] == ')';
    TrimPadded(header, " ");
  }

  /** A field without an initializer: the signature is the whole declaration, trimmed. */
  lemma FieldWithoutInitializerSignature(source: string, node: Node)
    requires node.kind == "field_declaration" && node.startByte <= node.endByte <= |source|
    requires "declarator" in node.fields ==> "value" !in node.fields["declarator"].fields
    ensures SliceInBounds(source, node)
    ensures ElementSignature(source, node) == Trim(source[node.startByte..node.endByte])
  {
  }

  /** A field with an initializer: the signature stops before the value and keeps the `=`. */
  lemma FieldFixtureSignature()
    ensures
      var declaration := "private final String value =";
      var initializer := "\"outer-class-value\"";
      var source := declaration + " " + initializer + ";";
      var valueStart := |declaration| + 1;
      var value := Node("string_literal", valueStart, valueStart + |initializer|, map[]);
      var declarator := Node("variable_declarator", 21, valueStart + |initializer|, map["value" := value]);
      var node := Node("field_declaration", 0, |source|, map["declarator" := declarator]);
      SliceInBounds(source, node) && ElementSignature(source, node) == declaration
  {
    var declaration := "private final String value =";
    var initializer := "\"outer-class-value\"";
    var source := declaration + " " + initializer + ";";
    assert source[0..|declaration| + 1] == declaration + " ";
    TrimPadded(declaration, " ");
  }

  /** Any other kind of node, annotations included, has the fixed text. */
  lemma OtherKindsUnknown(source: string, node: Node)
    requires node.kind !in {"class_declaration", "method_declaration", "field_declaration"}
    ensures ElementSignature(source, node) == UnknownElementType
  {
  }
}
