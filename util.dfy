/**
 * The Java primitive-type classifier. The source builds its set of names
 * once, lazily, behind a `OnceLock`; since the set never changes after
 * that, it is a constant here.
 */
module Util {

  /** The eight Java primitive type names. */
  const JavaPrimitiveTypes: set<string> :=
    {"boolean", "byte", "short", "int", "long", "float", "double", "char"}

  /** The characters a primitive type name is spelled with. */
  predicate IsLowerAsciiLetter(c: char) {
    'a' <= c <= 'z'
  }

  /**
   * Whether `identifier` names a Java primitive type: exact, case-sensitive
   * membership in the fixed set, never an error.
   */
  function IsPrimitiveType(identifier: string): (r: bool)
    ensures r ==> 3 <= |identifier| <= 7
    ensures r ==> forall i :: 0 <= i < |identifier| ==> IsLowerAsciiLetter(identifier[i])
    ensures r ==> identifier[0] in {'b', 's', 'i', 'l', 'f', 'd', 'c'}
  {
    identifier in JavaPrimitiveTypes
  }

  /** The set holds exactly eight names. */
  lemma PrimitiveTypeCount()
    ensures |JavaPrimitiveTypes| == 8
  {
  }

  /** Each of the eight names classifies as primitive. */
  lemma EveryPrimitiveNameIsPrimitive()
    ensures IsPrimitiveType("boolean") && IsPrimitiveType("byte")
    ensures IsPrimitiveType("short") && IsPrimitiveType("int")
    ensures IsPrimitiveType("long") && IsPrimitiveType("float")
    ensures IsPrimitiveType("double") && IsPrimitiveType("char")
  {
  }

  /**
   * A name containing anything but a lower-case ASCII letter (an upper-case
   * letter, a space, a dot) is never primitive: the match is exact and
   * case-sensitive.
   */
  lemma NonLowercaseIsNotPrimitive(identifier: string, i: int)
    requires 0 <= i < |identifier| && !IsLowerAsciiLetter(identifier[i])
    ensures !IsPrimitiveType(identifier)
  {
  }

  /** No primitive name extends another: adding characters to one never gives a primitive name. */
  lemma PrimitiveNamesPrefixFree(a: string, b: string)
    requires IsPrimitiveType(a) && IsPrimitiveType(a + b)
    ensures b == []
  {
    // the eight names already differ in their first three characters
    var ab := a + b;
    assert ab[0] == a[0] && ab[1] == a[1] && ab[2] == a[2];
    assert a == ab;
    assert |a + b| == |a| + |b|;
  }

  /** Reference types and near misses are not primitive. */
  lemma ReferenceTypesAreNotPrimitive()
    ensures !IsPrimitiveType("String") && !IsPrimitiveType("Integer")
    ensures !IsPrimitiveType("Int") && !IsPrimitiveType("int ")
    ensures !IsPrimitiveType("java.lang.Integer") && !IsPrimitiveType("void")
    ensures !IsPrimitiveType("")
  {
    NonLowercaseIsNotPrimitive("String", 0);
    NonLowercaseIsNotPrimitive("Integer", 0);
    NonLowercaseIsNotPrimitive("Int", 0);
    NonLowercaseIsNotPrimitive("int ", 3);
    NonLowercaseIsNotPrimitive("java.lang.Integer", 4);
  }

  /**
   * The accessor return types of the test fixtures, in declaration order:
   * `String`, `long`, `int`, `float`, `double`, `boolean`, `char`, and the
   * nested class's `String` and `Integer`.
   */
  lemma FixtureReturnTypes()
    ensures !IsPrimitiveType("String")
    ensures IsPrimitiveType("long") && IsPrimitiveType("int") && IsPrimitiveType("float")
    ensures IsPrimitiveType("double") && IsPrimitiveType("boolean") && IsPrimitiveType("char")
    ensures !IsPrimitiveType("Integer")
  {
    ReferenceTypesAreNotPrimitive();
  }
}
