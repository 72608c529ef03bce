/**
 * The pieces of the Rust standard library that the generator's string and
 * path handling relies on: `Option`, `Result`, `str::starts_with`,
 * `str::ends_with`, `str::strip_prefix`, `str::strip_suffix`, `str::trim`
 * and `PathBuf::push` (which `Path::join` uses) on Unix.
 */
module RustStd {

  datatype Option<+T> = None | Some(value: T)

  datatype Result<+T, +E> = Ok(value: T) | Err(error: E)

  /** `str::starts_with`: `s` agrees with `prefix` character by character at its head. */
  predicate StartsWith(s: string, prefix: string) {
    |prefix| <= |s| && s[..|prefix|] == prefix
  }

  /** `str::ends_with`: `s` agrees with `suffix` character by character at its tail. */
  predicate EndsWith(s: string, suffix: string) {
    |suffix| <= |s| && s[|s| - |suffix|..] == suffix
  }

  /** `StartsWith` compares character by character, as `str::starts_with` does. */
  lemma StartsWithCharwise(s: string, prefix: string)
    ensures StartsWith(s, prefix) <==> |prefix| <= |s| && forall i :: 0 <= i < |prefix| ==> s[i] == prefix[i]
  {
    if |prefix| <= |s| && forall i :: 0 <= i < |prefix| ==> s[i] == prefix[i] {
      assert s[..|prefix|] == prefix;
    }
  }

  /** `EndsWith` compares character by character, as `str::ends_with` does. */
  lemma EndsWithCharwise(s: string, suffix: string)
    ensures EndsWith(s, suffix) <==>
      |suffix| <= |s| && forall i :: 0 <= i < |suffix| ==> s[|s| - |suffix| + i] == suffix[i]
  {
    if |suffix| <= |s| && forall i :: 0 <= i < |suffix| ==> s[|s| - |suffix| + i] == suffix[i] {
      assert s[|s| - |suffix|..] == suffix;
    }
  }

  /** `str::strip_prefix`: the rest of `s` when `s` begins with `prefix`. */
  function StripPrefix(s: string, prefix: string): (r: Option<string>)
    ensures r.Some? <==> StartsWith(s, prefix)
    ensures r.Some? ==> prefix + r.value == s
  {
    if StartsWith(s, prefix) then Some(s[|prefix|..]) else None
  }

  /** `str::strip_suffix`: what precedes `suffix` when `s` ends with it. */
  function StripSuffix(s: string, suffix: string): (r: Option<string>)
    ensures r.Some? <==> EndsWith(s, suffix)
    ensures r.Some? ==> r.value + suffix == s
  {
    if EndsWith(s, suffix) then Some(s[..|s| - |suffix|]) else None
  }

  lemma StripPrefixOfConcat(prefix: string, t: string)
    ensures StripPrefix(prefix + t, prefix) == Some(t)
  {
    assert (prefix + t)[..|prefix|] == prefix;
    assert (prefix + t)[|prefix|..] == t;
  }

  lemma StripSuffixOfConcat(t: string, suffix: string)
    ensures StripSuffix(t + suffix, suffix) == Some(t)
  {
    assert (t + suffix)[|t|..] == suffix;
    assert (t + suffix)[..|t|] == t;
  }

  // ---------------------------------------------------------------------
  // Whitespace trimming
  // ---------------------------------------------------------------------

  /** `char::is_whitespace`: the Unicode White_Space property. */
  predicate IsWhitespace(c: char) {
    var n := c as int;
    (0x9 <= n <= 0xD) || n == 0x20 || n == 0x85 || n == 0xA0 || n == 0x1680
    || (0x2000 <= n <= 0x200A) || n == 0x2028 || n == 0x2029 || n == 0x202F
    || n == 0x205F || n == 0x3000
  }

  /**
   * Among ASCII characters, exactly the space and tab to carriage return are
   * whitespace; in particular letters, digits and the Java punctuation that
   * ends a signature (`{`, `;`, `=`) are not.
   */
  lemma AsciiWhitespace(c: char)
    ensures c as int < 0x80 ==> (IsWhitespace(c) <==> c == ' ' || '\t' <= c <= '\r')
    ensures ('a' <= c <= 'z' || 'A' <= c <= 'Z' || '0' <= c <= '9' || c == '{' || c == ';' || c == '=') ==>
      !IsWhitespace(c)
  {
  }

  /** Every character of `s` at an index in `[lo, hi)` is whitespace. */
  predicate WhitespaceIn(s: string, lo: int, hi: int) {
    forall k :: lo <= k < hi && 0 <= k < |s| ==> IsWhitespace(s[k])
  }

  /** Neither the first nor the last character of `s` is whitespace. */
  predicate NoEdgeWhitespace(s: string) {
    s == [] || (!IsWhitespace(s[0]) && !IsWhitespace(s[|s| - 1]))
  }

  /**
   * `r` is what remains of `s` once a whitespace-only head and a
   * whitespace-only tail are cut off, and nothing more can be cut.
   */
  ghost predicate TrimmedFrom(s: string, r: string) {
    NoEdgeWhitespace(r) &&
    exists i :: TrimmedAt(s, r, i)
  }

  /** `r` sits at index `i` of `s`, with only whitespace around it. */
  predicate TrimmedAt(s: string, r: string, i: int) {
    0 <= i && i + |r| <= |s| && s[i..i + |r|] == r &&
    WhitespaceIn(s, 0, i) && WhitespaceIn(s, i + |r|, |s|)
  }

  /** `str::trim_start`. */
  function TrimStart(s: string): (r: string)
    ensures |r| <= |s| && r == s[|s| - |r|..]
    ensures WhitespaceIn(s, 0, |s| - |r|)
    ensures r == [] || !IsWhitespace(r[0])
  {
    if s != [] && IsWhitespace(s[0]) then
      var r := TrimStart(s[1..]);
      assert forall k :: 1 <= k < |s| ==> s[k] == s[1..][k - 1];
      r
    else
      s
  }

  /** `str::trim_end`. */
  function TrimEnd(s: string): (r: string)
    ensures |r| <= |s| && r == s[..|r|]
    ensures WhitespaceIn(s, |r|, |s|)
    ensures r == [] || !IsWhitespace(r[|r| - 1])
  {
    if s != [] && IsWhitespace(s[|s| - 1]) then
      TrimEnd(s[..|s| - 1])
    else
      s
  }

  /** `str::trim`: leading and trailing whitespace removed. */
  function Trim(s: string): (r: string)
    ensures |r| <= |s|
    ensures TrimmedFrom(s, r)
  {
    var t := TrimStart(s);
    var r := TrimEnd(t);
    HeadOfTailTrimmed(s, t, r);
    r
  }

  /**
   * A head `r` of a tail `t` of `s`, with only whitespace before `t` in `s`
   * and after `r` in `t`, sits in `s` with only whitespace around it.
   */
  lemma HeadOfTailTrimmed(s: string, t: string, r: string)
    requires |t| <= |s| && t == s[|s| - |t|..] && WhitespaceIn(s, 0, |s| - |t|)
    requires |r| <= |t| && r == t[..|r|] && WhitespaceIn(t, |r|, |t|)
    ensures TrimmedAt(s, r, |s| - |t|)
  {
    var i := |s| - |t|;
    assert s[i..i + |r|] == r;
    WhitespaceInTail(s, i, |r|, |t|);
  }

  /** Whitespace in a range of a tail of `s` is whitespace in the shifted range of `s`. */
  lemma WhitespaceInTail(s: string, i: nat, lo: int, hi: int)
    requires i <= |s| && 0 <= lo && WhitespaceIn(s[i..], lo, hi)
    ensures WhitespaceIn(s, i + lo, i + hi)
  {
    forall k | i + lo <= k < i + hi && 0 <= k < |s|
      ensures IsWhitespace(s[k])
    {
      assert s[k] == s[i..][k - i];
    }
  }

  /** At most one string is `s` trimmed: `TrimmedFrom` determines its result. */
  lemma TrimmedFromUnique(s: string, r1: string, r2: string)
    requires TrimmedFrom(s, r1) && TrimmedFrom(s, r2)
    ensures r1 == r2
  {
    var i1 :| TrimmedAt(s, r1, i1);
    var i2 :| TrimmedAt(s, r2, i2);
    if r1 != [] {
      assert s[i1] == r1[0] && s[i1 + |r1| - 1] == r1[|r1| - 1];
    }
    if r2 != [] {
      assert s[i2] == r2[0] && s[i2 + |r2| - 1] == r2[|r2| - 1];
    }
    if r1 != [] && r2 != [] {
      // both start at the first, and end after the last, non-whitespace character
      assert i1 == i2;
      assert |r1| == |r2|;
    }
  }

  /** `Trim` is the one result `TrimmedFrom` allows. */
  lemma TrimCharacterized(s: string, r: string)
    requires TrimmedFrom(s, r)
    ensures Trim(s) == r
  {
    TrimmedFromUnique(s, Trim(s), r);
  }

  /** Trimming text that has no whitespace at its edges, followed by whitespace, gives the text. */
  lemma TrimPadded(text: string, pad: string)
    requires NoEdgeWhitespace(text) && WhitespaceIn(pad, 0, |pad|)
    ensures Trim(text + pad) == text
  {
    assert (text + pad)[0..|text|] == text;
    assert TrimmedAt(text + pad, text, 0);
    TrimCharacterized(text + pad, text);
  }

  /** Trimming twice is trimming once. */
  lemma TrimIdempotent(s: string)
    ensures Trim(Trim(s)) == Trim(s)
  {
    var r := Trim(s);
    assert TrimmedAt(r, r, 0);
    TrimCharacterized(r, r);
  }

  // ---------------------------------------------------------------------
  // Paths (Unix)
  // ---------------------------------------------------------------------

  /**
   * `PathBuf::push` as `Path::join` uses it: an absolute `path` replaces
   * `base`; otherwise a `/` is put between them unless `base` is empty or
   * already ends in one.
   */
  function Join(base: string, path: string): (r: string)
    ensures StartsWith(path, "/") ==> r == path
    ensures !StartsWith(path, "/") ==> StartsWith(r, base) && EndsWith(r, path)
    ensures !StartsWith(path, "/") && base != [] ==> |r| > |path|
    ensures !StartsWith(path, "/") ==> r == base + path || r == base + "/" + path
    ensures !StartsWith(path, "/") && base != [] && base[|base| - 1] != '/' ==>
      |r| > |base| && r[|base|] == '/'
    ensures !StartsWith(path, "/") && (base == [] || base[|base| - 1] == '/') ==> r == base + path
  {
    if StartsWith(path, "/") then path
    else if base == [] || base[|base| - 1] == '/' then base + path
    else base + "/" + path
  }

  /** A suffix of a suffix of `s` is a suffix of `s`. */
  lemma SuffixOfSuffix(s: string, t: string, suffix: string)
    requires EndsWith(s, t) && EndsWith(t, suffix)
    ensures EndsWith(s, suffix)
  {
    assert s[|s| - |suffix|..] == s[|s| - |t|..][|t| - |suffix|..];
  }

  /** Joining a relative path onto an absolute base gives an absolute path. */
  lemma JoinKeepsAbsolute(base: string, path: string)
    requires StartsWith(base, "/")
    ensures StartsWith(Join(base, path), "/")
  {
    var r := Join(base, path);
    if !StartsWith(path, "/") {
      assert r[..1] == r[..|base|][..1];
    }
  }
}
