/**
 * ResourceUtil: the string handling around resource locations, namely
 * replace-all, hasLength, the space escaping in toURI, and the "classpath:" prefix.
 */
module ResourceUtil {
  import opened Wrappers
  import opened JavaLang

  const CLASSPATH_PREFIX: string := "classpath:"

  /** hasLength: non-null and not empty. */
  function HasLength(str: Option<string>): (b: bool)
    ensures b <==> str.Some? && |str.value| > 0
  {
    str.Some? && str.value != []
  }

  // ---------------------------------------------------------------------------
  // replace

  /**
   * s[pos..] with every occurrence of p replaced by q: occurrences are taken
   * leftmost first, and the search resumes after each one, so they never overlap.
   */
  function ReplaceFrom(s: string, p: string, q: string, pos: nat): string
    requires |p| > 0 && pos <= |s|
    decreases |s| - pos
  {
    var index := IndexOf(s, p, pos);
    if index == -1 then s[pos..] else s[pos..index] + q + ReplaceFrom(s, p, q, index + |p|)
  }

  function ReplaceAll(s: string, p: string, q: string): string
    requires |p| > 0
  {
    ReplaceFrom(s, p, q, 0)
  }

  /**
   * replace: the input itself when it or the old pattern is null or empty, or
   * the new pattern is null; otherwise every occurrence replaced.
   */
  method Replace(inString: Option<string>, oldPattern: Option<string>, newPattern: Option<string>) returns (r: Option<string>)
    ensures !HasLength(inString) || !HasLength(oldPattern) || newPattern.None? ==> r == inString
    ensures HasLength(inString) && HasLength(oldPattern) && newPattern.Some? ==>
              r == Some(ReplaceAll(inString.value, oldPattern.value, newPattern.value))
  {
    if !HasLength(inString) || !HasLength(oldPattern) || newPattern.None? {
      return inString;
    }
    var s, p, q := inString.value, oldPattern.value, newPattern.value;
    var index := IndexOf(s, p, 0);
    if index == -1 {
      // no occurrence: the input as it is
      ReplaceStep(s, p, q, 0);
      assert s[0..|s|] == s;
      return inString;
    }
    var replaced := ReplaceOccurrences(s, p, q, index);
    return Some(replaced);
  }

  /** The copying loop of replace, from the first occurrence at index on. */
  method ReplaceOccurrences(s: string, p: string, q: string, first: int) returns (r: string)
    requires |p| > 0 && first == IndexOf(s, p, 0)
    ensures r == ReplaceAll(s, p, q)
  {
    var index := first;
    var sb: string := [];
    var pos: nat := 0;
    while index >= 0
      invariant pos <= |s|
      invariant index == IndexOf(s, p, pos)
      invariant sb + ReplaceFrom(s, p, q, pos) == ReplaceAll(s, p, q)
      decreases |s| - pos
    {
      CopyThenReplace(s, p, q, pos, sb);
      sb := sb + s[pos..index] + q;
      pos := index + |p|;
      index := IndexOf(s, p, pos);
    }
    CopyRest(s, p, q, pos, sb);
    r := sb + s[pos..|s|];
  }

  /** One round of the loop keeps what is built plus what remains to be built. */
  lemma CopyThenReplace(s: string, p: string, q: string, pos: nat, sb: string)
    requires |p| > 0 && pos <= |s| && IndexOf(s, p, pos) != -1
    ensures var index := IndexOf(s, p, pos);
            (sb + s[pos..index] + q) + ReplaceFrom(s, p, q, index + |p|) == sb + ReplaceFrom(s, p, q, pos)
  {
    var index := IndexOf(s, p, pos);
    ReplaceStep(s, p, q, pos);
    var copied, rest := s[pos..index] + q, ReplaceFrom(s, p, q, index + |p|);
    assert sb + (copied + rest) == (sb + copied) + rest;
  }

  /** Past the last occurrence the rest is copied as it is. */
  lemma CopyRest(s: string, p: string, q: string, pos: nat, sb: string)
    requires |p| > 0 && pos <= |s| && IndexOf(s, p, pos) == -1
    ensures sb + s[pos..|s|] == sb + ReplaceFrom(s, p, q, pos)
  {
    ReplaceStep(s, p, q, pos);
  }

  /** One round of the loop: copy up to the next occurrence, then the replacement. */
  lemma ReplaceStep(s: string, p: string, q: string, pos: nat)
    requires |p| > 0 && pos <= |s|
    ensures var index := IndexOf(s, p, pos);
            && (index == -1 ==> ReplaceFrom(s, p, q, pos) == s[pos..|s|])
            && (index != -1 ==> ReplaceFrom(s, p, q, pos) == s[pos..index] + q + ReplaceFrom(s, p, q, index + |p|))
  {
  }

  /** Without an occurrence of the pattern the text comes back unchanged. */
  lemma ReplaceWithoutOccurrence(s: string, p: string, q: string)
    requires |p| > 0 && forall j :: 0 <= j ==> !OccursAt(s, p, j)
    ensures ReplaceAll(s, p, q) == s
  {
    if IndexOf(s, p, 0) != -1 {
      IndexOfFound(s, p, 0);
    }
    ReplaceStep(s, p, q, 0);
    assert s[0..|s|] == s;
  }

  /** Replacing a pattern by itself changes nothing. */
  lemma {:induction false} ReplaceBySelf(s: string, p: string, pos: nat)
    requires |p| > 0 && pos <= |s|
    ensures ReplaceFrom(s, p, p, pos) == s[pos..]
    decreases |s| - pos
  {
    var index := IndexOf(s, p, pos);
    if index == -1 {
      ReplaceStep(s, p, p, pos);
      assert s[pos..|s|] == s[pos..];
    } else {
      ReplaceBySelf(s, p, index + |p|);
      SelfFound(s, p, pos);
    }
  }

  /** At an occurrence, writing the pattern back restores the text it covered. */
  lemma SelfFound(s: string, p: string, pos: nat)
    requires |p| > 0 && pos <= |s| && IndexOf(s, p, pos) != -1
    requires var index := IndexOf(s, p, pos);
             ReplaceFrom(s, p, p, index + |p|) == s[index + |p|..]
    ensures ReplaceFrom(s, p, p, pos) == s[pos..]
  {
    var index := IndexOf(s, p, pos);
    ReplaceStep(s, p, p, pos);
    IndexOfFound(s, p, pos);
    assert s[index..index + |p|] == p;
    SplitAround(s, pos, index, index + |p|);
  }

  lemma SplitAround(s: string, i: nat, j: nat, k: nat)
    requires i <= j <= k <= |s|
    ensures s[i..] == s[i..j] + s[j..k] + s[k..]
  {
  }

  // ---------------------------------------------------------------------------
  // Single-character patterns, and toURI

  /** Every c in s replaced by q, character by character. */
  function MapChars(s: string, c: char, q: string): string
    decreases |s|
  {
    if s == [] then [] else (if s[0] == c then q else [s[0]]) + MapChars(s[1..], c, q)
  }

  /** A replacement free of c leaves no c behind. */
  lemma {:induction false} MapCharsRemoves(s: string, c: char, q: string)
    requires c !in q
    ensures c !in MapChars(s, c, q)
    decreases |s|
  {
    if s != [] {
      MapCharsRemoves(s[1..], c, q);
    }
  }

  lemma {:induction false} MapCharsAppend(a: string, b: string, c: char, q: string)
    ensures MapChars(a + b, c, q) == MapChars(a, c, q) + MapChars(b, c, q)
    decreases |a|
  {
    if a == [] {
      assert a + b == b;
    } else {
      assert (a + b)[1..] == a[1..] + b;
      MapCharsAppend(a[1..], b, c, q);
    }
  }

  lemma {:induction false} MapCharsWithout(s: string, c: char, q: string)
    requires c !in s
    ensures MapChars(s, c, q) == s
    decreases |s|
  {
    if s != [] {
      MapCharsWithout(s[1..], c, q);
      assert s == [s[0]] + s[1..];
    }
  }

  /** Before the next occurrence of a one-character pattern (or the end) the character does not appear. */
  lemma CharFree(s: string, c: char, from: nat, to: nat)
    requires from <= to <= |s|
    requires IndexOf(s, [c], from) == -1 || to <= IndexOf(s, [c], from)
    ensures c !in s[from..to]
  {
    forall j | from <= j < to ensures s[j] != c {
      IndexOfIsFirst(s, [c], from, j);
      assert s[j..j + 1] == [s[j]];
    }
  }

  /** Where indexOf finds a one-character pattern, that character stands, and it does not occur before. */
  lemma FoundChar(s: string, c: char, pos: nat)
    requires pos <= |s| && IndexOf(s, [c], pos) != -1
    ensures var index := IndexOf(s, [c], pos);
            index < |s| && s[index] == c && c !in s[pos..index]
  {
    var index := IndexOf(s, [c], pos);
    IndexOfFound(s, [c], pos);
    assert s[index] == s[index..index + 1][0];
    CharFree(s, c, pos, index);
  }

  /** Substituting around one occurrence: the stretch before it is free of c. */
  lemma MapCharsAround(before: string, c: char, after: string, q: string)
    requires c !in before
    ensures MapChars(before + ([c] + after), c, q) == before + q + MapChars(after, c, q)
  {
    MapCharsWithout(before, c, q);
    MapCharsAppend(before, [c] + after, c, q);
    MapCharsAppend([c], after, c, q);
    assert MapChars([c], c, q) == q;
  }

  /** Substituting from pos, where the first c is at index. */
  lemma MapCharsAt(s: string, c: char, q: string, pos: nat, index: nat)
    requires pos <= index < |s| && s[index] == c && c !in s[pos..index]
    ensures MapChars(s[pos..], c, q) == s[pos..index] + q + MapChars(s[index + 1..], c, q)
  {
    assert s[pos..] == s[pos..index] + ([c] + s[index + 1..]);
    MapCharsAround(s[pos..index], c, s[index + 1..], q);
  }

  /** For a one-character pattern, replace is the character-by-character substitution. */
  lemma {:induction false} ReplaceOneChar(s: string, c: char, q: string, pos: nat)
    requires pos <= |s|
    ensures ReplaceFrom(s, [c], q, pos) == MapChars(s[pos..], c, q)
    decreases |s| - pos
  {
    var index := IndexOf(s, [c], pos);
    if index == -1 {
      OneCharAbsent(s, c, q, pos);
    } else {
      ReplaceOneChar(s, c, q, index + 1);
      OneCharFound(s, c, q, pos);
    }
  }

  /** No c from pos on: both leave the rest as it is. */
  lemma OneCharAbsent(s: string, c: char, q: string, pos: nat)
    requires pos <= |s| && IndexOf(s, [c], pos) == -1
    ensures ReplaceFrom(s, [c], q, pos) == MapChars(s[pos..], c, q)
  {
    ReplaceStep(s, [c], q, pos);
    CharFree(s, c, pos, |s|);
    assert s[pos..|s|] == s[pos..];
    MapCharsWithout(s[pos..], c, q);
  }

  /** The first c from pos on: both copy up to it, replace it, and go on after it. */
  lemma OneCharFound(s: string, c: char, q: string, pos: nat)
    requires pos <= |s| && IndexOf(s, [c], pos) != -1
    requires var index := IndexOf(s, [c], pos);
             ReplaceFrom(s, [c], q, index + 1) == MapChars(s[index + 1..], c, q)
    ensures ReplaceFrom(s, [c], q, pos) == MapChars(s[pos..], c, q)
  {
    var index := IndexOf(s, [c], pos);
    assert |[c]| == 1;
    ReplaceStep(s, [c], q, pos);
    FoundChar(s, c, pos);
    MapCharsAt(s, c, q, pos, index);
  }

  /**
   * toURI(String): the text handed to new URI, every space written as %20.
   * URI syntax checking is not part of this model.
   */
  method ToURI(location: string) returns (text: string)
    ensures text == MapChars(location, ' ', "%20")
    ensures ' ' !in text
  {
    var escaped := Replace(Some(location), Some(" "), Some("%20"));
    ReplaceOneChar(location, ' ', "%20", 0);
    MapCharsRemoves(location, ' ', "%20");
    if location == [] {
      assert MapChars(location, ' ', "%20") == [];
    }
    text := escaped.value;
  }

  // ---------------------------------------------------------------------------
  // The classpath: prefix

  /** The location getClasspathFile hands to getFile: the prefix added unless it is already there. */
  function ClasspathLocation(resourceLocation: Option<string>): (r: Result<string, Error>)
    ensures resourceLocation.None? <==> r.Err?
    ensures r.Ok? ==> StartsWith(r.value, CLASSPATH_PREFIX)
    ensures r.Ok? && StartsWith(resourceLocation.value, CLASSPATH_PREFIX) ==> r.value == resourceLocation.value
    ensures r.Ok? && !StartsWith(resourceLocation.value, CLASSPATH_PREFIX) ==> r.value[|CLASSPATH_PREFIX|..] == resourceLocation.value
  {
    match resourceLocation
    case None => Err(NullPointer("Resource location must not be null"))
    case Some(location) =>
      if StartsWith(location, CLASSPATH_PREFIX) then Ok(location) else Ok(CLASSPATH_PREFIX + location)
  }

  /**
   * The class-path resource getFile(String) looks up: the location without
   * the prefix, or nothing when the location is not a class-path one.
   */
  function ClasspathPath(resourceLocation: Option<string>): (r: Result<Option<string>, Error>)
    ensures resourceLocation.None? <==> r.Err?
    ensures r.Ok? ==> (r.value.Some? <==> StartsWith(resourceLocation.value, CLASSPATH_PREFIX))
    ensures r.Ok? && r.value.Some? ==> CLASSPATH_PREFIX + r.value.value == resourceLocation.value
  {
    match resourceLocation
    case None => Err(NullPointer("Resource location must not be null"))
    case Some(location) =>
      if StartsWith(location, CLASSPATH_PREFIX) then Ok(Some(location[|CLASSPATH_PREFIX|..])) else Ok(None)
  }

  /** Adding the prefix twice is adding it once. */
  lemma ClasspathLocationIdempotent(location: string)
    ensures ClasspathLocation(Some(ClasspathLocation(Some(location)).value)) == ClasspathLocation(Some(location))
  {
  }

  /**
   * getClasspathFile(x) looks up the class-path resource x, with a leading
   * "classpath:" of x taken off rather than doubled.
   */
  lemma ClasspathRoundTrip(location: string)
    ensures ClasspathPath(Some(ClasspathLocation(Some(location)).value))
            == Ok(Some(if StartsWith(location, CLASSPATH_PREFIX) then location[|CLASSPATH_PREFIX|..] else location))
  {
    if !StartsWith(location, CLASSPATH_PREFIX) {
      assert (CLASSPATH_PREFIX + location)[|CLASSPATH_PREFIX|..] == location;
    }
  }
}
