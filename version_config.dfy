/**
 * VersionConfig: a provider backed by versioned bundles
 * <configName>-v<major>.<minor>.properties. The bundle for the requested
 * version is chosen, every other bundle is stacked behind it as defaults, and
 * the resulting property set is built on the first lookup and kept.
 */
module VersionConfig {
  import opened Wrappers
  import opened JavaLang
  import opened JavaProperties
  import opened ConfigVersion
  import Config
  import StableSort

  const FILE_TYPE: string := ".properties"

  // ---------------------------------------------------------------------------
  // The file-name pattern  <configName>-(v\d+\.\d+)\.properties

  /** The end of the run of digits that starts at i. */
  function DigitRunEnd(s: string, i: nat): (j: nat)
    requires i <= |s|
    ensures i <= j <= |s| && AllDigits(s[i..j])
    ensures j == |s| || !IsDigit(s[j])
    decreases |s| - i
  {
    if i < |s| && IsDigit(s[i]) then
      var j := DigitRunEnd(s, i + 1);
      assert s[i..j] == [s[i]] + s[i + 1..j];
      j
    else i
  }

  /** A run of digits that stops before a non-digit is the whole run. */
  lemma {:induction false} DigitRunEndAt(s: string, i: nat, j: nat)
    requires i <= j <= |s| && AllDigits(s[i..j])
    requires j == |s| || !IsDigit(s[j])
    ensures DigitRunEnd(s, i) == j
    decreases j - i
  {
    if i < j {
      assert IsDigit(s[i..j][0]);
      assert s[i + 1..j] == s[i..j][1..];
      DigitRunEndAt(s, i + 1, j);
    }
  }

  /** The two digit runs a match of the pattern captures. */
  datatype Match = Match(major: string, minor: string)

  predicate WellFormed(m: Match) {
    m.major != [] && m.minor != [] && AllDigits(m.major) && AllDigits(m.minor)
  }

  /** group(1): the version text of a match. */
  function Group(m: Match): string {
    "v" + m.major + "." + m.minor
  }

  /** The whole text the pattern matches. */
  function MatchedText(configName: string, m: Match): string {
    configName + "-v" + m.major + "." + m.minor + FILE_TYPE
  }

  /** The parts after "<configName>-v" found in turn from a: major, '.', minor, ".properties". */
  predicate PartsAt(s: string, a: nat, m: Match) {
    var b := a + |m.major|;
    OccursAt(s, m.major, a) && OccursAt(s, ".", b) && OccursAt(s, m.minor, b + 1)
    && OccursAt(s, FILE_TYPE, b + 1 + |m.minor|)
  }

  /** The matched text occurs at i exactly when each of its parts occurs in turn. */
  lemma MatchedTextAt(configName: string, s: string, i: nat, m: Match)
    ensures OccursAt(s, MatchedText(configName, m), i) <==>
              OccursAt(s, configName + "-v", i) && PartsAt(s, i + |configName + "-v"|, m)
  {
    assert MatchedText(configName, m) == (configName + "-v") + m.major + "." + m.minor + FILE_TYPE;
    HeadThenParts(s, configName + "-v", m, i);
  }

  /** Any head followed by the parts of a match occurs at i exactly when the head does and the parts follow it. */
  lemma HeadThenParts(s: string, head: string, m: Match, i: nat)
    ensures OccursAt(s, head + m.major + "." + m.minor + FILE_TYPE, i) <==> OccursAt(s, head, i) && PartsAt(s, i + |head|, m)
  {
    assert |"."| == 1;
    OccursAtFive(s, head, m.major, ".", m.minor, FILE_TYPE, i);
  }
  /** Five pieces occur in a row at i exactly when their concatenation occurs at i. */
  lemma OccursAtFive(s: string, h: string, p: string, q: string, r: string, u: string, i: nat)
    ensures OccursAt(s, h + p + q + r + u, i) <==>
              OccursAt(s, h, i) && OccursAt(s, p, i + |h|) && OccursAt(s, q, i + |h| + |p|)
              && OccursAt(s, r, i + |h| + |p| + |q|) && OccursAt(s, u, i + |h| + |p| + |q| + |r|)
  {
    OccursAtConcat(s, h + p + q + r, u, i);
    OccursAtConcat(s, h + p + q, r, i);
    OccursAtConcat(s, h + p, q, i);
    OccursAtConcat(s, h, p, i);
  }

  /** The parts of the matched text, found in turn from i, make up the matched text there. */
  lemma MatchedTextOfParts(configName: string, s: string, i: nat, m: Match)
    requires OccursAt(s, configName + "-v", i) && PartsAt(s, i + |configName + "-v"|, m)
    ensures OccursAt(s, MatchedText(configName, m), i)
  {
    MatchedTextAt(configName, s, i, m);
  }

  /**
   * The rest of the pattern, \d+\.\d+\.properties, tried at position a. Each
   * \d+ is followed by a '.', which is not a digit, so only the longest run of
   * digits can let the match go on.
   */
  function VersionAt(s: string, a: nat): Option<Match>
    requires a <= |s|
  {
    var b := DigitRunEnd(s, a);
    if b == a || b == |s| || s[b] != '.' then None
    else
      var c := DigitRunEnd(s, b + 1);
      if c == b + 1 || !OccursAt(s, FILE_TYPE, c) then None
      else Some(Match(s[a..b], s[b + 1..c]))
  }

  /** The pattern tried at position i. */
  function MatchAt(configName: string, s: string, i: nat): Option<Match>
    requires i <= |s|
  {
    var head := configName + "-v";
    if !OccursAt(s, head, i) then None else VersionAt(s, i + |head|)
  }

  /** What the rest of the pattern captures at a is well formed, and its parts occur there in turn. */
  lemma VersionAtSound(s: string, a: nat)
    requires a <= |s|
    ensures var r := VersionAt(s, a);
            r.Some? ==> WellFormed(r.value) && PartsAt(s, a, r.value)
  {
    var b := DigitRunEnd(s, a);
    if b != a && b < |s| && s[b] == '.' {
      var c := DigitRunEnd(s, b + 1);
      if c != b + 1 && OccursAt(s, FILE_TYPE, c) {
        assert VersionAt(s, a) == Some(Match(s[a..b], s[b + 1..c]));
        PartsFound(s, a, b, c);
      } else {
        assert VersionAt(s, a) == None;
      }
    } else {
      assert VersionAt(s, a) == None;
    }
  }

  /** Two digit runs around a '.', then ".properties": the parts of a match, each where it belongs. */
  lemma PartsFound(s: string, a: nat, b: nat, c: nat)
    requires a < b && b + 1 < c <= |s| && AllDigits(s[a..b]) && AllDigits(s[b + 1..c]) && s[b] == '.'
    requires OccursAt(s, FILE_TYPE, c)
    ensures WellFormed(Match(s[a..b], s[b + 1..c])) && PartsAt(s, a, Match(s[a..b], s[b + 1..c]))
  {
    assert |s[a..b]| == b - a && |s[b + 1..c]| == c - (b + 1);
    assert s[a..a + (b - a)] == s[a..b];
    assert s[b + 1..b + 1 + (c - (b + 1))] == s[b + 1..c];
    DotAt(s, b);
  }

  /** What the pattern matches at i is well formed and is the text found there. */
  lemma MatchAtSound(configName: string, s: string, i: nat)
    requires i <= |s|
    ensures var r := MatchAt(configName, s, i);
            r.Some? ==> WellFormed(r.value) && OccursAt(s, MatchedText(configName, r.value), i)
  {
    var head := configName + "-v";
    if OccursAt(s, head, i) {
      var a := i + |head|;
      var r := VersionAt(s, a);
      assert MatchAt(configName, s, i) == r;
      VersionAtSound(s, a);
      if r.Some? {
        MatchedTextOfParts(configName, s, i, r.value);
      }
    }
  }

  lemma DotAt(s: string, b: nat)
    requires b < |s| && s[b] == '.'
    ensures OccursAt(s, ".", b)
  {
    assert s[b..b + 1] == [s[b]];
  }

  /** ".properties" begins with a '.'. */
  lemma FileTypeStartsWithDot(s: string, c: nat)
    requires OccursAt(s, FILE_TYPE, c)
    ensures c < |s| && s[c] == '.'
  {
    assert s[c] == s[c..c + |FILE_TYPE|][0];
  }

  /** Where two digit runs, a '.' and ".properties" follow each other from a, the rest of the pattern captures those runs. */
  lemma VersionAtComplete(s: string, a: nat, m: Match)
    requires a <= |s| && WellFormed(m) && PartsAt(s, a, m)
    ensures VersionAt(s, a) == Some(m)
  {
    var b := a + |m.major|;
    var c := b + 1 + |m.minor|;
    assert s[a..b] == m.major;
    assert s[b + 1..c] == m.minor;
    assert s[b] == '.' by { assert s[b] == s[b..b + 1][0]; }
    FileTypeStartsWithDot(s, c);
    assert DigitRunEnd(s, a) == b by { DigitRunEndAt(s, a, b); }
    assert DigitRunEnd(s, b + 1) == c by { DigitRunEndAt(s, b + 1, c); }
  }

  /** Wherever the pattern's text occurs, the pattern matches there, capturing exactly its digit runs. */
  lemma MatchAtComplete(configName: string, s: string, i: nat, m: Match)
    requires WellFormed(m) && OccursAt(s, MatchedText(configName, m), i)
    ensures MatchAt(configName, s, i) == Some(m)
  {
    MatchedTextAt(configName, s, i, m);
    VersionAtComplete(s, i + |configName + "-v"|, m);
  }

  /** Matcher.find(): where the leftmost match at or after from starts. */
  function FindFrom(configName: string, s: string, from: nat): (r: Option<nat>)
    requires from <= |s|
    ensures r.Some? ==> from <= r.value <= |s| && MatchAt(configName, s, r.value).Some?
    decreases |s| - from
  {
    if MatchAt(configName, s, from).Some? then Some(from)
    else if from == |s| then None
    else FindFrom(configName, s, from + 1)
  }

  /** The pattern does not match before the position find() reports, nor anywhere when it reports none. */
  lemma {:induction false} FindFromSkips(configName: string, s: string, from: nat, j: nat)
    requires from <= j <= |s|
    requires FindFrom(configName, s, from).None? || j < FindFrom(configName, s, from).value
    ensures MatchAt(configName, s, j).None?
    decreases j - from
  {
    if from < j {
      FindFromSkips(configName, s, from + 1, j);
    }
  }

  /** find() reports nothing exactly when no position matches, and otherwise the leftmost one. */
  lemma FindFromIsLeftmost(configName: string, s: string, from: nat)
    requires from <= |s|
    ensures var r := FindFrom(configName, s, from);
            && (r.None? <==> forall i :: from <= i <= |s| ==> MatchAt(configName, s, i).None?)
            && (r.Some? ==> forall j :: from <= j < r.value ==> MatchAt(configName, s, j).None?)
  {
    var r := FindFrom(configName, s, from);
    forall j | from <= j <= |s| && (r.None? || j < r.value)
      ensures MatchAt(configName, s, j).None?
    {
      FindFromSkips(configName, s, from, j);
    }
  }

  /**
   * The ConfigVersion the stream in sortVersions makes of a file name: the
   * leftmost match's group parsed, or nothing when the pattern does not occur.
   */
  function CandidateOf(configName: string, fileName: string): (r: Option<ConfigVersion>)
    ensures r.Some? ==> r.value.fileName == Some(fileName) && r.value.x >= 0 && r.value.y >= 0
  {
    match FindFrom(configName, fileName, 0)
    case None => None
    case Some(i) =>
      var m := MatchAt(configName, fileName, i).value;
      MatchAtSound(configName, fileName, i);
      ParseDigitRuns(m.major, m.minor, Some(fileName));
      Some(Parse(Group(m), Some(fileName)).value)
  }

  /** A file name yields a version exactly when the pattern occurs somewhere in it. */
  lemma CandidateOfRecognises(configName: string, fileName: string)
    ensures CandidateOf(configName, fileName).None? <==> forall i :: 0 <= i <= |fileName| ==> MatchAt(configName, fileName, i).None?
  {
    FindFromIsLeftmost(configName, fileName, 0);
  }

  /** A match at the very start is the leftmost one, and its digit runs give the version. */
  lemma CandidateOfMatchAtStart(configName: string, fileName: string, m: Match)
    requires WellFormed(m) && OccursAt(fileName, MatchedText(configName, m), 0)
    ensures CandidateOf(configName, fileName) == Some(ConfigVersion(DigitsValue(m.major), DigitsValue(m.minor), Some(fileName)))
  {
    MatchAtComplete(configName, fileName, 0, m);
    assert FindFrom(configName, fileName, 0) == Some(0);
    ParseDigitRuns(m.major, m.minor, Some(fileName));
  }

  /** The canonical bundle name of a version is the text the pattern matches for its numerals. */
  lemma BundleNameText(configName: string, x: nat, y: nat)
    ensures configName + "-" + Format(x, y) + FILE_TYPE == MatchedText(configName, Match(NatToString(x), NatToString(y)))
  {
    var sx, sy := NatToString(x), NatToString(y);
    assert IntToString(x) == sx && IntToString(y) == sy;
    NameParts(configName, sx, sy, FILE_TYPE);
  }

  lemma NameParts(name: string, major: string, minor: string, suffix: string)
    ensures name + "-" + ("v" + major + "." + minor) + suffix == name + "-v" + major + "." + minor + suffix
  {
    assert "-" + "v" == "-v";
  }

  /** The canonical bundle name of a version is recognised and reads back as that version. */
  lemma CandidateOfBundleName(configName: string, x: nat, y: nat)
    ensures CandidateOf(configName, configName + "-" + Format(x, y) + FILE_TYPE)
            == Some(ConfigVersion(x, y, Some(configName + "-" + Format(x, y) + FILE_TYPE)))
  {
    var name := configName + "-" + Format(x, y) + FILE_TYPE;
    var m := Match(NatToString(x), NatToString(y));
    BundleNameText(configName, x, y);
    assert OccursAt(name, name, 0) by { assert name[0..|name|] == name; }
    CandidateOfMatchAtStart(configName, name, m);
    NatToStringValue(x);
    NatToStringValue(y);
  }

  /** The stream's map and filter: the candidates in the order of the names. */
  function Candidates(configName: string, names: seq<string>): (vs: seq<ConfigVersion>)
    ensures |vs| <= |names|
    ensures forall v :: v in vs ==> v.fileName.Some? && v.fileName.value in names
                                    && CandidateOf(configName, v.fileName.value) == Some(v)
    ensures forall n :: n in names && CandidateOf(configName, n).Some? ==> CandidateOf(configName, n).value in vs
    decreases |names|
  {
    if names == [] then []
    else
      var rest := Candidates(configName, names[1..]);
      assert forall n :: n in names[1..] ==> n in names;
      assert forall n :: n in names ==> n == names[0] || n in names[1..];
      match CandidateOf(configName, names[0])
      case None => rest
      case Some(v) => [v] + rest
  }

  /**
   * pos lists where in names each of vs comes from: every entry of vs is what
   * recognise gives for the name at its position, the positions increase, and
   * every recognised name's position is listed.
   */
  predicate PositionsOf<T(==)>(recognise: string -> Option<T>, names: seq<string>, vs: seq<T>, pos: seq<nat>) {
    && |pos| == |vs|
    && (forall k :: 0 <= k < |pos| ==> pos[k] < |names| && recognise(names[pos[k]]) == Some(vs[k]))
    && (forall k, l :: 0 <= k < l < |pos| ==> pos[k] < pos[l])
    && (forall i :: 0 <= i < |names| && recognise(names[i]).Some? ==> i in pos)
  }

  /**
   * The candidates are exactly the recognised names, one version each, in the
   * order of the names.
   */
  lemma {:induction false} CandidatesPositions(configName: string, names: seq<string>) returns (pos: seq<nat>)
    ensures PositionsOf((n: string) => CandidateOf(configName, n), names, Candidates(configName, names), pos)
    decreases |names|
  {
    var recognise := (n: string) => CandidateOf(configName, n);
    if names == [] {
      return [];
    }
    var inner := CandidatesPositions(configName, names[1..]);
    var rest := Candidates(configName, names[1..]);
    var shifted := ShiftPositions(recognise, names, rest, inner);
    match recognise(names[0])
    case None =>
      assert Candidates(configName, names) == rest;
      pos := shifted;
    case Some(v) =>
      assert Candidates(configName, names) == [v] + rest;
      pos := PrependPosition(recognise, names, rest, shifted, v);
  }

  /** Positions in names[1..] moved up by one are positions in names, where names[0] is not listed. */
  lemma ShiftPositions<T>(recognise: string -> Option<T>, names: seq<string>, vs: seq<T>, inner: seq<nat>) returns (shifted: seq<nat>)
    requires names != [] && PositionsOf(recognise, names[1..], vs, inner)
    ensures |shifted| == |vs|
    ensures forall k :: 0 <= k < |shifted| ==> 0 < shifted[k] < |names| && recognise(names[shifted[k]]) == Some(vs[k])
    ensures forall k, l :: 0 <= k < l < |shifted| ==> shifted[k] < shifted[l]
    ensures forall i :: 1 <= i < |names| && recognise(names[i]).Some? ==> i in shifted
  {
    var tail := names[1..];
    shifted := seq(|inner|, k requires 0 <= k < |inner| => inner[k] + 1);
    assert forall k :: 0 <= k < |shifted| ==> names[shifted[k]] == tail[inner[k]];
    forall i | 1 <= i < |names| && recognise(names[i]).Some?
      ensures i in shifted
    {
      assert tail[i - 1] == names[i];
      var k :| 0 <= k < |inner| && inner[k] == i - 1;
      assert shifted[k] == i;
    }
  }

  /** A recognised names[0] goes in front, at position 0. */
  lemma PrependPosition<T>(recognise: string -> Option<T>, names: seq<string>, vs: seq<T>, shifted: seq<nat>, v: T)
    returns (pos: seq<nat>)
    requires names != [] && recognise(names[0]) == Some(v)
    requires |shifted| == |vs|
    requires forall k :: 0 <= k < |shifted| ==> 0 < shifted[k] < |names| && recognise(names[shifted[k]]) == Some(vs[k])
    requires forall k, l :: 0 <= k < l < |shifted| ==> shifted[k] < shifted[l]
    requires forall i :: 1 <= i < |names| && recognise(names[i]).Some? ==> i in shifted
    ensures PositionsOf(recognise, names, [v] + vs, pos)
  {
    pos := [0] + shifted;
    PrependEntries(recognise, names, vs, shifted, v);
    PrependIncreasing(shifted);
    PrependComplete(recognise, names, shifted);
  }

  lemma PrependEntries<T>(recognise: string -> Option<T>, names: seq<string>, vs: seq<T>, shifted: seq<nat>, v: T)
    requires names != [] && recognise(names[0]) == Some(v)
    requires |shifted| == |vs|
    requires forall k :: 0 <= k < |shifted| ==> shifted[k] < |names| && recognise(names[shifted[k]]) == Some(vs[k])
    ensures var pos, all := [0] + shifted, [v] + vs;
            forall k :: 0 <= k < |pos| ==> pos[k] < |names| && recognise(names[pos[k]]) == Some(all[k])
  {
    var pos, all := [0] + shifted, [v] + vs;
    forall k | 0 <= k < |pos|
      ensures pos[k] < |names| && recognise(names[pos[k]]) == Some(all[k])
    {
      if k > 0 {
        assert pos[k] == shifted[k - 1] && all[k] == vs[k - 1];
      }
    }
  }

  lemma PrependIncreasing(shifted: seq<nat>)
    requires forall k :: 0 <= k < |shifted| ==> 0 < shifted[k]
    requires forall k, l :: 0 <= k < l < |shifted| ==> shifted[k] < shifted[l]
    ensures var pos := [0] + shifted;
            forall k, l :: 0 <= k < l < |pos| ==> pos[k] < pos[l]
  {
    var pos := [0] + shifted;
    forall k, l | 0 <= k < l < |pos|
      ensures pos[k] < pos[l]
    {
      assert pos[l] == shifted[l - 1];
      if k > 0 {
        assert pos[k] == shifted[k - 1];
      }
    }
  }

  lemma PrependComplete<T>(recognise: string -> Option<T>, names: seq<string>, shifted: seq<nat>)
    requires forall i :: 1 <= i < |names| && recognise(names[i]).Some? ==> i in shifted
    ensures var pos := [0] + shifted;
            forall i :: 0 <= i < |names| && recognise(names[i]).Some? ==> i in pos
  {
    var pos := [0] + shifted;
    forall i | 0 <= i < |names| && recognise(names[i]).Some?
      ensures i in pos
    {
      if i == 0 {
        assert pos[0] == 0;
      } else {
        var j :| 0 <= j < |shifted| && shifted[j] == i;
        assert pos[j + 1] == i;
      }
    }
  }

  /**
   * sortVersions: null for a null or empty collection; otherwise the
   * candidates sorted ascending (stably, as Stream.sorted is).
   */
  function SortVersions(configName: string, fileNames: Option<seq<string>>): (r: Option<seq<ConfigVersion>>)
    ensures r.None? <==> fileNames.None? || fileNames.value == []
    ensures r.Some? ==> multiset(r.value) == multiset(Candidates(configName, fileNames.value))
    ensures r.Some? ==> forall i, j :: 0 <= i < j < |r.value| ==> AtMost(r.value[i], r.value[j])
  {
    if fileNames.None? || fileNames.value == [] then None
    else
      var vs := Candidates(configName, fileNames.value);
      AtMostIsTotalPreorder();
      StableSort.SortSorted(vs, AtMost);
      Some(StableSort.Sort(vs, AtMost))
  }

  /** The sort is stable: candidates of equal version keep the order of their names. */
  lemma SortVersionsIsStable(configName: string, names: seq<string>, e: ConfigVersion)
    requires names != []
    ensures StableSort.Equivalents(SortVersions(configName, Some(names)).value, e, AtMost)
            == StableSort.Equivalents(Candidates(configName, names), e, AtMost)
  {
    AtMostIsTotalPreorder();
    StableSort.SortIsStable(Candidates(configName, names), e, AtMost);
  }

  // ---------------------------------------------------------------------------
  // chooseVersion

  /**
   * The position of the highest version among versions[..n] that is not above
   * the request, scanning down from n - 1; 0 when every one is above it.
   */
  function HighestAtMost(versions: seq<ConfigVersion>, request: ConfigVersion, n: nat): (i: nat)
    requires 0 < |versions| && n <= |versions|
    ensures i < |versions|
    decreases n
  {
    if n == 0 then 0
    else if CompareTo(request, versions[n - 1]) >= 0 then n - 1
    else HighestAtMost(versions, request, n - 1)
  }

  /**
   * The scan stops at a version not above the request, with every later one
   * above it; when there is no such version it ends at position 0.
   */
  lemma {:induction false} HighestAtMostStops(versions: seq<ConfigVersion>, request: ConfigVersion, n: nat)
    requires 0 < |versions| && n <= |versions|
    ensures var i := HighestAtMost(versions, request, n);
            && (i < n && CompareTo(request, versions[i]) >= 0 ==> forall j :: i < j < n ==> CompareTo(request, versions[j]) < 0)
            && ((exists j :: 0 <= j < n && CompareTo(request, versions[j]) >= 0) ==> i < n && CompareTo(request, versions[i]) >= 0)
            && ((forall j :: 0 <= j < n ==> CompareTo(request, versions[j]) < 0) ==> i == 0)
    decreases n
  {
    if n > 0 && CompareTo(request, versions[n - 1]) < 0 {
      HighestAtMostStops(versions, request, n - 1);
    }
  }

  /**
   * chooseVersion, as the position it picks: none for an empty list, the last
   * for an absent or empty request, and otherwise the highest version not above
   * the parsed request, or the first when all are above it. A request that does
   * not parse raises the parser's exception.
   */
  function Choice(versions: seq<ConfigVersion>, request: Option<string>): (r: Result<Option<nat>, Error>)
    ensures r.Ok? && r.value.Some? ==> r.value.value < |versions|
    ensures r == Ok(None) <==> versions == []
    ensures r.Err? <==> versions != [] && request.Some? && request.value != [] && Parse(request.value, None).Err?
  {
    if |versions| == 0 then Ok(None)
    else if request.None? || request.value == [] then Ok(Some(|versions| - 1))
    else
      match Parse(request.value, None)
      case Err(e) => Err(e)
      case Ok(req) => Ok(Some(HighestAtMost(versions, req, |versions|)))
  }

  /** chooseVersion: a downward scan that stops at the first version not above the request. */
  method ChooseVersion(versions: seq<ConfigVersion>, request: Option<string>) returns (r: Result<Option<nat>, Error>)
    ensures r == Choice(versions, request)
  {
    if |versions| == 0 {
      return Ok(None);
    }
    if request.None? || request.value == [] {
      return Ok(Some(|versions| - 1));
    }
    var parsed := Parse(request.value, None);
    if parsed.Err? {
      return Err(parsed.error);
    }
    var req := parsed.value;
    assert Choice(versions, request) == Ok(Some(HighestAtMost(versions, req, |versions|)));
    var i := |versions| - 1;
    while i >= 0
      invariant -1 <= i < |versions|
      invariant HighestAtMost(versions, req, i + 1) == HighestAtMost(versions, req, |versions|)
      decreases i
    {
      if CompareTo(req, versions[i]) >= 0 {
        return Ok(Some(i));
      }
      i := i - 1;
    }
    return Ok(Some(0));
  }

  /**
   * On an ascending list the choice is the nearest version at or below the
   * request: no listed version lies strictly between the two. When every
   * version is above the request it is the lowest one.
   */
  lemma ChoiceIsNearestBelow(versions: seq<ConfigVersion>, request: string)
    requires forall i, j :: 0 <= i < j < |versions| ==> AtMost(versions[i], versions[j])
    requires versions != [] && request != [] && Parse(request, None).Ok?
    ensures Choice(versions, Some(request)).Ok?
    ensures var req, c := Parse(request, None).value, Choice(versions, Some(request)).value.value;
            (exists j :: 0 <= j < |versions| && AtMost(versions[j], req)) ==>
              AtMost(versions[c], req) && forall j :: 0 <= j < |versions| && AtMost(versions[j], req) ==> AtMost(versions[j], versions[c])
    ensures var req, c := Parse(request, None).value, Choice(versions, Some(request)).value.value;
            (forall j :: 0 <= j < |versions| ==> !AtMost(versions[j], req)) ==>
              c == 0 && forall j :: 0 <= j < |versions| ==> AtMost(versions[c], versions[j])
  {
    var req := Parse(request, None).value;
    assert Choice(versions, Some(request)) == Ok(Some(HighestAtMost(versions, req, |versions|)));
    HighestAtMostIsNearest(versions, req);
  }

  /** The scan's position is the nearest version at or below the request, or the lowest one. */
  lemma HighestAtMostIsNearest(versions: seq<ConfigVersion>, req: ConfigVersion)
    requires forall i, j :: 0 <= i < j < |versions| ==> AtMost(versions[i], versions[j])
    requires versions != []
    ensures var c := HighestAtMost(versions, req, |versions|);
            (exists j :: 0 <= j < |versions| && AtMost(versions[j], req)) ==>
              AtMost(versions[c], req) && forall j :: 0 <= j < |versions| && AtMost(versions[j], req) ==> AtMost(versions[j], versions[c])
    ensures var c := HighestAtMost(versions, req, |versions|);
            (forall j :: 0 <= j < |versions| ==> !AtMost(versions[j], req)) ==>
              c == 0 && forall j :: 0 <= j < |versions| ==> AtMost(versions[c], versions[j])
  {
    var c := HighestAtMost(versions, req, |versions|);
    HighestAtMostStops(versions, req, |versions|);
    forall j | 0 <= j < |versions| ensures AtMost(versions[j], req) <==> CompareTo(req, versions[j]) >= 0 {
      AtMostFlip(versions[j], req);
    }
    forall j | 0 <= j < |versions| && AtMost(versions[j], req)
      ensures AtMost(versions[j], versions[c])
    {
      assert j <= c;
    }
  }

  lemma AtMostFlip(a: ConfigVersion, b: ConfigVersion)
    ensures AtMost(a, b) <==> CompareTo(b, a) >= 0
  {
  }

  /** An absent or empty request picks the highest version of an ascending list. */
  lemma ChoiceWithoutRequest(versions: seq<ConfigVersion>, request: Option<string>)
    requires forall i, j :: 0 <= i < j < |versions| ==> AtMost(versions[i], versions[j])
    requires versions != [] && (request.None? || request.value == [])
    ensures Choice(versions, request) == Ok(Some(|versions| - 1))
    ensures forall j :: 0 <= j < |versions| ==> AtMost(versions[j], versions[|versions| - 1])
  {
  }

  /** The bundles v1.0, v1.5 and v2.0 under a configuration name. */
  function ThreeBundles(configName: string): seq<ConfigVersion> {
    [ ConfigVersion(1, 0, Some(configName + "-v1.0.properties")),
      ConfigVersion(1, 5, Some(configName + "-v1.5.properties")),
      ConfigVersion(2, 0, Some(configName + "-v2.0.properties")) ]
  }

  /** Over the three bundles the scan picks v2.0, v1.5 or v1.0, whichever is the first from the top not above the request. */
  lemma ThreeBundlesScan(configName: string, req: ConfigVersion)
    ensures HighestAtMost(ThreeBundles(configName), req, 3)
            == if CompareTo(req, ConfigVersion(2, 0, None)) >= 0 then 2
               else if CompareTo(req, ConfigVersion(1, 5, None)) >= 0 then 1
               else 0
  {
    var vs := ThreeBundles(configName);
    assert HighestAtMost(vs, req, 1) == 0;
    assert HighestAtMost(vs, req, 2) == if CompareTo(req, vs[1]) >= 0 then 1 else HighestAtMost(vs, req, 1);
    assert HighestAtMost(vs, req, 3) == if CompareTo(req, vs[2]) >= 0 then 2 else HighestAtMost(vs, req, 2);
  }


  /** A request written as "v<x>.<y>" selects by the pair (x, y). */
  lemma ChoiceOfFormat(versions: seq<ConfigVersion>, x: int, y: int)
    requires versions != []
    ensures Choice(versions, Some(Format(x, y))) == Ok(Some(HighestAtMost(versions, ConfigVersion(x, y, None), |versions|)))
  {
    ParseFormat(x, y, "", None);
  }

  /** A request that parses to (x, y) picks from the three bundles by that pair. */
  lemma ThreeBundlesChoice(configName: string, text: string, x: int, y: int)
    requires text != [] && Parse(text, None) == Ok(ConfigVersion(x, y, None))
    ensures Choice(ThreeBundles(configName), Some(text))
            == Ok(Some(if CompareTo(ConfigVersion(x, y, None), ConfigVersion(2, 0, None)) >= 0 then 2
                       else if CompareTo(ConfigVersion(x, y, None), ConfigVersion(1, 5, None)) >= 0 then 1
                       else 0))
  {
    ThreeBundlesScan(configName, ConfigVersion(x, y, None));
  }

  /** The same for a request written "v<x>.<y>". */
  lemma ThreeBundlesChoiceOfFormat(configName: string, x: int, y: int)
    ensures Choice(ThreeBundles(configName), Some(Format(x, y)))
            == Ok(Some(if CompareTo(ConfigVersion(x, y, None), ConfigVersion(2, 0, None)) >= 0 then 2
                       else if CompareTo(ConfigVersion(x, y, None), ConfigVersion(1, 5, None)) >= 0 then 1
                       else 0))
  {
    ParseFormat(x, y, "", None);
    ThreeBundlesChoice(configName, Format(x, y), x, y);
  }

  /**
   * The examples of the class documentation, Format(x, y) being the text
   * "v<x>.<y>": v2.1 and v2.0 pick v2.0, v1.3 and v1.0 pick v1.0, and v0.9,
   * below every bundle, picks the nearest, v1.0.
   */
  lemma ChoiceExamplesDocumented(configName: string)
    ensures Choice(ThreeBundles(configName), Some(Format(2, 1))) == Ok(Some(2))
    ensures Choice(ThreeBundles(configName), Some(Format(2, 0))) == Ok(Some(2))
    ensures Choice(ThreeBundles(configName), Some(Format(1, 3))) == Ok(Some(0))
    ensures Choice(ThreeBundles(configName), Some(Format(1, 0))) == Ok(Some(0))
    ensures Choice(ThreeBundles(configName), Some(Format(0, 9))) == Ok(Some(0))
  {
    ThreeBundlesChoiceOfFormat(configName, 2, 1);
    ThreeBundlesChoiceOfFormat(configName, 2, 0);
    ThreeBundlesChoiceOfFormat(configName, 1, 3);
    ThreeBundlesChoiceOfFormat(configName, 1, 0);
    ThreeBundlesChoiceOfFormat(configName, 0, 9);
  }

  /** The version test's request, v1.1, falls between v1.0 and v1.5 and picks v1.0. */
  lemma ChoiceExampleBetween(configName: string)
    ensures Choice(ThreeBundles(configName), Some(Format(1, 1))) == Ok(Some(0))
  {
    ThreeBundlesChoiceOfFormat(configName, 1, 1);
  }

  /** The 'v' of a request is optional: "1.7" chooses as "v1.7" does. */
  lemma ChoiceWithoutV(versions: seq<ConfigVersion>, x: int, y: int)
    ensures Choice(versions, Some(Format(x, y)[1..])) == Choice(versions, Some(Format(x, y)))
  {
    if versions != [] {
      var withoutV := Format(x, y)[1..];
      assert |Format(x, y)| == 2 + |IntToString(x)| + |IntToString(y)|;
      ParseFormatWithoutV(x, y, None);
      ChoiceOfFormat(versions, x, y);
      assert Choice(versions, Some(withoutV)) == Ok(Some(HighestAtMost(versions, ConfigVersion(x, y, None), |versions|)));
    }
  }

  /** Segments of a request after the second are ignored: "v1.5.9" chooses as "v1.5" does. */
  lemma ChoiceIgnoresLaterSegments(versions: seq<ConfigVersion>, x: int, y: int, extra: string)
    ensures Choice(versions, Some(Format(x, y) + "." + extra)) == Choice(versions, Some(Format(x, y)))
  {
    ParseFormat(x, y, extra, None);
  }

  /** No request, or an empty one, picks the newest; a request with one segment is an error. */
  lemma ChoiceExamplesNoRequest(configName: string)
    ensures Choice(ThreeBundles(configName), None) == Ok(Some(2))
    ensures Choice(ThreeBundles(configName), Some("")) == Ok(Some(2))
    ensures Choice(ThreeBundles(configName), Some("v2")) == Err(IndexOutOfBounds(1))
  {
    assert "v2"[1..] == "2";
    assert Split("2", '.') == ["2"];
  }

  // ---------------------------------------------------------------------------
  // build

  /** What build loads for a version: a null stream (a file it cannot open) loads nothing. */
  function TableOf(load: ConfigVersion -> Option<Table>, v: ConfigVersion): Table {
    load(v).GetOr(map[])
  }

  /** The tables build stacks as defaults for versions[..n]: every one but the chosen, in list order. */
  function DefaultLayers(versions: seq<ConfigVersion>, chosen: nat, load: ConfigVersion -> Option<Table>, n: nat): (layers: seq<Table>)
    requires n <= |versions|
    ensures |layers| == if chosen < n then n - 1 else n
    decreases n
  {
    if n == 0 then []
    else if n - 1 == chosen then DefaultLayers(versions, chosen, load, n - 1)
    else DefaultLayers(versions, chosen, load, n - 1) + [TableOf(load, versions[n - 1])]
  }

  /** Where version i sits among the default layers once the chosen one is left out. */
  function LayerOf(i: nat, chosen: nat): nat
    requires i != chosen
  {
    if i < chosen then i else i - 1
  }

  lemma {:induction false} DefaultLayersAt(versions: seq<ConfigVersion>, chosen: nat, load: ConfigVersion -> Option<Table>, n: nat)
    requires n <= |versions|
    ensures forall i :: 0 <= i < n && i != chosen ==> DefaultLayers(versions, chosen, load, n)[LayerOf(i, chosen)] == TableOf(load, versions[i])
    decreases n
  {
    if n > 0 {
      DefaultLayersAt(versions, chosen, load, n - 1);
    }
  }

  /** The property set build returns: the defaults chain with the chosen version's table on top. */
  function Stacked(versions: seq<ConfigVersion>, chosen: nat, load: ConfigVersion -> Option<Table>): Properties
    requires chosen < |versions|
  {
    Properties(DefaultLayers(versions, chosen, load, |versions|) + [TableOf(load, versions[chosen])])
  }

  /** build: null when nothing was chosen; otherwise each other version as a defaults layer, the chosen on top. */
  method Build(versions: seq<ConfigVersion>, chosen: Option<nat>, load: ConfigVersion -> Option<Table>) returns (r: Option<Properties>)
    requires chosen.Some? ==> chosen.value < |versions|
    ensures r.None? <==> chosen.None?
    ensures r.Some? ==> r.value == Stacked(versions, chosen.value, load)
  {
    if chosen.None? {
      return None;
    }
    var c := chosen.value;
    var layers: seq<Table> := [];
    for i := 0 to |versions|
      invariant layers == DefaultLayers(versions, c, load, i)
    {
      if i != c {
        layers := layers + [TableOf(load, versions[i])];
      }
    }
    layers := layers + [TableOf(load, versions[c])];
    return Some(Properties(layers));
  }

  /** The layers of what build returns: the other versions in list order, then the chosen one. */
  lemma StackedLayers(versions: seq<ConfigVersion>, chosen: nat, load: ConfigVersion -> Option<Table>)
    requires chosen < |versions|
    ensures var layers := Stacked(versions, chosen, load).layers;
            && |layers| == |versions|
            && layers[|versions| - 1] == TableOf(load, versions[chosen])
            && forall i :: 0 <= i < |versions| && i != chosen ==> layers[LayerOf(i, chosen)] == TableOf(load, versions[i])
  {
    DefaultLayersAt(versions, chosen, load, |versions|);
  }

  /** A key the chosen version defines resolves to its value there. */
  lemma BuildChosenWins(versions: seq<ConfigVersion>, chosen: nat, load: ConfigVersion -> Option<Table>, key: string)
    requires chosen < |versions| && key in TableOf(load, versions[chosen])
    ensures GetProperty(Stacked(versions, chosen, load), key) == Some(TableOf(load, versions[chosen])[key])
  {
    StackedLayers(versions, chosen, load);
  }

  /**
   * A key the chosen version lacks resolves to its value in the last version of
   * the list (the highest, the list being ascending) that defines it, even one
   * above the chosen.
   */
  lemma BuildFallsBack(versions: seq<ConfigVersion>, chosen: nat, load: ConfigVersion -> Option<Table>, key: string, i: nat)
    requires chosen < |versions| && i < |versions| && i != chosen
    requires key !in TableOf(load, versions[chosen]) && key in TableOf(load, versions[i])
    requires forall j :: i < j < |versions| && j != chosen ==> key !in TableOf(load, versions[j])
    ensures GetProperty(Stacked(versions, chosen, load), key) == Some(TableOf(load, versions[i])[key])
  {
    var layers := Stacked(versions, chosen, load).layers;
    StackedLayers(versions, chosen, load);
    forall k | LayerOf(i, chosen) < k < |layers|
      ensures key !in layers[k]
    {
      if k < |layers| - 1 {
        var j := if k < chosen then k else k + 1;
        assert LayerOf(j, chosen) == k;
      }
    }
    LookupTopmost(layers, key, LayerOf(i, chosen));
  }

  /** A key no version defines stays absent. */
  lemma BuildMissing(versions: seq<ConfigVersion>, chosen: nat, load: ConfigVersion -> Option<Table>, key: string)
    requires chosen < |versions|
    requires forall j :: 0 <= j < |versions| ==> key !in TableOf(load, versions[j])
    ensures GetProperty(Stacked(versions, chosen, load), key) == None
  {
    var layers := Stacked(versions, chosen, load).layers;
    StackedLayers(versions, chosen, load);
    forall k | 0 <= k < |layers|
      ensures key !in layers[k]
    {
      if k < |layers| - 1 {
        var j := if k < chosen then k else k + 1;
        assert LayerOf(j, chosen) == k;
      }
    }
  }

  // ---------------------------------------------------------------------------
  // The loaders handed to build

  /** The directory branch: each version opens its own file; null when the file cannot be opened. */
  function PerCandidate(read: string -> Option<Table>): ConfigVersion -> Option<Table> {
    (v: ConfigVersion) => if v.fileName.Some? then read(v.fileName.value) else None
  }

  /** The jar branch as written: whatever version build asks for, the chosen version's entry is opened. */
  function JarLoaderAsWritten(read: string -> Option<Table>, chosen: ConfigVersion): ConfigVersion -> Option<Table> {
    (v: ConfigVersion) => if chosen.fileName.Some? then read(chosen.fileName.value) else None
  }

  /** With the jar loader as written, every layer is the chosen file, so no other version is ever consulted. */
  lemma {:induction false} JarLoaderSeesOnlyChosen(versions: seq<ConfigVersion>, chosen: nat, read: string -> Option<Table>, key: string)
    requires chosen < |versions|
    ensures var load := JarLoaderAsWritten(read, versions[chosen]);
            GetProperty(Stacked(versions, chosen, load), key) == Lookup([TableOf(load, versions[chosen])], key)
  {
    var load := JarLoaderAsWritten(read, versions[chosen]);
    var top := TableOf(load, versions[chosen]);
    var layers := Stacked(versions, chosen, load).layers;
    assert forall k :: 0 <= k < |layers| ==> layers[k] == top by {
      AllLayersEqual(versions, chosen, read, |versions|);
    }
    if key in top {
      assert Lookup(layers, key) == Some(top[key]);
    } else {
      assert Lookup(layers, key).None?;
    }
  }

  lemma {:induction false} AllLayersEqual(versions: seq<ConfigVersion>, chosen: nat, read: string -> Option<Table>, n: nat)
    requires chosen < |versions| && n <= |versions|
    ensures var load := JarLoaderAsWritten(read, versions[chosen]);
            forall k :: 0 <= k < |DefaultLayers(versions, chosen, load, n)| ==>
              DefaultLayers(versions, chosen, load, n)[k] == TableOf(load, versions[chosen])
    decreases n
  {
    if n > 0 {
      AllLayersEqual(versions, chosen, read, n - 1);
    }
  }

  /**
   * Two bundles, v2.0 chosen, "desc" defined only in v1.0: the per-candidate
   * loader falls back to v1.0's value, the jar loader as written loses it.
   */
  lemma JarLoaderLosesDefaults()
    ensures var versions := [ConfigVersion(1, 0, Some("a-v1.0.properties")), ConfigVersion(2, 0, Some("a-v2.0.properties"))];
            var read := (name: string) => if name == "a-v1.0.properties" then Some(map["desc" := "old"]) else Some(map[]);
            && GetProperty(Stacked(versions, 1, PerCandidate(read)), "desc") == Some("old")
            && GetProperty(Stacked(versions, 1, JarLoaderAsWritten(read, versions[1])), "desc") == None
  {
    var versions := [ConfigVersion(1, 0, Some("a-v1.0.properties")), ConfigVersion(2, 0, Some("a-v2.0.properties"))];
    var read := (name: string) => if name == "a-v1.0.properties" then Some(map["desc" := "old"]) else Some(map[]);
    JarLoaderSeesOnlyChosen(versions, 1, read, "desc");
    assert TableOf(PerCandidate(read), versions[0]) == map["desc" := "old"];
    assert "desc" !in TableOf(PerCandidate(read), versions[1]);
    BuildFallsBack(versions, 1, PerCandidate(read), "desc", 0);
  }

  // ---------------------------------------------------------------------------
  // The candidate names, and buildVersionProperties

  /**
   * The name a jar entry or directory file contributes: its remainder after
   * configPath, when it lies under configPath and starts with configName.
   */
  function Relative(name: string, configPath: string, configName: string): Option<string> {
    if StartsWith(name, configPath) && StartsWith(name[|configPath|..], configName) then Some(name[|configPath|..])
    else None
  }

  /**
   * The key set of the map the names are put into, in the order the keys are
   * first met: every contributed name once.
   */
  function EntryNames(entries: seq<string>, configPath: string, configName: string): (keys: seq<string>)
    ensures forall k :: k in keys <==> exists e :: e in entries && Relative(e, configPath, configName) == Some(k)
    ensures forall i, j :: 0 <= i < j < |keys| ==> keys[i] != keys[j]
    decreases |entries|
  {
    if entries == [] then []
    else
      var before := entries[..|entries| - 1];
      var keys := EntryNames(before, configPath, configName);
      var last := Relative(entries[|entries| - 1], configPath, configName);
      assert forall e :: e in entries <==> e in before || e == entries[|entries| - 1];
      if last.Some? && last.value !in keys then keys + [last.value] else keys
  }

  /** The loops of chooseFromJarFile and chooseFromFile that fill the map of names. */
  method CollectNames(entries: seq<string>, configPath: string, configName: string) returns (keys: seq<string>)
    ensures keys == EntryNames(entries, configPath, configName)
  {
    keys := [];
    for i := 0 to |entries|
      invariant keys == EntryNames(entries[..i], configPath, configName)
    {
      assert entries[..i + 1][..i] == entries[..i];
      var name := Relative(entries[i], configPath, configName);
      if name.Some? && name.value !in keys {
        keys := keys + [name.value];
      }
    }
    assert entries[..|entries|] == entries;
  }

  /** Where getClass().getResource("") points. */
  datatype Location =
    | NoResource                               // the resource is null
    | Directory(files: Option<seq<string>>)    // a "file" URL not ending in .jar; the names listFiles returns, or null
    | Jar(entries: seq<string>)                // a "file" URL ending in .jar, or a "jar" URL; the entry names
    | OtherProtocol                            // any other protocol

  /** The candidate names a location offers. */
  function NamesAt(location: Location, configPath: string, configName: string): seq<string> {
    match location
    case NoResource => []
    case OtherProtocol => []
    case Directory(files) => if files.None? then [] else EntryNames(files.value, "", configName)
    case Jar(entries) => EntryNames(entries, configPath, configName)
  }

  /**
   * sortVersions, chooseVersion and build over the candidate names, with the
   * per-candidate loader.
   */
  function FromNames(configName: string, names: seq<string>, requested: Option<string>,
                     read: string -> Option<Table>): Result<Option<Properties>, Error> {
    match SortVersions(configName, Some(names))
    case None => Ok(None)
    case Some(vs) =>
      match Choice(vs, requested)
      case Err(e) => Err(e)
      case Ok(chosen) =>
        if chosen.None? then Ok(None) else Ok(Some(Stacked(vs, chosen.value, PerCandidate(read))))
  }

  /** buildVersionProperties, with the per-candidate loader in both branches. */
  function VersionProperties(requested: Option<string>, location: Location, configPath: string, configName: string,
                             read: string -> Option<Table>): Result<Option<Properties>, Error> {
    FromNames(configName, NamesAt(location, configPath, configName), requested, read)
  }

  /**
   * buildVersionProperties is null exactly when the location offers no
   * candidate bundle, fails only on a malformed request, and otherwise stacks
   * the chosen version over the others.
   */
  lemma VersionPropertiesOutcome(requested: Option<string>, location: Location, configPath: string, configName: string,
                                 read: string -> Option<Table>)
    ensures var r := VersionProperties(requested, location, configPath, configName, read);
            var candidates := Candidates(configName, NamesAt(location, configPath, configName));
            && (r == Ok(None) <==> candidates == [])
            && (r.Err? <==> candidates != [] && requested.Some? && requested.value != [] && Parse(requested.value, None).Err?)
  {
    var names := NamesAt(location, configPath, configName);
    if names != [] {
      var vs := SortVersions(configName, Some(names)).value;
      assert |vs| == |Candidates(configName, names)| by {
        assert |multiset(vs)| == |multiset(Candidates(configName, names))|;
      }
    }
  }

  /** The name collection, choice and build shared by chooseFromFile and chooseFromJarFile. */
  method ChooseFrom(entries: seq<string>, configPath: string, configName: string, requested: Option<string>,
                    read: string -> Option<Table>) returns (r: Result<Option<Properties>, Error>)
    ensures r == FromNames(configName, EntryNames(entries, configPath, configName), requested, read)
  {
    var names := CollectNames(entries, configPath, configName);
    var versions := SortVersions(configName, Some(names));
    if versions.None? {
      return Ok(None);
    }
    var vs := versions.value;
    var chosen := ChooseVersion(vs, requested);
    if chosen.Err? {
      assert FromNames(configName, names, requested, read) == Err(chosen.error);
      return Err(chosen.error);
    }
    var props := Build(vs, chosen.value, PerCandidate(read));
    assert FromNames(configName, names, requested, read) == Ok(props) by {
      if chosen.value.Some? {
        assert props == Some(Stacked(vs, chosen.value.value, PerCandidate(read)));
      }
    }
    return Ok(props);
  }

  /** buildVersionProperties: dispatch on where the class's package resource lives. */
  method BuildVersionProperties(requested: Option<string>, location: Location, configPath: string, configName: string,
                                read: string -> Option<Table>) returns (r: Result<Option<Properties>, Error>)
    ensures r == VersionProperties(requested, location, configPath, configName, read)
  {
    match location
    case NoResource =>
      return Ok(None);
    case OtherProtocol =>
      return Ok(None);
    case Jar(entries) =>
      r := ChooseFrom(entries, configPath, configName, requested, read);
    case Directory(files) =>
      if files.None? || files.value == [] {
        return Ok(None);
      }
      r := ChooseFrom(files.value, "", configName, requested, read);
  }

  // ---------------------------------------------------------------------------
  // The provider

  /**
   * A VersionConfig subclass: its configName, versionKey and configPath, and
   * the property set built on the first lookup (None while it is null).
   */
  class VersionConfig {
    const configName: string
    const versionKey: string
    const configPath: string
    var properties: Option<Properties>

    constructor (configName: string, versionKey: string, configPath: string)
      ensures this.configName == configName && this.versionKey == versionKey && this.configPath == configPath
      ensures properties == None
    {
      this.configName := configName;
      this.versionKey := versionKey;
      this.configPath := configPath;
      properties := None;
    }

    /** skipKey: the version key itself is never answered. */
    predicate SkipKey(key: string) {
      key == versionKey
    }

    /**
     * init(): the built property set, or an empty one when the build gives
     * null; an exception leaves properties null.
     */
    method Init(requested: Option<string>, location: Location, read: string -> Option<Table>) returns (failure: Option<Error>)
      modifies this
      ensures var built := VersionProperties(requested, location, configPath, configName, read);
              && (built.Err? ==> failure == Some(built.error) && properties == old(properties))
              && (built.Ok? ==> failure == None && properties == Some(built.value.GetOr(Empty)))
    {
      var built := BuildVersionProperties(requested, location, configPath, configName, read);
      if built.Err? {
        return Some(built.error);
      }
      properties := Some(built.value.GetOr(Empty));
      return None;
    }

    /**
     * getStr(key): null for the version key; otherwise the lookup in the
     * property set, which is built by the first call that needs it and kept.
     */
    method GetStr(key: string, requested: Option<string>, location: Location, read: string -> Option<Table>)
      returns (r: Result<Option<string>, Error>)
      modifies this
      ensures SkipKey(key) ==> r == Ok(None) && properties == old(properties)
      ensures !SkipKey(key) && old(properties).Some? ==>
                properties == old(properties) && r == Ok(GetProperty(properties.value, key))
      ensures !SkipKey(key) && old(properties).None? ==>
                var built := VersionProperties(requested, location, configPath, configName, read);
                && (built.Err? ==> r == Err(built.error) && properties == None)
                && (built.Ok? ==> properties == Some(built.value.GetOr(Empty)) && r == Ok(GetProperty(properties.value, key)))
    {
      if SkipKey(key) {
        return Ok(None);
      }
      if properties.None? {
        var failure := Init(requested, location, read);
        if failure.Some? {
          return Err(failure.value);
        }
      }
      return Ok(GetProperty(properties.value, key));
    }

    /** The provider the registry sees once the property set is built: order VERSION_ORDER, the version key hidden. */
    function AsProvider(): (p: Config.Provider)
      reads this
      requires properties.Some?
      ensures p.GetOrder() == Config.VERSION_ORDER
      ensures forall key :: p.GetStr(key) == if SkipKey(key) then None else GetProperty(properties.value, key)
    {
      var layers := properties.value.layers;
      Config.Provider(Some(Config.VERSION_ORDER),
                      map key | key in Keys(layers) && !SkipKey(key) :: Lookup(layers, key).value)
    }
  }

  /**
   * The first lookup fixes the property set: a second lookup answers from it
   * even when the request and the files have changed in between.
   */
  method LookupTwice(provider: VersionConfig, key: string, other: string,
                     requested: Option<string>, location: Location, read: string -> Option<Table>,
                     laterRequest: Option<string>, laterLocation: Location, laterRead: string -> Option<Table>)
    returns (first: Result<Option<string>, Error>, second: Result<Option<string>, Error>)
    requires provider.properties.None? && !provider.SkipKey(key) && !provider.SkipKey(other)
    requires VersionProperties(requested, location, provider.configPath, provider.configName, read).Ok?
    modifies provider
    ensures var built := VersionProperties(requested, location, provider.configPath, provider.configName, read).value.GetOr(Empty);
            first == Ok(GetProperty(built, key)) && second == Ok(GetProperty(built, other))
  {
    first := provider.GetStr(key, requested, location, read);
    second := provider.GetStr(other, laterRequest, laterLocation, laterRead);
  }
}
