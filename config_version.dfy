/**
 * VersionConfig.ConfigVersion: a (major, minor) version token read from text
 * such as "v1.5", ordered by major and then minor.
 */
module ConfigVersion {
  import opened Wrappers
  import opened JavaLang
  import StableSort

  /** x is the major part, y the minor part; fileName is null for a requested version. */
  datatype ConfigVersion = ConfigVersion(x: int, y: int, fileName: Option<string>)

  /**
   * new ConfigVersion(version, fileName): drops one leading 'v', splits on '.',
   * and parses the first two pieces with Integer.parseInt; any later piece is
   * ignored. A missing piece is an index out of bounds, a bad one a number
   * format error, whichever Java reaches first.
   */
  function Parse(version: string, fileName: Option<string>): (r: Result<ConfigVersion, Error>)
    ensures var pieces := Split(if StartsWith(version, "v") then version[1..] else version, '.');
            r.Ok? <==> |pieces| >= 2 && ParseInt(pieces[0]).Ok? && ParseInt(pieces[1]).Ok?
    ensures var pieces := Split(if StartsWith(version, "v") then version[1..] else version, '.');
            r.Ok? ==> r.value == ConfigVersion(ParseInt(pieces[0]).value, ParseInt(pieces[1]).value, fileName)
  {
    var text := if StartsWith(version, "v") then version[1..] else version;
    var strings := Split(text, '.');
    if |strings| < 1 then Err(IndexOutOfBounds(0))
    else
      match ParseInt(strings[0])
      case Err(e) => Err(e)
      case Ok(x) =>
        if |strings| < 2 then Err(IndexOutOfBounds(1))
        else
          match ParseInt(strings[1])
          case Err(e) => Err(e)
          case Ok(y) => Ok(ConfigVersion(x, y, fileName))
  }

  /** The canonical text of a version: "v<x>.<y>". */
  function Format(x: int, y: int): string {
    "v" + IntToString(x) + "." + IntToString(y)
  }

  lemma NoDotInInt(n: int)
    ensures '.' !in IntToString(n)
  {
    var s := IntToString(n);
    forall i | 0 <= i < |s| ensures s[i] != '.' {
      if n < 0 && i > 0 {
        assert s[i] == s[1..][i - 1];
      }
    }
  }

  /** Splitting "<a>.<b>" followed by nothing or by further segments gives a and b first. */
  lemma SplitPieces(a: string, b: string, tail: string)
    requires '.' !in a && '.' !in b && b != []
    requires tail == [] || tail[0] == '.'
    ensures |Split(a + "." + b + tail, '.')| >= 2
    ensures Split(a + "." + b + tail, '.')[..2] == [a, b]
  {
    var text := a + "." + b + tail;
    assert text == a + ['.'] + (b + tail);
    assert text[|a|] == '.';
    SplitAllPiece(a, b + tail, '.');
    var pieces: seq<string>;
    if tail == [] {
      assert b + tail == b;
      SplitAllNoSeparator(b, '.');
      pieces := [];
    } else {
      assert b + tail == b + ['.'] + tail[1..];
      SplitAllPiece(b, tail[1..], '.');
      pieces := SplitAll(tail[1..], '.');
    }
    assert SplitAll(text, '.') == [a, b] + pieces;
    DropTrailingEmptyAppend([a, b], pieces);
  }

  /** Two integer pieces, without a leading 'v', parse to their values; later segments are ignored. */
  lemma ParsePieces(a: string, b: string, tail: string, fileName: Option<string>)
    requires '.' !in a && '.' !in b && ParseInt(a).Ok? && ParseInt(b).Ok?
    requires a[0] != 'v'
    requires tail == [] || tail[0] == '.'
    ensures Parse(a + "." + b + tail, fileName) == Ok(ConfigVersion(ParseInt(a).value, ParseInt(b).value, fileName))
  {
    var text := a + "." + b + tail;
    assert text[0] == a[0];
    SplitPieces(a, b, tail);
    var strings := Split(text, '.');
    assert strings[0] == strings[..2][0] == a;
    assert strings[1] == strings[..2][1] == b;
  }

  /** Numerals without the 'v', followed by nothing or by further segments. */
  lemma ParseNumerals(x: int, y: int, tail: string, fileName: Option<string>)
    requires tail == [] || tail[0] == '.'
    ensures Parse(IntToString(x) + "." + IntToString(y) + tail, fileName) == Ok(ConfigVersion(x, y, fileName))
  {
    var sx, sy := IntToString(x), IntToString(y);
    if x >= 0 { assert IsDigit(sx[0]); } else { assert sx[0] == '-'; }
    NoDotInInt(x);
    NoDotInInt(y);
    ParseIntToString(x);
    ParseIntToString(y);
    ParsePieces(sx, sy, tail, fileName);
  }

  /** One leading 'v' is dropped before the text is split. */
  lemma ParseDropsV(version: string, fileName: Option<string>)
    requires StartsWith(version, "v") && !StartsWith(version[1..], "v")
    ensures Parse(version, fileName) == Parse(version[1..], fileName)
  {
  }

  /** Only one 'v' is dropped: a second one is left at the head of the major piece, which parseInt refuses. */
  lemma ParseRejectsSecondV(version: string, fileName: Option<string>)
    requires StartsWith(version, "v") && StartsWith(version[1..], "v")
    ensures Parse(version, fileName).Err?
  {
    var text := version[1..];
    assert text[0] == 'v';
    var strings := Split(text, '.');
    if '.' in text {
      var all := SplitAll(text, '.');
      assert text == [text[0]] + text[1..];
      assert all[0] == [text[0]] + SplitAll(text[1..], '.')[0];
      if strings != [] {
        assert strings[0] == all[0];
        assert !IsDigit(strings[0][0]);
      }
    } else {
      assert !IsDigit(strings[0][0]);
    }
  }

  lemma ParseDoubleV(fileName: Option<string>)
    ensures Parse("vv1.0", fileName).Err?
  {
    ParseRejectsSecondV("vv1.0", fileName);
  }

  /** The same numerals behind one 'v'. */
  lemma ParseNumeralsWithV(x: int, y: int, tail: string, fileName: Option<string>)
    requires tail == [] || tail[0] == '.'
    ensures Parse(Format(x, y) + tail, fileName) == Ok(ConfigVersion(x, y, fileName))
  {
    var sx, sy := IntToString(x), IntToString(y);
    var version := Format(x, y) + tail;
    assert version[1..] == sx + "." + sy + tail;
    assert version[1..][0] == sx[0];
    if x >= 0 { assert IsDigit(sx[0]); } else { assert sx[0] == '-'; }
    ParseDropsV(version, fileName);
    ParseNumerals(x, y, tail, fileName);
  }

  lemma ParseFormatWithoutV(x: int, y: int, fileName: Option<string>)
    ensures Parse(Format(x, y)[1..], fileName) == Ok(ConfigVersion(x, y, fileName))
  {
    assert Format(x, y)[1..] == IntToString(x) + "." + IntToString(y) + [];
    ParseNumerals(x, y, [], fileName);
  }

  /**
   * Parsing the canonical text gives back the pair, with or without the 'v',
   * and with any further ".<piece>" segments ignored.
   */
  lemma ParseFormat(x: int, y: int, extra: string, fileName: Option<string>)
    ensures Parse(Format(x, y), fileName) == Ok(ConfigVersion(x, y, fileName))
    ensures Parse(Format(x, y)[1..], fileName) == Ok(ConfigVersion(x, y, fileName))
    ensures Parse(Format(x, y) + "." + extra, fileName) == Ok(ConfigVersion(x, y, fileName))
  {
    ParseNumeralsWithV(x, y, [], fileName);
    assert Format(x, y) + [] == Format(x, y);
    ParseFormatWithoutV(x, y, fileName);
    ParseNumeralsWithV(x, y, "." + extra, fileName);
    assert Format(x, y) + "." + extra == Format(x, y) + ("." + extra);
  }

  /**
   * The text a file-name match captures, "v<digits>.<digits>", parses to the
   * values of the two digit runs.
   */
  lemma ParseDigitRuns(major: string, minor: string, fileName: Option<string>)
    requires major != [] && minor != [] && AllDigits(major) && AllDigits(minor)
    ensures Parse("v" + major + "." + minor, fileName) == Ok(ConfigVersion(DigitsValue(major), DigitsValue(minor), fileName))
  {
    var text := "v" + major + "." + minor;
    assert '.' !in major by {
      forall i | 0 <= i < |major| ensures major[i] != '.' { assert IsDigit(major[i]); }
    }
    assert '.' !in minor by {
      forall i | 0 <= i < |minor| ensures minor[i] != '.' { assert IsDigit(minor[i]); }
    }
    assert IsDigit(major[0]);
    assert text[1..] == major + "." + minor + [];
    assert text[1..][0] == major[0];
    ParseDropsV(text, fileName);
    ParsePieces(major, minor, [], fileName);
  }

  /** A request with one segment has no minor part: the second piece is out of bounds. */
  lemma ParseOneSegment(fileName: Option<string>)
    ensures Parse("v1", fileName) == Err(IndexOutOfBounds(1))
  {
    assert "v1"[1..] == "1";
    assert Split("1", '.') == ["1"];
  }

  /** Empty text is one empty piece, which Integer.parseInt refuses. */
  lemma ParseEmpty(fileName: Option<string>)
    ensures Parse("", fileName) == Err(NumberFormat(""))
  {
    assert Split("", '.') == [""];
  }

  /** A major part that is not a number is refused with that piece. */
  lemma ParseBadMajor(fileName: Option<string>)
    ensures Parse("va.1", fileName) == Err(NumberFormat("a"))
  {
    assert "va.1"[1..] == "a" + ['.'] + "1";
    SplitAllPiece("a", "1", '.');
    SplitAllNoSeparator("1", '.');
    DropTrailingEmptyAppend(["a", "1"], []);
    assert ["a", "1"] + [] == ["a", "1"];
  }

  // ---------------------------------------------------------------------------
  // compareTo

  /** compareTo: by major first, by minor only when the majors are equal. */
  function CompareTo(a: ConfigVersion, b: ConfigVersion): int {
    if a.x == b.x then a.y - b.y else a.x - b.x
  }

  /** a is not above b. */
  predicate AtMost(a: ConfigVersion, b: ConfigVersion) {
    CompareTo(a, b) <= 0
  }

  /** compareTo is the lexicographic order on (major, minor); the file name plays no part. */
  lemma CompareToIsLexicographic(a: ConfigVersion, b: ConfigVersion)
    ensures CompareTo(a, b) == 0 <==> a.x == b.x && a.y == b.y
    ensures CompareTo(a, b) < 0 <==> a.x < b.x || (a.x == b.x && a.y < b.y)
    ensures CompareTo(a, b) > 0 <==> CompareTo(b, a) < 0
  {
  }

  lemma AtMostIsTotalPreorder()
    ensures StableSort.TotalPreorder(AtMost)
  {
  }
}
