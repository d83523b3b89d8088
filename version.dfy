/** The publisher's version bump (PublisherService.incrementVersion): a
    "major.minor.patch" string whose patch part rolls over into the minor
    part at 9, with "1.1.0" for anything that does not parse. */
module Version {

  import opened Wrappers
  import opened Jvm

  /** The three `int` parts the bump reads out of a version string. */
  datatype Semver = Semver(major: Int32, minor: Int32, patch: Int32)

  const FALLBACK: string := "1.1.0"

  /** `major + "." + minor + "." + patch` in Java. */
  function Render(v: Semver): string
  {
    IntToString(v.major) + "." + IntToString(v.minor) + "." + IntToString(v.patch)
  }

  /** Split on '.', then Integer.parseInt on the first three parts; fewer
      than three parts (an index out of bounds) or a part that is not an
      `int` makes the source fall into its catch block. Parts after the
      third are never read. */
  function Parse(s: string): (r: Option<Semver>)
    ensures '.' !in s ==> r.None?
    ensures r.Some? <==> |Split(s, '.')| >= 3 && ParseInt(Split(s, '.')[0]).Some?
                         && ParseInt(Split(s, '.')[1]).Some? && ParseInt(Split(s, '.')[2]).Some?
    ensures r.Some? ==> r.value == Semver(ParseInt(Split(s, '.')[0]).value, ParseInt(Split(s, '.')[1]).value,
                                          ParseInt(Split(s, '.')[2]).value)
  {
    var parts := Split(s, '.');
    if |parts| < 3 then None
    else
      match (ParseInt(parts[0]), ParseInt(parts[1]), ParseInt(parts[2]))
      case (Some(a), Some(b), Some(c)) => Some(Semver(a, b, c))
      case _ => None
  }

  /** The carry rule: a patch part of 9 or more resets to 0 and increments
      the minor part (`minor++` on an `int`, so it wraps at INT_MAX);
      otherwise the patch part is incremented. */
  function Bump(v: Semver): (w: Semver)
    ensures w.major == v.major
    ensures v.patch < 9 ==> w.minor == v.minor && w.patch == v.patch + 1
    ensures v.patch >= 9 ==> w.patch == 0 && (v.minor < INT_MAX ==> w.minor == v.minor + 1)
  {
    if v.patch >= 9 then Semver(v.major, ToInt32(v.minor + 1), 0)
    else Semver(v.major, v.minor, v.patch + 1)
  }

  /** incrementVersion. The result always parses again, and for a version
      that parses it is exactly the bumped version. */
  function IncrementVersion(current: string): (next: string)
    ensures Parse(next).Some?
    ensures Parse(current).None? ==> next == FALLBACK
    ensures Parse(current).Some? ==> Parse(next) == Some(Bump(Parse(current).value))
  {
    match Parse(current)
    case Some(v) =>
      var w := Bump(v);
      ParseRender(w);
      Render(w)
    case None =>
      ParseFallback();
      FALLBACK
  }

  lemma ParseFallback()
    ensures Parse(FALLBACK) == Some(Semver(1, 1, 0))
  {
    assert IntToString(1) == "1";
    assert Render(Semver(1, 1, 0)) == FALLBACK;
    ParseRender(Semver(1, 1, 0));
  }

  lemma PiecesOfRender(v: Semver, rest: string)
    ensures SplitAll(Render(v) + rest, '.')
         == [IntToString(v.major), IntToString(v.minor)] + SplitAll(IntToString(v.patch) + rest, '.')
  {
    var a, b, c := IntToString(v.major), IntToString(v.minor), IntToString(v.patch);
    assert Render(v) + rest == a + ['.'] + (b + ['.'] + (c + rest));
    SplitAllPiece(a, '.', b + ['.'] + (c + rest));
    SplitAllPiece(b, '.', c + rest);
  }

  /** Rendering a version and reading it back gives the same three parts. */
  lemma ParseRender(v: Semver)
    ensures Parse(Render(v)) == Some(v)
  {
    var a, b, c := IntToString(v.major), IntToString(v.minor), IntToString(v.patch);
    PiecesOfRender(v, "");
    assert Render(v) + "" == Render(v);
    assert c + "" == c;
    assert SplitAll(c, '.') == [c] by {
      assert Join(SplitAll(c, '.'), '.') == c;
      SplitOfSeparatorFree(c);
    }
    assert '.' in Render(v) by {
      assert Render(v)[|a|] == '.';
    }
    assert SplitAll(Render(v), '.') == [a, b, c];
    assert c != "";
    assert DropTrailingEmpty([a, b, c]) == [a, b, c];
    assert Split(Render(v), '.') == [a, b, c];
    ParseIntOfIntToString(v.major);
    ParseIntOfIntToString(v.minor);
    ParseIntOfIntToString(v.patch);
  }

  lemma {:induction false} SplitOfSeparatorFree(s: string)
    requires '.' !in s
    ensures SplitAll(s, '.') == [s]
  {
    if s != [] {
      SplitOfSeparatorFree(s[1..]);
      assert [s[0]] + s[1..] == s;
    }
  }

  /** Parts after the third one are ignored: whatever follows a rendered
      version after a further '.', the version read is the same. */
  lemma ParseIgnoresExtraParts(v: Semver, rest: string)
    ensures Parse(Render(v) + "." + rest) == Some(v)
  {
    var a, b, c := IntToString(v.major), IntToString(v.minor), IntToString(v.patch);
    var s := Render(v) + "." + rest;
    assert s == Render(v) + ("." + rest);
    PiecesOfRender(v, "." + rest);
    assert c + ("." + rest) == c + ['.'] + rest;
    SplitAllPiece(c, '.', rest);
    var all := SplitAll(s, '.');
    assert all == [a, b, c] + SplitAll(rest, '.');
    assert '.' in s by {
      assert s[|a|] == '.';
    }
    DropTrailingEmptyKeepsPrefix([a, b, c], SplitAll(rest, '.'));
    var parts := Split(s, '.');
    assert parts[0] == a && parts[1] == b && parts[2] == c;
    ParseIntOfIntToString(v.major);
    ParseIntOfIntToString(v.minor);
    ParseIntOfIntToString(v.patch);
  }

  /** A version that parses is incremented to its rendered bump. */
  lemma IncrementParsed(s: string, v: Semver)
    requires Parse(s) == Some(v)
    ensures IncrementVersion(s) == Render(Bump(v))
  {
  }

  /** "M.m.p" with p < 9 becomes "M.m.(p+1)". */
  lemma IncrementPatch(major: Int32, minor: Int32, patch: Int32)
    requires patch < 9
    ensures IncrementVersion(Render(Semver(major, minor, patch)))
         == Render(Semver(major, minor, patch + 1))
  {
    var v := Semver(major, minor, patch);
    ParseRender(v);
    IncrementParsed(Render(v), v);
    assert Bump(v) == Semver(major, minor, patch + 1);
  }

  /** "M.m.p" with p >= 9 becomes "M.(m+1).0"; the major part is kept (and
      the minor part wraps to INT_MIN at INT_MAX, as `minor++` does). */
  lemma IncrementRollsOver(major: Int32, minor: Int32, patch: Int32)
    requires patch >= 9
    ensures IncrementVersion(Render(Semver(major, minor, patch)))
         == Render(Semver(major, ToInt32(minor + 1), 0))
  {
    var v := Semver(major, minor, patch);
    ParseRender(v);
    IncrementParsed(Render(v), v);
    BumpRollsOver(v);
  }

  lemma BumpRollsOver(v: Semver)
    requires v.patch >= 9
    ensures Bump(v) == Semver(v.major, ToInt32(v.minor + 1), 0)
  {
  }

  /** Extra parts do not change the bump. */
  lemma IncrementIgnoresExtraParts(v: Semver, rest: string)
    ensures IncrementVersion(Render(v) + "." + rest) == Render(Bump(v))
  {
    ParseIgnoresExtraParts(v, rest);
  }

  /** Fewer than three dot-separated parts give the fallback version. */
  lemma IncrementTooFewParts(current: string)
    requires |Split(current, '.')| < 3
    ensures IncrementVersion(current) == FALLBACK
  {
  }

  /** A non-integer part among the first three gives the fallback version. */
  lemma IncrementNonIntegerPart(current: string, i: nat)
    requires i < 3 && i < |Split(current, '.')|
    requires ParseInt(Split(current, '.')[i]).None?
    ensures IncrementVersion(current) == FALLBACK
  {
    var parts := Split(current, '.');
    assert ParseInt(parts[0]).None? || ParseInt(parts[1]).None? || ParseInt(parts[2]).None?;
    IncrementUnparsed(current);
  }

  /** A version that does not parse is incremented to the fallback. */
  lemma IncrementUnparsed(current: string)
    requires Parse(current).None?
    ensures IncrementVersion(current) == FALLBACK
  {
  }
}
