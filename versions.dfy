/** `Version`, its derived order (src/lib.rs:79-85) and `parse_version` (src/lib.rs:144-172). */
module Versions {
  import opened Wrappers
  import opened Ascii
  import Dates

  /** A version triple; each component is a `u32` in the source. */
  datatype Version = Version(major: nat, minor: nat, editorial: nat)

  datatype Ordering = Less | Equal | Greater

  function CompareNat(a: nat, b: nat): Ordering
  {
    if a < b then Less else if a == b then Equal else Greater
  }

  /** `#[derive(Ord)]` on `Version`: the fields compared in declaration order. */
  function Compare(a: Version, b: Version): Ordering
  {
    match CompareNat(a.major, b.major)
    case Equal =>
      (match CompareNat(a.minor, b.minor)
       case Equal => CompareNat(a.editorial, b.editorial)
       case other => other)
    case other => other
  }

  predicate Below(a: Version, b: Version)
  {
    Compare(a, b) == Less
  }

  /** `Compare` is `Equal` exactly on equal versions, and swapping the operands flips it. */
  lemma CompareIsAntisymmetric(a: Version, b: Version)
    ensures Compare(a, b) == Equal <==> a == b
    ensures Compare(a, b) == Less <==> Compare(b, a) == Greater
  {
  }

  lemma BelowIsTransitive(a: Version, b: Version, c: Version)
    requires Below(a, b) && Below(b, c)
    ensures Below(a, c)
  {
  }

  /** The versions with components below `base`, numbered as three-digit numbers in base `base`. */
  function Key(v: Version, base: nat): nat
  {
    (v.major * base + v.minor) * base + v.editorial
  }

  predicate ComponentsBelow(v: Version, base: nat)
  {
    v.major < base && v.minor < base && v.editorial < base
  }

  /** A two-digit number in base `m` with the lower high digit is the smaller. */
  lemma LowerHighDigitIsSmaller(x1: nat, r1: nat, x2: nat, r2: nat, m: nat)
    requires x1 < x2 && r1 < m
    ensures x1 * m + r1 < x2 * m + r2
  {
    var gap: nat := x2 - x1 - 1;
    assert x2 * m == x1 * m + gap * m + m;
    assert gap * m >= 0;
  }

  /** Two-digit numbers in base `m` compare by their high digit first. */
  lemma HighDigitFirst(x1: nat, r1: nat, x2: nat, r2: nat, m: nat)
    requires r1 < m && r2 < m
    ensures x1 * m + r1 < x2 * m + r2 <==> x1 < x2 || (x1 == x2 && r1 < r2)
  {
    if x1 < x2 {
      LowerHighDigitIsSmaller(x1, r1, x2, r2, m);
    } else if x2 < x1 {
      LowerHighDigitIsSmaller(x2, r2, x1, r1, m);
    }
  }

  /**
   * The derived lexicographic order is the numeric order of the versions'
   * positions in base `base`, for versions whose components are below it.
   */
  lemma {:induction false} BelowIsKeyOrder(a: Version, b: Version, base: nat)
    requires ComponentsBelow(a, base) && ComponentsBelow(b, base)
    ensures Below(a, b) <==> Key(a, base) < Key(b, base)
  {
    var highA, highB := a.major * base + a.minor, b.major * base + b.minor;
    assert highA < highB <==> a.major < b.major || (a.major == b.major && a.minor < b.minor) by {
      HighDigitFirst(a.major, a.minor, b.major, b.minor, base);
    }
    assert highB < highA <==> b.major < a.major || (b.major == a.major && b.minor < a.minor) by {
      HighDigitFirst(b.major, b.minor, a.major, a.minor, base);
    }
    assert Key(a, base) < Key(b, base) <==> highA < highB || (highA == highB && a.editorial < b.editorial) by {
      HighDigitFirst(highA, a.editorial, highB, b.editorial, base);
    }
  }

  /** `split(sep).last()`: what follows the last `sep` in `s`, or all of `s` when there is none. */
  function LastSegment(s: string, sep: char): (r: string)
    ensures |r| <= |s|
  {
    if s == [] || s[|s| - 1] == sep then [] else LastSegment(s[..|s| - 1], sep) + [s[|s| - 1]]
  }

  /**
   * The last segment is a suffix free of `sep`, and it is all of `s` unless
   * a `sep` sits right before it.
   */
  lemma {:induction false} LastSegmentShape(s: string, sep: char)
    ensures var r := LastSegment(s, sep);
            && r == s[|s| - |r|..]
            && sep !in r
            && (|r| < |s| ==> s[|s| - |r| - 1] == sep)
  {
    if s != [] && s[|s| - 1] != sep {
      var init := s[..|s| - 1];
      LastSegmentShape(init, sep);
      var r0 := LastSegment(init, sep);
      assert LastSegment(s, sep) == r0 + [s[|s| - 1]];
      assert init[|init| - |r0|..] + [s[|s| - 1]] == s[|s| - |r0| - 1..];
    }
  }

  /** What follows a separator that `t` does not contain is exactly `t`. */
  lemma LastSegmentAfterSeparator(s: string, sep: char, t: string)
    requires sep !in t
    ensures LastSegment(s + [sep] + t, sep) == t
  {
    var w := s + [sep] + t;
    var r := LastSegment(w, sep);
    LastSegmentShape(w, sep);
    assert w[|w| - |t|..] == t;
    assert w[|s|] == sep;
    assert |r| == |t|;
  }

  /**
   * `Path::file_name` on a Unix path: the last component, where empty and
   * "." components do not count, and none when that component is "..".
   */
  function FileName(path: string): Option<string>
    decreases |path|
  {
    var last := LastSegment(path, '/');
    if last == "" || last == "." then
      if |last| == |path| then None else FileName(path[..|path| - |last| - 1])
    else if last == ".." then None
    else Some(last)
  }

  /**
   * `Path::file_stem` applied to a file name: the name without what
   * follows its last '.', unless there is no dot or the only text before
   * it is empty (a name such as ".zip").
   */
  function Stem(name: string): string
  {
    var extension := LastSegment(name, '.');
    if |extension| == |name| then name
    else
      var before := name[..|name| - |extension| - 1];
      if before == "" then name else before
  }

  /** `trim_end_matches(".zip")`: every trailing ".zip" removed, repeatedly. */
  function TrimZip(s: string): (r: string)
    ensures |r| <= |s| && r == s[..|r|]
    ensures !(|r| >= 4 && r[|r| - 4..] == ".zip")
    decreases |s|
  {
    if |s| >= 4 && s[|s| - 4..] == ".zip" then TrimZip(s[..|s| - 4]) else s
  }

  /** `t` is nothing but copies of ".zip". */
  predicate ZipRun(t: string)
    decreases |t|
  {
    t == [] || (|t| >= 4 && t[|t| - 4..] == ".zip" && ZipRun(t[..|t| - 4]))
  }

  /** What `TrimZip` removes is nothing but whole copies of ".zip". */
  lemma {:induction false} TrimZipRemovesZipRun(s: string)
    ensures ZipRun(s[|TrimZip(s)|..])
    decreases |s|
  {
    if |s| >= 4 && s[|s| - 4..] == ".zip" {
      var init := s[..|s| - 4];
      TrimZipRemovesZipRun(init);
      var k := |TrimZip(init)|;
      var t := s[k..];
      assert t[|t| - 4..] == ".zip";
      assert t[..|t| - 4] == init[k..];
    } else {
      assert s[|s|..] == [];
    }
  }

  /** The version token of a file name: the stem's last '-' segment, less trailing ".zip"s. */
  function VersionToken(filename: string): Option<string>
  {
    match FileName(filename)
    case None => None
    case Some(name) => Some(TrimZip(LastSegment(Stem(name), '-')))
  }

  /** The closure `to_digit` of `parse_version`: a base-36 digit, either case. */
  function Base36Digit(c: char): (r: Option<nat>)
    ensures r.Some? <==> IsAlnum(c)
  {
    if '0' <= c <= '9' then Some(c as int - '0' as int)
    else if 'a' <= c <= 'z' then Some(c as int - 'a' as int + 10)
    else if 'A' <= c <= 'Z' then Some(c as int - 'A' as int + 10)
    else None
  }

  /** The lower-case base-36 digit for a value below 36. */
  function Base36Char(v: nat): (c: char)
    requires v < 36
    ensures IsAlnum(c) && !IsUpper(c)
  {
    if v < 10 then ('0' as int + v) as char else ('a' as int + v - 10) as char
  }

  /** `Base36Digit` reads each alphanumeric character as its lower-case digit, and inverts `Base36Char`. */
  lemma Base36DigitIsCaseInsensitive(c: char, v: nat)
    requires v < 36
    ensures Base36Digit(Base36Char(v)) == Some(v)
    ensures IsAlnum(c) ==> Base36Digit(c).value < 36 && Base36Char(Base36Digit(c).value) == ToLower(c)
  {
  }

  /** A two-character group that `u32::from_str` accepts: two digits, or '+' and one digit. */
  predicate Group(g: string)
  {
    |g| == 2 && (AllDigits(g) || (g[0] == '+' && IsDigit(g[1])))
  }

  /** The value `u32::from_str` reads from an accepted group, its sign dropped. */
  function GroupValue(g: string): (v: nat)
    requires Group(g)
    ensures v < 100
    ensures AllDigits(g) ==> v == Decimal(g)
  {
    if g[0] == '+' then DigitValue(g[1]) else Decimal(g)
  }

  /** `u32::from_str` on a two-character group succeeds exactly on `Group`, with `GroupValue`. */
  lemma ParseGroup(g: string)
    requires |g| == 2
    ensures ParseUnsigned(g, Dates.U32_LIMIT) == if Group(g) then Some(GroupValue(g)) else None
  {
    assert Pow10(2) == 100;
    if g[0] == '+' {
      assert g[1..] == [g[1]] && [g[1]][..0] == [];
    }
  }

  /**
   * The `match ver_str.len()` of `parse_version`: three characters are
   * three base-36 digits, six are three two-character `u32` groups, and
   * every other length is no version.
   */
  function DecodeToken(token: string): (r: Option<Version>)
    ensures r.Some? ==> |token| == 3 || |token| == 6
    ensures |token| == 3 ==> (r.Some? <==> AllAlnum(token))
    ensures |token| == 3 && r.Some? ==>
              && ComponentsBelow(r.value, 36)
              && Base36Char(r.value.major) == ToLower(token[0])
              && Base36Char(r.value.minor) == ToLower(token[1])
              && Base36Char(r.value.editorial) == ToLower(token[2])
    ensures |token| == 6 ==> (r.Some? <==> Group(token[0..2]) && Group(token[2..4]) && Group(token[4..6]))
    ensures |token| == 6 && r.Some? ==>
              && r.value == Version(GroupValue(token[0..2]), GroupValue(token[2..4]), GroupValue(token[4..6]))
              && ComponentsBelow(r.value, 100)
    ensures |token| == 6 && AllDigits(token) ==>
              r == Some(Version(Decimal(token[0..2]), Decimal(token[2..4]), Decimal(token[4..6])))
  {
    if |token| == 3 then
      match (Base36Digit(token[0]), Base36Digit(token[1]), Base36Digit(token[2]))
      case (Some(major), Some(minor), Some(editorial)) =>
        Base36DigitIsCaseInsensitive(token[0], 0);
        Base36DigitIsCaseInsensitive(token[1], 0);
        Base36DigitIsCaseInsensitive(token[2], 0);
        Some(Version(major, minor, editorial))
      case _ => None
    else if |token| == 6 then
      ParseGroup(token[0..2]);
      ParseGroup(token[2..4]);
      ParseGroup(token[4..6]);
      match (ParseUnsigned(token[0..2], Dates.U32_LIMIT),
             ParseUnsigned(token[2..4], Dates.U32_LIMIT),
             ParseUnsigned(token[4..6], Dates.U32_LIMIT))
      case (Some(major), Some(minor), Some(editorial)) => Some(Version(major, minor, editorial))
      case _ => None
    else None
  }

  /**
   * `parse_version`: the version encoded in a file name, if any. Whatever
   * the name, every component of a version read from it is below 100.
   */
  function ParseVersion(filename: string): (r: Option<Version>)
    ensures r.Some? ==> ComponentsBelow(r.value, 100)
  {
    match VersionToken(filename)
    case None => None
    case Some(token) => DecodeToken(token)
  }

  /**
   * A token holding a character outside ASCII is no version. `parse_version`
   * agrees although it measures the token in bytes: such a character is
   * never a base-36 digit, a decimal digit or '+'.
   */
  lemma NonAsciiTokenIsNoVersion(token: string, i: nat)
    requires i < |token| && !IsAsciiChar(token[i])
    ensures DecodeToken(token) == None
  {
    if |token| == 6 {
      var g := i / 2 * 2;
      assert token[g..g + 2][i - g] == token[i];
    }
  }

  /** A name without '/' that is longer than ".." is its own file name. */
  lemma FileNameOfPlainName(name: string)
    requires '/' !in name && |name| > 2
    ensures FileName(name) == Some(name)
  {
    LastSegmentShape(name, '/');
    assert LastSegment(name, '/') == name;
  }

  /** An archive file name: a prefix, '-', a version token and ".zip" (such as "23501-h10.zip"). */
  function ArchiveName(prefix: string, token: string): string
  {
    prefix + "-" + token + ".zip"
  }

  /** The token of an archive name is recovered intact, whatever '.' and '-' the prefix holds. */
  lemma {:induction false} ArchiveNameToken(prefix: string, token: string)
    requires '/' !in prefix
    requires |token| > 0 && '/' !in token && '-' !in token && '.' !in token
    ensures VersionToken(ArchiveName(prefix, token)) == Some(token)
  {
    var name := ArchiveName(prefix, token);
    var stem := prefix + "-" + token;
    assert name == stem + ['.'] + "zip";
    assert '/' !in name;
    FileNameOfPlainName(name);
    LastSegmentAfterSeparator(stem, '.', "zip");
    assert Stem(name) == stem;
    LastSegmentAfterSeparator(prefix, '-', token);
    assert |token| >= 4 ==> token[|token| - 4] != '.';
    assert TrimZip(token) == token;
  }

  /** The three-character token of a version whose components are base-36 digits. */
  function CompactToken(v: Version): string
    requires ComponentsBelow(v, 36)
  {
    [Base36Char(v.major), Base36Char(v.minor), Base36Char(v.editorial)]
  }

  /** The six-character token of a version whose components are below 100. */
  function PaddedToken(v: Version): string
    requires ComponentsBelow(v, 100)
  {
    Pad(v.major, 2) + Pad(v.minor, 2) + Pad(v.editorial, 2)
  }

  /** Every version with base-36 components is read back from its compact archive name. */
  lemma CompactRoundTrip(prefix: string, v: Version)
    requires '/' !in prefix && ComponentsBelow(v, 36)
    ensures ParseVersion(ArchiveName(prefix, CompactToken(v))) == Some(v)
  {
    var token := CompactToken(v);
    var name := ArchiveName(prefix, token);
    ArchiveNameToken(prefix, token);
    Base36DigitIsCaseInsensitive(token[0], v.major);
    Base36DigitIsCaseInsensitive(token[1], v.minor);
    Base36DigitIsCaseInsensitive(token[2], v.editorial);
    assert DecodeToken(token) == Some(v);
  }

  /** Every version with components below 100 is read back from its six-digit archive name. */
  lemma PaddedRoundTrip(prefix: string, v: Version)
    requires '/' !in prefix && ComponentsBelow(v, 100)
    ensures ParseVersion(ArchiveName(prefix, PaddedToken(v))) == Some(v)
  {
    var token := PaddedToken(v);
    assert AllDigits(token);
    assert token[0..2] == Pad(v.major, 2) && token[2..4] == Pad(v.minor, 2) && token[4..6] == Pad(v.editorial, 2);
    ArchiveNameToken(prefix, token);
  }

  /** Tokens of a length other than three or six are no version. */
  lemma OtherLengthsAreNoVersion(prefix: string, token: string)
    requires '/' !in prefix && AllAlnum(token)
    requires |token| > 0 && |token| != 3 && |token| != 6
    ensures ParseVersion(ArchiveName(prefix, token)) == None
  {
    ArchiveNameToken(prefix, token);
  }

  /** `trim_end_matches` removes every trailing ".zip", so a doubled suffix leaves the same token. */
  lemma {:induction false} RepeatedZipSuffix(prefix: string, token: string)
    requires '/' !in prefix
    requires |token| > 0 && '/' !in token && '-' !in token && '.' !in token
    ensures VersionToken(ArchiveName(prefix, token) + ".zip") == Some(token)
  {
    var name := ArchiveName(prefix, token) + ".zip";
    var stem := prefix + "-" + token + ".zip";
    var zipped := token + ".zip";
    assert FileName(name) == Some(name) by {
      assert '/' !in name;
      FileNameOfPlainName(name);
    }
    assert Stem(name) == stem by {
      assert name == stem + ['.'] + "zip";
      LastSegmentAfterSeparator(stem, '.', "zip");
    }
    assert LastSegment(stem, '-') == zipped by {
      assert stem == prefix + ['-'] + zipped;
      LastSegmentAfterSeparator(prefix, '-', zipped);
    }
    assert TrimZip(zipped) == token by {
      assert zipped[|zipped| - 4..] == ".zip" && zipped[..|zipped| - 4] == token;
      assert |token| >= 4 ==> token[|token| - 4] != '.';
    }
  }

  /** A compact token is read the same in upper and lower case. */
  lemma CompactTokenIgnoresCase(token: string)
    requires |token| == 3
    ensures DecodeToken(token) == DecodeToken(Lower(token))
  {
    var lower := Lower(token);
    forall i | 0 <= i < 3
      ensures Base36Digit(token[i]) == Base36Digit(lower[i])
    {
    }
  }

  /** Each six-character group may carry a '+' sign, as `u32::from_str` allows. */
  lemma SignedGroups(a: char, b: char, c: char)
    requires IsDigit(a) && IsDigit(b) && IsDigit(c)
    ensures DecodeToken(['+', a, '+', b, '+', c]) == Some(Version(DigitValue(a), DigitValue(b), DigitValue(c)))
  {
    var token := ['+', a, '+', b, '+', c];
    assert token[0..2][1..] == [a] && token[2..4][1..] == [b] && token[4..6][1..] == [c];
    assert [a][..0] == [] && [b][..0] == [] && [c][..0] == [];
  }

  /** Tokens of both eras: "h10" is 17.1.0 and "050100" is 5.1.0. */
  lemma DecodeTokenExamples()
    ensures DecodeToken("h10") == Some(Version(17, 1, 0))
    ensures DecodeToken("H10") == Some(Version(17, 1, 0))
    ensures DecodeToken("050100") == Some(Version(5, 1, 0))
    ensures DecodeToken("h1") == None && DecodeToken("h100") == None
  {
    var t := "050100";
    assert t[0..2] == "05" && t[2..4] == "01" && t[4..6] == "00";
    assert "05"[..1] == "0" && "01"[..1] == "0" && "00"[..1] == "0" && "0"[..0] == "";
  }
}
