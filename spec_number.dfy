/** The spec-number grammar of src/lib.rs:29-52 and its `Display` form (src/lib.rs:15-19). */
module SpecNumbers {
  import opened Wrappers
  import opened Errors
  import opened Ascii

  /** A spec number split into its series and the number within it (src/lib.rs:10-13). */
  datatype SpecNumber = SpecNumber(series: string, number: string)

  /** What holds of every value the parser returns: two digits, then a non-empty alphanumeric tail. */
  predicate WellFormed(sn: SpecNumber)
  {
    && |sn.series| == 2 && AllDigits(sn.series)
    && |sn.number| > 0 && AllAlnum(sn.number)
  }

  /** The regular expression `^\d{2}\.?[A-Za-z0-9]+$` (src/lib.rs:33), as character classes. */
  predicate MatchesSpecNumber(s: string)
  {
    && |s| >= 3 && IsDigit(s[0]) && IsDigit(s[1])
    && ((s[2] == '.' && |s| >= 4 && AllAlnum(s[3..])) || AllAlnum(s[2..]))
  }

  /** `impl Display for SpecNumber`: the series, a dot, the number. */
  function Display(sn: SpecNumber): string
  {
    sn.series + "." + sn.number
  }

  /**
   * `parse_spec_number`: the input must match the grammar; the first two
   * characters are the series, the rest (less one leading '.') the number.
   */
  function ParseSpecNumber(s: string): (r: Result<SpecNumber, Error>)
    requires IsAscii(s)
    ensures r.Ok? ==> WellFormed(r.value)
    ensures r.Ok? ==> s == r.value.series + r.value.number || s == Display(r.value)
    ensures r.Err? ==> r.error == InvalidSpecNumber(s)
  {
    if !MatchesSpecNumber(s) then Err(InvalidSpecNumber(s))
    else
      var rest := s[2..];
      var number := if rest[0] == '.' then rest[1..] else rest;
      Ok(SpecNumber(s[..2], number))
  }

  /** Every well-formed spec number is accepted, written with or without the dot. */
  lemma ParseAcceptsWellFormed(sn: SpecNumber)
    requires WellFormed(sn)
    ensures IsAscii(sn.series + sn.number) && ParseSpecNumber(sn.series + sn.number) == Ok(sn)
    ensures IsAscii(Display(sn)) && ParseSpecNumber(Display(sn)) == Ok(sn)
  {
    var plain := sn.series + sn.number;
    assert plain[2..] == sn.number && plain[..2] == sn.series;
    assert MatchesSpecNumber(plain);
    var dotted := Display(sn);
    assert dotted[2..] == "." + sn.number && dotted[..2] == sn.series;
    assert dotted[3..] == sn.number;
    assert MatchesSpecNumber(dotted);
  }

  /** The parser succeeds exactly on the two written forms of a well-formed spec number. */
  lemma ParseOkIff(s: string)
    requires IsAscii(s)
    ensures ParseSpecNumber(s).Ok? <==>
              exists sn :: WellFormed(sn) && (s == sn.series + sn.number || s == Display(sn))
  {
    if exists sn :: WellFormed(sn) && (s == sn.series + sn.number || s == Display(sn)) {
      var sn :| WellFormed(sn) && (s == sn.series + sn.number || s == Display(sn));
      ParseAcceptsWellFormed(sn);
    }
  }

  /** Parsing the `Display` form of a parsed spec number gives it back. */
  lemma DisplayRoundTrip(s: string)
    requires IsAscii(s) && ParseSpecNumber(s).Ok?
    ensures var sn := ParseSpecNumber(s).value;
            IsAscii(Display(sn)) && ParseSpecNumber(Display(sn)) == Ok(sn)
  {
    ParseAcceptsWellFormed(ParseSpecNumber(s).value);
  }

  /** The accepted inputs of the unit test at src/lib.rs:301-337. */
  lemma ValidExamples()
    ensures ParseSpecNumber("23a") == Ok(SpecNumber("23", "a"))
    ensures ParseSpecNumber("23.a") == Ok(SpecNumber("23", "a"))
    ensures ParseSpecNumber("00Z") == Ok(SpecNumber("00", "Z"))
    ensures ParseSpecNumber("99.1") == Ok(SpecNumber("99", "1"))
    ensures ParseSpecNumber("45B6") == Ok(SpecNumber("45", "B6"))
  {
    assert "23a" == "23" + "a" && "23.a" == Display(SpecNumber("23", "a"));
    assert "00Z" == "00" + "Z" && "99.1" == Display(SpecNumber("99", "1"));
    assert "45B6" == "45" + "B6";
    ParseAcceptsWellFormed(SpecNumber("23", "a"));
    ParseAcceptsWellFormed(SpecNumber("00", "Z"));
    ParseAcceptsWellFormed(SpecNumber("99", "1"));
    ParseAcceptsWellFormed(SpecNumber("45", "B6"));
  }

  /** The rejected inputs of the unit test at src/lib.rs:340-347. */
  lemma InvalidExamples()
    ensures ParseSpecNumber("2a").Err? && ParseSpecNumber(".23a").Err?
    ensures ParseSpecNumber("ab23").Err? && ParseSpecNumber("23.").Err?
    ensures ParseSpecNumber("").Err?
  {
  }
}
