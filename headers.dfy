/** `find_header_indexes` (src/lib.rs:271-294): locating the name and date columns of the listing. */
module Headers {
  import opened Wrappers
  import opened Errors
  import opened Ascii

  /** The lower-cased text of a header cell contains `word`. */
  predicate HasWord(text: string, word: string)
  {
    Contains(Lower(text), word)
  }

  /** The index of the first header whose text contains `word`, if there is one. */
  function FirstIndex(headers: seq<string>, word: string): (r: Option<nat>)
    ensures r.Some? ==> r.value < |headers| && HasWord(headers[r.value], word)
    ensures r.Some? ==> forall j :: 0 <= j < r.value ==> !HasWord(headers[j], word)
    ensures r.None? ==> forall j :: 0 <= j < |headers| ==> !HasWord(headers[j], word)
  {
    if headers == [] then None
    else
      var earlier := FirstIndex(headers[..|headers| - 1], word);
      if earlier.Some? then earlier
      else if HasWord(headers[|headers| - 1], word) then Some(|headers| - 1)
      else None
  }

  /**
   * The columns the scan finds: the first header containing "name" and,
   * independently, the first containing "date" (possibly the same one);
   * `HeaderNotFound` exactly when either word occurs in no header.
   */
  function HeaderIndexes(headers: seq<string>): (r: Result<(nat, nat), Error>)
    ensures r.Ok? <==>
              && (exists i :: 0 <= i < |headers| && HasWord(headers[i], "name"))
              && (exists i :: 0 <= i < |headers| && HasWord(headers[i], "date"))
    ensures r.Ok? ==>
              && r.value.0 < |headers| && HasWord(headers[r.value.0], "name")
              && (forall j :: 0 <= j < r.value.0 ==> !HasWord(headers[j], "name"))
              && r.value.1 < |headers| && HasWord(headers[r.value.1], "date")
              && (forall j :: 0 <= j < r.value.1 ==> !HasWord(headers[j], "date"))
    ensures r.Err? ==> r.error == HeaderNotFound
  {
    match (FirstIndex(headers, "name"), FirstIndex(headers, "date"))
    case (Some(n), Some(d)) => Ok((n, d))
    case _ => Err(HeaderNotFound)
  }

  /** The scan of `find_header_indexes` over the texts of the header cells, in document order. */
  method FindHeaderIndexes(headers: seq<string>) returns (r: Result<(nat, nat), Error>)
    ensures r == HeaderIndexes(headers)
  {
    var nameIdx: Option<nat> := None;
    var dateIdx: Option<nat> := None;
    for i := 0 to |headers|
      invariant nameIdx == FirstIndex(headers[..i], "name")
      invariant dateIdx == FirstIndex(headers[..i], "date")
    {
      assert headers[..i + 1][..i] == headers[..i];
      var text := Lower(headers[i]);
      if nameIdx.None? && Contains(text, "name") {
        nameIdx := Some(i);
      }
      if dateIdx.None? && Contains(text, "date") {
        dateIdx := Some(i);
      }
    }
    assert headers[..|headers|] == headers;
    match (nameIdx, dateIdx)
    case (Some(n), Some(d)) =>
      r := Ok((n, d));
    case _ =>
      r := Err(HeaderNotFound);
  }

  /** When the first "name" header is column 2 and the first "date" header column 3, the result is (2, 3). */
  lemma ColumnsTwoAndThree(headers: seq<string>)
    requires |headers| >= 4
    requires forall i :: 0 <= i < 2 ==> !HasWord(headers[i], "name") && !HasWord(headers[i], "date")
    requires HasWord(headers[2], "name") && !HasWord(headers[2], "date")
    requires HasWord(headers[3], "date")
    ensures HeaderIndexes(headers) == Ok((2, 3))
  {
  }

  /** The first header of the unit test: the whitespace around a line break and a checkbox. */
  const CHECKBOX_CELL: string := "\n\t\t\t\t\t\n\t\t\t\t\t \n\t\t\t\t\t"

  /** The non-breaking space, `&nbsp;`. */
  const NBSP: char := '\U{00A0}'

  /** Ten non-breaking spaces, as the unit test pads its sorting headers. */
  const NBSP_PADDING: string := seq(10, _ => NBSP)

  /** A text with no upper-case ASCII letter is its own lower-cased form. */
  lemma LowerOfNoUpper(text: string)
    requires forall i :: 0 <= i < |text| ==> !IsUpper(text[i])
    ensures Lower(text) == text
  {
  }

  /** A text with no upper-case ASCII letter, no 'n' and no 'd' contains neither word. */
  lemma NoWordStart(text: string)
    requires forall i :: 0 <= i < |text| ==> !IsUpper(text[i]) && text[i] != 'n' && text[i] != 'd'
    ensures !HasWord(text, "name") && !HasWord(text, "date")
  {
    LowerOfNoUpper(text);
    FirstCharAbsent(text, "name");
    FirstCharAbsent(text, "date");
  }

  /** "date" occurs in no text where every 'd' is followed by something other than 'a'. */
  lemma NoDateWithoutDA(text: string)
    requires forall i :: 0 <= i < |text| - 1 && text[i] == 'd' ==> text[i + 1] != 'a'
    ensures !Contains(text, "date")
  {
    ContainsIff(text, "date");
    forall i: nat | i + 4 <= |text|
      ensures !OccursAt(text, "date", i)
    {
      assert text[i..i + 4][0] == text[i] && text[i..i + 4][1] == text[i + 1];
    }
  }

  lemma CheckboxCell()
    ensures !HasWord(CHECKBOX_CELL, "name") && !HasWord(CHECKBOX_CELL, "date")
  {
    forall i | 0 <= i < |CHECKBOX_CELL|
      ensures CHECKBOX_CELL[i] == '\n' || CHECKBOX_CELL[i] == '\t' || CHECKBOX_CELL[i] == ' '
    {
    }
    NoWordStart(CHECKBOX_CELL);
  }

  lemma NbspCell()
    ensures !HasWord([NBSP], "name") && !HasWord([NBSP], "date")
  {
    NoWordStart([NBSP]);
  }

  /** "sort by name/desc" and its padding: "name" occurs at 8, and the only 'd' starts "desc". */
  lemma SortByNameCell()
    ensures HasWord("sort by name/desc" + NBSP_PADDING, "name")
    ensures !HasWord("sort by name/desc" + NBSP_PADDING, "date")
  {
    var head, tail := "sort by name/", "desc" + NBSP_PADDING;
    var text := head + tail;
    assert text == "sort by name/desc" + NBSP_PADDING;
    LowerOfNoUpper(text);
    assert OccursAt(text, "name", 8);
    ContainsIff(text, "name");
    forall i | 0 <= i < |text| - 1 && text[i] == 'd'
      ensures text[i + 1] != 'a'
    {
      if i < |head| {
        assert text[i] == head[i];
      }
    }
    NoDateWithoutDA(text);
  }

  /** "sort by date/desc" and its padding: "date" occurs at 8. */
  lemma SortByDateCell()
    ensures HasWord("sort by date/desc" + NBSP_PADDING, "date")
  {
    var text := "sort by date/desc" + NBSP_PADDING;
    LowerOfNoUpper(text);
    assert OccursAt(text, "date", 8);
    ContainsIff(text, "date");
  }

  /**
   * The header row of the unit test at src/lib.rs:350-368: a checkbox cell,
   * a non-breaking space, and three sorting links, each followed by "/desc".
   */
  lemma UnitTestHeaders(headers: seq<string>)
    requires headers == [CHECKBOX_CELL, [NBSP], "sort by name/desc" + NBSP_PADDING,
                         "sort by date/desc" + NBSP_PADDING, "sort by size/desc"]
    ensures HeaderIndexes(headers) == Ok((2, 3))
  {
    CheckboxCell();
    NbspCell();
    SortByNameCell();
    SortByDateCell();
    ColumnsTwoAndThree(headers);
  }
}
