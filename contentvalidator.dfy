/** The header check of an imported sheet (src/util/contentValidator.js).
    A validator keeps the sheet's column names, trimmed once when it is
    built; `verifyContent` rejects a sheet without columns and
    `verifyHeaders` one that lacks any of the six required columns. */
module ContentValidator {
  import Strings
  import ExceptionMessages

  /** The validator object: nothing in it changes after construction. */
  datatype ContentValidator = ContentValidator(columnNames: seq<string>)

  /** A check either returns or throws a `MalformedDataError` with a message. */
  datatype Outcome = Pass | MalformedData(message: string)

  /** The columns every sheet must have, in the order they are checked. */
  const RequiredHeaders: seq<string> := ["Technology", "Ring", "Theme", "Description", "Status", "Tags"]

  /** `ContentValidator(columnNames)`: the names trimmed, one for one, in order. */
  function New(columnNames: seq<string>): (validator: ContentValidator)
    ensures |validator.columnNames| == |columnNames|
    ensures forall i :: 0 <= i < |columnNames| ==>
              Strings.Trimmed(validator.columnNames[i])
              && validator.columnNames[i] == Strings.Trim(columnNames[i])
  {
    ContentValidator(seq(|columnNames|, i requires 0 <= i < |columnNames| => Strings.Trim(columnNames[i])))
  }

  /** `verifyContent()`: a sheet without column names is missing its content. */
  function VerifyContent(validator: ContentValidator): (r: Outcome)
    ensures r == MalformedData(ExceptionMessages.MissingContent) <==> |validator.columnNames| == 0
    ensures r == Pass <==> |validator.columnNames| != 0
  {
    if |validator.columnNames| == 0 then MalformedData(ExceptionMessages.MissingContent) else Pass
  }

  /** The `_.each` over `fields`: the first field whose `indexOf` in the
      names is -1 throws; when none is missing the loop finishes. */
  function CheckEach(fields: seq<string>, columnNames: seq<string>): (r: Outcome)
    ensures r == Pass <==> forall i :: 0 <= i < |fields| ==> fields[i] in columnNames
    ensures r != Pass ==> r == MalformedData(ExceptionMessages.MissingHeaders)
  {
    if fields == [] then Pass
    else if Strings.IndexOf(columnNames, fields[0]) == -1 then MalformedData(ExceptionMessages.MissingHeaders)
    else
      var rest := CheckEach(fields[1..], columnNames);
      assert forall i :: 1 <= i < |fields| ==> fields[i] == fields[1..][i - 1];
      rest
  }

  /** `verifyHeaders()`: it passes exactly when all six required columns are among the trimmed names. */
  function VerifyHeaders(validator: ContentValidator): (r: Outcome)
    ensures r == Pass <==> forall h :: h in RequiredHeaders ==> h in validator.columnNames
    ensures r != Pass ==> r == MalformedData(ExceptionMessages.MissingHeaders)
  {
    CheckEach(RequiredHeaders, validator.columnNames)
  }

  /** Column order and extra columns do not matter: only the set of names does,
      and any superset of the six names passes. */
  lemma VerifyHeadersSuperset(columnNames: seq<string>, moreNames: seq<string>)
    requires VerifyHeaders(New(columnNames)) == Pass
    requires forall n :: n in columnNames ==> n in moreNames
    ensures VerifyHeaders(New(moreNames)) == Pass
  {
    forall h | h in RequiredHeaders
      ensures h in New(moreNames).columnNames
    {
      TrimmedNameIn(columnNames, h);
      var k :| 0 <= k < |columnNames| && Strings.Trim(columnNames[k]) == h;
      assert columnNames[k] in moreNames;
      var j :| 0 <= j < |moreNames| && moreNames[j] == columnNames[k];
      TrimmedNameIn(moreNames, h);
    }
  }

  /** A name is stored exactly when it is the trimmed form of some given name. */
  lemma TrimmedNameIn(columnNames: seq<string>, h: string)
    ensures h in New(columnNames).columnNames
        <==> exists k :: 0 <= k < |columnNames| && Strings.Trim(columnNames[k]) == h
  {
    var stored := New(columnNames).columnNames;
    if h in stored {
      var k :| 0 <= k < |stored| && stored[k] == h;
      assert Strings.Trim(columnNames[k]) == h;
    }
  }

  /** Two header rows with the same names, in any order or multiplicity, get the same verdict. */
  lemma VerifyHeadersIgnoresOrder(columnNames: seq<string>, otherNames: seq<string>)
    requires forall n :: n in columnNames <==> n in otherNames
    ensures VerifyHeaders(New(columnNames)) == VerifyHeaders(New(otherNames))
  {
    if VerifyHeaders(New(columnNames)) == Pass {
      VerifyHeadersSuperset(columnNames, otherNames);
    } else if VerifyHeaders(New(otherNames)) == Pass {
      VerifyHeadersSuperset(otherNames, columnNames);
    }
  }

  /** White space around a header is trimmed away first, so `' Technology '`
      counts as `Technology`. */
  lemma PaddedHeaderCounts(columnNames: seq<string>, k: nat, before: string, after: string)
    requires k < |RequiredHeaders|
    requires Strings.AllWhiteSpace(before) && Strings.AllWhiteSpace(after)
    requires before + RequiredHeaders[k] + after in columnNames
    ensures RequiredHeaders[k] in New(columnNames).columnNames
  {
    var j :| 0 <= j < |columnNames| && columnNames[j] == before + RequiredHeaders[k] + after;
    Strings.TrimOfPadded(before, RequiredHeaders[k], after);
    assert New(columnNames).columnNames[j] == RequiredHeaders[k];
  }

  /** Consequently a header row of the six names, padded, passes. */
  lemma PaddedRequiredHeadersPass(padding: string)
    requires Strings.AllWhiteSpace(padding)
    ensures VerifyHeaders(New(seq(|RequiredHeaders|, i requires 0 <= i < |RequiredHeaders| =>
                                    padding + RequiredHeaders[i] + padding))) == Pass
  {
    var names := seq(|RequiredHeaders|, i requires 0 <= i < |RequiredHeaders| => padding + RequiredHeaders[i] + padding);
    forall k | 0 <= k < |RequiredHeaders|
      ensures RequiredHeaders[k] in New(names).columnNames
    {
      assert names[k] == padding + RequiredHeaders[k] + padding;
      PaddedHeaderCounts(names, k, padding, padding);
    }
  }

  /** A header row missing any required column fails with `MISSING_HEADERS`,
      even when it is otherwise complete. */
  lemma MissingColumnFails(columnNames: seq<string>, k: nat)
    requires k < |RequiredHeaders|
    requires forall i :: 0 <= i < |columnNames| ==> Strings.Trim(columnNames[i]) != RequiredHeaders[k]
    ensures VerifyHeaders(New(columnNames)) == MalformedData(ExceptionMessages.MissingHeaders)
  {
    assert RequiredHeaders[k] !in New(columnNames).columnNames;
  }
}
