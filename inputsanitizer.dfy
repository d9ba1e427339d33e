/** Row clean-up of an imported sheet (src/util/inputSanitizer.js).
    A row arrives as an object (column name to cell) or, from a protected
    sheet, as an array of cells; its keys and cells are trimmed into a fresh
    dictionary, the display fields are set from it through `sanitizeHtml`,
    the tags are split on `|`, and the reducer keeps the rows whose status
    is one of the known ones. */
module InputSanitizer {
  import Strings

  /** A property key of a row: a column name, or an array index of a protected sheet's row. */
  datatype Key = Named(name: string) | Index(index: nat)

  /** A property value: a cell (string), or the array of tags. */
  datatype Value = Text(text: string) | List(items: seq<string>)

  /** A row after sanitising: a dictionary of properties. */
  type Blip = map<Key, Value>

  /** A JavaScript value that may be `undefined`. */
  datatype Option<T> = None | Some(value: T)

  /** A call that returns, or one that throws a `TypeError` (`.split` of `undefined`). */
  datatype Result<T> = Success(value: T) | TypeError

  /** The two option sets handed to `sanitizeHtml`: the relaxed one keeps a few
      formatting tags, the restricted one keeps none. */
  datatype HtmlOptions = Relaxed | Restricted

  /** What `key.trim()` does to a key: array indices have no white space. */
  function TrimKey(key: Key): Key
  {
    match key
    case Named(name) => Named(Strings.Trim(name))
    case Index(i) => Index(i)
  }

  // ---------------------------------------------------------------------
  // trimWhiteSpaces

  /** The dictionary `trimWhiteSpaces` builds from a row's properties, given
      in the order `forOwn` visits them. */
  function TrimmedFields(row: seq<(Key, string)>): (fields: map<Key, string>)
    ensures forall k :: k in fields ==> Strings.Trimmed(fields[k])
  {
    if row == [] then map[]
    else
      var n := |row| - 1;
      TrimmedFields(row[..n])[TrimKey(row[n].0) := Strings.Trim(row[n].1)]
  }

  /** The keys of the trimmed row are the trimmed keys of the raw row. */
  lemma {:induction false} TrimmedFieldsKeys(row: seq<(Key, string)>, k: Key)
    ensures k in TrimmedFields(row) <==> exists i :: 0 <= i < |row| && TrimKey(row[i].0) == k
  {
    if row != [] {
      var n := |row| - 1;
      TrimmedFieldsKeys(row[..n], k);
      if exists i :: 0 <= i < |row| && TrimKey(row[i].0) == k {
        var i :| 0 <= i < |row| && TrimKey(row[i].0) == k;
        if i < n {
          assert TrimKey(row[..n][i].0) == k;
        }
      }
    }
  }

  /** `trimWhiteSpaces(blip)`: every key trimmed, every value trimmed, set
      one after the other on a fresh dictionary. */
  method TrimWhiteSpaces(blip: seq<(Key, string)>) returns (processedBlip: map<Key, string>)
    ensures processedBlip == TrimmedFields(blip)
  {
    processedBlip := map[];
    for i := 0 to |blip|
      invariant processedBlip == TrimmedFields(blip[..i])
    {
      var (key, value) := blip[i];
      assert blip[..i + 1][..i] == blip[..i];
      processedBlip := processedBlip[TrimKey(key) := Strings.Trim(value)];
    }
    assert blip[..|blip|] == blip;
  }

  /** Keys that collide after trimming keep the value visited last: a
      property's trimmed value survives when no later key trims the same. */
  lemma {:induction false} LastVisitedWins(row: seq<(Key, string)>, i: nat)
    requires i < |row|
    requires forall j :: i < j < |row| ==> TrimKey(row[j].0) != TrimKey(row[i].0)
    ensures TrimKey(row[i].0) in TrimmedFields(row)
    ensures TrimmedFields(row)[TrimKey(row[i].0)] == Strings.Trim(row[i].1)
  {
    var n := |row| - 1;
    if i < n {
      assert forall j :: i < j < n ==> row[..n][j] == row[j];
      LastVisitedWins(row[..n], i);
    }
  }

  /** A row whose cells and names carry no surrounding white space and whose
      names are distinct comes through unchanged. */
  lemma TrimmedRowUnchanged(row: seq<(Key, string)>, i: nat)
    requires i < |row|
    requires forall j :: 0 <= j < |row| ==> TrimKey(row[j].0) == row[j].0 && Strings.Trimmed(row[j].1)
    requires forall j, k :: 0 <= j < k < |row| ==> row[j].0 != row[k].0
    ensures row[i].0 in TrimmedFields(row) && TrimmedFields(row)[row[i].0] == row[i].1
  {
    LastVisitedWins(row, i);
    Strings.TrimOfTrimmed(row[i].1);
  }

  // ---------------------------------------------------------------------
  // Tags

  /** `tags.split('|').map(tag => tag.trim())` */
  function Tags(field: string): (tags: seq<string>)
    ensures |tags| == multiset(field)['|'] + 1
    ensures forall i :: 0 <= i < |tags| ==> Strings.Trimmed(tags[i]) && '|' !in tags[i]
  {
    var parts := Strings.Split(field, '|');
    Strings.SplitCount(field, '|');
    seq(|parts|, i requires 0 <= i < |parts| => TrimPiece(parts[i]))
  }

  /** Trimming a piece keeps it free of the separator. */
  function TrimPiece(piece: string): (r: string)
    requires '|' !in piece
    ensures r == Strings.Trim(piece) && '|' !in r
  {
    var r := Strings.Trim(piece);
    assert '|' !in r by {
      Strings.TrimIsInfix(piece);
      var a :| 0 <= a <= a + |r| <= |piece| && r == piece[a..a + |r|];
      assert forall c :: c in r ==> c in piece;
    }
    r
  }

  /** An empty tags cell gives one empty tag. */
  lemma TagsOfEmptyField()
    ensures Tags("") == [""]
  {
  }

  /** Tags written out joined by `|` are read back as written, when none has
      surrounding white space or a `|` of its own. */
  lemma TagsRoundTrip(tags: seq<string>)
    requires |tags| >= 1
    requires forall i :: 0 <= i < |tags| ==> Strings.Trimmed(tags[i]) && '|' !in tags[i]
    ensures Tags(Strings.Join(tags, '|')) == tags
  {
    Strings.SplitJoin(tags, '|');
    forall i | 0 <= i < |tags|
      ensures Strings.Trim(tags[i]) == tags[i]
    {
      Strings.TrimOfTrimmed(tags[i]);
    }
  }

  /** Every tags cell is some `|`-free pieces joined by `|` (see
      `Strings.JoinSplit`); its tags are those pieces, each trimmed, in order. */
  lemma TagsOfPieces(pieces: seq<string>)
    requires |pieces| >= 1
    requires forall i :: 0 <= i < |pieces| ==> '|' !in pieces[i]
    ensures Tags(Strings.Join(pieces, '|'))
         == seq(|pieces|, i requires 0 <= i < |pieces| => Strings.Trim(pieces[i]))
  {
    Strings.SplitJoin(pieces, '|');
  }

  // ---------------------------------------------------------------------
  // sanitize and sanitizeForProtectedSheet

  /** The properties `sanitize` and `sanitizeForProtectedSheet` set on the row. */
  const AssignedKeys: set<Key> :=
    {Named("description"), Named("name"), Named("status"), Named("ring"), Named("topic"), Named("tags")}

  /** `blip[key]` of the trimmed dictionary. */
  function Lookup(fields: map<Key, string>, key: Key): (r: Option<string>)
    ensures r.Some? <==> key in fields
    ensures r.Some? ==> r.value == fields[key]
  {
    if key in fields then Some(fields[key]) else None
  }

  /** The trimmed dictionary as property values. */
  function AsText(fields: map<Key, string>): (blip: Blip)
    ensures blip.Keys == fields.Keys
    ensures forall k :: k in fields ==> blip[k] == Text(fields[k])
  {
    map k | k in fields :: Text(fields[k])
  }

  /** The row with its six display properties set, as `sanitize` and
      `sanitizeForProtectedSheet` assign them; the other properties stay as trimmed. */
  function WithDisplay(fields: map<Key, string>, description: string, name: string, status: string,
                       ring: string, topic: string, tags: seq<string>): (blip: Blip)
    ensures blip.Keys == fields.Keys + AssignedKeys
    ensures forall k :: k in fields && k !in AssignedKeys ==> blip[k] == Text(fields[k])
    ensures blip[Named("description")] == Text(description) && blip[Named("name")] == Text(name)
    ensures blip[Named("status")] == Text(status) && blip[Named("ring")] == Text(ring)
    ensures blip[Named("topic")] == Text(topic) && blip[Named("tags")] == List(tags)
  {
    AsText(fields)[Named("description") := Text(description)][Named("name") := Text(name)]
                  [Named("status") := Text(status)][Named("ring") := Text(ring)]
                  [Named("topic") := Text(topic)][Named("tags") := List(tags)]
  }

  /** The row `sanitize` returns: the trimmed properties, with the six display
      properties set from `Description`, `Technology`, `Status`, `Horizon`,
      `Theme` and `Tags`. A row without a `Tags` property throws. */
  function SanitizedRow(sanitizeHtml: (Option<string>, HtmlOptions) -> string, rawBlip: seq<(Key, string)>)
    : (r: Result<Blip>)
    ensures r.Success? <==> Named("Tags") in TrimmedFields(rawBlip)
    ensures r.Success? ==> r.value.Keys == TrimmedFields(rawBlip).Keys + AssignedKeys
    ensures r.Success? ==> forall k :: k in TrimmedFields(rawBlip) && k !in AssignedKeys ==>
                                         r.value[k] == Text(TrimmedFields(rawBlip)[k])
    ensures r.Success? ==> r.value[Named("tags")] == List(Tags(TrimmedFields(rawBlip)[Named("Tags")]))
    ensures r.Success? ==>
              var fields := TrimmedFields(rawBlip);
              && r.value[Named("description")] == Text(sanitizeHtml(Lookup(fields, Named("Description")), Relaxed))
              && r.value[Named("name")] == Text(sanitizeHtml(Lookup(fields, Named("Technology")), Relaxed))
              && r.value[Named("status")] == Text(sanitizeHtml(Lookup(fields, Named("Status")), Restricted))
              && r.value[Named("ring")] == Text(sanitizeHtml(Lookup(fields, Named("Horizon")), Restricted))
              && r.value[Named("topic")] == Text(sanitizeHtml(Lookup(fields, Named("Theme")), Restricted))
  {
    var fields := TrimmedFields(rawBlip);
    match Lookup(fields, Named("Tags"))
    case None => TypeError
    case Some(tags) =>
      Success(WithDisplay(fields,
                          sanitizeHtml(Lookup(fields, Named("Description")), Relaxed),
                          sanitizeHtml(Lookup(fields, Named("Technology")), Relaxed),
                          sanitizeHtml(Lookup(fields, Named("Status")), Restricted),
                          sanitizeHtml(Lookup(fields, Named("Horizon")), Restricted),
                          sanitizeHtml(Lookup(fields, Named("Theme")), Restricted),
                          Tags(tags)))
  }

  /** `sanitize(rawBlip)`: trim, then set the display properties one by one. */
  method Sanitize(sanitizeHtml: (Option<string>, HtmlOptions) -> string, rawBlip: seq<(Key, string)>)
    returns (r: Result<Blip>)
    ensures r == SanitizedRow(sanitizeHtml, rawBlip)
  {
    var fields := TrimWhiteSpaces(rawBlip);
    var blip := AsText(fields);
    blip := blip[Named("description") := Text(sanitizeHtml(Lookup(fields, Named("Description")), Relaxed))];
    blip := blip[Named("name") := Text(sanitizeHtml(Lookup(fields, Named("Technology")), Relaxed))];
    blip := blip[Named("status") := Text(sanitizeHtml(Lookup(fields, Named("Status")), Restricted))];
    blip := blip[Named("ring") := Text(sanitizeHtml(Lookup(fields, Named("Horizon")), Restricted))];
    blip := blip[Named("topic") := Text(sanitizeHtml(Lookup(fields, Named("Theme")), Restricted))];
    if Named("Tags") !in fields {
      return TypeError;
    }
    blip := blip[Named("tags") := List(Tags(fields[Named("Tags")]))];
    r := Success(blip);
  }

  /** The cell for a header in a protected sheet's row: `''` when the header is
      missing, otherwise whatever the row holds at the header's first position
      (`undefined` when the row is shorter). */
  function FieldAt(fields: map<Key, string>, header: seq<string>, name: string): (r: Option<string>)
    ensures name !in header ==> r == Some("")
    ensures name in header ==>
              exists i :: 0 <= i < |header| && header[i] == name && name !in header[..i]
                          && r == Lookup(fields, Index(i))
  {
    var i := Strings.IndexOf(header, name);
    if i == -1 then Some("") else Lookup(fields, Index(i))
  }

  /** Only the first of repeated header names is read. */
  lemma FieldAtFirstHeader(fields: map<Key, string>, header: seq<string>, name: string, i: nat)
    requires i < |header| && header[i] == name && name !in header[..i]
    ensures FieldAt(fields, header, name) == Lookup(fields, Index(i))
  {
    var k := Strings.IndexOf(header, name);
    if k != i {
      assert false;
    }
  }

  /** The row `sanitizeForProtectedSheet` returns: the trimmed cells by index,
      with the display properties set from the cells under the named headers.
      It throws only when the `Tags` header is there and the row has no cell
      under it. */
  function ProtectedSheetRow(sanitizeHtml: (Option<string>, HtmlOptions) -> string,
                             rawBlip: seq<(Key, string)>, header: seq<string>): (r: Result<Blip>)
    ensures r.Success? <==> FieldAt(TrimmedFields(rawBlip), header, "Tags").Some?
    ensures r.Success? ==> r.value.Keys == TrimmedFields(rawBlip).Keys + AssignedKeys
    ensures r.Success? ==> forall k :: k in TrimmedFields(rawBlip) && k !in AssignedKeys ==>
                                         r.value[k] == Text(TrimmedFields(rawBlip)[k])
    ensures r.Success? ==>
              var fields := TrimmedFields(rawBlip);
              && r.value[Named("tags")] == List(Tags(FieldAt(fields, header, "Tags").value))
              && r.value[Named("description")] == Text(sanitizeHtml(FieldAt(fields, header, "Description"), Relaxed))
              && r.value[Named("name")] == Text(sanitizeHtml(FieldAt(fields, header, "Technology"), Relaxed))
              && r.value[Named("status")] == Text(sanitizeHtml(FieldAt(fields, header, "Status"), Restricted))
              && r.value[Named("ring")] == Text(sanitizeHtml(FieldAt(fields, header, "Horizon"), Restricted))
              && r.value[Named("topic")] == Text(sanitizeHtml(FieldAt(fields, header, "Theme"), Restricted))
  {
    var fields := TrimmedFields(rawBlip);
    match FieldAt(fields, header, "Tags")
    case None => TypeError
    case Some(tags) =>
      Success(WithDisplay(fields,
                          sanitizeHtml(FieldAt(fields, header, "Description"), Relaxed),
                          sanitizeHtml(FieldAt(fields, header, "Technology"), Relaxed),
                          sanitizeHtml(FieldAt(fields, header, "Status"), Restricted),
                          sanitizeHtml(FieldAt(fields, header, "Horizon"), Restricted),
                          sanitizeHtml(FieldAt(fields, header, "Theme"), Restricted),
                          Tags(tags)))
  }

  /** `sanitizeForProtectedSheet(rawBlip, header)` */
  method SanitizeForProtectedSheet(sanitizeHtml: (Option<string>, HtmlOptions) -> string,
                                   rawBlip: seq<(Key, string)>, header: seq<string>)
    returns (r: Result<Blip>)
    ensures r == ProtectedSheetRow(sanitizeHtml, rawBlip, header)
  {
    var fields := TrimWhiteSpaces(rawBlip);
    var description := FieldAt(fields, header, "Description");
    var name := FieldAt(fields, header, "Technology");
    var status := FieldAt(fields, header, "Status");
    var ring := FieldAt(fields, header, "Horizon");
    var topic := FieldAt(fields, header, "Theme");
    var tags := FieldAt(fields, header, "Tags");
    var blip := AsText(fields);
    blip := blip[Named("description") := Text(sanitizeHtml(description, Relaxed))];
    blip := blip[Named("name") := Text(sanitizeHtml(name, Relaxed))];
    blip := blip[Named("status") := Text(sanitizeHtml(status, Restricted))];
    blip := blip[Named("ring") := Text(sanitizeHtml(ring, Restricted))];
    blip := blip[Named("topic") := Text(sanitizeHtml(topic, Restricted))];
    if tags.None? {
      return TypeError;
    }
    blip := blip[Named("tags") := List(Tags(tags.value))];
    r := Success(blip);
  }

  /** A protected sheet without a `Tags` header gives every row one empty tag. */
  lemma ProtectedSheetWithoutTags(sanitizeHtml: (Option<string>, HtmlOptions) -> string,
                                  rawBlip: seq<(Key, string)>, header: seq<string>)
    requires "Tags" !in header
    ensures ProtectedSheetRow(sanitizeHtml, rawBlip, header).Success?
    ensures ProtectedSheetRow(sanitizeHtml, rawBlip, header).value[Named("tags")] == List([""])
  {
    TagsOfEmptyField();
  }

  // ---------------------------------------------------------------------
  // reducer

  /** The statuses a row is kept for; `hide` and any other value drop it. */
  const KeptStatuses: set<string> := {"ok", "new", "strike", "moved", "gap"}

  /** The `switch` on `processedBlip.Status`: strict equality with one of the kept statuses. */
  predicate Kept(blip: Blip)
  {
    Named("Status") in blip && blip[Named("Status")].Text? && blip[Named("Status")].text in KeptStatuses
  }

  /** One step of `rows.reduce(reducer, result)`, as a value. */
  function Reduce(sanitizeHtml: (Option<string>, HtmlOptions) -> string, result: seq<Blip>,
                  value: seq<(Key, string)>): (r: Result<seq<Blip>>)
    ensures r.Success? <==> SanitizedRow(sanitizeHtml, value).Success?
    ensures r.Success? ==> result <= r.value && |r.value| <= |result| + 1
    ensures r.Success? ==> (|r.value| == |result| + 1 <==> Kept(SanitizedRow(sanitizeHtml, value).value))
    ensures r.Success? && |r.value| == |result| + 1 ==>
              r.value[|result|] == SanitizedRow(sanitizeHtml, value).value && Kept(r.value[|result|])
  {
    match SanitizedRow(sanitizeHtml, value)
    case TypeError => TypeError
    case Success(processedBlip) =>
      if Kept(processedBlip) then Success(result + [processedBlip]) else Success(result)
  }

  /** The decision reads the trimmed `Status` cell of the raw row, not the
      sanitised `status`; so no choice of `sanitizeHtml` changes it. */
  lemma ReducerReadsRawStatus(sanitizeHtml: (Option<string>, HtmlOptions) -> string, value: seq<(Key, string)>)
    requires SanitizedRow(sanitizeHtml, value).Success?
    ensures Kept(SanitizedRow(sanitizeHtml, value).value)
        <==> Named("Status") in TrimmedFields(value) && TrimmedFields(value)[Named("Status")] in KeptStatuses
  {
    KeptStatusCell(SanitizedRow(sanitizeHtml, value).value, TrimmedFields(value));
  }

  lemma KeptStatusCell(blip: Blip, fields: map<Key, string>)
    requires blip.Keys == fields.Keys + AssignedKeys
    requires forall k :: k in fields && k !in AssignedKeys ==> blip[k] == Text(fields[k])
    ensures Kept(blip) <==> Named("Status") in fields && fields[Named("Status")] in KeptStatuses
  {
    assert Named("Status") !in AssignedKeys;
  }

  lemma KeptIgnoresSanitizer(html1: (Option<string>, HtmlOptions) -> string,
                             html2: (Option<string>, HtmlOptions) -> string, value: seq<(Key, string)>)
    requires SanitizedRow(html1, value).Success?
    ensures SanitizedRow(html2, value).Success?
    ensures Kept(SanitizedRow(html1, value).value) == Kept(SanitizedRow(html2, value).value)
  {
    ReducerReadsRawStatus(html1, value);
    ReducerReadsRawStatus(html2, value);
  }

  /** `rows.reduce(reducer, result)`: the reducer applied to each row in turn;
      the first row that throws ends the fold. */
  function ReduceAll(sanitizeHtml: (Option<string>, HtmlOptions) -> string, result: seq<Blip>,
                     rows: seq<seq<(Key, string)>>): Result<seq<Blip>>
  {
    if rows == [] then Success(result)
    else
      match ReduceAll(sanitizeHtml, result, rows[..|rows| - 1])
      case TypeError => TypeError
      case Success(acc) => Reduce(sanitizeHtml, acc, rows[|rows| - 1])
  }

  /** Folding the reducer keeps the accumulator as a prefix, adds at most one
      blip per row, and every added blip has a kept status. */
  lemma {:induction false} ReduceAllKeepsKnownStatuses(sanitizeHtml: (Option<string>, HtmlOptions) -> string,
                                                       result: seq<Blip>, rows: seq<seq<(Key, string)>>)
    requires ReduceAll(sanitizeHtml, result, rows).Success?
    ensures var out := ReduceAll(sanitizeHtml, result, rows).value;
            result <= out && |out| <= |result| + |rows|
            && forall i :: |result| <= i < |out| ==> Kept(out[i])
  {
    if rows != [] {
      var prefix := rows[..|rows| - 1];
      ReduceAllKeepsKnownStatuses(sanitizeHtml, result, prefix);
      var acc := ReduceAll(sanitizeHtml, result, prefix).value;
      var out := Reduce(sanitizeHtml, acc, rows[|rows| - 1]).value;
      assert ReduceAll(sanitizeHtml, result, rows).value == out;
      forall i | |result| <= i < |out|
        ensures Kept(out[i])
      {
        if i < |acc| {
          assert out[i] == acc[i];
        }
      }
    }
  }

  /** The accumulator array the reducer pushes onto. */
  class BlipList {
    var items: seq<Blip>

    constructor ()
      ensures items == []
    {
      items := [];
    }
  }

  /** `reducer(result, value)`: sanitise the row, push it onto `result` when
      its status is kept, and return `result`. */
  method Reducer(sanitizeHtml: (Option<string>, HtmlOptions) -> string, result: BlipList,
                 value: seq<(Key, string)>) returns (r: Result<BlipList>)
    modifies result
    ensures r.Success? <==> Reduce(sanitizeHtml, old(result.items), value).Success?
    ensures r.Success? ==> r.value == result && result.items == Reduce(sanitizeHtml, old(result.items), value).value
    ensures r.TypeError? ==> result.items == old(result.items)
  {
    var processedBlip := Sanitize(sanitizeHtml, value);
    if processedBlip.TypeError? {
      return TypeError;
    }
    if Kept(processedBlip.value) {
      result.items := result.items + [processedBlip.value];
    }
    r := Success(result);
  }
}
