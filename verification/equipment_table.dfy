/**
  `loadEquipmentList`: building the equipment list from the lines of the
  equipment table.

  The file arrives as the sequence of lines `fgets` returns, each with its
  trailing newline when it has one. The first line is the header; it is
  compared with the expected text but the result of that comparison changes
  nothing. Every later line is parsed on its own and adds at most one
  record, at the end of the list.
 */
module EquipmentTable {
  import opened Outcome
  import opened CText
  import opened HexParse
  import opened CsvField

  /** One row of the equipment table: its identifier and its type name. */
  datatype Equipment = Equipment(id: Int16, typeName: string)

  /** The identifier of a row whose ID field is empty. */
  const NO_ID: Int16 := -1

  const COMMA: char := ','

  /** The header the loader compares the first line with. */
  const EXPECTED_HEADER: string := "\"Equip ID(Hex)\",\"Equipment Type\""

  /** The identifier of a row: `NO_ID` when the ID field is empty as a C string,
      its `(OwInt16)strtol(field, NULL, 16)` value otherwise. */
  function RowId(idText: string): (id: Int16)
    ensures CStr(idText) == "" ==> id == NO_ID
    ensures NUL !in idText && idText != "" ==> id == HexFieldToInt16(idText)
  {
    CStrOfNulFree(idText);
    if CStr(idText) == "" then NO_ID else HexFieldToInt16(CStr(idText))
  }

  /** One body line: an error when a field scan would run off the line, no record
      when the ID field is not followed by a comma or the type field is empty,
      otherwise the record for the line. */
  function ParseRow(line: string): (r: Result<Option<Equipment>, FieldError>)
    ensures r.Ok? && r.value.Some? ==>
              && r.value.value.typeName != ""
              && NUL !in r.value.value.typeName
              && QUOTE !in r.value.value.typeName
  {
    match ReadField(line)
    case Err(e) => Err(e)
    case Ok(idField) =>
      if CharAt(line, idField.next) != COMMA then Ok(None)
      else
        match ReadField(line[idField.next + 1..])
        case Err(e) => Err(e)
        case Ok(typeField) =>
          var typeName := CStr(typeField.text);
          if typeName == "" then Ok(None) else Ok(Some(Equipment(RowId(idField.text), typeName)))
  }

  /** A line whose ID field, comma and type field have been read gives the record for them. */
  lemma ParseRowOfFields(line: string, idField: Field, typeField: Field)
    requires ReadField(line) == Ok(idField)
    requires CharAt(line, idField.next) == COMMA
    requires ReadField(line[idField.next + 1..]) == Ok(typeField)
    ensures ParseRow(line)
         == Ok(if CStr(typeField.text) == "" then None else Some(Equipment(RowId(idField.text), CStr(typeField.text))))
  {
  }

  /** A line of two quoted fields separated by a comma gives the record for them,
      whatever follows; an empty ID field gives `NO_ID` and still keeps the row. */
  lemma QuotedRow(idText: string, typeText: string, rest: string)
    requires QUOTE !in idText && QUOTE !in typeText
    ensures ParseRow(Quoted(idText) + [COMMA] + Quoted(typeText) + rest)
         == Ok(if CStr(typeText) == "" then None else Some(Equipment(RowId(idText), CStr(typeText))))
  {
    var line := Quoted(idText) + [COMMA] + Quoted(typeText) + rest;
    QuotedPairReads(idText, typeText, rest);
    ParseRowOfFields(line, Field(idText, |idText| + 2), Field(typeText, |typeText| + 2));
  }

  /** The field reads on a line of two quoted fields separated by a comma. */
  lemma QuotedPairReads(idText: string, typeText: string, rest: string)
    requires QUOTE !in idText && QUOTE !in typeText
    ensures var line := Quoted(idText) + [COMMA] + Quoted(typeText) + rest;
            && ReadField(line) == Ok(Field(idText, |idText| + 2))
            && CharAt(line, |idText| + 2) == COMMA
            && ReadField(line[|idText| + 3..]) == Ok(Field(typeText, |typeText| + 2))
  {
    var field := Quoted(typeText) + rest;
    var tail := [COMMA] + field;
    var line := Quoted(idText) + tail;
    assert line == Quoted(idText) + [COMMA] + Quoted(typeText) + rest;
    QuotedRoundTrip(idText, tail);
    assert line[|idText| + 2] == COMMA;
    assert line[|idText| + 3..] == field;
    QuotedRoundTrip(typeText, rest);
  }

  /** On lines free of NULs the C-string views disappear: the record is the text
      of the two fields, and the identifier is -1 for an empty ID field and the
      field's converted value otherwise. */
  lemma NulFreeQuotedRow(idText: string, typeText: string, rest: string)
    requires QUOTE !in idText && QUOTE !in typeText
    requires NUL !in idText && NUL !in typeText
    ensures ParseRow(Quoted(idText) + [COMMA] + Quoted(typeText) + rest)
         == Ok(if typeText == "" then None
               else Some(Equipment(if idText == "" then NO_ID else HexFieldToInt16(idText), typeText)))
  {
    CStrOfNulFree(idText);
    CStrOfNulFree(typeText);
    QuotedRow(idText, typeText, rest);
  }

  /** A row whose ID field or type field opens a quote that is never closed is an
      error: the C code's scan would run past the end of the line. The ID field
      may be quoted, or a single unquoted character read as empty. */
  lemma OpenQuoteRow(c: char, idText: string, typeText: string)
    requires QUOTE !in idText && QUOTE !in typeText
    ensures ParseRow([QUOTE] + idText) == Err(UnterminatedQuote)
    ensures ParseRow(Quoted(idText) + [COMMA, QUOTE] + typeText) == Err(UnterminatedQuote)
    ensures c != QUOTE ==> ParseRow([c, COMMA, QUOTE] + typeText) == Err(UnterminatedQuote)
  {
    if c != QUOTE {
      UnquotedIdSteps(c, [QUOTE] + typeText);
      assert [c, COMMA] + ([QUOTE] + typeText) == [c, COMMA, QUOTE] + typeText;
      assert ([QUOTE] + typeText)[1..] == typeText;
    }
    assert ([QUOTE] + idText)[1..] == idText;
    var tail := [COMMA, QUOTE] + typeText;
    var line := Quoted(idText) + tail;
    assert line == Quoted(idText) + [COMMA, QUOTE] + typeText;
    QuotedRoundTrip(idText, tail);
    assert line[|idText| + 2] == COMMA;
    assert line[|idText| + 3..] == [QUOTE] + typeText;
    assert ([QUOTE] + typeText)[1..] == typeText;
  }

  /** A body line fails exactly when one of its two field scans finds no closing
      quote on the line: the ID field opens a quote that is never closed, or a
      comma follows the ID field and the type field after it does. */
  lemma RowErrorIff(line: string)
    ensures ParseRow(line).Err? <==>
              || (StartsQuoted(line) && QUOTE !in line[1..])
              || (&& ReadField(line).Ok?
                  && CharAt(line, ReadField(line).value.next) == COMMA
                  && var t := line[ReadField(line).value.next + 1..];
                     StartsQuoted(t) && QUOTE !in t[1..])
  {
  }

  /** How the table writes a record: its 12-bit identifier as three hexadecimal
      digits and its type, both quoted, then a newline. */
  function FormatRow(e: Equipment): string
    requires 0 <= e.id < 0x1000
  {
    Quoted(HexEncode(e.id, 3)) + [COMMA] + Quoted(e.typeName) + "\n"
  }

  /** Every record with a 12-bit identifier and a non-empty type free of quotes
      and NULs is read back from its own row. */
  lemma RowRoundTrip(e: Equipment)
    requires 0 <= e.id < 0x1000
    requires e.typeName != "" && QUOTE !in e.typeName && NUL !in e.typeName
    ensures ParseRow(FormatRow(e)) == Ok(Some(e))
  {
    var digits := HexEncode(e.id, 3);
    assert QUOTE !in digits by {
      assert forall i :: 0 <= i < |digits| ==> IsHexDigit(digits[i]);
    }
    assert NUL !in digits by {
      assert forall i :: 0 <= i < |digits| ==> digits[i] != NUL;
    }
    CStrOfNulFree(digits);
    CStrOfNulFree(e.typeName);
    TwelveBitIdRoundTrip(e.id);
    QuotedRow(digits, e.typeName, "\n");
  }

  /** An unquoted first character is skipped as an empty ID field: when a comma and a
      quoted type field, non-empty as a C string, follow it, the row is kept with `NO_ID`. */
  lemma UnquotedIdIgnored(c: char, typeText: string, rest: string)
    requires c != QUOTE && QUOTE !in typeText && CStr(typeText) != ""
    ensures ParseRow([c, COMMA] + Quoted(typeText) + rest) == Ok(Some(Equipment(NO_ID, CStr(typeText))))
  {
    var field := Quoted(typeText) + rest;
    var line := [c, COMMA] + field;
    assert line == [c, COMMA] + Quoted(typeText) + rest;
    UnquotedIdSteps(c, field);
    QuotedRoundTrip(typeText, rest);
    ParseRowOfFields(line, Field("", 1), Field(typeText, |typeText| + 2));
  }

  /** The two field reads of a line that starts with an unquoted character and a comma. */
  lemma UnquotedIdSteps(c: char, field: string)
    requires c != QUOTE
    ensures ReadField([c, COMMA] + field) == Ok(Field("", 1))
    ensures CharAt([c, COMMA] + field, 1) == COMMA
    ensures ([c, COMMA] + field)[2..] == field
  {
  }

  /** `line` is an ID field, a comma, a quoted type field `typeText` and then `rest`.
      The ID field is either `idText` between quotes, or a single unquoted
      character, read as an empty `idText`. */
  ghost predicate RowShape(line: string, idText: string, typeText: string, rest: string)
  {
    && QUOTE !in idText && QUOTE !in typeText
    && (|| line == Quoted(idText) + [COMMA] + Quoted(typeText) + rest
        || (idText == "" && |line| > 0 && line[0] != QUOTE && line == [line[0], COMMA] + Quoted(typeText) + rest))
  }

  /** Every line of that shape with a non-empty type name is kept, with the record
      of its two fields. */
  lemma RowShapeKept(line: string, idText: string, typeText: string, rest: string)
    requires RowShape(line, idText, typeText, rest) && CStr(typeText) != ""
    ensures ParseRow(line) == Ok(Some(Equipment(RowId(idText), CStr(typeText))))
  {
    if line == Quoted(idText) + [COMMA] + Quoted(typeText) + rest {
      QuotedRow(idText, typeText, rest);
    } else {
      UnquotedIdIgnored(line[0], typeText, rest);
    }
  }

  /** A kept record comes only from a line of that shape, and it is the record of
      the line's two fields. */
  lemma KeptRowShape(line: string, e: Equipment)
    requires ParseRow(line) == Ok(Some(e))
    ensures exists idText, typeText, rest ::
              RowShape(line, idText, typeText, rest) && e == Equipment(RowId(idText), CStr(typeText))
  {
    var idText, n, typeText, rest := KeptRowFields(line, e);
    ShapeOfPieces(line, idText, n, typeText, rest);
  }

  /** An ID field ending at the comma at index `n`, followed by a quoted type field,
      makes the row shape. */
  lemma ShapeOfPieces(line: string, idText: string, n: nat, typeText: string, rest: string)
    requires QUOTE !in idText && QUOTE !in typeText
    requires n < |line| && line[n] == COMMA
    requires line[n + 1..] == Quoted(typeText) + rest
    requires line[..n] == Quoted(idText) || (idText == "" && n == 1 && line[0] != QUOTE)
    ensures RowShape(line, idText, typeText, rest)
  {
    SplitAtComma(line, n);
    if line[..n] != Quoted(idText) {
      assert line[..n] == [line[0]];
    }
  }

  /** The pieces of a line that gives a record: the ID field ends at the comma at
      index `n`, and the quoted type field follows it. */
  lemma KeptRowFields(line: string, e: Equipment) returns (idText: string, n: nat, typeText: string, rest: string)
    requires ParseRow(line) == Ok(Some(e))
    ensures QUOTE !in idText && QUOTE !in typeText
    ensures n < |line| && line[n] == COMMA
    ensures line[n + 1..] == Quoted(typeText) + rest
    ensures line[..n] == Quoted(idText) || (idText == "" && n == 1 && line[0] != QUOTE)
    ensures e == Equipment(RowId(idText), CStr(typeText))
  {
    var idField := ReadField(line).value;
    n := idField.next;
    idText := idField.text;
    var tail := line[n + 1..];
    var typeField := ReadField(tail).value;
    typeText := typeField.text;
    assert StartsQuoted(tail);
    QuotedDecomposition(tail);
    rest := tail[typeField.next..];
    if StartsQuoted(line) {
      QuotedDecomposition(line);
      assert line[..n] == Quoted(idText);
    }
  }

  /** A line cut around the comma at index `n`. */
  lemma SplitAtComma(line: string, n: nat)
    requires n < |line| && line[n] == COMMA
    ensures line == line[..n] + [COMMA] + line[n + 1..]
  {
    assert line == line[..n] + line[n..];
    assert line[n..] == [COMMA] + line[n + 1..];
  }

  /** The body of the table, folded line by line into the list in file order. */
  function LoadBody(lines: seq<string>): (r: Result<seq<Equipment>, FieldError>)
    ensures r.Ok? ==> |r.value| <= |lines|
    ensures r.Ok? ==> forall k :: 0 <= k < |r.value| ==> r.value[k].typeName != ""
  {
    if |lines| == 0 then Ok([])
    else
      var init := lines[..|lines| - 1];
      match LoadBody(init)
      case Err(e) => Err(e)
      case Ok(list) =>
        match ParseRow(lines[|lines| - 1])
        case Err(e) => Err(e)
        case Ok(None) => Ok(list)
        case Ok(Some(equipment)) => Ok(list + [equipment])
  }

  /** `loadEquipmentList`: the first line is consumed as the header and never
      becomes a record; the list starts empty and holds the records of the
      remaining lines. */
  function Load(file: seq<string>): (r: Result<seq<Equipment>, FieldError>)
    ensures |file| <= 1 ==> r == Ok([])
    ensures r.Ok? && |file| > 0 ==> |r.value| < |file|
  {
    if |file| == 0 then Ok([]) else LoadBody(file[1..])
  }

  /** `idx` picks out, in increasing order, the lines that gave the records of
      `list`, and every other line gave none. */
  ghost predicate IsSelection(lines: seq<string>, list: seq<Equipment>, idx: seq<nat>)
  {
    && |idx| == |list|
    && (forall k :: 0 <= k < |idx| ==> idx[k] < |lines| && ParseRow(lines[idx[k]]) == Ok(Some(list[k])))
    && (forall k, m :: 0 <= k < m < |idx| ==> idx[k] < idx[m])
    && (forall i :: 0 <= i < |lines| && i !in idx ==> ParseRow(lines[i]) == Ok(None))
  }

  /** Loading fails exactly when some body line fails. */
  lemma {:induction false} LoadBodyOkIff(lines: seq<string>)
    ensures LoadBody(lines).Ok? <==> forall i :: 0 <= i < |lines| ==> ParseRow(lines[i]).Ok?
  {
    if |lines| > 0 {
      var n := |lines| - 1;
      LoadBodyOkIff(lines[..n]);
      assert forall i :: 0 <= i < n ==> lines[..n][i] == lines[i];
    }
  }

  /** One step of the fold: the last line adds its record, if any, to the list of the others. */
  lemma LoadBodyStep(lines: seq<string>)
    requires |lines| > 0 && LoadBody(lines).Ok?
    ensures LoadBody(lines[..|lines| - 1]).Ok? && ParseRow(lines[|lines| - 1]).Ok?
    ensures LoadBody(lines).value
         == LoadBody(lines[..|lines| - 1]).value
            + (if ParseRow(lines[|lines| - 1]).value.Some? then [ParseRow(lines[|lines| - 1]).value.value] else [])
  {
  }

  /** A selection of all lines but the last extends to all lines. */
  lemma SelectionExtends(lines: seq<string>, list: seq<Equipment>, idx: seq<nat>)
    requires |lines| > 0
    requires IsSelection(lines[..|lines| - 1], list, idx)
    requires ParseRow(lines[|lines| - 1]).Ok?
    ensures ParseRow(lines[|lines| - 1]).value.None? ==> IsSelection(lines, list, idx)
    ensures ParseRow(lines[|lines| - 1]).value.Some? ==>
              IsSelection(lines, list + [ParseRow(lines[|lines| - 1]).value.value], idx + [|lines| - 1])
  {
    var n := |lines| - 1;
    assert forall i :: 0 <= i < n ==> lines[..n][i] == lines[i];
    assert n !in idx;
  }

  /** The loaded list is exactly the records of the accepted lines, one per line,
      in file order. */
  lemma {:induction false} LoadBodySelects(lines: seq<string>)
    requires LoadBody(lines).Ok?
    ensures exists idx: seq<nat> :: IsSelection(lines, LoadBody(lines).value, idx)
  {
    if |lines| == 0 {
      assert IsSelection(lines, [], []);
    } else {
      var n := |lines| - 1;
      var init := lines[..n];
      LoadBodyStep(lines);
      LoadBodySelects(init);
      var list := LoadBody(init).value;
      var idx: seq<nat> :| IsSelection(init, list, idx);
      SelectionExtends(lines, list, idx);
      if ParseRow(lines[n]).value.None? {
        assert IsSelection(lines, LoadBody(lines).value, idx);
      } else {
        assert IsSelection(lines, LoadBody(lines).value, idx + [n]);
      }
    }
  }

  /** A record is in the loaded list exactly when some body line gives it. */
  lemma LoadBodyMembership(lines: seq<string>, e: Equipment)
    requires LoadBody(lines).Ok?
    ensures e in LoadBody(lines).value <==> exists i :: 0 <= i < |lines| && ParseRow(lines[i]) == Ok(Some(e))
  {
    LoadBodySelects(lines);
    var list := LoadBody(lines).value;
    var idx: seq<nat> :| IsSelection(lines, list, idx);
    if e in list {
      var k :| 0 <= k < |list| && list[k] == e;
      assert ParseRow(lines[idx[k]]) == Ok(Some(e));
    }
    if i :| 0 <= i < |lines| && ParseRow(lines[i]) == Ok(Some(e)) {
      assert i in idx;
      var k :| 0 <= k < |idx| && idx[k] == i;
      assert list[k] == e;
    }
  }

  /** Splitting the body anywhere: the list of the whole is the list of the first
      part followed by the list of the second. */
  lemma {:induction false} LoadBodyAppend(a: seq<string>, b: seq<string>)
    ensures LoadBody(a + b).Ok? <==> LoadBody(a).Ok? && LoadBody(b).Ok?
    ensures LoadBody(a + b).Ok? ==> LoadBody(a + b).value == LoadBody(a).value + LoadBody(b).value
  {
    if |b| == 0 {
      assert a + b == a;
    } else {
      var n := |b| - 1;
      assert (a + b)[..|a + b| - 1] == a + b[..n];
      assert (a + b)[|a + b| - 1] == b[n];
      LoadBodyAppend(a, b[..n]);
      if LoadBody(a + b).Ok? {
        assert LoadBody(a + b[..n]).Ok?;
      }
    }
  }

  /** `strcmp(line, EXPECTED_HEADER) == 0`: the comparison made on the first line.
      It holds exactly when the buffer starts with the expected text and ends
      there, or has its terminator there. */
  function HeaderMatches(line: string): (matches: bool)
    ensures matches <==> EXPECTED_HEADER <= line
                         && (|line| == |EXPECTED_HEADER| || line[|EXPECTED_HEADER|] == NUL)
  {
    assert NUL !in EXPECTED_HEADER;
    CStr(line) == EXPECTED_HEADER
  }

  /** `fgets` keeps the newline, so a header line followed by more lines never
      compares equal to the expected text. */
  lemma NewlineHeaderMismatch()
    ensures !HeaderMatches(EXPECTED_HEADER + "\n")
  {
    var line := EXPECTED_HEADER + "\n";
    assert NUL !in line;
    CStrOfNulFree(line);
    assert |line| != |EXPECTED_HEADER|;
  }

  /** The header line has no effect: whatever it holds, matching or not, the body
      alone decides the list. */
  lemma HeaderIgnored(header: string, body: seq<string>)
    ensures Load([header] + body) == LoadBody(body)
  {
    assert ([header] + body)[1..] == body;
  }

  /** The loop of `loadEquipmentList`: one line at a time after the header, each
      record appended with `push_back`. */
  method LoadEquipmentList(file: seq<string>) returns (r: Result<seq<Equipment>, FieldError>)
    ensures r == Load(file)
    ensures r.Ok? ==> |r.value| < |file| || |file| == 0
  {
    var equipmentList: seq<Equipment> := [];
    if |file| == 0 {
      return Ok(equipmentList);
    }
    // The outcome of the header comparison is not acted on: the C code builds
    // an exception for a mismatch but never throws it.
    var headerMatches := HeaderMatches(file[0]);
    var i := 1;
    while i < |file|
      invariant 1 <= i <= |file|
      invariant LoadBody(file[1..i]) == Ok(equipmentList)
    {
      assert file[1..i + 1][..i - 1] == file[1..i];
      var row := ParseRow(file[i]);
      if row.Err? {
        assert file[1..][i - 1] == file[i];
        assert !ParseRow(file[1..][i - 1]).Ok?;
        LoadBodyOkIff(file[1..]);
        var e: FieldError := LoadBody(file[1..]).error;
        assert e == row.error;
        return Err(row.error);
      }
      if row.value.Some? {
        equipmentList := equipmentList + [row.value.value];
      }
      i := i + 1;
    }
    assert file[1..i] == file[1..];
    r := Ok(equipmentList);
  }

  /** Worked row: a full row gives its record. */
  lemma SampleRowFull()
    ensures ParseRow("\"1A2\",\"INS\"\n") == Ok(Some(Equipment(0x1A2, "INS")))
  {
    assert "\"1A2\",\"INS\"\n" == Quoted("1A2") + [COMMA] + Quoted("INS") + "\n";
    NulFreeQuotedRow("1A2", "INS", "\n");
    PlainIdExample();
  }

  /** Worked row: an empty ID field gives `NO_ID`, and the row is still kept. */
  lemma SampleRowNoId()
    ensures ParseRow("\"\",\"ADC\"\n") == Ok(Some(Equipment(NO_ID, "ADC")))
  {
    assert "\"\",\"ADC\"\n" == Quoted("") + [COMMA] + Quoted("ADC") + "\n";
    NulFreeQuotedRow("", "ADC", "\n");
  }

  /** Worked rows: no comma after the ID field, and an empty type field, give no record. */
  lemma SampleRowsDropped()
    ensures ParseRow("\"3F\"\n") == Ok(None)
    ensures ParseRow("\"7\",\"\"\n") == Ok(None)
  {
    assert "\"3F\"\n" == Quoted("3F") + "\n";
    QuotedRoundTrip("3F", "\n");
    assert "\"7\",\"\"\n" == Quoted("7") + [COMMA] + Quoted("") + "\n";
    QuotedRow("7", "", "\n");
  }

  /** Two kept rows followed by two dropped rows give the two records, in order. */
  lemma LoadKeptThenDropped(header: string, body: seq<string>, e1: Equipment, e2: Equipment)
    requires |body| == 4
    requires ParseRow(body[0]) == Ok(Some(e1)) && ParseRow(body[1]) == Ok(Some(e2))
    requires ParseRow(body[2]) == Ok(None) && ParseRow(body[3]) == Ok(None)
    ensures Load([header] + body) == Ok([e1, e2])
  {
    assert LoadBody(body[..1]) == Ok([e1]) by {
      assert body[..1][..0] == [];
      assert body[..1][0] == body[0];
      assert [] + [e1] == [e1];
    }
    assert LoadBody(body[..2]) == Ok([e1, e2]) by {
      assert body[..2][..1] == body[..1];
      assert body[..2][1] == body[1];
      assert [e1] + [e2] == [e1, e2];
    }
    assert LoadBody(body[..3]) == Ok([e1, e2]) by {
      assert body[..3][..2] == body[..2];
    }
    assert body[..3] == body[..|body| - 1];
    HeaderIgnored(header, body);
  }

  /** The worked table's body: a full row, a row with an empty ID field, a row
      with no type field and a row with an empty type field. */
  function SampleBody(): seq<string>
  {
    ["\"1A2\",\"INS\"\n", "\"\",\"ADC\"\n", "\"3F\"\n", "\"7\",\"\"\n"]
  }

  /** Worked table: the header is skipped, and of the four body rows the two kept
      ones give the list, in file order. */
  lemma SampleTable()
    ensures Load([EXPECTED_HEADER + "\n"] + SampleBody()) == Ok([Equipment(0x1A2, "INS"), Equipment(NO_ID, "ADC")])
  {
    var body := SampleBody();
    SampleRowFull();
    SampleRowNoId();
    SampleRowsDropped();
    LoadKeptThenDropped(EXPECTED_HEADER + "\n", body, Equipment(0x1A2, "INS"), Equipment(NO_ID, "ADC"));
  }
}
