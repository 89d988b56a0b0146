/**
  The quoted-field reader `readField` of the CSV loader.

  When the text starts with a quote, the field is everything up to the next
  quote and the returned cursor is the index just past that closing quote.
  When it does not, the field is empty and the cursor is 1. Unquoted fields
  are not read at all. The C scan has no bound: with no closing quote it
  runs past the end of the line, into whatever the line buffer still holds.
  The model reports that case as `UnterminatedQuote` instead.
 */
module CsvField {
  import opened Outcome
  import opened CText

  const QUOTE: char := '"'

  /** The only way reading a field can go wrong. */
  datatype FieldError = UnterminatedQuote

  /** A field's text and the index just after what was read for it. */
  datatype Field = Field(text: string, next: nat)

  predicate StartsQuoted(s: string)
  {
    |s| > 0 && s[0] == QUOTE
  }

  /** A field written between quotes. */
  function Quoted(text: string): string
  {
    [QUOTE] + text + [QUOTE]
  }

  /** The index of the first quote at or after `from`, or `|s|` when there is none. */
  function FindQuote(s: string, from: nat): (j: nat)
    requires from <= |s|
    ensures from <= j <= |s|
    ensures j < |s| ==> s[j] == QUOTE
    ensures forall k :: from <= k < j ==> s[k] != QUOTE
    decreases |s| - from
  {
    if from == |s| || s[from] == QUOTE then from else FindQuote(s, from + 1)
  }

  /** `readField`: the field at the start of `s` and the cursor after it. */
  function ReadField(s: string): (r: Result<Field, FieldError>)
    ensures StartsQuoted(s) ==> (r.Ok? <==> QUOTE in s[1..])
    ensures StartsQuoted(s) && r.Ok? ==>
              && 2 <= r.value.next <= |s|
              && s[r.value.next - 1] == QUOTE
              && r.value.text == s[1..r.value.next - 1]
              && QUOTE !in r.value.text
              && r.value.next == |r.value.text| + 2
    ensures !StartsQuoted(s) ==> r == Ok(Field("", 1))
  {
    if StartsQuoted(s) then
      var close := FindQuote(s, 1);
      if close == |s| then
        assert forall k :: 0 <= k < |s[1..]| ==> s[1..][k] == s[k + 1];
        Err(UnterminatedQuote)
      else
        assert s[1..][close - 1] == QUOTE;
        assert forall k :: 0 <= k < close - 1 ==> s[1..close][k] == s[k + 1];
        Ok(Field(s[1..close], close + 1))
    else
      Ok(Field("", 1))
  }

  /** A quoted field followed by anything reads back as its text, with the cursor on what follows. */
  lemma QuotedRoundTrip(text: string, rest: string)
    requires QUOTE !in text
    ensures ReadField(Quoted(text) + rest) == Ok(Field(text, |text| + 2))
  {
    var s := Quoted(text) + rest;
    assert s[1..|text| + 1] == text;
    assert s[|text| + 1] == QUOTE;
    assert forall k :: 1 <= k < |text| + 1 ==> s[k] == text[k - 1];
    assert FindQuote(s, 1) == |text| + 1;
  }

  /** A quoted field that reads successfully is its text between quotes, followed by the rest of the line. */
  lemma QuotedDecomposition(s: string)
    requires StartsQuoted(s) && ReadField(s).Ok?
    ensures s == Quoted(ReadField(s).value.text) + s[ReadField(s).value.next..]
  {
    var f := ReadField(s).value;
    assert s[..f.next] == Quoted(f.text);
    assert s == s[..f.next] + s[f.next..];
  }

  /** The copy loop of `readField`, as the C code writes it: index `i` walks the
      input, every character up to the closing quote is copied. */
  method ScanField(s: string) returns (r: Result<Field, FieldError>)
    ensures r == ReadField(s)
    ensures r.Ok? ==> QUOTE !in r.value.text
  {
    var i := 0;
    var out := "";
    if i < |s| && s[i] == QUOTE {
      i := i + 1;
      while i < |s| && s[i] != QUOTE
        invariant 1 <= i <= |s|
        invariant out == s[1..i]
        invariant forall k :: 1 <= k < i ==> s[k] != QUOTE
      {
        out := out + [s[i]];
        i := i + 1;
      }
      if i == |s| {
        return Err(UnterminatedQuote);
      }
      assert FindQuote(s, 1) == i;
    }
    r := Ok(Field(out, i + 1));
  }
}
