/**
 * The partial-update request that `updateNote` sends to the table: an
 * update expression built by appending one `name = :placeholder,` fragment
 * per supplied field, and the dictionary of placeholder values.
 */
module UpdateExpression {
  import opened Wrappers

  /** Placeholder the expression uses for the new title. */
  const TitleValue: string := ":t"
  /** Placeholder the expression uses for the new body. */
  const BodyValue: string := ":b"

  /** `s.replace(/,$/, "")`: drops one comma at the very end, if present. */
  function StripTrailingComma(s: string): (r: string)
    ensures 0 < |s| && s[|s| - 1] == ',' ==> r + [','] == s
    ensures !(0 < |s| && s[|s| - 1] == ',') ==> r == s
  {
    if 0 < |s| && s[|s| - 1] == ',' then s[..|s| - 1] else s
  }

  /**
   * Builds the update expression and its attribute values from the fields
   * that are present (`Some`) in the partial note.
   */
  method Build(title: Option<string>, body: Option<string>)
    returns (exp: string, values: map<string, string>)
    ensures title.Some? && body.Some? ==> exp == "set title = :t, body = :b"
    ensures title.Some? && body.None? ==> exp == "set title = :t"
    ensures title.None? && body.Some? ==> exp == "set body = :b"
    ensures title.None? && body.None? ==> exp == "set"
    ensures 0 < |exp| && exp[|exp| - 1] != ','
    ensures TitleValue in values <==> title.Some?
    ensures BodyValue in values <==> body.Some?
    ensures title.Some? ==> values[TitleValue] == title.value
    ensures body.Some? ==> values[BodyValue] == body.value
    ensures values.Keys <= {TitleValue, BodyValue}
  {
    exp := "set";
    values := map[];
    if title.Some? {
      exp := exp + " title = :t,";
      assert exp == "set title = :t" + [','];
      values := values[TitleValue := title.value];
    }
    if body.Some? {
      assert title.None? ==> exp + " body = :b," == "set body = :b" + [','];
      exp := exp + " body = :b,";
      values := values[BodyValue := body.value];
    }
    exp := StripTrailingComma(exp);
  }
}
