/** `ActivityLogViewModel`: one audit entry as the activity page shows it,
    with its two computed properties, `Initials` and `FormattedJsonData`. */
module ActivityView {
  import opened Wrappers
  import opened Text
  import opened Json
  import opened Entities
  import UserView

  /** The projected entry. The localised display string of `CreatedOn` is
      not modelled; `rawCreatedOn` carries the instant. */
  datatype ActivityLogView = ActivityLogView(
    id: nat,
    userFullName: string,
    userEmail: string,
    rawCreatedOn: Time,
    action: string,
    description: Option<string>,
    jsonData: Option<string>)

  /** `Initials`: the upper-cased first letters of the first two
      space-separated words of the full name, of the only word when there
      is one, and "?" when there is none. */
  function Initials(userFullName: string): (r: string)
    ensures 1 <= |r| <= 2
    ensures |r| == 2 <==> |Words(userFullName)| >= 2
    ensures Words(userFullName) == [] ==> r == "?"
    ensures |Words(userFullName)| >= 1 ==> r[0] == UpperChar(Words(userFullName)[0][0])
    ensures |Words(userFullName)| >= 2 ==> r[1] == UpperChar(Words(userFullName)[1][0])
  {
    var parts := Words(userFullName);
    if |parts| >= 2 then ToUpper([parts[0][0], parts[1][0]])
    else if |parts| == 1 && |parts[0]| > 0 then ToUpper([parts[0][0]])
    else "?"
  }

  /** A name of spaces only has no initials to show. */
  lemma BlankNameInitials(userFullName: string)
    requires forall i :: 0 <= i < |userFullName| ==> userFullName[i] == ' '
    ensures Initials(userFullName) == "?"
  {
    WordsEmptyIffSpaces(userFullName);
  }

  /** For a first and a last name without spaces, the activity page shows
      the same two initials as the user list. */
  lemma InitialsAgreeWithUserList(firstName: string, lastName: string)
    requires firstName != [] && lastName != []
    requires ' ' !in firstName && ' ' !in lastName
    ensures Initials(UserView.FullName(firstName, lastName)) == UserView.Initials(firstName, lastName)
  {
    WordsOfTwo(firstName, lastName);
  }

  /** The two top-level property names the formatter hides. */
  predicate Hidden(name: string) {
    name == "UserId" || name == "CreatedBy"
  }

  /** One displayed property: "Name: value", the value rendered by
      `JsonElement.ToString()`. */
  function PropertyLine(p: Property, render: Json -> string): string {
    p.name + ": " + render(p.value)
  }

  /** How many of the properties are shown, counted from the front. */
  function ShownCount(props: seq<Property>): (n: nat)
    ensures n <= |props|
  {
    if props == [] then 0
    else (if Hidden(props[0].name) then 0 else 1) + ShownCount(props[1..])
  }

  /** Counting from the back gives the same number. */
  lemma {:induction false} ShownCountLast(props: seq<Property>)
    requires props != []
    ensures ShownCount(props) ==
      ShownCount(props[..|props| - 1]) + (if Hidden(props[|props| - 1].name) then 0 else 1)
  {
    if |props| > 1 {
      var rest := props[1..];
      ShownCountLast(rest);
      assert rest[..|rest| - 1] == props[..|props| - 1][1..];
    }
  }

  /** line is the line of some shown property. */
  predicate LineOf(props: seq<Property>, render: Json -> string, line: string) {
    exists j :: 0 <= j < |props| && !Hidden(props[j].name) && line == PropertyLine(props[j], render)
  }

  /** The displayed lines of an object's properties: only lines of shown
      properties, and every shown property has one; `ShownLinesInOrder`
      gives their number and positions. */
  function ShownLines(props: seq<Property>, render: Json -> string): (lines: seq<string>)
    ensures |lines| <= |props|
    ensures lines == [] <==> forall j :: 0 <= j < |props| ==> Hidden(props[j].name)
    ensures forall k :: 0 <= k < |lines| ==> LineOf(props, render, lines[k])
    ensures forall j :: 0 <= j < |props| && !Hidden(props[j].name) ==> PropertyLine(props[j], render) in lines
  {
    if props == [] then []
    else
      var init, last := props[..|props| - 1], props[|props| - 1];
      var prefix := ShownLines(init, render);
      var lines := if Hidden(last.name) then prefix else prefix + [PropertyLine(last, render)];
      ShownLinesStep(props, render, prefix, lines);
      lines
  }

  /** One line per shown property, in document order: the shown property
      at index j gives line number `ShownCount(props[..j])`, the number of
      shown properties before it. */
  lemma {:induction false} ShownLinesInOrder(props: seq<Property>, render: Json -> string)
    ensures |ShownLines(props, render)| == ShownCount(props)
    ensures forall j :: 0 <= j < |props| && !Hidden(props[j].name) ==>
      ShownCount(props[..j]) < |ShownLines(props, render)| &&
      ShownLines(props, render)[ShownCount(props[..j])] == PropertyLine(props[j], render)
  {
    if props != [] {
      var init := props[..|props| - 1];
      ShownLinesInOrder(init, render);
      InOrderStep(props, render, ShownLines(init, render), ShownLines(props, render));
    }
  }

  /** One step of `ShownLinesInOrder`, on the lines as plain values. */
  lemma InOrderStep(props: seq<Property>, render: Json -> string, prefix: seq<string>, lines: seq<string>)
    requires props != []
    requires var init := props[..|props| - 1];
      && |prefix| == ShownCount(init)
      && forall j :: 0 <= j < |init| && !Hidden(init[j].name) ==>
           ShownCount(init[..j]) < |prefix| && prefix[ShownCount(init[..j])] == PropertyLine(init[j], render)
    requires var last := props[|props| - 1];
      lines == if Hidden(last.name) then prefix else prefix + [PropertyLine(last, render)]
    ensures |lines| == ShownCount(props)
    ensures forall j :: 0 <= j < |props| && !Hidden(props[j].name) ==>
      ShownCount(props[..j]) < |lines| && lines[ShownCount(props[..j])] == PropertyLine(props[j], render)
  {
    var n := |props| - 1;
    var init := props[..n];
    ShownCountLast(props);
    forall j | 0 <= j < |props| && !Hidden(props[j].name)
      ensures ShownCount(props[..j]) < |lines| && lines[ShownCount(props[..j])] == PropertyLine(props[j], render)
    {
      if j < n {
        assert props[j] == init[j] && props[..j] == init[..j];
      } else {
        assert props[..j] == init;
      }
    }
  }

  /** One step of `ShownLines`: the lines of all but the last property,
      extended by the last one's line unless it is hidden. */
  lemma ShownLinesStep(props: seq<Property>, render: Json -> string, prefix: seq<string>, lines: seq<string>)
    requires props != []
    requires var init := props[..|props| - 1];
      && |prefix| <= |init|
      && (prefix == [] <==> forall j :: 0 <= j < |init| ==> Hidden(init[j].name))
      && (forall k :: 0 <= k < |prefix| ==> LineOf(init, render, prefix[k]))
      && (forall j :: 0 <= j < |init| && !Hidden(init[j].name) ==> PropertyLine(init[j], render) in prefix)
    requires var last := props[|props| - 1];
      lines == if Hidden(last.name) then prefix else prefix + [PropertyLine(last, render)]
    ensures |lines| <= |props|
    ensures lines == [] <==> forall j :: 0 <= j < |props| ==> Hidden(props[j].name)
    ensures forall k :: 0 <= k < |lines| ==> LineOf(props, render, lines[k])
    ensures forall j :: 0 <= j < |props| && !Hidden(props[j].name) ==> PropertyLine(props[j], render) in lines
  {
    var n := |props| - 1;
    var init := props[..n];
    assert forall j :: 0 <= j < n ==> init[j] == props[j];
    StepSound(props, render, prefix, lines);
    StepComplete(props, render, prefix, lines);
  }

  lemma StepSound(props: seq<Property>, render: Json -> string, prefix: seq<string>, lines: seq<string>)
    requires props != []
    requires forall k :: 0 <= k < |prefix| ==> LineOf(props[..|props| - 1], render, prefix[k])
    requires var last := props[|props| - 1];
      lines == if Hidden(last.name) then prefix else prefix + [PropertyLine(last, render)]
    ensures forall k :: 0 <= k < |lines| ==> LineOf(props, render, lines[k])
  {
    var n := |props| - 1;
    var init := props[..n];
    forall k | 0 <= k < |lines|
      ensures LineOf(props, render, lines[k])
    {
      if k < |prefix| {
        assert LineOf(init, render, prefix[k]);
        var j :| 0 <= j < |init| && !Hidden(init[j].name) && prefix[k] == PropertyLine(init[j], render);
        assert lines[k] == prefix[k] && props[j] == init[j];
      } else {
        assert lines[k] == PropertyLine(props[n], render);
      }
    }
  }

  lemma StepComplete(props: seq<Property>, render: Json -> string, prefix: seq<string>, lines: seq<string>)
    requires props != []
    requires forall j :: 0 <= j < |props| - 1 && !Hidden(props[j].name) ==> PropertyLine(props[j], render) in prefix
    requires var last := props[|props| - 1];
      lines == if Hidden(last.name) then prefix else prefix + [PropertyLine(last, render)]
    ensures forall j :: 0 <= j < |props| && !Hidden(props[j].name) ==> PropertyLine(props[j], render) in lines
  {
  }

  /** The lines of one more property: the earlier lines, then its own
      unless it is hidden. */
  lemma ShownLinesExtend(props: seq<Property>, i: nat, render: Json -> string)
    requires i < |props|
    ensures ShownLines(props[..i + 1], render) ==
      if Hidden(props[i].name) then ShownLines(props[..i], render)
      else ShownLines(props[..i], render) + [PropertyLine(props[i], render)]
  {
    assert props[..i + 1][..i] == props[..i];
  }

  /** `FormattedJsonData` as a value: "N/A" for a missing or empty payload;
      the raw text when it does not parse (the `catch`) or its root is not
      an object; otherwise the shown lines joined by ", ", or "N/A" when
      none is shown. `parse` is `JsonDocument.Parse`, None meaning it
      threw. */
  function FormatJson(jsonData: Option<string>, parse: string -> Option<Json>, render: Json -> string): string {
    if IsNullOrEmpty(jsonData) then "N/A"
    else match parse(jsonData.value)
      case None => jsonData.value
      case Some(root) =>
        if !root.JObject? then jsonData.value
        else
          var lines := ShownLines(root.props, render);
          if |lines| > 0 then Join(", ", lines) else "N/A"
  }

  /** The getter: the property loop accumulating `parts`. */
  method FormattedJsonData(jsonData: Option<string>, parse: string -> Option<Json>, render: Json -> string)
    returns (r: string)
    ensures r == FormatJson(jsonData, parse, render)
  {
    if IsNullOrEmpty(jsonData) {
      return "N/A";
    }
    var doc := parse(jsonData.value);
    if doc.None? {
      return jsonData.value;
    }
    var root := doc.value;
    if !root.JObject? {
      return jsonData.value;
    }
    var parts: seq<string> := [];
    var i := 0;
    while i < |root.props|
      invariant 0 <= i <= |root.props|
      invariant parts == ShownLines(root.props[..i], render)
    {
      var prop := root.props[i];
      ShownLinesExtend(root.props, i, render);
      if !Hidden(prop.name) {
        parts := parts + [PropertyLine(prop, render)];
      }
      i := i + 1;
    }
    assert root.props[..i] == root.props;
    r := if |parts| > 0 then Join(", ", parts) else "N/A";
  }

  /** A missing or empty payload shows as "N/A". */
  lemma MissingPayload(jsonData: Option<string>, parse: string -> Option<Json>, render: Json -> string)
    requires jsonData.None? || jsonData.value == ""
    ensures FormatJson(jsonData, parse, render) == "N/A"
  {
  }

  /** Text that does not parse comes back unchanged, so the getter never
      fails. */
  lemma UnparseablePayload(text: string, parse: string -> Option<Json>, render: Json -> string)
    requires text != "" && parse(text).None?
    ensures FormatJson(Some(text), parse, render) == text
  {
  }

  /** A root that is not an object comes back as the raw text. */
  lemma NonObjectPayload(text: string, parse: string -> Option<Json>, render: Json -> string)
    requires text != "" && parse(text).Some? && !parse(text).value.JObject?
    ensures FormatJson(Some(text), parse, render) == text
  {
  }

  /** An object with nothing to show (empty, or only the hidden names)
      shows as "N/A"; one with a shown property shows the joined lines. */
  lemma ObjectPayload(text: string, parse: string -> Option<Json>, render: Json -> string)
    requires text != "" && parse(text).Some? && parse(text).value.JObject?
    ensures var props := parse(text).value.props;
      FormatJson(Some(text), parse, render) ==
        if forall j :: 0 <= j < |props| ==> Hidden(props[j].name) then "N/A"
        else Join(", ", ShownLines(props, render))
  {
  }

  /** The hiding is exact and case-sensitive: a property named "userId" is
      shown. */
  lemma LowerCaseUserIdShown(render: Json -> string, v: Json)
    ensures ShownLines([Property("userId", v)], render) == [PropertyLine(Property("userId", v), render)]
  {
  }
}
