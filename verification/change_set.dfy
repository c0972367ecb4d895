/** The change-set pattern shared by the four edit handlers (users, roles,
    carriers, the own profile): each editable field is compared with the
    submitted value in a fixed order; a differing field adds the line
    "Field: 'old' → 'new'" and takes the new value. */
module ChangeSet {
  import opened Wrappers

  /** An editable field: its name in the line, and the text a null value
      shows as (empty for interpolation, "None" where `?? "None"` is used). */
  datatype Field = Field(name: string, nullText: string)

  function Show(v: Option<string>, nullText: string): string {
    v.GetOr(nullText)
  }

  /** One audit line, with the arrow U+2192 between the two quoted values. */
  function Line(f: Field, oldValue: Option<string>, newValue: Option<string>): string {
    f.name + ": '" + Show(oldValue, f.nullText) + "' → '" + Show(newValue, f.nullText) + "'"
  }

  /** The lines for the fields whose current and submitted values differ,
      in field order. */
  function ChangedLines(fields: seq<Field>, current: seq<Option<string>>, input: seq<Option<string>>): seq<string>
    requires |fields| == |current| == |input|
  {
    if fields == [] then []
    else
      var k := |fields| - 1;
      ChangedLines(fields[..k], current[..k], input[..k])
        + (if current[k] != input[k] then [Line(fields[k], current[k], input[k])] else [])
  }

  /** The number of fields whose values differ. */
  function DiffCount(current: seq<Option<string>>, input: seq<Option<string>>): nat
    requires |current| == |input|
  {
    if current == [] then 0
    else
      var k := |current| - 1;
      DiffCount(current[..k], input[..k]) + (if current[k] != input[k] then 1 else 0)
  }

  /** The compare-append-assign loop. `now` holds the record's field values
      as they evolve; after field i it holds the submitted value. */
  method TrackChanges(fields: seq<Field>, current: seq<Option<string>>, input: seq<Option<string>>)
    returns (now: seq<Option<string>>, lines: seq<string>)
    requires |fields| == |current| == |input|
    ensures now == input
    ensures lines == ChangedLines(fields, current, input)
  {
    now := current;
    lines := [];
    var i := 0;
    while i < |fields|
      invariant 0 <= i <= |fields|
      invariant |now| == |current|
      invariant now[..i] == input[..i] && now[i..] == current[i..]
      invariant lines == ChangedLines(fields[..i], current[..i], input[..i])
    {
      assert fields[..i + 1][..i] == fields[..i];
      assert current[..i + 1][..i] == current[..i];
      assert input[..i + 1][..i] == input[..i];
      assert now[i] == current[i];
      if now[i] != input[i] {
        lines := lines + [Line(fields[i], now[i], input[i])];
        now := now[i := input[i]];
      }
      i := i + 1;
    }
    assert fields[..i] == fields && current[..i] == current && input[..i] == input;
    assert now == now[..i];
  }

  /** There is one line per differing field. */
  lemma {:induction false} LineCount(fields: seq<Field>, current: seq<Option<string>>, input: seq<Option<string>>)
    requires |fields| == |current| == |input|
    ensures |ChangedLines(fields, current, input)| == DiffCount(current, input)
  {
    if fields != [] {
      var k := |fields| - 1;
      LineCount(fields[..k], current[..k], input[..k]);
    }
  }

  /** No line is written exactly when every field already equals the
      submitted value. */
  lemma {:induction false} NoLinesIffUnchanged(fields: seq<Field>, current: seq<Option<string>>, input: seq<Option<string>>)
    requires |fields| == |current| == |input|
    ensures ChangedLines(fields, current, input) == [] <==> current == input
  {
    if fields != [] {
      var k := |fields| - 1;
      NoLinesIffUnchanged(fields[..k], current[..k], input[..k]);
      assert current == current[..k] + [current[k]];
      assert input == input[..k] + [input[k]];
    }
  }

  /** The lines of a longer field list begin with the lines of its prefix:
      each handler's list is built in field order. */
  lemma {:induction false} LinesOfPrefix(fields: seq<Field>, current: seq<Option<string>>, input: seq<Option<string>>, n: nat)
    requires |fields| == |current| == |input| && n <= |fields|
    ensures ChangedLines(fields[..n], current[..n], input[..n]) <= ChangedLines(fields, current, input)
    decreases |fields|
  {
    if n < |fields| {
      var k := |fields| - 1;
      assert fields[..k][..n] == fields[..n];
      assert current[..k][..n] == current[..n];
      assert input[..k][..n] == input[..n];
      LinesOfPrefix(fields[..k], current[..k], input[..k], n);
    } else {
      assert fields[..n] == fields && current[..n] == current && input[..n] == input;
    }
  }

  /** A single differing field gives exactly its own line. */
  lemma OneChange(fields: seq<Field>, current: seq<Option<string>>, input: seq<Option<string>>, i: nat)
    requires |fields| == |current| == |input| && i < |fields|
    requires forall j :: 0 <= j < |fields| && j != i ==> current[j] == input[j]
    requires current[i] != input[i]
    ensures ChangedLines(fields, current, input) == [Line(fields[i], current[i], input[i])]
  {
    NoLinesIffUnchanged(fields[..i], current[..i], input[..i]);
    assert current[..i] == input[..i];
    assert ChangedLines(fields[..i + 1], current[..i + 1], input[..i + 1]) == [Line(fields[i], current[i], input[i])] by {
      assert fields[..i + 1][..i] == fields[..i];
      assert current[..i + 1][..i] == current[..i];
      assert input[..i + 1][..i] == input[..i];
    }
    TailUnchanged(fields, current, input, i + 1);
  }

  /** Fields past position n that all agree add no line. */
  lemma {:induction false} TailUnchanged(fields: seq<Field>, current: seq<Option<string>>, input: seq<Option<string>>, n: nat)
    requires |fields| == |current| == |input| && n <= |fields|
    requires forall j :: n <= j < |fields| ==> current[j] == input[j]
    ensures ChangedLines(fields, current, input) == ChangedLines(fields[..n], current[..n], input[..n])
    decreases |fields|
  {
    if n < |fields| {
      var k := |fields| - 1;
      assert fields[..k][..n] == fields[..n];
      assert current[..k][..n] == current[..n];
      assert input[..k][..n] == input[..n];
      TailUnchanged(fields[..k], current[..k], input[..k], n);
    } else {
      assert fields[..n] == fields && current[..n] == current && input[..n] == input;
    }
  }

  /** A first field that agrees adds no line. */
  lemma {:induction false} FirstUnchanged(fields: seq<Field>, current: seq<Option<string>>, input: seq<Option<string>>)
    requires |fields| == |current| == |input| > 0 && current[0] == input[0]
    ensures ChangedLines(fields, current, input) == ChangedLines(fields[1..], current[1..], input[1..])
    decreases |fields|
  {
    var k := |fields| - 1;
    if k > 0 {
      FirstUnchanged(fields[..k], current[..k], input[..k]);
      assert fields[..k][1..] == fields[1..][..k - 1];
      assert current[..k][1..] == current[1..][..k - 1];
      assert input[..k][1..] == input[1..][..k - 1];
    }
  }
}
