/** `UserViewModel`'s computed display properties. */
module UserView {
  import opened Text

  /** `FullName`: first name, one space, last name. */
  function FullName(firstName: string, lastName: string): (r: string)
    ensures |r| == |firstName| + 1 + |lastName|
    ensures r[..|firstName|] == firstName
    ensures r[|firstName|] == ' '
    ensures r[|firstName| + 1..] == lastName
  {
    firstName + " " + lastName
  }

  /** The upper-cased first character of a name, '?' for an empty one. */
  function NameInitial(name: string): (c: char)
    ensures name == [] ==> c == '?'
    ensures name != [] ==> c == UpperChar(name[0])
    ensures UpperChar(c) == c
  {
    if |name| > 0 then UpperChar(name[0]) else '?'
  }

  /** `Initials`: one character per name part, '?' for an empty part. */
  function Initials(firstName: string, lastName: string): (r: string)
    ensures |r| == 2
    ensures r[0] == NameInitial(firstName) && r[1] == NameInitial(lastName)
  {
    ToUpper([if |firstName| > 0 then firstName[0] else '?', if |lastName| > 0 then lastName[0] else '?'])
  }

  /** The initials are already upper case: upper-casing them again is the
      identity. */
  lemma InitialsUppercase(firstName: string, lastName: string)
    ensures ToUpper(Initials(firstName, lastName)) == Initials(firstName, lastName)
  {
    var r := Initials(firstName, lastName);
    assert ToUpper(r)[0] == UpperChar(r[0]) == r[0];
    assert ToUpper(r)[1] == UpperChar(r[1]) == r[1];
  }
}
