/** The .NET string operations the core relies on, over `seq<char>`.
    Case mapping is ASCII only; culture-sensitive casing is not modelled. */
module Text {
  import opened Wrappers

  /** `char.IsWhiteSpace`, restricted to the ASCII white-space characters. */
  predicate IsWhiteSpace(c: char) {
    c == ' ' || c == '\t' || c == '\n' || c == '\r' || c == '\U{000B}' || c == '\U{000C}'
  }

  /** Empty or made only of white space. */
  predicate IsBlank(s: string) {
    forall i :: 0 <= i < |s| ==> IsWhiteSpace(s[i])
  }

  /** `string.IsNullOrWhiteSpace`. */
  predicate IsNullOrWhiteSpace(s: Option<string>) {
    s.None? || IsBlank(s.value)
  }

  /** `string.IsNullOrEmpty`. */
  predicate IsNullOrEmpty(s: Option<string>) {
    s.None? || s.value == []
  }

  function LowerChar(c: char): char {
    if 'A' <= c <= 'Z' then (c as int + 32) as char else c
  }

  function UpperChar(c: char): char {
    if 'a' <= c <= 'z' then (c as int - 32) as char else c
  }

  /** `string.ToLower()`: same length; no upper-case letter is left, each
      one becomes its lower-case counterpart, and every other character is
      kept. */
  function ToLower(s: string): (r: string)
    ensures |r| == |s|
    ensures forall i :: 0 <= i < |r| ==> !('A' <= r[i] <= 'Z')
    ensures forall i :: 0 <= i < |s| && !('A' <= s[i] <= 'Z') ==> r[i] == s[i]
    ensures forall i :: 0 <= i < |s| && 'A' <= s[i] <= 'Z' ==> 'a' <= r[i] <= 'z' && r[i] as int == s[i] as int + 32
  {
    seq(|s|, i requires 0 <= i < |s| => LowerChar(s[i]))
  }

  /** `string.ToUpper()`: same length; no lower-case letter is left, each
      one becomes its upper-case counterpart, and every other character is
      kept. */
  function ToUpper(s: string): (r: string)
    ensures |r| == |s|
    ensures forall i :: 0 <= i < |r| ==> !('a' <= r[i] <= 'z')
    ensures forall i :: 0 <= i < |s| && !('a' <= s[i] <= 'z') ==> r[i] == s[i]
    ensures forall i :: 0 <= i < |s| && 'a' <= s[i] <= 'z' ==> 'A' <= r[i] <= 'Z' && r[i] as int == s[i] as int - 32
  {
    seq(|s|, i requires 0 <= i < |s| => UpperChar(s[i]))
  }

  /** Lowering twice lowers once. */
  lemma ToLowerIdempotent(s: string)
    ensures ToLower(ToLower(s)) == ToLower(s)
  {
  }

  /** Raising twice raises once. */
  lemma ToUpperIdempotent(s: string)
    ensures ToUpper(ToUpper(s)) == ToUpper(s)
  {
  }

  /** Two strings agree after upper-casing exactly when they agree after
      lower-casing: both foldings identify the same strings. */
  lemma FoldingsAgree(a: string, b: string)
    ensures ToUpper(a) == ToUpper(b) <==> ToLower(a) == ToLower(b)
  {
    if ToUpper(a) == ToUpper(b) {
      assert forall i :: 0 <= i < |a| ==> ToLower(a)[i] == ToLower(b)[i] by {
        forall i | 0 <= i < |a| ensures ToLower(a)[i] == ToLower(b)[i] {
          assert ToUpper(a)[i] == ToUpper(b)[i];
        }
      }
    }
    if ToLower(a) == ToLower(b) {
      assert forall i :: 0 <= i < |a| ==> ToUpper(a)[i] == ToUpper(b)[i] by {
        forall i | 0 <= i < |a| ensures ToUpper(a)[i] == ToUpper(b)[i] {
          assert ToLower(a)[i] == ToLower(b)[i];
        }
      }
    }
  }

  /** Identity compares user e-mails and role names after normalising them
      to upper case. */
  predicate SameNormalized(a: string, b: string) {
    ToUpper(a) == ToUpper(b)
  }

  predicate OccursAt(sub: string, s: string, i: nat) {
    i + |sub| <= |s| && s[i..i + |sub|] == sub
  }

  /** Ordinal `string.Contains`. */
  predicate Contains(s: string, sub: string) {
    exists i :: 0 <= i <= |s| && OccursAt(sub, s, i)
  }

  /** `string.Join(sep, parts)`. */
  function Join(sep: string, parts: seq<string>): string {
    if |parts| == 0 then ""
    else if |parts| == 1 then parts[0]
    else parts[0] + sep + Join(sep, parts[1..])
  }

  /** Ordinal ordering of strings (`string.CompareOrdinal(a, b) < 0`). */
  predicate Less(a: string, b: string) {
    if a == [] then b != []
    else if b == [] then false
    else if a[0] != b[0] then a[0] < b[0]
    else Less(a[1..], b[1..])
  }

  lemma {:induction false} LessIrreflexive(a: string)
    ensures !Less(a, a)
  {
    if a != [] {
      LessIrreflexive(a[1..]);
    }
  }

  lemma {:induction false} LessTransitive(a: string, b: string, c: string)
    requires Less(a, b) && Less(b, c)
    ensures Less(a, c)
  {
    if a != [] && b != [] && c != [] && a[0] == b[0] == c[0] {
      LessTransitive(a[1..], b[1..], c[1..]);
    }
  }

  lemma {:induction false} LessTotal(a: string, b: string)
    requires a != b
    ensures Less(a, b) || Less(b, a)
  {
    if a != [] && b != [] && a[0] == b[0] {
      assert a == [a[0]] + a[1..] && b == [b[0]] + b[1..];
      LessTotal(a[1..], b[1..]);
    }
  }

  lemma {:induction false} LessAsymmetric(a: string, b: string)
    requires Less(a, b)
    ensures !Less(b, a)
  {
    if a != [] && b != [] && a[0] == b[0] {
      LessAsymmetric(a[1..], b[1..]);
    }
  }

  /** The number of leading characters of s that are not ' '. */
  function WordLength(s: string): (n: nat)
    ensures n <= |s|
    ensures forall i :: 0 <= i < n ==> s[i] != ' '
    ensures n < |s| ==> s[n] == ' '
  {
    if s == [] || s[0] == ' ' then 0 else 1 + WordLength(s[1..])
  }

  /** Nothing but spaces (the empty string included). */
  predicate AllSpaces(s: string) {
    s == [] || (s[0] == ' ' && AllSpaces(s[1..]))
  }

  /** s read left to right with its blank runs collapsed: a space is
      written in front of a character only when a run of spaces was skipped
      after earlier output (`gap`); spaces before any output (`started` is
      false) and at the end are dropped. */
  function Collapse(s: string, gap: bool, started: bool): string
    decreases |s|
  {
    if s == [] then []
    else if s[0] == ' ' then Collapse(s[1..], started, started)
    else (if gap then " " else "") + [s[0]] + Collapse(s[1..], false, true)
  }

  /** s with its leading and trailing spaces dropped and every inner run of
      spaces collapsed to one. */
  function Squeeze(s: string): (r: string)
    ensures r == [] <==> AllSpaces(s)
  {
    CollapseEmpty(s, false, false);
    Collapse(s, false, false)
  }

  lemma {:induction false} CollapseEmpty(s: string, gap: bool, started: bool)
    ensures Collapse(s, gap, started) == [] <==> AllSpaces(s)
    decreases |s|
  {
    if s != [] && s[0] == ' ' {
      CollapseEmpty(s[1..], started, started);
    }
  }

  /** The squeezed text neither starts nor ends with a space and holds no
      two spaces in a row. */
  lemma SqueezeTrimmed(s: string)
    ensures var r := Squeeze(s);
      && (r != [] ==> r[0] != ' ' && r[|r| - 1] != ' ')
      && forall i :: 0 <= i < |r| - 1 && r[i] == ' ' ==> r[i + 1] != ' '
  {
    CollapseTrimmed(s, false, false);
  }

  lemma {:induction false} CollapseTrimmed(s: string, gap: bool, started: bool)
    ensures var r := Collapse(s, gap, started);
      && (r != [] ==> (r[0] == ' ' ==> gap || started) && r[|r| - 1] != ' ')
      && forall i :: 0 <= i < |r| - 1 && r[i] == ' ' ==> r[i + 1] != ' '
    decreases |s|
  {
    if s != [] {
      if s[0] == ' ' {
        CollapseTrimmed(s[1..], started, started);
      } else {
        CollapseTrimmed(s[1..], false, true);
        var q := Collapse(s[1..], false, true);
        var head := (if gap then " " else "") + [s[0]];
        assert Collapse(s, gap, started) == head + q;
        assert head[|head| - 1] != ' ';
      }
    }
  }

  /** After earlier output, what follows a word is empty when only spaces
      remain and otherwise one space and the squeezed remainder. */
  lemma {:induction false} CollapseAfterWord(t: string)
    requires t == [] || t[0] == ' '
    ensures Collapse(t, false, true) == if AllSpaces(t) then [] else " " + Squeeze(t)
  {
    if t != [] {
      CollapseGap(t[1..]);
    }
  }

  lemma {:induction false} CollapseGap(t: string)
    ensures Collapse(t, true, true) == if AllSpaces(t) then [] else " " + Collapse(t, false, false)
    decreases |t|
  {
    if t != [] && t[0] == ' ' {
      CollapseGap(t[1..]);
    }
  }

  /** `s.Split(' ', StringSplitOptions.RemoveEmptyEntries)`: the maximal
      runs of non-space characters of s, in order. Joined back with single
      spaces they give s with its blank runs collapsed; `WordsUnique` shows
      that this fixes the split. */
  function Words(s: string): (ws: seq<string>)
    ensures forall k :: 0 <= k < |ws| ==> ws[k] != [] && ' ' !in ws[k]
    ensures Join(" ", ws) == Squeeze(s)
    decreases |s|
  {
    if s == [] then []
    else if s[0] == ' ' then Words(s[1..])
    else
      var n := WordLength(s);
      var rest := Words(s[n..]);
      SqueezeFirstWord(s, rest);
      [s[..n]] + rest
  }

  /** The squeezed text is the first word, then (when more words follow)
      one space and the squeezed remainder. */
  lemma SqueezeFirstWord(s: string, rest: seq<string>)
    requires s != [] && s[0] != ' '
    requires forall k :: 0 <= k < |rest| ==> rest[k] != []
    requires Join(" ", rest) == Squeeze(s[WordLength(s)..])
    ensures Join(" ", [s[..WordLength(s)]] + rest) == Squeeze(s)
  {
    var n := WordLength(s);
    SqueezeSplit(s);
    CollapseAfterJoin(s[n..], rest);
    JoinAfterWord(s[..n], Collapse(s[n..], false, true), rest);
  }

  lemma SqueezeSplit(s: string)
    requires s != [] && s[0] != ' '
    ensures Squeeze(s) == s[..WordLength(s)] + Collapse(s[WordLength(s)..], false, true)
  {
    CollapseRun(s, false, false);
    assert "" + s[..WordLength(s)] == s[..WordLength(s)];
  }

  lemma CollapseAfterJoin(t: string, rest: seq<string>)
    requires t == [] || t[0] == ' '
    requires forall k :: 0 <= k < |rest| ==> rest[k] != []
    requires Join(" ", rest) == Squeeze(t)
    ensures Collapse(t, false, true) == if rest == [] then [] else " " + Join(" ", rest)
  {
    CollapseAfterWord(t);
    JoinEmpty(rest);
  }

  lemma JoinAfterWord(w: string, x: string, rest: seq<string>)
    requires x == if rest == [] then [] else " " + Join(" ", rest)
    ensures Join(" ", [w] + rest) == w + x
  {
    JoinCons(w, rest);
    if rest == [] {
      assert w + [] == w;
    } else {
      assert w + (" " + Join(" ", rest)) == w + " " + Join(" ", rest);
    }
  }

  /** Joining a leading part onto the others. */
  lemma JoinCons(w: string, rest: seq<string>)
    ensures Join(" ", [w] + rest) == if rest == [] then w else w + " " + Join(" ", rest)
  {
    assert ([w] + rest)[1..] == rest;
  }

  /** Joining non-empty parts gives the empty string only for no parts. */
  lemma JoinEmpty(parts: seq<string>)
    requires forall k :: 0 <= k < |parts| ==> parts[k] != []
    ensures Join(" ", parts) == [] <==> parts == []
  {
  }

  /** A word's run is copied as it is, behind the pending space if any. */
  lemma {:induction false} CollapseRun(s: string, gap: bool, started: bool)
    requires s != [] && s[0] != ' '
    ensures var n := WordLength(s);
      Collapse(s, gap, started) == (if gap then " " else "") + s[..n] + Collapse(s[n..], false, true)
    decreases |s|
  {
    var n := WordLength(s);
    var t := s[1..];
    var head := if gap then " " else "";
    if n == 1 {
      assert s[..1] == [s[0]];
    } else {
      assert WordLength(t) == n - 1;
      var x := Collapse(s[n..], false, true);
      CollapseRun(t, false, true);
      assert t[n - 1..] == s[n..];
      RunStep(s, n, head, Collapse(t, false, true), x);
    }
  }

  lemma RunStep(s: string, n: nat, head: string, rest: string, x: string)
    requires 1 <= n <= |s| && rest == s[1..][..n - 1] + x
    ensures head + [s[0]] + rest == head + s[..n] + x
  {
    assert [s[0]] + s[1..][..n - 1] == s[..n];
  }

  /** Splitting the single-space join of non-empty, space-free words gives
      those words back. */
  lemma {:induction false} WordsOfJoin(ws: seq<string>)
    requires forall k :: 0 <= k < |ws| ==> ws[k] != [] && ' ' !in ws[k]
    ensures Words(Join(" ", ws)) == ws
  {
    if ws != [] {
      var rest := ws[1..];
      assert ws == [ws[0]] + rest;
      JoinCons(ws[0], rest);
      if rest == [] {
        WordsOfWord(ws[0], "");
        assert ws[0] + "" == ws[0];
      } else {
        WordsOfJoin(rest);
        WordsBeforeJoin(ws[0], Join(" ", rest), rest);
      }
    }
  }

  lemma WordsBeforeJoin(w: string, tail: string, rest: seq<string>)
    requires w != [] && ' ' !in w && Words(tail) == rest
    ensures Words(w + " " + tail) == [w] + rest
  {
    WordsOfWord(w, " " + tail);
    WordsSpace(" " + tail);
    assert (" " + tail)[1..] == tail;
    assert w + " " + tail == w + (" " + tail);
  }

  /** A word followed by nothing or by a space splits off first. */
  lemma WordsOfWord(w: string, tail: string)
    requires w != [] && ' ' !in w
    requires tail == [] || tail[0] == ' '
    ensures Words(w + tail) == [w] + Words(tail)
  {
    WordLengthOf(w, tail);
    assert (w + tail)[..|w|] == w;
    assert (w + tail)[|w|..] == tail;
  }

  /** A leading space is skipped. */
  lemma WordsSpace(s: string)
    requires s != [] && s[0] == ' '
    ensures Words(s) == Words(s[1..])
  {
  }

  /** The squeeze equation of `Words` admits one solution only: any list of
      non-empty, space-free words that joins to the squeezed text is the
      split. */
  lemma WordsUnique(s: string, ws: seq<string>)
    requires forall k :: 0 <= k < |ws| ==> ws[k] != [] && ' ' !in ws[k]
    requires Join(" ", ws) == Squeeze(s)
    ensures ws == Words(s)
  {
    WordsOfJoin(ws);
    WordsOfJoin(Words(s));
  }

  /** Splitting yields no word exactly when s holds nothing but spaces. */
  lemma {:induction false} WordsEmptyIffSpaces(s: string)
    ensures Words(s) == [] <==> forall i :: 0 <= i < |s| ==> s[i] == ' '
    decreases |s|
  {
    if s != [] && s[0] == ' ' {
      WordsEmptyIffSpaces(s[1..]);
      assert forall i :: 1 <= i < |s| ==> s[i] == s[1..][i - 1];
    }
  }

  /** The first word begins at the first character that is not a space. */
  lemma {:induction false} FirstWordStart(s: string, i: nat)
    requires i < |s| && s[i] != ' '
    requires forall j :: 0 <= j < i ==> s[j] == ' '
    ensures Words(s) != [] && Words(s)[0][0] == s[i]
    decreases |s|
  {
    if s[0] == ' ' {
      FirstWordStart(s[1..], i - 1);
    }
  }

  /** Two space-free words joined by one space split back into those two. */
  lemma WordsOfTwo(a: string, b: string)
    requires a != [] && b != [] && ' ' !in a && ' ' !in b
    ensures Words(a + " " + b) == [a, b]
  {
    JoinCons(a, [b]);
    WordsOfJoin([a, b]);
  }

  lemma {:induction false} WordLengthOf(a: string, rest: string)
    requires ' ' !in a
    requires rest == [] || rest[0] == ' '
    ensures WordLength(a + rest) == |a|
  {
    if a != [] {
      assert (a + rest)[1..] == a[1..] + rest;
      WordLengthOf(a[1..], rest);
    } else {
      assert a + rest == rest;
    }
  }
}
