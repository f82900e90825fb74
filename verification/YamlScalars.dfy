/** Plain scalars of YAML (section 7.3.3 of YAML 1.2), for printable ASCII in a block: what the lines written
    after a key stand for when the first of them may start a plain scalar. */
module YamlScalars {
  import opened Wrappers
  import opened Manifest
  import opened ManifestLines

  // ---------- Lines ----------

  /** Characters that cannot start a plain scalar. */
  const INDICATORS := "[]{}&*!|>'\"%@`,#"

  predicate Printable(s: string) {
    forall i :: 0 <= i < |s| ==> ' ' <= s[i] <= '~'
  }

  predicate Adjacent(s: string, a: char, b: char) {
    exists i :: 0 <= i < |s| - 1 && s[i] == a && s[i + 1] == b
  }

  /** A `: ` or a colon at the end of a line makes a mapping. */
  predicate MapsInside(line: string) {
    line != "" && (Adjacent(line, ':', ' ') || line[|line| - 1] == ':')
  }

  /** A line of a plain scalar has no mapping and no comment in it. */
  predicate PlainLine(line: string) {
    && line != "" && Printable(line) && !MapsInside(line)
    && !Adjacent(line, ' ', '#') && line[0] != '#'
  }

  predicate PlainStart(s: string) {
    && s != "" && s[0] !in INDICATORS
    && (s[0] in "-?:" ==> |s| > 1 && s[1] != ' ')
  }

  predicate PlainScalar(lines: seq<string>) {
    && lines != [] && PlainStart(Trim(lines[0]))
    && forall i :: 0 <= i < |lines| ==> PlainLine(Trim(lines[i]))
  }

  /** The lines of one value: what follows the colon, and indented continuation lines. */
  predicate Written(lines: seq<string>) {
    lines != [] && forall i :: 0 <= i < |lines| ==> lines[i] != "" && lines[i][0] == ' ' && Printable(lines[i])
  }

  predicate Blank(lines: seq<string>) {
    forall i :: 0 <= i < |lines| ==> Trim(lines[i]) == ""
  }

  // ---------- Comments ----------

  /** Where the comment of a line starts, from `i` on: at a `#` that is first or follows a space. */
  function CommentAt(line: string, i: nat): (r: nat)
    requires i <= |line|
    ensures i <= r <= |line|
    ensures r < |line| ==> line[r] == '#' && (r == 0 || line[r - 1] == ' ')
    ensures forall j :: i <= j < r ==> !(line[j] == '#' && (j == 0 || line[j - 1] == ' '))
    decreases |line| - i
  {
    if i == |line| || (line[i] == '#' && (i == 0 || line[i - 1] == ' ')) then i else CommentAt(line, i + 1)
  }

  predicate HasComment(line: string) {
    CommentAt(line, 0) < |line|
  }

  function BeforeComment(line: string): string {
    TrimEnd(line[..CommentAt(line, 0)])
  }

  /** Nothing but blank lines and comments. */
  predicate OnlyComments(lines: seq<string>) {
    forall i :: 0 <= i < |lines| ==> Trim(lines[i]) == "" || Trim(lines[i])[0] == '#'
  }

  // ---------- Scanning ----------

  function Newlines(n: nat): (r: string)
    ensures |r| == n && forall i :: 0 <= i < n ==> r[i] == '\n'
  {
    if n == 0 then "" else "\n" + Newlines(n - 1)
  }

  /** A line break folds to a space, or, with blank lines behind it, to as many newlines. */
  function Between(gap: nat): string {
    if gap == 0 then " " else Newlines(gap)
  }

  /** A line that is not blank, and the lines after it. A mapping is refused; a comment ends the scalar, and
      nothing but comments may follow; otherwise the scalar goes on. */
  function ScanLine(before: string, line: string, rest: seq<string>): Option<string>
    decreases |rest|, 1
  {
    var text := BeforeComment(line);
    if MapsInside(text) then None
    else if !HasComment(line) then
      var tail :- ScanRest(rest, 0);
      Some(before + line + tail)
    else if !OnlyComments(rest) then None
    else Some(if text == "" then "" else before + text)
  }

  /** The lines after a line of the scalar; `gap` blank ones have been skipped. */
  function ScanRest(lines: seq<string>, gap: nat): Option<string>
    decreases |lines|, 0
  {
    if lines == [] then Some("")
    else if Trim(lines[0]) == "" then ScanRest(lines[1..], gap + 1)
    else ScanLine(Between(gap), Trim(lines[0]), lines[1..])
  }

  /** The text of the plain scalar the lines hold, or nothing when they are refused. */
  function ScanPlain(lines: seq<string>): Option<string>
    requires lines != []
  {
    ScanLine("", Trim(lines[0]), lines[1..])
  }

  // ---------- A plain scalar folds ----------

  lemma PlainHasNoComment(line: string)
    requires PlainLine(line)
    ensures !HasComment(line)
  {
    hide MapsInside, Printable;
  }

  lemma TrimmedText(line: string)
    requires Trim(line) != "" && !HasComment(Trim(line))
    ensures BeforeComment(Trim(line)) == Trim(line)
  {
    hide Trim, TrimEnd;
    TrimBothEnds(line);
    assert Trim(line)[..|Trim(line)|] == Trim(line);
    EndsNonblank(Trim(line));
  }

  lemma EndsNonblank(s: string)
    requires s == "" || !IsBlank(s[|s| - 1])
    ensures TrimEnd(s) == s
  {
  }

  lemma {:induction false} PlainRest(lines: seq<string>)
    requires forall i :: 0 <= i < |lines| ==> PlainLine(Trim(lines[i]))
    ensures ScanRest(lines, 0) == Some(if lines == [] then "" else " " + JoinLines(lines))
  {
    hide PlainLine, Trim, MapsInside, HasComment, BeforeComment;
    if lines != [] {
      var line := Trim(lines[0]);
      PlainRest(lines[1..]);
      PlainHasNoComment(line);
      PlainIsText(lines[0]);
      if |lines| > 1 {
        assert " " + line + (" " + JoinLines(lines[1..])) == " " + (line + " " + JoinLines(lines[1..]));
      } else {
        assert " " + line + "" == " " + line;
      }
    }
  }

  lemma PlainIsText(line: string)
    requires PlainLine(Trim(line))
    ensures Trim(line) != "" && BeforeComment(Trim(line)) == Trim(line) && !MapsInside(Trim(line))
  {
    hide Trim, BeforeComment, HasComment;
    PlainHasNoComment(Trim(line));
    TrimmedText(line);
  }

  /** Lines that make a plain scalar fold to its text. */
  lemma PlainScalarFolds(lines: seq<string>)
    requires PlainScalar(lines)
    ensures ScanPlain(lines) == Some(Fold(lines))
  {
    hide PlainLine, PlainStart, Trim, MapsInside, HasComment, BeforeComment;
    var line := Trim(lines[0]);
    PlainRest(lines[1..]);
    PlainHasNoComment(line);
    PlainIsText(lines[0]);
    if |lines| > 1 {
      assert "" + line + (" " + JoinLines(lines[1..])) == line + " " + JoinLines(lines[1..]);
    } else {
      assert "" + line + "" == line;
    }
    forall i | 0 <= i < |lines|
      ensures Trim(lines[i]) != ""
    {
      PlainIsText(lines[i]);
    }
    JoinedTrimmed(lines);
  }

  lemma {:induction false} JoinedTrimmed(lines: seq<string>)
    requires lines != [] && forall i :: 0 <= i < |lines| ==> Trim(lines[i]) != ""
    ensures var s := JoinLines(lines); s != "" && !IsBlank(s[0]) && !IsBlank(s[|s| - 1])
    ensures Trim(JoinLines(lines)) == JoinLines(lines)
  {
    hide Trim;
    TrimBothEnds(lines[0]);
    if |lines| > 1 {
      JoinedTrimmed(lines[1..]);
    }
    NothingToTrim(JoinLines(lines));
  }

  // ---------- Text that stands for itself ----------

  /** How many characters of a text are not blank. */
  function Weight(s: string): nat {
    |Strip(s)|
  }

  lemma WeightAppend(a: string, b: string)
    ensures Weight(a + b) == Weight(a) + Weight(b)
  {
    StripAppend(a, b);
  }

  lemma {:induction false} NewlinesWeigh(n: nat)
    ensures Weight(Newlines(n)) == 0
  {
    if n > 0 {
      NewlinesWeigh(n - 1);
      assert ("\n" + Newlines(n - 1))[1..] == Newlines(n - 1);
    }
  }

  lemma BetweenWeighs(gap: nat)
    ensures Weight(Between(gap)) == 0
  {
    StripBlank();
    NewlinesWeigh(gap);
  }

  lemma TrimWeighs(s: string)
    ensures Weight(Trim(s)) == Weight(s)
  {
    TrimKeeps(s);
  }

  lemma CommentWeighs(line: string)
    requires HasComment(line)
    ensures Weight(BeforeComment(line)) < Weight(line)
  {
    hide Strip, TrimEnd;
    var at := CommentAt(line, 0);
    var text, comment := line[..at], line[at..];
    assert line == text + comment && comment == "#" + line[at + 1..];
    WeightAppend(text, comment);
    WeightAppend("#", line[at + 1..]);
    HashWeighs();
    TrimEndKeeps(text);
  }

  lemma HashWeighs()
    ensures Weight("#") == 1
  {
    assert "#"[1..] == "";
  }

  lemma ConcatWeighs(lines: seq<string>)
    requires lines != []
    ensures Weight(Concat(lines)) == Weight(lines[0]) + Weight(Concat(lines[1..]))
  {
    hide Strip;
    WeightAppend(lines[0], Concat(lines[1..]));
  }

  /** A scalar never has more characters that are not blank than are written. */
  lemma {:induction false} NeverHeavier(lines: seq<string>, gap: nat)
    ensures ScanRest(lines, gap).Some? ==> Weight(ScanRest(lines, gap).value) <= Weight(Concat(lines))
    decreases |lines|, 0
  {
    hide Trim, Weight, Between;
    if lines == [] {
      EmptyWeighs();
    } else {
      ConcatWeighs(lines);
      TrimWeighs(lines[0]);
      if Trim(lines[0]) == "" {
        NeverHeavier(lines[1..], gap + 1);
      } else {
        BetweenWeighs(gap);
        LineNeverHeavier(Between(gap), Trim(lines[0]), lines[1..]);
      }
    }
  }

  lemma EmptyWeighs()
    ensures Weight("") == 0
  {
  }

  lemma {:induction false} LineNeverHeavier(before: string, line: string, rest: seq<string>)
    requires Weight(before) == 0
    ensures ScanLine(before, line, rest).Some? ==>
      var w := Weight(ScanLine(before, line, rest).value);
      w <= Weight(line) + Weight(Concat(rest)) && (HasComment(line) ==> w < Weight(line))
    decreases |rest|, 1
  {
    hide Weight, HasComment, BeforeComment, MapsInside;
    EmptyWeighs();
    if HasComment(line) {
      CommentWeighs(line);
      WeightAppend(before, BeforeComment(line));
    } else {
      NeverHeavier(rest, 0);
      if ScanRest(rest, 0).Some? {
        WeightAppend(before + line, ScanRest(rest, 0).value);
        WeightAppend(before, line);
      }
    }
  }

  /** After a blank line a newline is read, unless something that is written is not. */
  lemma {:induction false} GapShows(lines: seq<string>, gap: nat)
    requires lines != [] && Trim(lines[|lines| - 1]) != "" && gap > 0 && ScanRest(lines, gap).Some?
    ensures '\n' in ScanRest(lines, gap).value || Weight(ScanRest(lines, gap).value) < Weight(Concat(lines))
    decreases |lines|
  {
    hide Trim, Weight, HasComment, BeforeComment, MapsInside;
    ConcatWeighs(lines);
    TrimWeighs(lines[0]);
    if Trim(lines[0]) == "" {
      GapShows(lines[1..], gap + 1);
    } else {
      BetweenWeighs(gap);
      LineNeverHeavier(Between(gap), Trim(lines[0]), lines[1..]);
      if !HasComment(Trim(lines[0])) {
        assert Newlines(gap)[0] == '\n';
        assert ScanRest(lines, gap).value[0] == '\n';
      }
    }
  }

  /** If the scalar has all that is written, and no newline, every line is a line of a plain scalar. */
  lemma {:induction false} AllRead(lines: seq<string>)
    requires lines == [] || Trim(lines[|lines| - 1]) != ""
    requires (forall i :: 0 <= i < |lines| ==> Printable(Trim(lines[i]))) && ScanRest(lines, 0).Some?
    requires '\n' !in ScanRest(lines, 0).value && Weight(ScanRest(lines, 0).value) == Weight(Concat(lines))
    ensures forall i :: 0 <= i < |lines| ==> PlainLine(Trim(lines[i]))
    decreases |lines|, 0
  {
    hide Trim, Weight, PlainLine, Printable;
    if lines != [] {
      ConcatWeighs(lines);
      TrimWeighs(lines[0]);
      if Trim(lines[0]) == "" {
        EmptyWeighs();
        GapShows(lines[1..], 1);
        assert false;
      } else {
        BetweenWeighs(0);
        LineRead(" ", Trim(lines[0]), lines[1..]);
        TrimBothEnds(lines[0]);
        ReadLine(" ", lines[0], lines[1..]);
      }
    }
  }

  /** One line of such a scalar is plain, and the rest is such a scalar. */
  lemma {:induction false} LineRead(before: string, line: string, rest: seq<string>)
    requires Weight(before) == 0 && (rest == [] || Trim(rest[|rest| - 1]) != "")
    requires (forall i :: 0 <= i < |rest| ==> Printable(Trim(rest[i]))) && ScanLine(before, line, rest).Some?
    requires '\n' !in ScanLine(before, line, rest).value
    requires Weight(ScanLine(before, line, rest).value) == Weight(line) + Weight(Concat(rest))
    ensures !HasComment(line)
    ensures forall i :: 0 <= i < |rest| ==> PlainLine(Trim(rest[i]))
    decreases |rest|, 1
  {
    hide Trim, Weight, HasComment, BeforeComment, MapsInside, PlainLine, Printable;
    LineNeverHeavier(before, line, rest);
    var tail := ScanRest(rest, 0).value;
    WeightAppend(before + line, tail);
    WeightAppend(before, line);
    assert forall c :: c in tail ==> c in before + line + tail;
    AllRead(rest);
  }

  lemma ReadLine(before: string, raw: string, rest: seq<string>)
    requires Trim(raw) != "" && Printable(Trim(raw)) && !HasComment(Trim(raw))
    requires ScanLine(before, Trim(raw), rest).Some?
    ensures PlainLine(Trim(raw))
  {
    hide Trim, BeforeComment, ScanRest, MapsInside;
    TrimmedText(raw);
    NoComment(Trim(raw));
  }

  lemma NoComment(line: string)
    requires line != "" && !HasComment(line)
    ensures !Adjacent(line, ' ', '#') && line[0] != '#'
  {
  }

  /** A text on lines that may start a plain scalar is read as itself only if the lines are a plain scalar. */
  lemma ReadAsWritten(lines: seq<string>, text: string)
    requires Written(lines) && PlainStart(Trim(lines[0])) && Trim(lines[|lines| - 1]) != ""
    requires '\n' !in text && Weight(text) == Weight(Concat(lines))
    requires ScanPlain(lines) == Some(text)
    ensures PlainScalar(lines)
  {
    hide Trim, Weight, HasComment, BeforeComment, MapsInside, PlainLine, Printable, PlainStart;
    ConcatWeighs(lines);
    TrimWeighs(lines[0]);
    EmptyWeighs();
    TrimmedPrintable(lines);
    assert PlainStart(Trim(lines[0])) ==> Trim(lines[0]) != "" by { StartsWithSomething(Trim(lines[0])); }
    LineRead("", Trim(lines[0]), lines[1..]);
    ReadLine("", lines[0], lines[1..]);
    assert forall i :: 0 < i < |lines| ==> lines[i] == lines[1..][i - 1];
  }

  lemma StartsWithSomething(s: string)
    ensures PlainStart(s) ==> s != ""
  {
  }

  lemma TrimmedPrintable(lines: seq<string>)
    requires Written(lines)
    ensures forall i :: 0 <= i < |lines| ==> Printable(Trim(lines[i]))
  {
    hide Trim;
    forall i | 0 <= i < |lines|
      ensures Printable(Trim(lines[i]))
    {
      TrimKeeps(lines[i]);
      var s := Trim(lines[i]);
      assert forall j :: 0 <= j < |s| ==> s[j] in lines[i];
    }
  }

  /** A scanned scalar does not end in a blank. */
  lemma {:induction false} ScanEnds(lines: seq<string>, gap: nat)
    requires ScanRest(lines, gap).Some?
    ensures var t := ScanRest(lines, gap).value; t != "" ==> !IsBlank(t[|t| - 1])
    decreases |lines|, 0
  {
    hide Trim, Between;
    if lines != [] {
      if Trim(lines[0]) == "" {
        ScanEnds(lines[1..], gap + 1);
      } else {
        TrimBothEnds(lines[0]);
        LineEnds(Between(gap), Trim(lines[0]), lines[1..]);
      }
    }
  }

  lemma {:induction false} LineEnds(before: string, line: string, rest: seq<string>)
    requires line != "" && !IsBlank(line[|line| - 1]) && ScanLine(before, line, rest).Some?
    ensures var t := ScanLine(before, line, rest).value; t != "" ==> !IsBlank(t[|t| - 1])
    decreases |rest|, 1
  {
    hide MapsInside, HasComment, TrimEnd;
    if HasComment(line) {
      TrimEndLast(line[..CommentAt(line, 0)]);
    } else {
      ScanEnds(rest, 0);
    }
  }
}
