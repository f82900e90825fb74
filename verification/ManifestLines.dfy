/** Folding an entry's lines into its value, as YAML does: each line trimmed, joined by one space. */
module ManifestLines {
  import opened Wrappers
  import opened Manifest

  // ---------- Trimming ----------

  lemma {:induction false} TrimStartKeeps(s: string)
    ensures Strip(TrimStart(s)) == Strip(s)
    ensures TrimStart(s) != "" ==> !IsBlank(TrimStart(s)[0])
    ensures forall c :: c in TrimStart(s) ==> c in s
  {
    if s != "" && IsBlank(s[0]) {
      TrimStartKeeps(s[1..]);
    }
  }

  lemma {:induction false} TrimEndKeeps(s: string)
    ensures Strip(TrimEnd(s)) == Strip(s)
    ensures TrimEnd(s) <= s
  {
    if s != "" && IsBlank(s[|s| - 1]) {
      var init, last := s[..|s| - 1], [s[|s| - 1]];
      TrimEndKeeps(init);
      assert s == init + last && last[1..] == "";
      StripAppend(init, last);
    }
  }

  lemma TrimKeeps(s: string)
    ensures Strip(Trim(s)) == Strip(s)
    ensures Trim(s) != "" ==> !IsBlank(Trim(s)[0])
    ensures forall c :: c in Trim(s) ==> c in s
  {
    TrimStartKeeps(s);
    TrimEndKeeps(TrimStart(s));
  }

  /** Trimming the end stops at a character that is not blank. */
  lemma {:induction false} TrimEndAfter(p: string, s: string)
    requires p != "" && !IsBlank(p[|p| - 1])
    ensures TrimEnd(p + s) == p + TrimEnd(s)
    decreases |s|
  {
    if s == "" {
      assert p + s == p;
    } else if IsBlank(s[|s| - 1]) {
      assert (p + s)[..|p + s| - 1] == p + s[..|s| - 1];
      TrimEndAfter(p, s[..|s| - 1]);
    }
  }

  lemma TrimEndLast(s: string)
    ensures TrimEnd(s) != "" ==> !IsBlank(TrimEnd(s)[|TrimEnd(s)| - 1])
  {
  }

  lemma TrimBothEnds(s: string)
    ensures Trim(s) != "" ==> !IsBlank(Trim(s)[0]) && !IsBlank(Trim(s)[|Trim(s)| - 1])
  {
    TrimKeeps(s);
    TrimEndLast(TrimStart(s));
  }

  lemma NothingToTrim(s: string)
    requires s == "" || (!IsBlank(s[0]) && !IsBlank(s[|s| - 1]))
    ensures Trim(s) == s
  {
  }

  // ---------- One entry ----------

  /** What every entry satisfies: a key on which the first line cannot break. */
  ghost predicate WellKeyed(e: Entry) {
    && 0 < |e.key| < LINE_BYTES - 4
    && (forall c :: c in e.key ==> '!' <= c <= '~' && c != ':')
    && '\n' !in e.value
  }

  /** Where the first line of an entry ends. */
  ghost function Break(e: Entry): (n: nat)
    ensures n <= |e.Text()|
  {
    if |e.Text()| <= LINE_BYTES then |e.Text()| else LINE_BYTES
  }

  /** The value of an entry, with the space before it, cut where the lines of the entry break. */
  ghost function Pieces(e: Entry): (r: seq<string>)
    requires WellKeyed(e)
    ensures r != []
  {
    [e.Text()[|e.key| + 1..Break(e)]] + Chunks(e.Text()[Break(e)..])
  }

  /** The lines the value is written on: every piece but the first is indented. */
  ghost function ValueLines(e: Entry): (r: seq<string>)
    requires WellKeyed(e)
    ensures |r| == |Pieces(e)|
  {
    [Pieces(e)[0]] + Indent(Pieces(e)[1..])
  }

  /** The text the lines of a value fold to. */
  function Fold(lines: seq<string>): string {
    Trim(JoinLines(lines))
  }

  ghost function Folded(e: Entry): string
    requires WellKeyed(e)
  {
    Fold(ValueLines(e))
  }

  lemma EntryLines(e: Entry)
    requires WellKeyed(e)
    ensures FoldedLines(e.Text()) == [e.key + ":" + Pieces(e)[0]] + Indent(Pieces(e)[1..])
    ensures '\n' !in e.Text()
  {
    hide Indent;
    assert e.Text()[..|e.Text()|] == e.Text();
    assert e.Text()[..|e.key| + 1] == e.key + ":";
    assert e.Text()[..Break(e)] == e.key + ":" + Pieces(e)[0];
  }

  lemma PiecesConcat(e: Entry)
    requires WellKeyed(e)
    ensures Concat(Pieces(e)) == " " + e.value
  {
    hide Chunks;
    var text, after := e.Text(), |e.key| + 1;
    ChunksConcat(text[Break(e)..]);
    assert Pieces(e)[1..] == Chunks(text[Break(e)..]);
    assert text == (e.key + ":") + (" " + e.value);
    assert text[after..] == " " + e.value;
    assert text[after..Break(e)] + text[Break(e)..] == text[after..];
  }

  /** Indentation is trimmed away again. */
  lemma {:induction false} IndentJoins(parts: seq<string>)
    ensures JoinLines(Indent(parts)) == JoinLines(parts)
  {
    if parts != [] {
      hide TrimEnd;
      assert (" " + parts[0])[1..] == parts[0];
      assert Indent(parts)[1..] == Indent(parts[1..]);
      IndentJoins(parts[1..]);
    }
  }

  lemma FoldedPieces(e: Entry)
    requires WellKeyed(e)
    ensures Folded(e) == Fold(Pieces(e))
  {
    hide Trim, Pieces;
    var ps := Pieces(e);
    assert ValueLines(e)[1..] == Indent(ps[1..]);
    IndentJoins(ps[1..]);
  }

  lemma {:induction false} StripJoin(lines: seq<string>)
    ensures Strip(JoinLines(lines)) == Strip(Concat(lines))
  {
    if lines != [] {
      hide Trim;
      TrimKeeps(lines[0]);
      StripAppend(lines[0], Concat(lines[1..]));
      StripJoin(lines[1..]);
      if |lines| > 1 {
        var rest := JoinLines(lines[1..]);
        assert Trim(lines[0]) + " " + rest == Trim(lines[0]) + (" " + rest);
        assert (" " + rest)[1..] == rest;
        StripAppend(Trim(lines[0]), " " + rest);
      } else {
        assert lines[0] + "" == lines[0];
      }
    }
  }

  /** Folding changes nothing but whitespace. */
  lemma FoldedKeeps(e: Entry)
    requires WellKeyed(e)
    ensures Strip(Folded(e)) == Strip(e.value)
  {
    hide Fold, Trim, JoinLines, Strip, Pieces, Concat;
    FoldedPieces(e);
    FoldStrips(Pieces(e));
    PiecesConcat(e);
    StripAppend(" ", e.value);
    StripBlank();
  }

  lemma FoldStrips(lines: seq<string>)
    ensures Strip(Fold(lines)) == Strip(Concat(lines))
  {
    hide Trim;
    TrimKeeps(JoinLines(lines));
    StripJoin(lines);
  }

  lemma StripBlank()
    ensures Strip(" ") == "" && Strip("") == ""
  {
    assert " "[1..] == "";
  }

  // ---------- When folding gives the value back ----------

  /** Every blank is a space. */
  ghost predicate NoTabs(s: string) {
    forall i :: 0 <= i < |s| ==> s[i] != '\t'
  }

  ghost function Blanks(n: nat): (r: string)
    ensures |r| == n && forall i :: 0 <= i < n ==> r[i] == ' '
  {
    if n == 0 then "" else " " + Blanks(n - 1)
  }

  /** How many blanks a text starts with, and how many it ends with. */
  function Lead(s: string): (n: nat)
    ensures n <= |s| && TrimStart(s) == s[n..]
  {
    if s != "" && IsBlank(s[0]) then 1 + Lead(s[1..]) else 0
  }

  function Trail(s: string): (n: nat)
    ensures n <= |s| && TrimEnd(s) == s[..|s| - n]
  {
    if s != "" && IsBlank(s[|s| - 1]) then 1 + Trail(s[..|s| - 1]) else 0
  }

  /** At every line break the text has exactly one space, on one side of it, and no line is blank. */
  predicate BreaksAtSpaces(pieces: seq<string>)
    requires pieces != []
  {
    && TrimStart(pieces[0]) != ""
    && (|pieces| > 1 ==> Trail(pieces[0]) + Lead(pieces[1]) == 1 && BreaksAtSpaces(pieces[1..]))
  }

  lemma {:induction false} LeadBlanks(s: string)
    requires NoTabs(s)
    ensures s == Blanks(Lead(s)) + TrimStart(s)
  {
    if s != "" && IsBlank(s[0]) {
      LeadBlanks(s[1..]);
    }
  }

  lemma {:induction false} TrailSpaces(s: string)
    requires NoTabs(s)
    ensures forall i :: |s| - Trail(s) <= i < |s| ==> s[i] == ' '
  {
    if s != "" && IsBlank(s[|s| - 1]) {
      var init := s[..|s| - 1];
      TrailSpaces(init);
      forall i | |s| - Trail(s) <= i < |s|
        ensures s[i] == ' '
      {
        assert i < |init| ==> s[i] == init[i];
      }
    }
  }

  lemma TrailBlanks(s: string)
    requires NoTabs(s)
    ensures s == TrimEnd(s) + Blanks(Trail(s))
    ensures forall i :: |TrimEnd(s)| <= i < |s| ==> s[i] == ' '
  {
    hide TrimEnd, Blanks, Trail;
    TrailSpaces(s);
    assert s[|s| - Trail(s)..] == Blanks(Trail(s));
  }

  lemma BlanksAppend(m: nat, n: nat)
    ensures Blanks(m) + Blanks(n) == Blanks(m + n)
  {
  }

  /** Blanks before a text, and nothing blank where it starts. */
  lemma {:induction false} LeadOf(n: nat, s: string)
    requires s == "" || !IsBlank(s[0])
    ensures Lead(Blanks(n) + s) == n && TrimStart(Blanks(n) + s) == s
  {
    if n > 0 {
      assert (Blanks(n) + s)[1..] == Blanks(n - 1) + s;
      LeadOf(n - 1, s);
    } else {
      assert Blanks(0) + s == s;
    }
  }

  /** Trimming the start of a text that is not blank leaves what follows it alone. */
  lemma {:induction false} TrimStartBefore(a: string, b: string)
    requires TrimStart(a) != ""
    ensures TrimStart(a + b) == TrimStart(a) + b && Lead(a + b) == Lead(a)
  {
    if IsBlank(a[0]) {
      assert (a + b)[1..] == a[1..] + b;
      TrimStartBefore(a[1..], b);
    }
  }

  /** Pieces of a single-line text: none is empty, only the last is short, and the text ends in no blank. */
  ghost predicate Cut(pieces: seq<string>) {
    && pieces != []
    && (forall i :: 0 <= i < |pieces| ==> NoTabs(pieces[i]) && pieces[i] != "")
    && (forall i :: 0 <= i < |pieces| - 1 ==> |pieces[i]| >= 3)
    && !IsBlank(pieces[|pieces| - 1][|pieces[|pieces| - 1]| - 1])
  }

  lemma CutTail(pieces: seq<string>)
    requires Cut(pieces) && |pieces| > 1
    ensures Cut(pieces[1..]) && NoTabs(pieces[0]) && |pieces[0]| >= 3
  {
  }

  lemma {:induction false} CutConcat(pieces: seq<string>)
    requires Cut(pieces)
    ensures Concat(pieces) != "" && NoTabs(Concat(pieces))
    ensures !IsBlank(Concat(pieces)[|Concat(pieces)| - 1])
  {
    if |pieces| == 1 {
      assert pieces[0] + "" == pieces[0];
    } else {
      CutTail(pieces);
      CutConcat(pieces[1..]);
    }
  }

  lemma {:induction false} SomethingLeft(s: string)
    requires s != "" && !IsBlank(s[|s| - 1])
    ensures TrimStart(s) != ""
  {
    if IsBlank(s[0]) {
      assert |s| > 1;
      SomethingLeft(s[1..]);
    }
  }

  lemma {:induction false} AllBlank(s: string)
    requires TrimStart(s) == ""
    ensures Lead(s) == |s| && Trim(s) == ""
  {
    assert TrimStart(s) == s[Lead(s)..];
  }

  /** Joining leaves at most a third of the blanks a text starts with, and none only if its first line is
      not blank. */
  lemma {:induction false} JoinedLead(pieces: seq<string>)
    requires Cut(pieces)
    ensures TrimStart(pieces[0]) != "" ==> Lead(JoinLines(pieces)) == 0 && Lead(Concat(pieces)) == Lead(pieces[0])
    ensures TrimStart(pieces[0]) == "" ==> Lead(JoinLines(pieces)) > 0
    ensures Lead(Concat(pieces)) >= 3 * Lead(JoinLines(pieces))
  {
    assert pieces != [];
    hide Trim, TrimStart, TrimEnd, NoTabs, Cut, Lead, JoinLines, Concat;
    if |pieces| == 1 {
      OnlyPieceLead(pieces);
    } else {
      CutTail(pieces);
      if TrimStart(pieces[0]) != "" {
        NonblankLead(pieces);
      } else {
        JoinedLead(pieces[1..]);
        BlankLead(pieces);
      }
    }
  }

  lemma OnlyPieceLead(pieces: seq<string>)
    requires Cut(pieces) && |pieces| == 1
    ensures TrimStart(pieces[0]) != ""
    ensures Lead(JoinLines(pieces)) == 0 && Lead(Concat(pieces)) == Lead(pieces[0])
  {
    hide Trim, TrimStart, TrimEnd, NoTabs;
    var first := pieces[0];
    assert first + "" == first;
    TrimBothEnds(first);
    SomethingLeft(first);
    TrimmedNonblank(first);
  }

  lemma NonblankLead(pieces: seq<string>)
    requires |pieces| > 1 && TrimStart(pieces[0]) != ""
    ensures Lead(JoinLines(pieces)) == 0 && Lead(Concat(pieces)) == Lead(pieces[0])
  {
    hide Trim, TrimStart, TrimEnd;
    TrimBothEnds(pieces[0]);
    TrimmedNonblank(pieces[0]);
    TrimStartBefore(pieces[0], Concat(pieces[1..]));
    StartsAlike(Trim(pieces[0]), " " + JoinLines(pieces[1..]));
    assert JoinLines(pieces) == Trim(pieces[0]) + (" " + JoinLines(pieces[1..]));
  }

  lemma StartsAlike(a: string, b: string)
    requires a != "" && !IsBlank(a[0])
    ensures Lead(a + b) == 0
  {
    assert (a + b)[0] == a[0];
  }

  lemma BlankLead(pieces: seq<string>)
    requires |pieces| > 1 && TrimStart(pieces[0]) == ""
    ensures Lead(JoinLines(pieces)) == 1 + Lead(JoinLines(pieces[1..]))
    ensures Lead(Concat(pieces)) == |pieces[0]| + Lead(Concat(pieces[1..]))
  {
    hide Trim, TrimStart, TrimEnd;
    var first, rest := pieces[0], pieces[1..];
    AllBlank(first);
    BlankBefore(first, Concat(rest));
    assert JoinLines(pieces) == " " + JoinLines(rest);
    assert (" " + JoinLines(rest))[1..] == JoinLines(rest);
  }

  lemma TrimmedNonblank(s: string)
    requires TrimStart(s) != ""
    ensures Trim(s) != ""
  {
    TrimStartKeeps(s);
    TrimEndAfter(TrimStart(s)[..1], TrimStart(s)[1..]);
    assert TrimStart(s) == TrimStart(s)[..1] + TrimStart(s)[1..];
  }

  lemma {:induction false} BlankBefore(a: string, b: string)
    requires TrimStart(a) == ""
    ensures Lead(a + b) == |a| + Lead(b)
  {
    if a == "" {
      assert a + b == b;
    } else {
      assert (a + b)[1..] == a[1..] + b;
      BlankBefore(a[1..], b);
    }
  }

  /** What a text that is not blank starts with, up to where its trailing blanks begin. */
  lemma TrimmedThenBlanks(s: string)
    requires NoTabs(s) && TrimStart(s) != ""
    ensures TrimStart(s) == Trim(s) + Blanks(Trail(s))
  {
    TrimStartKeeps(s);
    var t := TrimStart(s);
    assert t == s[Lead(s)..];
    TrailBlanks(t);
    SameTrail(s);
  }

  lemma {:induction false} SameTrail(s: string)
    requires TrimStart(s) != ""
    ensures Trail(TrimStart(s)) == Trail(s)
  {
    if IsBlank(s[0]) {
      SameTrail(s[1..]);
      TrailAfter([s[0]], s[1..]);
      assert s == [s[0]] + s[1..];
    }
  }

  lemma {:induction false} TrailAfter(a: string, b: string)
    requires TrimStart(b) != ""
    ensures Trail(a + b) == Trail(b)
    decreases |b|
  {
    if IsBlank(b[|b| - 1]) {
      assert (a + b)[..|a + b| - 1] == a + b[..|b| - 1];
      StillNonblank(b);
      TrailAfter(a, b[..|b| - 1]);
    }
  }

  lemma {:induction false} StillNonblank(b: string)
    requires TrimStart(b) != "" && IsBlank(b[|b| - 1])
    ensures TrimStart(b[..|b| - 1]) != ""
  {
    if IsBlank(b[0]) {
      StillNonblank(b[1..]);
      assert b[1..][..|b| - 2] == b[..|b| - 1][1..];
    }
  }

  /** Joining the trimmed lines gives the text back exactly when every line break falls at one space. */
  lemma {:induction false} JoinGivesBack(pieces: seq<string>)
    requires pieces != [] && Cut(pieces)
    ensures JoinLines(pieces) == TrimStart(Concat(pieces)) <==> BreaksAtSpaces(pieces)
  {
    hide Trim, TrimStart, TrimEnd, Cut;
    var first := pieces[0];
    if |pieces| == 1 {
      LastPiece(pieces);
    } else {
      CutTail(pieces);
      JoinedLead(pieces);
      JoinedLead(pieces[1..]);
      CutConcat(pieces);
      CutConcat(pieces[1..]);
      JoinGivesBack(pieces[1..]);
      if TrimStart(first) == "" {
        NeverBlankFirst(pieces);
      } else {
        SeamDecides(first, Concat(pieces[1..]), JoinLines(pieces[1..]));
        if TrimStart(pieces[1]) != "" {
          assert Lead(Concat(pieces[1..])) == Lead(pieces[1]);
        }
      }
    }
  }

  lemma LastPiece(pieces: seq<string>)
    requires Cut(pieces) && |pieces| == 1
    ensures JoinLines(pieces) == TrimStart(Concat(pieces)) && BreaksAtSpaces(pieces)
  {
    var first := pieces[0];
    assert first + "" == first;
    SomethingLeft(first);
    assert TrimStart(first) == first[Lead(first)..];
    assert TrimStart(first)[|TrimStart(first)| - 1] == first[|first| - 1];
  }

  lemma NeverBlankFirst(pieces: seq<string>)
    requires pieces != [] && Lead(JoinLines(pieces)) > 0
    ensures JoinLines(pieces) != TrimStart(Concat(pieces))
  {
    TrimStartKeeps(Concat(pieces));
  }

  /** One line break: between a line and the text after it, which joins to `joined`. */
  lemma SeamDecides(first: string, after: string, joined: string)
    requires NoTabs(first) && NoTabs(after) && TrimStart(first) != "" && after != ""
    requires Lead(after) >= 3 * Lead(joined)
    ensures Trim(first) + " " + joined == TrimStart(first + after)
        <==> Trail(first) + Lead(after) == 1 && joined == TrimStart(after)
  {
    hide TrimStart, TrimEnd, Trim, Lead, Trail, Blanks;
    var k, c, rest := Trail(first), Lead(after), TrimStart(after);
    TrimStartBefore(first, after);
    assert after == Blanks(c) + rest by { LeadBlanks(after); }
    assert TrimStart(first) == Trim(first) + Blanks(k) by { TrimmedThenBlanks(first); }
    assert rest == "" || !IsBlank(rest[0]) by { TrimStartKeeps(after); }
    BlanksAppend(k, c);
    Regroup(Trim(first), Blanks(k), Blanks(c), rest);
    Regroup(Trim(first), " ", joined, "");
    SamePrefix(Trim(first), " " + joined, Blanks(k + c) + rest);
    OneSpace(joined, k + c, rest);
  }

  lemma Regroup(a: string, b: string, c: string, d: string)
    ensures (a + b) + (c + d) == a + ((b + c) + d)
    ensures (a + b) + c == a + (b + c)
  {
  }

  /** A space before a text that starts with few blanks is `n` blanks before `rest` only when `n` is one. */
  lemma OneSpace(joined: string, n: nat, rest: string)
    requires n >= 3 * Lead(joined) && (rest == "" || !IsBlank(rest[0]))
    ensures " " + joined == Blanks(n) + rest <==> n == 1 && joined == rest
  {
    LeadOf(n, rest);
    assert (" " + joined)[1..] == joined;
    assert Lead(" " + joined) == 1 + Lead(joined);
    assert Blanks(1) == " ";
    if n == 1 && " " + joined == Blanks(n) + rest {
      SamePrefix(" ", joined, rest);
    }
  }

  lemma SamePrefix(p: string, a: string, b: string)
    ensures p + a == p + b <==> a == b
  {
    assert (p + a)[|p|..] == a && (p + b)[|p|..] == b;
  }

  lemma ChunksKeep(s: string)
    ensures forall i :: 0 <= i < |Chunks(s)| ==> forall x :: x in Chunks(s)[i] ==> x in s
    ensures forall i :: 0 <= i < |Chunks(s)| - 1 ==> |Chunks(s)[i]| == LINE_BYTES
    ensures s != "" ==> Chunks(s) != [] && var last := Chunks(s)[|Chunks(s)| - 1]; last[|last| - 1] == s[|s| - 1]
  {
    hide Chunks;
    ChunksConcat(s);
    FullChunks(s);
    forall i | 0 <= i < |Chunks(s)|
      ensures forall x :: x in Chunks(s)[i] ==> x in s
    {
      assert Chunks(s)[i] in Chunks(s);
    }
  }

  lemma {:induction false} FullChunks(s: string)
    ensures forall i :: 0 <= i < |Chunks(s)| - 1 ==> |Chunks(s)[i]| == LINE_BYTES
    ensures s != "" ==> Chunks(s) != [] && var last := Chunks(s)[|Chunks(s)| - 1]; last[|last| - 1] == s[|s| - 1]
    decreases |s|
  {
    if |s| > LINE_BYTES {
      var tail := s[LINE_BYTES..];
      FullChunks(tail);
      assert Chunks(s) == [s[..LINE_BYTES]] + Chunks(tail) && tail[|tail| - 1] == s[|s| - 1];
      assert Chunks(s)[|Chunks(s)| - 1] == Chunks(tail)[|Chunks(tail)| - 1];
    }
  }

  lemma PiecesCut(e: Entry)
    requires WellKeyed(e) && NoTabs(e.value) && e.value != "" && !IsBlank(e.value[|e.value| - 1])
    ensures Cut(Pieces(e))
  {
    hide Chunks, NoTabs;
    var text, rest := e.Text(), e.Text()[Break(e)..];
    ChunksKeep(rest);
    assert text == (e.key + ": ") + e.value;
    assert text[|text| - 1] == e.value[|e.value| - 1];
    PartsNoTabs(e);
    forall i | 0 <= i < |Pieces(e)|
      ensures NoTabs(Pieces(e)[i]) && Pieces(e)[i] != ""
    {
      if i > 0 {
        var chunk := Chunks(rest)[i - 1];
        assert Pieces(e)[i] == chunk && chunk in Chunks(rest);
        PartNoTabs(chunk, rest);
      }
    }
  }

  lemma PartNoTabs(part: string, whole: string)
    requires NoTabs(whole) && forall c :: c in part ==> c in whole
    ensures NoTabs(part)
  {
    forall j | 0 <= j < |part|
      ensures part[j] != '\t'
    {
      assert part[j] in part;
    }
  }

  /** Neither the part of a value on its first line nor what is left of it has a tab. */
  lemma PartsNoTabs(e: Entry)
    requires WellKeyed(e) && NoTabs(e.value)
    ensures NoTabs(Pieces(e)[0]) && NoTabs(e.Text()[Break(e)..])
    ensures e.value != "" ==> Pieces(e)[0] != ""
  {
    hide Chunks;
    var text := e.Text();
    assert text == (e.key + ":") + (" " + e.value);
    forall i | |e.key| + 1 <= i < |text|
      ensures text[i] != '\t'
    {
      assert text[i] == (" " + e.value)[i - |e.key| - 1];
    }
  }

  lemma FirstPiece(e: Entry)
    requires WellKeyed(e) && e.value != "" && !IsBlank(e.value[0])
    ensures |Pieces(e)[0]| >= 2 && Pieces(e)[0] == " " + e.value[..|Pieces(e)[0]| - 1]
    ensures Trim(Pieces(e)[0]) != "" && TrimStart(Pieces(e)[0]) == e.value[..|Pieces(e)[0]| - 1]
  {
    var first := Pieces(e)[0];
    assert e.Text() == (e.key + ":") + (" " + e.value);
    assert first == (" " + e.value)[..|first|];
    assert (" " + e.value)[..|first|] == " " + e.value[..|first| - 1];
    assert first[1..] == e.value[..|first| - 1];
    assert TrimStart(first) == first[1..];
    TrimmedNonblank(first);
  }

  lemma {:induction false} JoinEnds(pieces: seq<string>)
    requires Cut(pieces)
    ensures JoinLines(pieces) != "" && !IsBlank(JoinLines(pieces)[|JoinLines(pieces)| - 1])
  {
    hide TrimStart, TrimEnd, Trim;
    if |pieces| == 1 {
      SomethingLeft(pieces[0]);
      TrimmedNonblank(pieces[0]);
      TrimBothEnds(pieces[0]);
    } else {
      CutTail(pieces);
      JoinEnds(pieces[1..]);
    }
  }

  /** A value folds to itself exactly when it is empty, or has no blank at either end and breaks at single
      spaces only. */
  lemma FoldedIsValue(e: Entry)
    requires WellKeyed(e) && NoTabs(e.value)
    ensures Folded(e) == e.value <==>
      || e.value == ""
      || (!IsBlank(e.value[0]) && !IsBlank(e.value[|e.value| - 1]) && BreaksAtSpaces(Pieces(e)))
  {
    hide Pieces, ValueLines, JoinLines, TrimStart, TrimEnd, Trim, Cut, BreaksAtSpaces, Concat;
    FoldedPieces(e);
    if e.value == "" {
      EmptyFolds(e);
    } else {
      TrimBothEnds(JoinLines(Pieces(e)));
      if !IsBlank(e.value[0]) && !IsBlank(e.value[|e.value| - 1]) {
        FoldedInner(e);
      }
    }
  }

  lemma EmptyPieces(e: Entry)
    requires WellKeyed(e) && e.value == ""
    ensures Pieces(e) == [" "] && ValueLines(e) == [" "]
  {
    assert e.Text() == e.key + ": ";
    assert Break(e) == |e.Text()| && e.Text()[Break(e)..] == "";
    assert e.Text()[|e.key| + 1..|e.Text()|] == " " && Chunks("") == [];
    assert Pieces(e) == [" "] + [];
    assert [" "] + [] == [" "] && Indent([]) == [];
  }

  lemma EmptyFolds(e: Entry)
    requires WellKeyed(e) && e.value == ""
    ensures Fold(Pieces(e)) == ""
  {
    hide Pieces, ValueLines;
    EmptyPieces(e);
    assert " "[1..] == "";
  }

  lemma FoldedInner(e: Entry)
    requires WellKeyed(e) && NoTabs(e.value) && e.value != ""
    requires !IsBlank(e.value[0]) && !IsBlank(e.value[|e.value| - 1])
    ensures Fold(Pieces(e)) == e.value <==> BreaksAtSpaces(Pieces(e))
  {
    hide Pieces, ValueLines, JoinLines, Cut, BreaksAtSpaces, Concat, TrimEnd, TrimStart, Trim, Lead, NoTabs, WellKeyed;
    var joined := JoinLines(Pieces(e));
    PiecesCut(e);
    PiecesConcat(e);
    FirstPiece(e);
    JoinGivesBack(Pieces(e));
    JoinedLead(Pieces(e));
    JoinEnds(Pieces(e));
    assert TrimStart(" " + e.value) == e.value by { SpaceTrimmed(e.value); }
    assert !IsBlank(joined[0]) by { NoLead(joined); }
    NothingToTrim(joined);
    assert Trim(joined) == joined;
  }

  lemma SpaceTrimmed(s: string)
    requires s != "" && !IsBlank(s[0])
    ensures TrimStart(" " + s) == s
  {
    assert (" " + s)[1..] == s;
  }

  lemma NoLead(s: string)
    requires s != "" && Lead(s) == 0
    ensures !IsBlank(s[0])
  {
  }
}
