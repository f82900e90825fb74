/** Parsing a rendered manifest gives it back, although YAML folding puts spaces where lines were broken. */
module ManifestRoundTrip {
  import opened Wrappers
  import opened Manifest
  import opened ManifestLines
  import opened YamlScalars

  // ---------- YAML values ----------

  predicate EndsWith(s: string, suffix: string) {
    |suffix| <= |s| && s[|s| - |suffix|..] == suffix
  }

  ghost function Resolved(text: Option<string>, plain: string -> Yaml): Option<Yaml> {
    if text.None? then None else Some(plain(text.value))
  }

  /** What is assumed of YAML. Nothing written is a null. Lines the first of which may start a plain scalar are
      scanned as one; `plain` says what its text resolves to, and a string is that text. Lines that do not
      start like a plain scalar never stand for the very text they are written as: quotes, tags, anchors and
      headers are no part of a value. */
  ghost predicate ReadsYaml(value: ValueReader, plain: string -> Yaml) {
    && (forall lines :: Written(lines) && Blank(lines) ==> value(lines) == Some(Null))
    && (forall lines :: Written(lines) && PlainStart(Trim(lines[0])) ==>
          value(lines) == Resolved(ScanPlain(lines), plain))
    && (forall e: Entry {:trigger ValueLines(e)} ::
          WellKeyed(e) && Printable(e.value) && !PlainStart(Trim(ValueLines(e)[0])) ==>
            value(ValueLines(e)) != Some(Str(e.value)))
    && (forall s :: plain(s).Str? ==> plain(s).value == s)
    && plain("1.0") == Real("1.0") && plain("daml-lf").Str? && plain("non-encrypted").Str?
    && (forall s :: EndsWith(Strip(s), ".dalf") ==> plain(s).Str?)
  }

  lemma ScansPlain(lines: seq<string>, value: ValueReader, plain: string -> Yaml)
    requires ReadsYaml(value, plain) && Written(lines) && PlainStart(Trim(lines[0]))
    ensures value(lines) == Resolved(ScanPlain(lines), plain)
  {
    hide PlainStart, Trim, WellKeyed, Printable, ValueLines, EndsWith, ScanPlain, Written, Blank;
  }

  lemma NullWhenBlank(lines: seq<string>, value: ValueReader, plain: string -> Yaml)
    requires ReadsYaml(value, plain) && Written(lines) && Blank(lines)
    ensures value(lines) == Some(Null)
  {
    hide PlainStart, Trim, WellKeyed, Printable, ValueLines, EndsWith, ScanPlain, Written, Blank;
  }

  lemma OtherStyle(e: Entry, value: ValueReader, plain: string -> Yaml)
    requires ReadsYaml(value, plain) && WellKeyed(e) && Printable(e.value) && !PlainStart(Trim(ValueLines(e)[0]))
    ensures value(ValueLines(e)) != Some(Str(e.value))
  {
    hide PlainStart, Trim, WellKeyed, Printable, ValueLines, EndsWith, ScanPlain, Written, Blank;
  }

  /** The lines of a printable value are such lines. */
  lemma ValueWritten(e: Entry)
    requires WellKeyed(e) && Printable(e.value)
    ensures Written(ValueLines(e))
  {
    hide Chunks, Printable;
    var text, ps := e.Text(), Pieces(e);
    assert text == (e.key + ":") + (" " + e.value);
    forall i | 0 <= i < |ps|
      ensures Printable(ps[i])
    {
      PiecePrintable(e, i);
    }
    assert ps[0][0] == ' ';
    forall i | 0 < i < |ps|
      ensures ValueLines(e)[i] == " " + ps[i] && Printable(" " + ps[i])
    {
      assert ps[1..][i - 1] == ps[i];
      SpacePrintable(ps[i]);
    }
  }

  lemma SpacePrintable(s: string)
    requires Printable(s)
    ensures Printable(" " + s)
  {
  }

  lemma PiecePrintable(e: Entry, i: nat)
    requires WellKeyed(e) && Printable(e.value) && i < |Pieces(e)|
    ensures Printable(Pieces(e)[i])
  {
    hide Chunks;
    var text := e.Text();
    assert text == (e.key + ":") + (" " + e.value);
    assert forall k :: |e.key| + 1 <= k < |text| ==> text[k] == (" " + e.value)[k - |e.key| - 1];
    if i > 0 {
      var rest := text[Break(e)..];
      ChunksKeep(rest);
      var chunk := Chunks(rest)[i - 1];
      forall j | 0 <= j < |chunk|
        ensures ' ' <= chunk[j] <= '~'
      {
        assert chunk[j] in rest;
        var k: nat :| k < |rest| && rest[k] == chunk[j];
        assert rest[k] == text[Break(e) + k];
      }
    }
  }

  // ---------- The whole document ----------

  ghost predicate WellFormed(entries: seq<Entry>) {
    && (forall i :: 0 <= i < |entries| ==> WellKeyed(entries[i]))
    && (forall i, j :: 0 <= i < j < |entries| ==> entries[i].key != entries[j].key)
  }

  ghost function AllLines(entries: seq<Entry>): seq<string> {
    if entries == [] then [] else FoldedLines(entries[0].Text()) + AllLines(entries[1..])
  }

  lemma {:induction false} LinesOfEntries(entries: seq<Entry>)
    requires entries != [] && forall i :: 0 <= i < |entries| ==> WellKeyed(entries[i])
    ensures SplitOn(Join(FoldEntries(entries), "\n"), '\n') == AllLines(entries)
  {
    hide SplitManifestString, FoldedLines, SplitOn;
    EntryLines(entries[0]);
    LinesOfFolded(entries[0].Text());
    var first := SplitManifestString(entries[0].Text());
    if |entries| == 1 {
      assert FoldEntries(entries) == [first];
      assert AllLines(entries[1..]) == [];
    } else {
      LinesOfEntries(entries[1..]);
      var rest := FoldEntries(entries[1..]);
      assert FoldEntries(entries) == [first] + rest && ([first] + rest)[1..] == rest;
      SplitOnSeparator(first, Join(rest, "\n"), '\n');
    }
  }

  lemma {:induction false} ContinuationsOf(lines: seq<string>, rest: seq<string>)
    requires forall l :: l in lines ==> IsContinuation(l)
    requires rest != [] ==> !IsContinuation(rest[0])
    ensures Continuations(lines + rest) == |lines|
  {
    if lines == [] {
      assert lines + rest == rest;
    } else {
      assert (lines + rest)[1..] == lines[1..] + rest;
      assert lines[0] in lines;
      ContinuationsOf(lines[1..], rest);
    }
  }

  ghost function EntryGroups(entries: seq<Entry>): (r: seq<seq<string>>)
    ensures |r| == |entries| && forall i :: 0 <= i < |r| ==> r[i] != []
  {
    if entries == [] then [] else [FoldedLines(entries[0].Text())] + EntryGroups(entries[1..])
  }

  /** The lines of an entry: the first starts with the key, every other one with a space. */
  lemma FirstLine(e: Entry)
    requires WellKeyed(e)
    ensures var lines := FoldedLines(e.Text());
      lines != [] && !IsContinuation(lines[0]) && forall l :: l in lines[1..] ==> IsContinuation(l)
  {
    hide Chunks;
    EntryLines(e);
    assert FoldedLines(e.Text())[0][0] == e.key[0] && e.key[0] in e.key;
  }

  lemma OneGroup(lines: seq<string>, rest: seq<string>)
    requires lines != [] && forall l :: l in lines[1..] ==> IsContinuation(l)
    requires rest != [] ==> !IsContinuation(rest[0])
    ensures Groups(lines + rest) == [lines] + Groups(rest)
  {
    hide Continuations, IsContinuation;
    var all := lines + rest;
    ContinuationsOf(lines[1..], rest);
    assert all[1..] == lines[1..] + rest;
    assert all[..|lines|] == lines && all[|lines|..] == rest;
  }

  lemma {:induction false} GroupsOfEntries(entries: seq<Entry>)
    requires forall i :: 0 <= i < |entries| ==> WellKeyed(entries[i])
    ensures AllLines(entries) != [] ==> !IsContinuation(AllLines(entries)[0])
    ensures Groups(AllLines(entries)) == EntryGroups(entries)
  {
    if entries != [] {
      hide FoldedLines, Groups;
      FirstLine(entries[0]);
      GroupsOfEntries(entries[1..]);
      OneGroup(FoldedLines(entries[0].Text()), AllLines(entries[1..]));
    } else {
      assert AllLines(entries) == [];
    }
  }

  /** No value is refused. */
  ghost predicate Readable(entries: seq<Entry>, value: ValueReader)
    requires forall i :: 0 <= i < |entries| ==> WellKeyed(entries[i])
  {
    forall i :: 0 <= i < |entries| ==> value(ValueLines(entries[i])).Some?
  }

  ghost function Document(entries: seq<Entry>, value: ValueReader): map<string, Yaml>
    requires forall i :: 0 <= i < |entries| ==> WellKeyed(entries[i])
    requires Readable(entries, value)
  {
    if entries == [] then map[]
    else map[entries[0].key := value(ValueLines(entries[0])).value] + Document(entries[1..], value)
  }

  lemma {:induction false} IndexAfter(p: string, c: char, s: string)
    requires c !in p
    ensures IndexOf(p + [c] + s, c) == |p|
  {
    if p != "" {
      assert (p + [c] + s)[1..] == p[1..] + [c] + s;
      IndexAfter(p[1..], c, s);
    }
  }

  /** The key and the value's lines are read back from the lines of an entry. */
  lemma EntryRead(e: Entry)
    requires WellKeyed(e)
    ensures var lines := FoldedLines(e.Text());
      && lines != [] && JoinLines(lines) != ""
      && IndexOf(lines[0], ':') == |e.key| < |lines[0]|
      && lines[0][..|e.key|] == e.key
      && [lines[0][|e.key| + 1..]] + lines[1..] == ValueLines(e)
  {
    hide Indent, IndexOf, FoldedLines, Pieces;
    EntryLines(e);
    var first := e.key + ":" + Pieces(e)[0];
    IndexAfter(e.key, ':', Pieces(e)[0]);
    assert e.key[0] in e.key && TrimStart(first) == first;
    TrimEndAfter(e.key[..1], first[1..]);
    assert first == e.key[..1] + first[1..];
    assert Trim(first) != "";
    assert first[..|e.key|] == e.key && first[|e.key| + 1..] == Pieces(e)[0];
    assert FoldedLines(e.Text())[1..] == Indent(Pieces(e)[1..]);
  }

  lemma LoadOne(e: Entry, rest: seq<seq<string>>, value: ValueReader)
    requires WellKeyed(e) && forall i :: 0 <= i < |rest| ==> rest[i] != []
    ensures FoldedLines(e.Text()) != []
    ensures LoadGroups([FoldedLines(e.Text())] + rest, value) ==
      var loaded, v := LoadGroups(rest, value), value(ValueLines(e));
      if loaded.None? || v.None? then None else Some(map[e.key := v.value] + loaded.value)
  {
    hide JoinLines, FoldedLines, ValueLines, IndexOf, WellKeyed;
    EntryRead(e);
    var groups := [FoldedLines(e.Text())] + rest;
    assert groups[0] == FoldedLines(e.Text()) && groups[1..] == rest;
  }

  lemma {:induction false} LoadEntries(entries: seq<Entry>, value: ValueReader)
    requires forall i :: 0 <= i < |entries| ==> WellKeyed(entries[i])
    ensures LoadGroups(EntryGroups(entries), value)
         == if Readable(entries, value) then Some(Document(entries, value)) else None
  {
    hide FoldedLines, ValueLines, WellKeyed, LoadGroups, Readable;
    if entries == [] {
      NothingLoaded(value);
    } else {
      LoadEntries(entries[1..], value);
      LoadOne(entries[0], EntryGroups(entries[1..]), value);
      ReadableSplits(entries, value);
    }
  }

  lemma NothingLoaded(value: ValueReader)
    ensures LoadGroups(EntryGroups([]), value) == Some(map[])
    ensures Readable([], value) && Document([], value) == map[]
  {
  }

  lemma ReadableSplits(entries: seq<Entry>, value: ValueReader)
    requires entries != [] && forall i :: 0 <= i < |entries| ==> WellKeyed(entries[i])
    ensures Readable(entries, value) <==>
      value(ValueLines(entries[0])).Some? && Readable(entries[1..], value)
  {
    hide ValueLines, WellKeyed;
    assert forall i :: 0 < i < |entries| ==> entries[i] == entries[1..][i - 1];
  }

  lemma {:induction false} DocumentAt(entries: seq<Entry>, i: nat, value: ValueReader)
    requires WellFormed(entries) && Readable(entries, value) && i < |entries|
    ensures entries[i].key in Document(entries, value)
    ensures Some(Document(entries, value)[entries[i].key]) == value(ValueLines(entries[i]))
  {
    hide ValueLines, WellKeyed, Readable;
    ReadableSplits(entries, value);
    NotAgain(entries, value);
    var rest := Document(entries[1..], value);
    assert Document(entries, value) == map[entries[0].key := value(ValueLines(entries[0])).value] + rest;
    if i > 0 {
      DocumentAt(entries[1..], i - 1, value);
      assert entries[1..][i - 1] == entries[i];
    }
  }

  lemma {:induction false} NoOtherKey(entries: seq<Entry>, key: string, value: ValueReader)
    requires (forall i :: 0 <= i < |entries| ==> WellKeyed(entries[i])) && Readable(entries, value)
    requires forall i :: 0 <= i < |entries| ==> entries[i].key != key
    ensures key !in Document(entries, value)
  {
    hide ValueLines, WellKeyed;
    if entries != [] {
      ReadableSplits(entries, value);
      NoOtherKey(entries[1..], key, value);
    }
  }

  lemma NotAgain(entries: seq<Entry>, value: ValueReader)
    requires entries != [] && WellFormed(entries) && Readable(entries[1..], value)
    ensures entries[0].key !in Document(entries[1..], value)
  {
    hide ValueLines, WellKeyed;
    NoOtherKey(entries[1..], entries[0].key, value);
  }

  /** Loading what was rendered finds every entry under its key, or is refused for one of the values. */
  lemma LoadRendered(entries: seq<Entry>, value: ValueReader)
    requires entries != [] && WellFormed(entries)
    ensures LoadYaml(Join(FoldEntries(entries), "\n"), value)
         == if Readable(entries, value) then Some(Document(entries, value)) else None
  {
    hide SplitOn, FoldEntries, AllLines, Groups, EntryGroups, Document;
    LinesOfEntries(entries);
    GroupsOfEntries(entries);
    LoadEntries(entries, value);
  }

  // ---------- Names ----------

  /** A printable name ending in `.dalf` that may start a plain scalar and has none of `,`, `:` and `#`. */
  predicate DalfName(name: string) {
    && (forall c :: c in name ==> '!' <= c <= '~' && c != ',' && c != ':' && c != '#')
    && EndsWith(name, ".dalf")
    && PlainStart(name)
  }

  /** What the archives of a manifest are named; the creator is any printable text. */
  predicate Writable(m: DarManifest) {
    && DalfName(m.dalfMain)
    && (forall i :: 0 <= i < |m.dalfDependencies| ==> DalfName(m.dalfDependencies[i]))
    && Printable(m.createdBy)
  }

  ghost predicate PlainText(s: string) {
    forall c :: c in s ==> ' ' <= c <= '~' && c != ':' && c != '#'
  }

  /** No two spaces in a row, and none at the end. */
  ghost predicate SingleSpaced(s: string) {
    && (forall i :: 0 <= i < |s| - 1 ==> !(s[i] == ' ' && s[i + 1] == ' '))
    && (s != "" ==> s[|s| - 1] != ' ')
  }

  lemma PlainAppend(a: string, b: string)
    ensures PlainText(a + b) <==> PlainText(a) && PlainText(b)
  {
    assert forall c :: c in a + b <==> c in a || c in b;
  }

  lemma {:induction false} ChunkOf(s: string, i: nat) returns (at: nat)
    requires i < |Chunks(s)|
    ensures at + |Chunks(s)[i]| <= |s| && Chunks(s)[i] == s[at..at + |Chunks(s)[i]|] && Chunks(s)[i] != ""
    ensures |Chunks(s)[i]| == 1 ==> at == |s| - 1
    decreases |s|
  {
    if i == 0 {
      at := 0;
      assert Chunks(s)[0] == s[..|Chunks(s)[0]|];
    } else {
      var tail := s[LINE_BYTES..];
      assert Chunks(s)[i] == Chunks(tail)[i - 1];
      var below := ChunkOf(tail, i - 1);
      at := LINE_BYTES + below;
      var end := below + |Chunks(tail)[i - 1]|;
      assert tail[below..end] == s[LINE_BYTES + below..LINE_BYTES + end];
    }
  }

  /** No line of single-spaced text is blank. */
  lemma ChunkNonblank(s: string, i: nat)
    requires i < |Chunks(s)| && PlainText(s) && SingleSpaced(s)
    ensures PlainText(Chunks(s)[i]) && TrimStart(Chunks(s)[i]) != ""
  {
    hide Chunks;
    var at := ChunkOf(s, i);
    var chunk := Chunks(s)[i];
    forall c | c in chunk
      ensures c in s
    {
      var j :| 0 <= j < |chunk| && chunk[j] == c;
      assert s[at + j] == c;
    }
    assert chunk[0] == s[at] && chunk[0] in s;
    if |chunk| > 1 {
      assert chunk[1] == s[at + 1] && chunk[1] in s;
    }
  }

  lemma TrimKeepsPlain(l: string)
    requires PlainText(l) && TrimStart(l) != ""
    ensures PlainLine(Trim(l))
  {
    hide TrimStart, TrimEnd, Trim;
    TrimKeeps(l);
    TrimmedNonblank(l);
    var t := Trim(l);
    forall i | 0 <= i < |t|
      ensures ' ' <= t[i] <= '~' && t[i] != ':' && t[i] != '#'
    {
      assert t[i] in l;
    }
  }

  /** Single-spaced text without mappings and comments is a plain scalar on whatever lines it is written. */
  lemma TextIsPlain(e: Entry)
    requires WellKeyed(e) && PlainText(e.value) && SingleSpaced(e.value) && PlainStart(e.value)
    requires |e.value| >= 2 && e.value[0] != ' ' && e.value[1] != ' '
    ensures PlainScalar(ValueLines(e))
  {
    hide Trim, TrimStart, TrimEnd, PlainLine, PlainText, Chunks, PlainStart, SingleSpaced;
    var lines, rest := ValueLines(e), e.Text()[Break(e)..];
    FirstLinePlain(e);
    forall i | 0 < i < |lines|
      ensures PlainLine(Trim(lines[i]))
    {
      RestPlain(e);
      var chunk := Chunks(rest)[i - 1];
      assert lines[i] == " " + chunk;
      ChunkNonblank(rest, i - 1);
      assert PlainText(" ") by { PlainSpace(); }
      PlainAppend(" ", chunk);
      StillStarts(chunk);
      TrimKeepsPlain(" " + chunk);
    }
  }

  lemma PlainSpace()
    ensures PlainText(" ")
  {
  }

  lemma StillStarts(s: string)
    requires TrimStart(s) != ""
    ensures TrimStart(" " + s) != ""
  {
    assert (" " + s)[1..] == s;
  }

  /** What the value's later lines hold is its end. */
  lemma RestPlain(e: Entry)
    requires WellKeyed(e) && PlainText(e.value) && SingleSpaced(e.value)
    ensures PlainText(e.Text()[Break(e)..]) && SingleSpaced(e.Text()[Break(e)..])
  {
    var text, start := e.Text(), |e.key| + 2;
    assert text[start..] == e.value;
    var rest := text[Break(e)..];
    var cut := Break(e) - start;
    assert rest == e.value[cut..];
    assert e.value == e.value[..cut] + e.value[cut..];
    PlainAppend(e.value[..cut], e.value[cut..]);
  }

  lemma FirstLinePlain(e: Entry)
    requires WellKeyed(e) && PlainText(e.value) && PlainStart(e.value)
    requires |e.value| >= 2 && e.value[0] != ' ' && e.value[1] != ' '
    ensures PlainLine(Trim(ValueLines(e)[0])) && PlainStart(Trim(ValueLines(e)[0]))
  {
    hide Trim, TrimStart, TrimEnd, PlainText, Pieces, PlainLine;
    assert e.value[0] in e.value && e.value[1] in e.value;
    NotBlank(e.value, e.value[0]);
    NotBlank(e.value, e.value[1]);
    var n := FirstLineText(e);
    PlainPrefix(e.value, n);
    TrimKeepsPlain(" " + e.value[..n]);
    TrimmedHead(e.value[..n]);
  }

  lemma FirstLineText(e: Entry) returns (n: nat)
    requires WellKeyed(e) && |e.value| >= 2 && !IsBlank(e.value[0])
    ensures 2 <= n <= |e.value| && ValueLines(e)[0] == " " + e.value[..n]
  {
    FirstPiece(e);
    n := |Pieces(e)[0]| - 1;
    assert |e.Text()| == |e.key| + 2 + |e.value|;
  }

  lemma PlainPrefix(s: string, n: nat)
    requires PlainText(s) && 0 < n <= |s| && !IsBlank(s[0])
    ensures PlainText(" " + s[..n]) && TrimStart(" " + s[..n]) == s[..n]
  {
    hide TrimEnd;
    assert s == s[..n] + s[n..];
    PlainAppend(s[..n], s[n..]);
    PlainAppend(" ", s[..n]);
    assert (" " + s[..n])[1..] == s[..n];
  }

  lemma TrimmedHead(head: string)
    requires |head| >= 2 && !IsBlank(head[0]) && !IsBlank(head[1])
    ensures |Trim(" " + head)| >= 2 && Trim(" " + head)[0] == head[0] && Trim(" " + head)[1] == head[1]
  {
    hide TrimEnd;
    assert (" " + head)[1..] == head;
    assert head == head[..2] + head[2..];
    assert TrimStart(" " + head) == head;
    TrimEndAfter(head[..2], head[2..]);
    assert Trim(" " + head) == head[..2] + TrimEnd(head[2..]);
  }

  lemma NotBlank(s: string, c: char)
    requires PlainText(s) && c in s && c != ' '
    ensures !IsBlank(c)
  {
  }

  // ---------- The entries of a manifest ----------

  lemma NoSpaces(name: string)
    requires DalfName(name)
    ensures Strip(name) == name && PlainText(name) && SingleSpaced(name) && ',' !in name && |name| >= 5
    ensures name[0] != ' ' && name[1] != ' '
  {
    StripNothing(name);
    assert forall i :: 0 <= i < |name| ==> name[i] in name;
  }

  lemma {:induction false} JoinedNames(names: seq<string>)
    requires names != [] && forall i :: 0 <= i < |names| ==> DalfName(names[i])
    ensures Strip(Join(names, ", ")) == Join(names, ",")
    ensures PlainText(Join(names, ", "))
  {
    hide DalfName, Strip, PlainText;
    NoSpaces(names[0]);
    if |names| > 1 {
      var rest := names[1..];
      JoinedNames(rest);
      var spaced := Join(rest, ", ");
      assert Join(names, ", ") == names[0] + (", " + spaced);
      StripAppend(names[0], ", " + spaced);
      StripAppend(", ", spaced);
      Separator();
      assert Join(names, ",") == names[0] + "," + Join(rest, ",") == names[0] + ("," + Join(rest, ","));
      PlainAppend(names[0], ", " + spaced);
      PlainAppend(", ", spaced);
    }
  }

  lemma {:induction false} JoinedSpaces(names: seq<string>)
    requires names != [] && forall i :: 0 <= i < |names| ==> DalfName(names[i])
    ensures names[0] != "" && names[0] <= Join(names, ", ") && SingleSpaced(Join(names, ", "))
  {
    hide DalfName, Strip, PlainText;
    NoSpaces(names[0]);
    if |names| > 1 {
      var rest := Join(names[1..], ", ");
      JoinedSpaces(names[1..]);
      NoSpaces(names[1]);
      assert Join(names, ", ") == names[0] + (", " + rest);
      assert rest[0] == names[1][0];
    }
  }

  lemma {:induction false} JoinedEnds(names: seq<string>)
    requires names != [] && forall i :: 0 <= i < |names| ==> DalfName(names[i])
    ensures EndsWith(Join(names, ","), ".dalf")
    ensures names[0] != "" && Join(names, ",") != "" && Join(names, ",")[0] == names[0][0]
  {
    hide DalfName, EndsWith;
    NoSpaces(names[0]);
    if |names| == 1 {
      DalfNameEnds(names[0]);
    } else {
      JoinedEnds(names[1..]);
      EndsWithAppend(names[0] + ",", Join(names[1..], ","));
    }
  }

  lemma DalfNameEnds(name: string)
    requires DalfName(name)
    ensures EndsWith(name, ".dalf")
  {
  }

  lemma EndsWithAppend(a: string, b: string)
    requires EndsWith(b, ".dalf")
    ensures EndsWith(a + b, ".dalf")
  {
    assert (a + b)[|a + b| - 5..] == b[|b| - 5..];
  }

  lemma Separator()
    ensures Strip(", ") == "," && PlainText(", ")
  {
    assert ", "[1..] == " " && " "[1..] == "";
  }

  /** A value made of names resolves to a string, whitespace aside the one that was written. */
  lemma NamesRead(e: Entry, value: ValueReader, plain: string -> Yaml)
    requires WellKeyed(e) && ReadsYaml(value, plain)
    requires PlainText(e.value) && SingleSpaced(e.value) && PlainStart(e.value)
    requires |e.value| >= 2 && e.value[0] != ' ' && e.value[1] != ' '
    requires EndsWith(Strip(e.value), ".dalf")
    ensures value(ValueLines(e)) == Some(Str(Folded(e)))
    ensures Strip(Folded(e)) == Strip(e.value)
  {
    hide ValueLines, EndsWith, PlainText, SingleSpaced, PlainStart, PlainScalar, Fold, ReadsYaml, Printable;
    TextIsPlain(e);
    PlainPrintable(e.value);
    PlainRead(e, value, plain);
    FoldedKeeps(e);
    PlainString(Folded(e), value, plain);
  }

  lemma {:induction false} WithoutAbsent(names: seq<string>, dalfMain: string)
    requires dalfMain !in names
    ensures Without(names, dalfMain) == names
  {
    if names != [] {
      WithoutAbsent(names[1..], dalfMain);
    }
  }

  lemma FirstKeys(created: string)
    requires '\n' !in created
    ensures WellKeyed(Entry("Manifest-Version", "1.0"))
    ensures WellKeyed(Entry("Created-By", created))
  {
    hide WellKeyed;
    VersionKey();
    CreatorKey(created);
  }

  lemma VersionKey()
    ensures WellKeyed(Entry("Manifest-Version", "1.0"))
  {
  }

  lemma CreatorKey(created: string)
    requires '\n' !in created
    ensures WellKeyed(Entry("Created-By", created))
  {
  }

  lemma MainKey(dalfMain: string)
    requires '\n' !in dalfMain
    ensures WellKeyed(Entry("Main-Dalf", dalfMain))
  {
  }

  lemma LastKeys(dalfs: string)
    requires '\n' !in dalfs
    ensures WellKeyed(Entry("Dalfs", dalfs))
    ensures WellKeyed(Entry("Format", "daml-lf"))
    ensures WellKeyed(Entry("Encryption", "non-encrypted"))
  {
  }

  lemma KeysDiffer(m: DarManifest)
    ensures var es := Entries(m); forall i, j :: 0 <= i < j < |es| ==> es[i].key != es[j].key
  {
    hide Join;
    assert "Created-By"[0] == 'C' && "Encryption"[0] == 'E';
  }

  lemma EntriesWellFormed(m: DarManifest)
    requires Writable(m)
    ensures WellFormed(Entries(m))
  {
    hide Join, DalfName, WellKeyed;
    assert '\n' !in Join(m.dalfDependencies, ", ") by {
      EmptyJoin();
      if m.dalfDependencies != [] {
        JoinedNames(m.dalfDependencies);
      }
    }
    NoSpaces(m.dalfMain);
    FirstKeys(m.createdBy);
    MainKey(m.dalfMain);
    LastKeys(Join(m.dalfDependencies, ", "));
    KeysDiffer(m);
  }

  lemma EmptyJoin()
    ensures Join([], ", ") == ""
  {
  }

  lemma PlainNoTabs(s: string)
    requires PlainText(s)
    ensures NoTabs(s)
  {
    assert forall i :: 0 <= i < |s| ==> s[i] in s;
  }

  lemma PlainPrintable(s: string)
    requires PlainText(s)
    ensures Printable(s)
  {
    assert forall i :: 0 <= i < |s| ==> s[i] in s;
  }

  lemma SpacedEnd(s: string)
    requires SingleSpaced(s) && s != ""
    ensures s[|s| - 1] != ' '
  {
  }

  lemma PlainRead(e: Entry, value: ValueReader, plain: string -> Yaml)
    requires ReadsYaml(value, plain) && WellKeyed(e) && Printable(e.value) && PlainScalar(ValueLines(e))
    ensures value(ValueLines(e)) == Some(plain(Folded(e)))
  {
    hide Fold, PlainStart, MapsInside, WellKeyed, Printable, ValueLines, ReadsYaml, ScanPlain, PlainLine;
    ValueWritten(e);
    ScansPlain(ValueLines(e), value, plain);
    PlainScalarFolds(ValueLines(e));
  }

  lemma PlainString(s: string, value: ValueReader, plain: string -> Yaml)
    requires ReadsYaml(value, plain) && (EndsWith(Strip(s), ".dalf") || s == "daml-lf" || s == "non-encrypted")
    ensures plain(s) == Str(s)
  {
    hide PlainStart, WellKeyed, Printable, ValueLines, EndsWith, ScanPlain, Written, Blank, Trim;
  }

  /** A short constant in plain text reads as what it resolves to. */
  lemma ConstantRead(e: Entry, value: ValueReader, plain: string -> Yaml)
    requires WellKeyed(e) && ReadsYaml(value, plain) && |e.Text()| <= LINE_BYTES
    requires |e.value| >= 2 && PlainText(e.value) && SingleSpaced(e.value) && PlainStart(e.value)
    requires e.value[0] != ' ' && e.value[1] != ' '
    ensures value(ValueLines(e)) == Some(plain(e.value))
  {
    hide ValueLines, PlainScalar, PlainStart, Fold, ReadsYaml, SingleSpaced, WellKeyed;
    TextIsPlain(e);
    PlainPrintable(e.value);
    PlainRead(e, value, plain);
    assert e.value[0] in e.value && e.value[|e.value| - 1] in e.value;
    assert e.value[|e.value| - 1] != ' ' by { SpacedEnd(e.value); }
    PlainNoTabs(e.value);
    FoldedShort(e);
  }

  /** A value that fits on the first line folds to itself, up to the blanks around it. */
  lemma FoldedShort(e: Entry)
    requires WellKeyed(e) && |e.Text()| <= LINE_BYTES && NoTabs(e.value)
    requires e.value != "" && !IsBlank(e.value[0]) && !IsBlank(e.value[|e.value| - 1])
    ensures Folded(e) == e.value
  {
    hide ValueLines, Folded;
    FoldedIsValue(e);
    FirstPiece(e);
    SomethingLeft(e.value);
    assert |Pieces(e)| == 1;
  }

  lemma Constants()
    ensures PlainText("1.0") && SingleSpaced("1.0") && PlainStart("1.0")
    ensures PlainText("daml-lf") && SingleSpaced("daml-lf") && PlainStart("daml-lf")
  {
  }

  lemma EncryptionConstant()
    ensures PlainText("non-encrypted") && SingleSpaced("non-encrypted") && PlainStart("non-encrypted")
  {
  }

  lemma ShortEntries(value: ValueReader, plain: string -> Yaml)
    requires ReadsYaml(value, plain)
    requires WellKeyed(Entry("Manifest-Version", "1.0"))
    requires WellKeyed(Entry("Format", "daml-lf")) && WellKeyed(Entry("Encryption", "non-encrypted"))
    ensures value(ValueLines(Entry("Manifest-Version", "1.0"))) == Some(Real("1.0"))
    ensures value(ValueLines(Entry("Format", "daml-lf"))) == Some(Str("daml-lf"))
    ensures value(ValueLines(Entry("Encryption", "non-encrypted"))) == Some(Str("non-encrypted"))
  {
    hide ValueLines, ReadsYaml, PlainText, SingleSpaced, PlainStart, WellKeyed;
    Constants();
    EncryptionConstant();
    ConstantRead(Entry("Manifest-Version", "1.0"), value, plain);
    ConstantRead(Entry("Format", "daml-lf"), value, plain);
    ConstantRead(Entry("Encryption", "non-encrypted"), value, plain);
    PlainString("daml-lf", value, plain);
    PlainString("non-encrypted", value, plain);
    VersionIsReal(value, plain);
  }

  lemma VersionIsReal(value: ValueReader, plain: string -> Yaml)
    requires ReadsYaml(value, plain)
    ensures plain("1.0") == Real("1.0")
  {
  }

  /** Nothing written after the colon is a null. */
  lemma NothingWritten(e: Entry, value: ValueReader, plain: string -> Yaml)
    requires WellKeyed(e) && ReadsYaml(value, plain) && e.value == ""
    ensures value(ValueLines(e)) == Some(Null)
  {
    hide ReadsYaml, ValueLines, WellKeyed;
    EmptyPieces(e);
    ValueWritten(e);
    assert " "[1..] == "" && TrimStart(" ") == "" && Trim(" ") == "";
    NullWhenBlank(ValueLines(e), value, plain);
  }

  /** The dependencies come back in order, without the main archive, wherever the lines were broken. */
  lemma DependenciesRead(m: DarManifest, value: ValueReader, plain: string -> Yaml)
    requires Writable(m) && ReadsYaml(value, plain) && WellKeyed(Entries(m)[3])
    ensures m.dalfDependencies == [] ==> value(ValueLines(Entries(m)[3])) == Some(Null)
    ensures m.dalfDependencies != [] ==>
      && value(ValueLines(Entries(m)[3])) == Some(Str(Folded(Entries(m)[3])))
      && ParseDependencies(Folded(Entries(m)[3]), m.dalfMain) == Without(m.dalfDependencies, m.dalfMain)
  {
    hide Folded, ValueLines, DalfName, PlainText, SingleSpaced, EndsWith, Strip, Join, ReadsYaml, PlainStart;
    var deps := m.dalfDependencies;
    var e := Entries(m)[3];
    if deps == [] {
      EmptyJoin();
      NothingWritten(e, value, plain);
    } else {
      JoinedNames(deps);
      JoinedSpaces(deps);
      JoinedEnds(deps);
      NoSpaces(deps[0]);
      JoinedStart(deps[0], Join(deps, ", "));
      NamesRead(e, value, plain);
      StripCommutesWithSplit(Folded(e), ',');
      forall d | d in deps
        ensures ',' !in d
      {
        NoSpaces(d);
      }
      SplitOnJoin(deps, ',');
    }
  }

  lemma JoinedStart(name: string, joined: string)
    requires DalfName(name) && name <= joined && |name| >= 5
    ensures PlainStart(joined) && joined[0] == name[0] && joined[1] == name[1]
  {
    assert forall i :: 0 <= i < |name| ==> joined[i] == name[i];
    assert name[0] in name && name[1] in name;
  }

  lemma MainRead(m: DarManifest, value: ValueReader, plain: string -> Yaml)
    requires Writable(m) && ReadsYaml(value, plain) && WellKeyed(Entries(m)[2])
    ensures value(ValueLines(Entries(m)[2])) == Some(Str(Folded(Entries(m)[2])))
    ensures Strip(Folded(Entries(m)[2])) == m.dalfMain
  {
    hide Folded, ValueLines, DalfName, PlainText, SingleSpaced, EndsWith, Strip, Join, ReadsYaml, PlainStart;
    NoSpaces(m.dalfMain);
    JoinedStart(m.dalfMain, m.dalfMain);
    DalfNameEnds(m.dalfMain);
    NamesRead(Entries(m)[2], value, plain);
  }

  // ---------- The round trip ----------

  lemma EntryKeys(m: DarManifest)
    ensures var es := Entries(m);
      && es[0].key == "Manifest-Version" && es[1].key == "Created-By" && es[2].key == "Main-Dalf"
      && es[3].key == "Dalfs" && es[4].key == "Format" && es[5].key == "Encryption"
  {
  }

  lemma DocumentParses(doc: map<string, Yaml>, created: Yaml, main: string, dalfs: Yaml)
    requires Lookup(doc, "Manifest-Version") == Real("1.0")
    requires Lookup(doc, "Created-By") == created
    requires Lookup(doc, "Main-Dalf") == Str(main)
    requires Lookup(doc, "Dalfs") == dalfs
    requires Lookup(doc, "Format") == Str("daml-lf")
    requires Lookup(doc, "Encryption") == Str("non-encrypted")
    ensures ParseDocument(doc) ==
      match dalfs.AsStr()
      case None => Failure(DarParseError)
      case Some(names) =>
        Success(DarManifest(V1, if created.AsStr().Some? then created.AsStr().value else "",
                            Strip(main), ParseDependencies(names, Strip(main)), DamlLf, NotEncrypted))
  {
    hide Lookup, Strip, ParseDependencies, Lower;
    LowerFixed();
  }

  lemma {:induction false} LowerId(s: string)
    requires forall i :: 0 <= i < |s| ==> s[i] < 'A' || 'Z' < s[i]
    ensures Lower(s) == s
  {
    if s != "" {
      LowerId(s[1..]);
    }
  }

  lemma LowerFixed()
    ensures Lower("daml-lf") == "daml-lf" && Lower("non-encrypted") == "non-encrypted"
  {
    LowerId("daml-lf");
    LowerId("non-encrypted");
  }

  /** The lines the creator is written on. */
  ghost function CreatorLines(created: string): seq<string>
    requires '\n' !in created
  {
    FirstKeys(created);
    ValueLines(Entry("Created-By", created))
  }

  lemma LookupEntry(m: DarManifest, i: nat, value: ValueReader)
    requires i < 6 && WellFormed(Entries(m)) && Readable(Entries(m), value)
    ensures Some(Lookup(Document(Entries(m), value), Entries(m)[i].key)) == value(ValueLines(Entries(m)[i]))
  {
    hide Document, ValueLines, Readable, Join;
    DocumentAt(Entries(m), i, value);
  }

  /** Parsing what was rendered fails exactly when there are no dependencies or YAML refuses the creator.
      Otherwise it gives the main archive, the dependencies other than the main one in order, the format, the
      encryption, and the creator if what YAML reads is a string. */
  lemma ParseRender(m: DarManifest, value: ValueReader, plain: string -> Yaml)
    requires Writable(m) && ReadsYaml(value, plain)
    ensures '\n' !in m.createdBy
    ensures Parse(Render(m), value).Failure? <==>
      m.dalfDependencies == [] || value(CreatorLines(m.createdBy)).None?
    ensures Parse(Render(m), value).Success? ==>
      var created := value(CreatorLines(m.createdBy)).value.AsStr();
      Parse(Render(m), value).value == DarManifest(
        V1, if created.Some? then created.value else "", m.dalfMain, Without(m.dalfDependencies, m.dalfMain),
        DamlLf, NotEncrypted)
  {
    hide Folded, ValueLines, DalfName, ReadsYaml, Document, ParseDocument, ParseDependencies, Join, Entries, Lookup;
    hide LoadYaml, FoldEntries, Strip, WellKeyed;
    EntriesWellFormed(m);
    ConstantEntries(m);
    ShortEntries(value, plain);
    var es := Entries(m);
    MainRead(m, value, plain);
    DependenciesRead(m, value, plain);
    LoadRendered(es, value);
    EntryKeys(m);
    CreatorEntry(m);
    ReadableWhen(m, value);
    if Readable(es, value) {
      var doc := Document(es, value);
      LookupEntry(m, 0, value);
      LookupEntry(m, 1, value);
      LookupEntry(m, 2, value);
      LookupEntry(m, 3, value);
      LookupEntry(m, 4, value);
      LookupEntry(m, 5, value);
      DocumentParses(doc, value(ValueLines(es[1])).value, Folded(es[2]), value(ValueLines(es[3])).value);
    }
  }

  lemma ConstantEntries(m: DarManifest)
    requires WellFormed(Entries(m))
    ensures Entries(m)[0] == Entry("Manifest-Version", "1.0") && WellKeyed(Entries(m)[0])
    ensures WellKeyed(Entries(m)[2]) && WellKeyed(Entries(m)[3])
    ensures Entries(m)[4] == Entry("Format", "daml-lf") && WellKeyed(Entries(m)[4])
    ensures Entries(m)[5] == Entry("Encryption", "non-encrypted") && WellKeyed(Entries(m)[5])
  {
    hide WellKeyed, Join;
  }

  lemma CreatorEntry(m: DarManifest)
    requires Printable(m.createdBy)
    ensures '\n' !in m.createdBy && WellKeyed(Entries(m)[1])
    ensures ValueLines(Entries(m)[1]) == CreatorLines(m.createdBy)
  {
    hide ValueLines, Join;
    FirstKeys(m.createdBy);
  }

  lemma ReadableWhen(m: DarManifest, value: ValueReader)
    requires WellFormed(Entries(m))
    ensures Readable(Entries(m), value) <==>
      var es := Entries(m);
      && value(ValueLines(es[0])).Some? && value(ValueLines(es[1])).Some? && value(ValueLines(es[2])).Some?
      && value(ValueLines(es[3])).Some? && value(ValueLines(es[4])).Some? && value(ValueLines(es[5])).Some?
  {
    hide ValueLines, Entries, WellKeyed, Readable;
    var es := Entries(m);
    ReadableSplits(es, value);
    ReadableSplits(es[1..], value);
    ReadableSplits(es[2..], value);
    ReadableSplits(es[3..], value);
    ReadableSplits(es[4..], value);
    ReadableSplits(es[5..], value);
    assert es[1..][1..] == es[2..] && es[2..][1..] == es[3..] && es[3..][1..] == es[4..];
    assert es[4..][1..] == es[5..] && es[5..][1..] == [];
    assert Readable([], value) by { NothingLoaded(value); }
  }

  /** With a dependency, none of them the main archive, and a creator that YAML reads, nothing about the
      archives is lost. */
  lemma ArchivesRoundTrip(m: DarManifest, value: ValueReader, plain: string -> Yaml)
    requires Writable(m) && ReadsYaml(value, plain) && '\n' !in m.createdBy
    requires m.dalfDependencies != [] && m.dalfMain !in m.dalfDependencies
    requires value(CreatorLines(m.createdBy)).Some?
    ensures Parse(Render(m), value).Success?
    ensures Parse(Render(m), value).value
            == m.(version := V1, format := DamlLf, encryption := NotEncrypted,
                  createdBy := Parse(Render(m), value).value.createdBy)
  {
    hide Render, Parse, ReadsYaml;
    ParseRender(m, value, plain);
    WithoutAbsent(m.dalfDependencies, m.dalfMain);
  }

  /** What becomes of a creator whose first line may start a plain scalar, said on its lines: the manifest is
      refused exactly when scanning them meets a mapping, or something after a comment; otherwise the creator
      is what the scanned text resolves to, if that is a string. */
  lemma CreatorScanned(m: DarManifest, value: ValueReader, plain: string -> Yaml)
    requires Writable(m) && ReadsYaml(value, plain) && m.dalfDependencies != [] && '\n' !in m.createdBy
    requires PlainStart(Trim(CreatorLines(m.createdBy)[0]))
    ensures CreatorLines(m.createdBy) != []
    ensures Parse(Render(m), value).Failure? <==> ScanPlain(CreatorLines(m.createdBy)).None?
    ensures Parse(Render(m), value).Success? ==>
      var text := ScanPlain(CreatorLines(m.createdBy)).value;
      Parse(Render(m), value).value.createdBy == if plain(text).Str? then text else ""
  {
    hide Parse, Render, ReadsYaml, DalfName, Without, MapsInside, PlainStart, Trim, ScanPlain, Written, ValueLines,
      Printable;
    var lines := CreatorLines(m.createdBy);
    ParseRender(m, value, plain);
    FirstKeys(m.createdBy);
    ValueWritten(Entry("Created-By", m.createdBy));
    ScansPlain(lines, value, plain);
    if ScanPlain(lines).Some? {
      ItselfWhenString(ScanPlain(lines).value, value, plain);
    }
  }

  // ---------- The creator ----------

  /** A creator YAML hands back: empty, or plain text that resolves to a string, without a space at either
      end, whose lines break at single spaces only. */
  ghost predicate Recoverable(created: string, plain: string -> Yaml)
    requires '\n' !in created
  {
    FirstKeys(created);
    || created == ""
    || (&& created[0] != ' ' && created[|created| - 1] != ' '
        && BreaksAtSpaces(Pieces(Entry("Created-By", created)))
        && PlainScalar(CreatorLines(created))
        && plain(created) == Str(created))
  }

  /** The creator comes back exactly when it is recoverable: a JAR reader drops a line break, YAML turns it
      into a space, and reads text that looks like something else as something else. */
  lemma CreatorRecovered(m: DarManifest, value: ValueReader, plain: string -> Yaml)
    requires Writable(m) && ReadsYaml(value, plain) && m.dalfDependencies != [] && '\n' !in m.createdBy
    ensures Parse(Render(m), value).Success? && Parse(Render(m), value).value.createdBy == m.createdBy
        <==> Recoverable(m.createdBy, plain)
  {
    hide Parse, Render, ReadsYaml, PlainScalar, BreaksAtSpaces, Pieces, ValueLines, Folded, Without, DalfName;
    ParseRender(m, value, plain);
    FirstKeys(m.createdBy);
    var e := Entry("Created-By", m.createdBy);
    assert CreatorLines(m.createdBy) == ValueLines(e);
    PrintableFolds(e);
    if m.createdBy == "" {
      NothingWritten(e, value, plain);
    } else {
      if PlainScalar(ValueLines(e)) {
        PlainRead(e, value, plain);
      }
      StandsForItself(e, value, plain);
      ItselfWhenString(Folded(e), value, plain);
    }
  }

  lemma PrintableFolds(e: Entry)
    requires WellKeyed(e) && Printable(e.value)
    ensures Folded(e) == e.value <==>
      || e.value == ""
      || (e.value[0] != ' ' && e.value[|e.value| - 1] != ' ' && BreaksAtSpaces(Pieces(e)))
  {
    hide Folded, BreaksAtSpaces, Pieces;
    FoldedIsValue(e);
  }

  /** Only a plain scalar is read as the text it is written as. */
  lemma StandsForItself(e: Entry, value: ValueReader, plain: string -> Yaml)
    requires ReadsYaml(value, plain) && WellKeyed(e) && Printable(e.value)
    ensures value(ValueLines(e)) == Some(Str(e.value)) ==> PlainScalar(ValueLines(e))
  {
    hide ReadsYaml, WellKeyed, Printable, ValueLines, PlainStart, PlainScalar, Trim, Weight, ScanPlain, Concat;
    var lines := ValueLines(e);
    ValueWritten(e);
    if e.value == "" {
      NothingWritten(e, value, plain);
    } else if value(lines) == Some(Str(e.value)) {
      if !PlainStart(Trim(lines[0])) {
        OtherStyle(e, value, plain);
        assert false;
      }
      ScansPlain(lines, value, plain);
      ItselfWhenString(ScanPlain(lines).value, value, plain);
      assert ScanPlain(lines) == Some(e.value);
      ScannedEnds(lines, e.value);
      ValueWeighs(e);
      LastNonblank(e);
      assert '\n' !in e.value by { SingleLine(e); }
      ReadAsWritten(lines, e.value);
    }
  }

  lemma SingleLine(e: Entry)
    requires WellKeyed(e)
    ensures '\n' !in e.value
  {
  }

  lemma ScannedEnds(lines: seq<string>, text: string)
    requires Written(lines) && PlainStart(Trim(lines[0])) && ScanPlain(lines) == Some(text)
    ensures text == "" || !IsBlank(text[|text| - 1])
  {
    hide Trim, PlainStart, HasComment, MapsInside, BeforeComment, IsBlank;
    assert Trim(lines[0]) != "" by { StartsWithSomething(Trim(lines[0])); }
    TrimBothEnds(lines[0]);
    LineEnds("", Trim(lines[0]), lines[1..]);
  }

  lemma ValueWeighs(e: Entry)
    requires WellKeyed(e)
    ensures Weight(Concat(ValueLines(e))) == Weight(e.value)
  {
    hide Strip, ValueLines, Pieces, JoinLines, Fold;
    FoldedKeeps(e);
    FoldStrips(ValueLines(e));
  }

  lemma LastNonblank(e: Entry)
    requires WellKeyed(e) && Printable(e.value) && e.value != "" && !IsBlank(e.value[|e.value| - 1])
    ensures var lines := ValueLines(e); Trim(lines[|lines| - 1]) != ""
  {
    hide Trim, Pieces, Cut;
    PiecesCut(e);
    var ps, lines := Pieces(e), ValueLines(e);
    LastOfCut(ps);
    assert |ps| > 1 ==> lines[|lines| - 1] == " " + ps[1..][|ps| - 2];
    TrimNonblank(lines[|lines| - 1]);
  }

  lemma LastOfCut(pieces: seq<string>)
    requires Cut(pieces)
    ensures var last := pieces[|pieces| - 1]; last != "" && !IsBlank(last[|last| - 1])
  {
  }

  lemma TrimNonblank(s: string)
    requires s != "" && !IsBlank(s[|s| - 1])
    ensures Trim(s) != ""
  {
    SomethingLeft(s);
    TrimmedNonblank(s);
  }

  lemma ItselfWhenString(s: string, value: ValueReader, plain: string -> Yaml)
    requires ReadsYaml(value, plain)
    ensures plain(s).Str? ==> plain(s).value == s
  {
    hide PlainStart, WellKeyed, Printable, ValueLines, EndsWith, ScanPlain, Written, Blank, Trim;
  }

  /** Of the creators without spaces those come back that fit on the first line, are plain text, and
      resolve to a string. */
  lemma CreatorWithoutSpaces(created: string, plain: string -> Yaml)
    requires created != "" && forall i :: 0 <= i < |created| ==> '!' <= created[i] <= '~'
    ensures '\n' !in created
    ensures Recoverable(created, plain) <==>
      |created| <= 59 && PlainStart(created) && PlainLine(created) && plain(created) == Str(created)
  {
    hide BreaksAtSpaces, PlainScalar, PlainStart, PlainLine, Pieces, ValueLines;
    FirstKeys(created);
    var e := Entry("Created-By", created);
    if |created| <= 59 {
      OneLine(e);
    } else {
      BrokenWord(e);
    }
  }

  lemma OneLine(e: Entry)
    requires WellKeyed(e) && |e.Text()| <= LINE_BYTES && e.value != ""
    requires forall i :: 0 <= i < |e.value| ==> '!' <= e.value[i] <= '~'
    ensures BreaksAtSpaces(Pieces(e))
    ensures PlainScalar(ValueLines(e)) <==> PlainStart(e.value) && PlainLine(e.value)
  {
    hide PlainStart, PlainLine, TrimEnd, Chunks;
    FirstPiece(e);
    assert e.Text()[Break(e)..] == "" && e.Text()[|e.key| + 1..Break(e)] == " " + e.value;
    assert Pieces(e) == [" " + e.value] == ValueLines(e);
    assert (" " + e.value)[1..] == e.value;
    NothingToTrim(e.value);
    assert Trim(" " + e.value) == e.value;
  }

  lemma BrokenWord(e: Entry)
    requires WellKeyed(e) && |e.Text()| > LINE_BYTES
    requires forall i :: 0 <= i < |e.value| ==> '!' <= e.value[i] <= '~'
    ensures !BreaksAtSpaces(Pieces(e))
  {
    hide Chunks, TrimStart, TrimEnd;
    var text, rest := e.Text(), e.Text()[LINE_BYTES..];
    var start := |e.key| + 2;
    assert forall i :: start <= i < |text| ==> text[i] == e.value[i - start];
    var first := Pieces(e)[0];
    assert first == text[|e.key| + 1..LINE_BYTES];
    assert first[|first| - 1] == text[LINE_BYTES - 1];
    var chunk := ChunkOf(rest, 0);
    assert Pieces(e)[1] == Chunks(rest)[0];
    ChunkFirst(rest);
    assert rest[0] == text[LINE_BYTES];
    assert Trail(first) == 0 && Lead(Pieces(e)[1]) == 0;
  }

  lemma ChunkFirst(s: string)
    requires s != ""
    ensures Chunks(s) != [] && Chunks(s)[0] != "" && Chunks(s)[0][0] == s[0]
  {
  }

  // ---------- Creators that are lost ----------

  /** Three characters that do not come back: the creator is read as a number. */
  lemma NumberLost(m: DarManifest, value: ValueReader, plain: string -> Yaml)
    requires Writable(m) && ReadsYaml(value, plain) && m.dalfDependencies != [] && m.createdBy == "1.0"
    ensures Parse(Render(m), value).Success? && Parse(Render(m), value).value.createdBy == ""
  {
    hide Parse, Render, ReadsYaml, ValueLines, DalfName, PlainText, SingleSpaced, PlainStart, Without;
    ParseRender(m, value, plain);
    FirstKeys(m.createdBy);
    Constants();
    VersionIsReal(value, plain);
    ConstantRead(Entry("Created-By", "1.0"), value, plain);
  }

  /** A creator that makes the whole manifest unreadable: YAML sees a mapping inside a mapping. */
  lemma MappingRefused(m: DarManifest, value: ValueReader, plain: string -> Yaml)
    requires Writable(m) && ReadsYaml(value, plain) && m.createdBy == "a: b"
    ensures Parse(Render(m), value).Failure?
  {
    hide Parse, Render, ReadsYaml, DalfName, Without, MapsInside, PlainStart;
    ParseRender(m, value, plain);
    FirstKeys(m.createdBy);
    OneCreatorLine("a: b");
    assert " " + "a: b" == " a: b";
    MappingScanned();
    ScansPlain([" a: b"], value, plain);
  }

  lemma OneCreatorLine(created: string)
    requires Printable(created) && created != "" && |created| <= 59
    ensures '\n' !in created && CreatorLines(created) == [" " + created] && Written([" " + created])
  {
    FirstKeys(created);
    var e := Entry("Created-By", created);
    assert e.Text()[Break(e)..] == "" && e.Text()[|e.key| + 1..Break(e)] == " " + created;
    ValueWritten(e);
  }

  lemma MappingScanned()
    ensures Written([" a: b"]) && PlainStart(Trim(" a: b")) && ScanPlain([" a: b"]) == None
  {
    assert " a: b"[1..] == "a: b";
    NothingToTrim("a: b");
    assert TrimStart(" a: b") == TrimStart("a: b");
    assert CommentAt("a: b", 0) == 4 && "a: b"[..4] == "a: b";
    assert TrimEnd("a: b") == "a: b";
    assert "a: b"[1] == ':' && "a: b"[2] == ' ' && Adjacent("a: b", ':', ' ');
  }

  /** A creator of which only the part before a comment is read. */
  lemma CommentLost(m: DarManifest, value: ValueReader, plain: string -> Yaml)
    requires Writable(m) && ReadsYaml(value, plain) && m.dalfDependencies != [] && m.createdBy == "a #b: c"
    ensures Parse(Render(m), value).Success?
    ensures Parse(Render(m), value).value.createdBy == if plain("a").Str? then "a" else ""
  {
    hide Parse, Render, ReadsYaml, DalfName, Without, MapsInside, PlainStart, Trim, ScanPlain, Written;
    ParseRender(m, value, plain);
    OneCreatorLine("a #b: c");
    assert " " + "a #b: c" == " a #b: c";
    CommentScanned();
    ScansPlain([" a #b: c"], value, plain);
    ItselfWhenString("a", value, plain);
  }

  lemma CommentScanned()
    ensures Written([" a #b: c"]) && PlainStart(Trim(" a #b: c")) && ScanPlain([" a #b: c"]) == Some("a")
  {
    hide ScanLine, CommentAt;
    var s := "a #b: c";
    SpacedTrim(s);
    assert " " + s == " a #b: c";
    CommentCut(s);
    assert [" " + s][1..] == [];
    assert ScanLine("", s, []) == Some("a") by { CutScanned(s); }
  }

  lemma SpacedTrim(s: string)
    requires s != "" && !IsBlank(s[0]) && !IsBlank(s[|s| - 1])
    ensures Trim(" " + s) == s
  {
    assert (" " + s)[1..] == s;
    NothingToTrim(s);
  }

  lemma CommentCut(s: string)
    requires s == "a #b: c"
    ensures HasComment(s) && BeforeComment(s) == "a"
  {
    assert s[2] == '#' && s[1] == ' ' && s[0] == 'a';
    assert CommentAt(s, 2) == 2 && CommentAt(s, 1) == 2 && CommentAt(s, 0) == 2;
    assert s[..2] == "a " && "a "[..1] == "a" && TrimEnd("a ") == TrimEnd("a") == "a";
  }

  lemma CutScanned(s: string)
    requires HasComment(s) && BeforeComment(s) == "a"
    ensures ScanLine("", s, []) == Some("a")
  {
    hide HasComment, BeforeComment;
    assert !MapsInside("a");
    assert "" + "a" == "a";
  }

  // ---------- The premises can be met ----------

  function SomePlain(s: string): Yaml {
    if s == "1.0" then Real("1.0") else Str(s)
  }

  ghost function SomeValue(lines: seq<string>): Option<Yaml> {
    if !Written(lines) then None
    else if PlainStart(Trim(lines[0])) then Resolved(ScanPlain(lines), SomePlain)
    else if Blank(lines) then Some(Null)
    else None
  }

  /** A reader that knows `1.0`, takes other plain scalars as text, and refuses what does not start like one. */
  lemma SomeReader()
    ensures ReadsYaml(SomeValue, SomePlain)
  {
    hide PlainStart, Printable, WellKeyed, ValueLines, Trim, ScanPlain, Strip, EndsWith, Blank;
    NumberIsNoName();
    forall lines | Written(lines) && Blank(lines)
      ensures !PlainStart(Trim(lines[0]))
    {
      BlankStart(lines);
    }
    forall e: Entry | WellKeyed(e) && Printable(e.value) && !PlainStart(Trim(ValueLines(e)[0]))
      ensures SomeValue(ValueLines(e)) != Some(Str(e.value))
    {
    }
  }

  lemma NumberIsNoName()
    ensures !EndsWith(Strip("1.0"), ".dalf")
  {
    StripNothing("1.0");
  }

  lemma BlankStart(lines: seq<string>)
    requires Written(lines) && Blank(lines)
    ensures !PlainStart(Trim(lines[0]))
  {
    hide Trim;
    StartsWithSomething(Trim(lines[0]));
  }

  lemma SomeManifest() returns (m: DarManifest)
    ensures Writable(m) && m.dalfDependencies != [] && m.dalfMain !in m.dalfDependencies
  {
    hide DalfName;
    m := NewImplied("a.dalf", ["b.dalf"]);
    ShortName('a');
    ShortName('b');
    assert "a.dalf" == ['a'] + ".dalf" && "b.dalf" == ['b'] + ".dalf";
    assert "a.dalf"[0] != "b.dalf"[0];
  }

  lemma ShortName(letter: char)
    requires 'a' <= letter <= 'z'
    ensures DalfName([letter] + ".dalf")
  {
    assert ([letter] + ".dalf")[1..] == ".dalf";
  }
}
