/** The DAR manifest: rendering with lines folded after 71 bytes, and parsing what was rendered.

    One `char` stands for one byte, so everything here speaks about ASCII text. YAML loading is modelled
    for the subset a manifest uses: `key: value` lines, and continuation lines joined to the line before
    by one space. */
module Manifest {
  import opened Wrappers

  datatype DarManifestVersion = UnknownVersion | V1
  datatype DarManifestFormat = UnknownFormat | DamlLf
  datatype DarEncryptionType = UnknownEncryption | NotEncrypted

  datatype DarManifest = DarManifest(
    version: DarManifestVersion,
    createdBy: string,
    dalfMain: string,
    dalfDependencies: seq<string>,
    format: DarManifestFormat,
    encryption: DarEncryptionType)

  datatype ManifestError = DarParseError

  function NewImplied(dalfMain: string, dalfDependencies: seq<string>): DarManifest {
    DarManifest(UnknownVersion, "implied", dalfMain, dalfDependencies, UnknownFormat, UnknownEncryption)
  }

  // ---------- Text ----------

  function Join(parts: seq<string>, sep: string): string {
    if parts == [] then ""
    else if |parts| == 1 then parts[0]
    else parts[0] + sep + Join(parts[1..], sep)
  }

  function SplitOn(s: string, c: char): (r: seq<string>)
    ensures r != []
  {
    if s == "" then [""]
    else if s[0] == c then [""] + SplitOn(s[1..], c)
    else var r := SplitOn(s[1..], c); [[s[0]] + r[0]] + r[1..]
  }

  predicate IsSpace(c: char) {
    c == ' ' || '\t' <= c <= '\r'
  }

  /** Removes all whitespace. */
  function Strip(s: string): string {
    if s == "" then ""
    else if IsSpace(s[0]) then Strip(s[1..])
    else [s[0]] + Strip(s[1..])
  }

  function StripAll(parts: seq<string>): (r: seq<string>)
    ensures |r| == |parts|
  {
    if parts == [] then [] else [Strip(parts[0])] + StripAll(parts[1..])
  }

  lemma {:induction false} StripAppend(a: string, b: string)
    ensures Strip(a + b) == Strip(a) + Strip(b)
  {
    if a == "" {
      assert a + b == b;
    } else {
      assert (a + b)[1..] == a[1..] + b;
      StripAppend(a[1..], b);
    }
  }

  lemma {:induction false} StripNothing(s: string)
    requires forall c :: c in s ==> !IsSpace(c)
    ensures Strip(s) == s
  {
    if s != "" {
      StripNothing(s[1..]);
    }
  }

  lemma {:induction false} SplitOnSeparator(a: string, b: string, c: char)
    ensures SplitOn(a + [c] + b, c) == SplitOn(a, c) + SplitOn(b, c)
  {
    if a == "" {
      assert a + [c] + b == [c] + b;
      assert ([c] + b)[1..] == b;
    } else {
      assert (a + [c] + b)[1..] == a[1..] + [c] + b;
      SplitOnSeparator(a[1..], b, c);
    }
  }

  lemma {:induction false} SplitOnNothing(s: string, c: char)
    requires c !in s
    ensures SplitOn(s, c) == [s]
  {
    if s != "" {
      SplitOnNothing(s[1..], c);
      assert s == [s[0]] + s[1..];
    }
  }

  /** Joining with a character and splitting on it again gives the parts back. */
  lemma {:induction false} SplitOnJoin(parts: seq<string>, c: char)
    requires parts != [] && forall p :: p in parts ==> c !in p
    ensures SplitOn(Join(parts, [c]), c) == parts
  {
    SplitOnNothing(parts[0], c);
    if |parts| > 1 {
      SplitOnJoin(parts[1..], c);
      SplitOnSeparator(parts[0], Join(parts[1..], [c]), c);
    }
  }

  /** Splitting and then removing whitespace is removing whitespace and then splitting. */
  lemma {:induction false} StripCommutesWithSplit(s: string, c: char)
    requires !IsSpace(c)
    ensures StripAll(SplitOn(s, c)) == SplitOn(Strip(s), c)
  {
    if s != "" {
      StripCommutesWithSplit(s[1..], c);
      var r := SplitOn(s[1..], c);
      if s[0] != c && !IsSpace(s[0]) {
        assert Strip(s)[1..] == Strip(s[1..]);
      }
    }
  }

  // ---------- Folding ----------

  const LINE_BYTES: nat := 71

  function Chunks(s: string): (r: seq<string>)
    ensures forall c :: c in r ==> 0 < |c| <= LINE_BYTES
    ensures r == [] <==> s == ""
    decreases |s|
  {
    if s == "" then []
    else if |s| <= LINE_BYTES then [s]
    else [s[..LINE_BYTES]] + Chunks(s[LINE_BYTES..])
  }

  function Indent(parts: seq<string>): (r: seq<string>)
    ensures |r| == |parts| && forall i :: 0 <= i < |parts| ==> r[i] == " " + parts[i]
  {
    if parts == [] then [] else [" " + parts[0]] + Indent(parts[1..])
  }

  function SplitManifestString(s: string): string {
    var lines := Chunks(s);
    if lines == [] then ""
    else if |lines| == 1 then lines[0]
    else lines[0] + "\n" + Join(Indent(lines[1..]), "\n")
  }

  /** The lines of a folded string. */
  ghost function FoldedLines(s: string): seq<string> {
    var lines := Chunks(s);
    if lines == [] then [""] else [lines[0]] + Indent(lines[1..])
  }

  ghost function Concat(parts: seq<string>): string {
    if parts == [] then "" else parts[0] + Concat(parts[1..])
  }

  lemma {:induction false} ChunksConcat(s: string)
    ensures Concat(Chunks(s)) == s
    ensures forall c :: c in Chunks(s) ==> forall x :: x in c ==> x in s
    decreases |s|
  {
    if |s| > LINE_BYTES {
      ChunksConcat(s[LINE_BYTES..]);
      assert Chunks(s)[1..] == Chunks(s[LINE_BYTES..]);
      assert s[..LINE_BYTES] + s[LINE_BYTES..] == s;
    } else if s != "" {
      assert Chunks(s)[1..] == [];
      assert s + "" == s;
    }
  }

  lemma FoldedText(s: string)
    ensures SplitManifestString(s) == Join(FoldedLines(s), "\n")
  {
    var lines := Chunks(s);
    if |lines| > 1 {
      assert ([lines[0]] + Indent(lines[1..]))[1..] == Indent(lines[1..]);
    }
  }

  ghost function Unindent(lines: seq<string>): seq<string> {
    if lines == [] then []
    else [if lines[0] == "" then "" else lines[0][1..]] + Unindent(lines[1..])
  }

  /** What a JAR reader does: drop the leading space of every continuation line and join. */
  ghost function Unfold(lines: seq<string>): string
    requires lines != []
  {
    lines[0] + Concat(Unindent(lines[1..]))
  }

  /** The line-length rule of the JAR File Specification ("Line length" in Notes on Manifest and Signature
      Files): no line is longer than 72 bytes, continuation lines start with one space, and unfolding
      gives the input back. */
  lemma FoldingObeysJarRule(s: string)
    requires '\n' !in s
    ensures var lines := SplitOn(SplitManifestString(s), '\n');
      && (forall i :: 0 <= i < |lines| ==> |lines[i]| <= 72)
      && (forall i :: 1 <= i < |lines| ==> lines[i] != "" && lines[i][0] == ' ')
      && Unfold(lines) == s
  {
    hide Unfold, SplitOn, SplitManifestString, FoldedLines;
    LinesOfFolded(s);
    FoldedLineShape(s);
    UnfoldFolded(s);
  }

  lemma FoldedLineShape(s: string)
    ensures var lines := FoldedLines(s);
      && lines != []
      && (forall i :: 0 <= i < |lines| ==> |lines[i]| <= 72)
      && (forall i :: 1 <= i < |lines| ==> lines[i] != "" && lines[i][0] == ' ')
  {
    hide Chunks, Indent;
    var chunks, lines := Chunks(s), FoldedLines(s);
    forall i | 0 <= i < |chunks|
      ensures 0 < |chunks[i]| <= LINE_BYTES
    {
      assert chunks[i] in chunks;
    }
    forall i | 1 <= i < |lines|
      ensures |lines[i]| <= 72 && lines[i] != "" && lines[i][0] == ' '
    {
      assert lines[i] == " " + chunks[1..][i - 1] && chunks[1..][i - 1] == chunks[i];
    }
  }

  lemma LinesOfFolded(s: string)
    requires '\n' !in s
    ensures SplitOn(SplitManifestString(s), '\n') == FoldedLines(s)
    ensures forall l :: l in FoldedLines(s) ==> '\n' !in l
  {
    hide SplitManifestString, Chunks, SplitOn;
    FoldedText(s);
    var lines := FoldedLines(s);
    forall i | 0 <= i < |lines|
      ensures '\n' !in lines[i]
    {
      LineKeepsText(s, i);
    }
    SplitOnJoin(lines, '\n');
  }

  lemma LineKeepsText(s: string, i: nat)
    requires i < |FoldedLines(s)|
    ensures forall c :: c in FoldedLines(s)[i] ==> c == ' ' || c in s
  {
    hide Chunks;
    ChunksConcat(s);
    if Chunks(s) != [] {
      assert Chunks(s)[i] in Chunks(s);
      assert FoldedLines(s)[i] == if i == 0 then Chunks(s)[i] else " " + Chunks(s)[i];
    }
  }

  lemma UnfoldFolded(s: string)
    ensures Unfold(FoldedLines(s)) == s
  {
    hide Chunks;
    var chunks := Chunks(s);
    ChunksConcat(s);
    if chunks != [] {
      assert FoldedLines(s)[1..] == Indent(chunks[1..]);
      UnindentIndent(chunks[1..]);
    }
  }

  lemma {:induction false} UnindentIndent(parts: seq<string>)
    ensures Unindent(Indent(parts)) == parts
  {
    if parts != [] {
      assert Indent(parts)[1..] == Indent(parts[1..]);
      UnindentIndent(parts[1..]);
    }
  }

  // ---------- Rendering ----------

  datatype Entry = Entry(key: string, value: string) {
    function Text(): string { key + ": " + value }
  }

  function Entries(m: DarManifest): (r: seq<Entry>)
    ensures |r| == 6
  {
    [Entry("Manifest-Version", "1.0"),
     Entry("Created-By", m.createdBy),
     Entry("Main-Dalf", m.dalfMain),
     Entry("Dalfs", Join(m.dalfDependencies, ", ")),
     Entry("Format", "daml-lf"),
     Entry("Encryption", "non-encrypted")]
  }

  function FoldEntries(entries: seq<Entry>): (r: seq<string>)
    ensures |r| == |entries|
  {
    if entries == [] then [] else [SplitManifestString(entries[0].Text())] + FoldEntries(entries[1..])
  }

  function Render(m: DarManifest): string {
    Join(FoldEntries(Entries(m)), "\n")
  }

  // ---------- YAML loading ----------

  /** What a value resolves to; a real carries its text at one decimal place. */
  datatype Yaml = BadValue | Null | Str(value: string) | Real(oneDecimal: string) | Other {
    function AsStr(): Option<string> {
      if Str? then Some(value) else None
    }
  }

  /** How YAML reads a value: `value` takes the lines it is written on and answers `None` when the document
      is refused for it. */
  type ValueReader = seq<string> -> Option<Yaml>

  predicate IsBlank(c: char) {
    c == ' ' || c == '\t'
  }

  function TrimStart(s: string): string {
    if s != "" && IsBlank(s[0]) then TrimStart(s[1..]) else s
  }

  function TrimEnd(s: string): string {
    if s != "" && IsBlank(s[|s| - 1]) then TrimEnd(s[..|s| - 1]) else s
  }

  function Trim(s: string): string {
    TrimEnd(TrimStart(s))
  }

  /** Folds the lines of one entry: each line trimmed, joined by one space. */
  function JoinLines(lines: seq<string>): string {
    if lines == [] then ""
    else if |lines| == 1 then Trim(lines[0])
    else Trim(lines[0]) + " " + JoinLines(lines[1..])
  }

  predicate IsContinuation(line: string) {
    line != "" && line[0] == ' '
  }

  /** How many of the first lines continue the line before. */
  function Continuations(lines: seq<string>): (n: nat)
    ensures n <= |lines|
  {
    if lines != [] && IsContinuation(lines[0]) then 1 + Continuations(lines[1..]) else 0
  }

  /** The lines of each entry: one that starts it, and those that continue it. */
  function Groups(lines: seq<string>): (r: seq<seq<string>>)
    ensures forall i :: 0 <= i < |r| ==> r[i] != []
  {
    if lines == [] then []
    else
      var n := Continuations(lines[1..]);
      [lines[..n + 1]] + Groups(lines[n + 1..])
  }

  function IndexOf(s: string, c: char): (r: nat)
    ensures r <= |s|
    ensures r < |s| ==> s[r] == c
  {
    if s == "" || s[0] == c then 0 else 1 + IndexOf(s[1..], c)
  }

  function LoadGroups(groups: seq<seq<string>>, value: ValueReader): Option<map<string, Yaml>>
    requires forall i :: 0 <= i < |groups| ==> groups[i] != []
  {
    if groups == [] then Some(map[])
    else
      var group := groups[0];
      var rest :- LoadGroups(groups[1..], value);
      var colon := IndexOf(group[0], ':');
      if JoinLines(group) == "" then Some(rest)
      else if colon == |group[0]| then None
      else
        var v :- value([group[0][colon + 1..]] + group[1..]);
        Some(map[group[0][..colon] := v] + rest)
  }

  function LoadYaml(text: string, value: ValueReader): Option<map<string, Yaml>> {
    LoadGroups(Groups(SplitOn(text, '\n')), value)
  }

  // ---------- Parsing ----------

  function Lookup(doc: map<string, Yaml>, key: string): Yaml {
    if key in doc then doc[key] else BadValue
  }

  function ParseVersion(raw: Yaml): Result<DarManifestVersion, ManifestError> {
    match raw
    case Str(s) => if s == "1.0" then Success(V1) else Failure(DarParseError)
    case Real(s) => if s == "1.0" then Success(V1) else Failure(DarParseError)
    case BadValue => Success(UnknownVersion)
    case _ => Failure(DarParseError)
  }

  function Lower(s: string): string {
    if s == "" then ""
    else [if 'A' <= s[0] <= 'Z' then s[0] - 'A' + 'a' else s[0]] + Lower(s[1..])
  }

  /** The dependencies: every name with its whitespace removed, except the main one. */
  function Without(names: seq<string>, dalfMain: string): seq<string> {
    if names == [] then []
    else if names[0] == dalfMain then Without(names[1..], dalfMain)
    else [names[0]] + Without(names[1..], dalfMain)
  }

  function ParseDependencies(dalfs: string, dalfMain: string): seq<string> {
    Without(StripAll(SplitOn(dalfs, ',')), dalfMain)
  }

  function Mandatory(raw: Yaml): Result<string, ManifestError> {
    match raw.AsStr()
    case Some(s) => Success(s)
    case None => Failure(DarParseError)
  }

  function ParseDocument(doc: map<string, Yaml>): Result<DarManifest, ManifestError> {
    var version :- ParseVersion(Lookup(doc, "Manifest-Version"));
    var created := Lookup(doc, "Created-By").AsStr();
    var createdBy := if created.Some? then created.value else "";
    var main :- Mandatory(Lookup(doc, "Main-Dalf"));
    var dalfMain := Strip(main);
    var dalfs :- Mandatory(Lookup(doc, "Dalfs"));
    var dependencies := ParseDependencies(dalfs, dalfMain);
    var format :- Mandatory(Lookup(doc, "Format"));
    if Lower(format) != "daml-lf" then Failure(DarParseError)
    else
      var encryption :- Mandatory(Lookup(doc, "Encryption"));
      if Lower(encryption) != "non-encrypted" then Failure(DarParseError)
      else Success(DarManifest(version, createdBy, dalfMain, dependencies, DamlLf, NotEncrypted))
  }

  function Parse(text: string, value: ValueReader): Result<DarManifest, ManifestError> {
    match LoadYaml(text, value)
    case None => Failure(DarParseError)
    case Some(doc) => ParseDocument(doc)
  }
}
