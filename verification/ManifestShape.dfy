/** What a manifest looks like, written out: the document that parses, and the text that is rendered. */
module ManifestShape {
  import opened Wrappers
  import opened Manifest

  // ---------- Documents that parse ----------

  ghost predicate SameLetter(a: char, b: char) {
    a == b || ('A' <= a <= 'Z' && b == a - 'A' + 'a')
  }

  /** `s` is `lower`, which is in lower case, up to the case of its letters. */
  ghost predicate Reads(s: string, lower: string) {
    |s| == |lower| && forall i :: 0 <= i < |s| ==> SameLetter(s[i], lower[i])
  }

  ghost predicate HasText(doc: map<string, Yaml>, key: string) {
    key in doc && doc[key].Str?
  }

  /** Missing altogether, or the text or number 1.0. */
  ghost predicate VersionAccepted(doc: map<string, Yaml>) {
    "Manifest-Version" in doc ==>
      var v := doc["Manifest-Version"];
      v == BadValue || v == Str("1.0") || v == Real("1.0")
  }

  /** Everything a manifest must say, and may not say otherwise. */
  ghost predicate IsManifest(doc: map<string, Yaml>) {
    && VersionAccepted(doc) && HasText(doc, "Main-Dalf") && HasText(doc, "Dalfs")
    && HasText(doc, "Format") && Reads(doc["Format"].value, "daml-lf")
    && HasText(doc, "Encryption") && Reads(doc["Encryption"].value, "non-encrypted")
  }

  predicate InLowerCase(s: string) {
    forall i :: 0 <= i < |s| ==> !('A' <= s[i] <= 'Z')
  }

  lemma {:induction false} LowerReads(s: string, lower: string)
    requires InLowerCase(lower)
    ensures Lower(s) == lower <==> Reads(s, lower)
  {
    if s != "" && lower != "" {
      LowerReads(s[1..], lower[1..]);
      assert lower == [lower[0]] + lower[1..];
      if Reads(s[1..], lower[1..]) && SameLetter(s[0], lower[0]) {
        assert forall i :: 0 < i < |s| ==> s[i] == s[1..][i - 1] && lower[i] == lower[1..][i - 1];
      }
      if Reads(s, lower) {
        assert forall i :: 0 <= i < |s[1..]| ==> s[1..][i] == s[i + 1] && lower[1..][i] == lower[i + 1];
      }
    }
  }

  /** Parsing succeeds exactly on manifests. The main archive loses its whitespace, the dependencies are the
      names between commas without theirs and without the main one, a creator that is no text is none, and only a
      manifest without a version has an unknown one. */
  lemma ParsesExactly(doc: map<string, Yaml>)
    ensures ParseDocument(doc).Success? <==> IsManifest(doc)
    ensures ParseDocument(doc).Success? ==>
      var m := ParseDocument(doc).value;
      && m.format == DamlLf && m.encryption == NotEncrypted
      && (m.version == UnknownVersion <==> "Manifest-Version" !in doc || doc["Manifest-Version"] == BadValue)
      && m.createdBy == (if HasText(doc, "Created-By") then doc["Created-By"].value else "")
      && m.dalfMain == Strip(doc["Main-Dalf"].value)
      && m.dalfDependencies == Without(StripAll(SplitOn(doc["Dalfs"].value, ',')), m.dalfMain)
  {
    hide Lower, Strip, Without, StripAll, SplitOn, Reads;
    if HasText(doc, "Format") {
      LowerReads(doc["Format"].value, "daml-lf");
    }
    if HasText(doc, "Encryption") {
      LowerReads(doc["Encryption"].value, "non-encrypted");
    }
  }

  // ---------- Names ----------

  /** Space, tab, line feed, vertical tab, form feed, carriage return. */
  predicate White(c: char) {
    c == ' ' || (9 <= c as int <= 13)
  }

  /** Stripping a text is stripping its parts, and a character goes exactly if it is white. */
  lemma StripsWhite(a: string, c: char, b: string)
    ensures Strip(a + [c] + b) == Strip(a) + (if White(c) then "" else [c]) + Strip(b)
    ensures Strip("") == ""
  {
    StripAppend(a + [c], b);
    StripAppend(a, [c]);
    assert [c][1..] == "";
  }

  /** What is left of the dependencies when the main archive goes: all others, in order and as often. */
  lemma {:induction false} OnlyMainGoes(a: seq<string>, n: string, b: seq<string>, dalfMain: string)
    ensures Without(a + [n] + b, dalfMain)
         == Without(a, dalfMain) + (if n == dalfMain then [] else [n]) + Without(b, dalfMain)
    ensures Without([], dalfMain) == []
  {
    if a == [] {
      assert a + [n] + b == [n] + b && ([n] + b)[1..] == b;
    } else {
      assert (a + [n] + b)[1..] == a[1..] + [n] + b;
      OnlyMainGoes(a[1..], n, b, dalfMain);
    }
  }

  // ---------- What is rendered ----------

  ghost predicate Fits(key: string, value: string) {
    |key| + 2 + |value| <= LINE_BYTES
  }

  /** A manifest whose entries all fit on a line renders as six lines in this order. */
  lemma RendersAs(m: DarManifest)
    requires Fits("Created-By", m.createdBy) && Fits("Main-Dalf", m.dalfMain)
    requires Fits("Dalfs", Join(m.dalfDependencies, ", "))
    ensures Render(m) == Join([
      "Manifest-Version: 1.0",
      "Created-By: " + m.createdBy,
      "Main-Dalf: " + m.dalfMain,
      "Dalfs: " + Join(m.dalfDependencies, ", "),
      "Format: daml-lf",
      "Encryption: non-encrypted"], "\n")
  {
    hide SplitManifestString, Join;
    var es := Entries(m);
    OneLine(es[0]);
    OneLine(es[1]);
    OneLine(es[2]);
    OneLine(es[3]);
    OneLine(es[4]);
    OneLine(es[5]);
    SixLines(es);
    assert "Manifest-Version" + ": " + "1.0" == "Manifest-Version: 1.0";
    assert "Created-By" + ": " == "Created-By: " && "Main-Dalf" + ": " == "Main-Dalf: " && "Dalfs" + ": " == "Dalfs: ";
    assert "Format" + ": " + "daml-lf" == "Format: daml-lf";
    assert "Encryption" + ": " + "non-encrypted" == "Encryption: non-encrypted";
  }

  lemma OneLine(e: Entry)
    requires Fits(e.key, e.value)
    ensures SplitManifestString(e.Text()) == e.key + ": " + e.value
  {
  }

  lemma SixLines(es: seq<Entry>)
    requires |es| == 6
    ensures FoldEntries(es) == [
      SplitManifestString(es[0].Text()), SplitManifestString(es[1].Text()), SplitManifestString(es[2].Text()),
      SplitManifestString(es[3].Text()), SplitManifestString(es[4].Text()), SplitManifestString(es[5].Text())]
  {
    hide SplitManifestString;
    assert es[1..][1..] == es[2..] && es[2..][1..] == es[3..] && es[3..][1..] == es[4..] && es[4..][1..] == es[5..];
    assert es[5..][1..] == [];
    assert FoldEntries(es[5..]) == [SplitManifestString(es[5].Text())];
    assert FoldEntries(es[4..]) == [SplitManifestString(es[4].Text())] + FoldEntries(es[5..]);
    assert FoldEntries(es[3..]) == [SplitManifestString(es[3].Text())] + FoldEntries(es[4..]);
    assert FoldEntries(es[2..]) == [SplitManifestString(es[2].Text())] + FoldEntries(es[3..]);
    assert FoldEntries(es[1..]) == [SplitManifestString(es[1].Text())] + FoldEntries(es[2..]);
  }
}
