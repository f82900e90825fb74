/** Turning Daml names into Rust identifiers. */
module Identifiers {

  /** The words the generator appends an underscore to. */
  predicate IsKeyword(s: string) {
    EarlierKeyword(s) || LaterKeyword(s)
  }

  predicate EarlierKeyword(s: string) {
    || s == "as" || s == "break" || s == "const" || s == "continue" || s == "else" || s == "enum"
    || s == "false" || s == "fn" || s == "for" || s == "if" || s == "impl" || s == "in" || s == "let"
    || s == "loop" || s == "match" || s == "mod" || s == "move" || s == "mut" || s == "pub" || s == "ref"
  }

  predicate LaterKeyword(s: string) {
    || s == "return" || s == "static" || s == "struct" || s == "trait" || s == "true" || s == "type"
    || s == "unsafe" || s == "use" || s == "where" || s == "while" || s == "dyn" || s == "abstract"
    || s == "become" || s == "box" || s == "do" || s == "final" || s == "macro" || s == "override"
    || s == "priv" || s == "typeof" || s == "unsized" || s == "virtual" || s == "yield" || s == "async"
    || s == "await" || s == "try" || s == "self" || s == "super" || s == "extern" || s == "crate" || s == "gen"
  }

  /** The keywords of Rust 2024, strict and reserved ("Keywords" in The Rust Reference). */
  predicate IsRustKeyword(s: string) {
    StrictKeyword(s) || ReservedKeyword(s)
  }

  predicate StrictKeyword(s: string) {
    || s == "as" || s == "async" || s == "await" || s == "break" || s == "const" || s == "continue" || s == "crate"
    || s == "dyn" || s == "else" || s == "enum" || s == "extern" || s == "false" || s == "fn" || s == "for"
    || s == "if" || s == "impl" || s == "in" || s == "let" || s == "loop" || s == "match" || s == "mod"
    || s == "move" || s == "mut" || s == "pub" || s == "ref" || s == "return" || s == "self" || s == "Self"
    || s == "static" || s == "struct" || s == "super" || s == "trait" || s == "true" || s == "type"
    || s == "unsafe" || s == "use" || s == "where" || s == "while"
  }

  predicate ReservedKeyword(s: string) {
    || s == "abstract" || s == "become" || s == "box" || s == "do" || s == "final" || s == "gen" || s == "macro"
    || s == "override" || s == "priv" || s == "try" || s == "typeof" || s == "unsized" || s == "virtual"
    || s == "yield"
  }

  /** The generator knows every keyword but `Self`, and takes nothing else for one. */
  lemma KeywordsKnown(s: string)
    ensures IsRustKeyword(s) <==> IsKeyword(s) || s == "Self"
  {
  }

  function SanitizeChar(c: char): char {
    if c == '-' || c == '$' || c == '.' then '_' else c
  }

  predicate IsDigit(c: char) {
    '0' <= c <= '9'
  }

  function Sanitize(s: string): (r: string)
    ensures |r| == |s| && forall i :: 0 <= i < |s| ==> r[i] == SanitizeChar(s[i])
  {
    if s == [] then [] else [SanitizeChar(s[0])] + Sanitize(s[1..])
  }

  function GuardDigit(s: string): string {
    if s != [] && IsDigit(s[0]) then "_" + s else s
  }

  function EscapeKeyword(s: string): string {
    if IsKeyword(s) then s + "_" else s
  }

  function Escape(s: string): string {
    EscapeKeyword(GuardDigit(Sanitize(s)))
  }

  /** Edits the identifier in place: replaces characters, then inserts, then appends. */
  method EscapeIdentifier(value: string) returns (ident: string)
    ensures ident == Escape(value)
  {
    hide IsKeyword;
    ident := "";
    for i := 0 to |value|
      invariant ident == Sanitize(value)[..i]
    {
      ident := ident + [SanitizeChar(value[i])];
    }
    assert Sanitize(value)[..|value|] == Sanitize(value);
    if ident != [] && IsDigit(ident[0]) {
      ident := "_" + ident;
    }
    if IsKeyword(ident) {
      ident := ident + "_";
    }
  }

  // ---------- What escaping achieves ----------

  lemma KeywordsEndInLetters(s: string)
    requires IsKeyword(s)
    ensures s != [] && s[|s| - 1] != '_' && s[0] != '_' && !IsDigit(s[0])
    ensures forall i :: 0 <= i < |s| ==> SanitizeChar(s[i]) == s[i]
  {
    hide EarlierKeyword, LaterKeyword, WordOfLetters;
    if EarlierKeyword(s) {
      EarlierEndInLetters(s);
    } else {
      LaterEndInLetters(s);
    }
    LettersKept(s);
  }

  predicate WordOfLetters(s: string) {
    s != [] && forall i :: 0 <= i < |s| ==> 'a' <= s[i] <= 'z'
  }

  lemma EarlierEndInLetters(s: string)
    requires EarlierKeyword(s)
    ensures WordOfLetters(s)
  {
  }

  lemma LaterEndInLetters(s: string)
    requires LaterKeyword(s)
    ensures WordOfLetters(s)
  {
  }

  lemma LettersKept(s: string)
    requires WordOfLetters(s)
    ensures s[|s| - 1] != '_' && s[0] != '_' && !IsDigit(s[0])
    ensures s != [] && forall i :: 0 <= i < |s| ==> SanitizeChar(s[i]) == s[i]
  {
  }

  lemma EscapedIsNoKeyword(s: string)
    ensures !IsKeyword(Escape(s))
  {
    var g := GuardDigit(Sanitize(s));
    if IsKeyword(g) && IsKeyword(g + "_") {
      KeywordsEndInLetters(g + "_");
    }
  }

  /** The only name that escapes to a Rust keyword is `Self`. */
  lemma EscapedRustKeyword(s: string)
    ensures IsRustKeyword(Escape(s)) <==> s == "Self"
  {
    hide IsKeyword, IsRustKeyword;
    SelfIsNoKeyword();
    KeywordsKnown(Escape(s));
    EscapedIsNoKeyword(s);
    var c := Sanitize(s);
    if s == "Self" {
      assert c == s;
    }
    if Escape(s) == "Self" {
      assert Escape(s)[|Escape(s)| - 1] == 'f' && Escape(s)[0] == 'S';
      assert GuardDigit(c) == "Self" && c == "Self";
      assert |s| == 4 && forall i :: 0 <= i < 4 ==> c[i] == SanitizeChar(s[i]);
      assert s == "Self";
    }
  }

  lemma SelfIsNoKeyword()
    ensures !IsKeyword("Self")
  {
    assert "Self"[0] == 'S';
  }

  /** The escaped identifier, written out: the name's own characters with `-`, `$` and `.` made underscores, with
      an underscore in front of a digit and behind a keyword other than `Self`. */
  lemma EscapeSpelled(s: string)
    ensures var front, back := if s != "" && '0' <= s[0] <= '9' then "_" else "",
                               if IsRustKeyword(s) && s != "Self" then "_" else "";
      && |Escape(s)| == |front| + |s| + |back| && front <= Escape(s)
      && (back != "" ==> Escape(s)[|Escape(s)| - 1] == '_')
      && forall i :: 0 <= i < |s| ==>
           Escape(s)[|front| + i] == if s[i] == '-' || s[i] == '$' || s[i] == '.' then '_' else s[i]
  {
    hide IsKeyword, IsRustKeyword;
    var c, g := Sanitize(s), GuardDigit(Sanitize(s));
    SelfIsNoKeyword();
    KeywordsKnown(s);
    assert s != "" ==> c[0] == SanitizeChar(s[0]);
    if IsKeyword(g) {
      KeywordsEndInLetters(g);
      assert g == c;
      UnchangedKeyword(s);
    }
    if IsKeyword(s) {
      KeywordsEndInLetters(s);
      assert c == s;
    }
  }

  /** Only a keyword is sanitized into a keyword: an underscore is in none. */
  lemma UnchangedKeyword(s: string)
    requires IsKeyword(Sanitize(s))
    ensures Sanitize(s) == s
  {
    hide EarlierKeyword, LaterKeyword, WordOfLetters;
    var c := Sanitize(s);
    if EarlierKeyword(c) {
      EarlierEndInLetters(c);
    } else {
      LaterEndInLetters(c);
    }
    LettersStay(s, c);
  }

  lemma LettersStay(s: string, c: string)
    requires WordOfLetters(c) && |c| == |s| && forall i :: 0 <= i < |s| ==> c[i] == SanitizeChar(s[i])
    ensures c == s
  {
  }

  lemma EscapedStartsWell(s: string)
    ensures Escape(s) == [] || !IsDigit(Escape(s)[0])
  {
    var g := GuardDigit(Sanitize(s));
    assert g == [] || !IsDigit(g[0]);
    if IsKeyword(g) {
      KeywordsEndInLetters(g);
    }
  }

  /** Escaping an identifier again changes nothing. */
  lemma EscapeIdempotent(s: string)
    ensures Escape(Escape(s)) == Escape(s)
  {
    var e := Escape(s);
    EscapedIsNoKeyword(s);
    EscapedStartsWell(s);
    forall i | 0 <= i < |e|
      ensures SanitizeChar(e[i]) == e[i]
    {
      SanitizedStays(s, i);
    }
    assert Sanitize(e) == e;
  }

  lemma SanitizedStays(s: string, i: nat)
    requires i < |Escape(s)|
    ensures SanitizeChar(Escape(s)[i]) == Escape(s)[i]
  {
    var c := Sanitize(s);
    var g := GuardDigit(c);
    assert forall j :: 0 <= j < |c| ==> SanitizeChar(c[j]) == c[j];
    assert forall j :: 0 <= j < |g| ==> SanitizeChar(g[j]) == g[j];
  }

  /** What snake-casing gives: letters, digits and underscores, with no underscore at either end. */
  predicate SnakeShaped(s: string) {
    && (s != [] ==> s[0] != '_' && s[|s| - 1] != '_')
    && forall i :: 0 <= i < |s| ==> SanitizeChar(s[i]) == s[i]
  }

  lemma SnakeSanitized(s: string)
    requires SnakeShaped(s)
    ensures Sanitize(s) == s
  {
  }

  /** Snake-case names stay apart when they are escaped. */
  lemma EscapeInjective(a: string, b: string)
    requires SnakeShaped(a) && SnakeShaped(b)
    ensures Escape(a) == Escape(b) ==> a == b
  {
    hide IsKeyword, Sanitize, GuardDigit;
    SnakeSanitized(a);
    SnakeSanitized(b);
    GuardedApart(a, b);
    GuardedEnds(a);
    GuardedEnds(b);
    var g, h := GuardDigit(a), GuardDigit(b);
    assert (g + "_")[|g|] == '_' && (h + "_")[|h|] == '_';
    assert (g + "_")[..|g|] == g && (h + "_")[..|h|] == h;
  }

  lemma GuardedApart(a: string, b: string)
    requires SnakeShaped(a) && SnakeShaped(b)
    ensures GuardDigit(a) == GuardDigit(b) ==> a == b
  {
    assert ("_" + a)[1..] == a && ("_" + b)[1..] == b;
  }

  lemma GuardedEnds(s: string)
    requires SnakeShaped(s)
    ensures GuardDigit(s) != [] ==> GuardDigit(s)[|GuardDigit(s)| - 1] != '_'
  {
  }

  /** A name escaping leaves alone up to keywords. */
  predicate Plain(s: string) {
    && (s == [] || !IsDigit(s[0]))
    && forall i :: 0 <= i < |s| ==> SanitizeChar(s[i]) == s[i]
  }

  /** Two plain names clash exactly when one is a keyword and the other is that keyword with the
      underscore already there. */
  lemma EscapeClash(a: string, b: string)
    requires Plain(a) && Plain(b)
    ensures Escape(a) == Escape(b)
        <==> a == b || (IsKeyword(a) && b == a + "_") || (IsKeyword(b) && a == b + "_")
  {
    assert Sanitize(a) == a && Sanitize(b) == b;
    if IsKeyword(a) && IsKeyword(b) && a + "_" == b + "_" {
      assert (a + "_")[..|a|] == a && (b + "_")[..|b|] == b;
    }
    if IsKeyword(a) {
      KeywordsEndInLetters(a);
      EscapedIsNoKeyword(a);
    }
    if IsKeyword(b) {
      KeywordsEndInLetters(b);
      EscapedIsNoKeyword(b);
    }
  }
}
