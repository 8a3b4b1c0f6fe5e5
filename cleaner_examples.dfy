/** A worked instance of the cleaner: a mention, a comma and a link all turn into
    spaces, which the final split and join then collapse. */
module CleanerExamples {
  import opened Chars
  import opened Cleaner
  import opened Wrappers

  /** The mention `@ab`, the comma and the link `http://t.co` are removed; the
      two words that remain are joined by one space. The result does not depend
      on how non-ASCII characters are classified. */
  lemma MentionAndUrl(w: WordOracle, s: string)
    requires s == "@ab hi, http://t.co x"
    ensures Clean(w, s) == "hi x"
  {
    ScrubExample(w, s);
    SplitExample("  hi    x");
  }

  /** One step of the scan where nothing matches. */
  lemma ScrubCopy(w: WordOracle, s: string, i: nat)
    requires i < |s| && MatchAt(w, s, i).None?
    ensures Scrub(w, s, i) == [s[i]] + Scrub(w, s, i + 1)
  {
  }

  /** One step of the scan where a match ends at `e`. */
  lemma ScrubReplace(w: WordOracle, s: string, i: nat, e: nat)
    requires i < |s| && MatchAt(w, s, i) == Some(e)
    ensures Scrub(w, s, i) == " " + Scrub(w, s, e)
  {
  }

  /** Where the scan finds a match in the example, and where it finds none. */
  lemma MentionMatch(w: WordOracle, s: string)
    requires s == "@ab hi, http://t.co x"
    ensures MatchAt(w, s, 0) == Some(3) && MatchAt(w, s, 3).None?
  {
    assert RunEnd(IsAsciiAlnum, s, 3) == 3;
    assert RunEnd(IsAsciiAlnum, s, 2) == 3;
    assert RunEnd(IsAsciiAlnum, s, 1) == 3;
  }

  lemma WordMatches(w: WordOracle, s: string)
    requires s == "@ab hi, http://t.co x"
    ensures MatchAt(w, s, 4).None? && MatchAt(w, s, 5).None?
    ensures MatchAt(w, s, 6) == Some(7) && MatchAt(w, s, 7).None?
  {
    assert RunEnd(WordClass(w), s, 6) == 6;
    assert RunEnd(WordClass(w), s, 5) == 6;
    assert RunEnd(WordClass(w), s, 4) == 6;
  }

  lemma UrlMatches(w: WordOracle, s: string)
    requires s == "@ab hi, http://t.co x"
    ensures MatchAt(w, s, 8) == Some(19)
    ensures MatchAt(w, s, 19).None? && MatchAt(w, s, 20).None?
  {
    UrlRuns(w, s);
    assert s[12] == ':' && s[13] == '/' && s[14] == '/';
    assert s[12..15] == [s[12], s[13], s[14]];
  }

  lemma UrlRuns(w: WordOracle, s: string)
    requires s == "@ab hi, http://t.co x"
    ensures RunEnd(WordClass(w), s, 8) == 12
    ensures RunEnd(NotWhitespace, s, 15) == 19
  {
    assert RunEnd(WordClass(w), s, 12) == 12;
    assert RunEnd(WordClass(w), s, 11) == 12;
    assert RunEnd(WordClass(w), s, 10) == 12;
    assert RunEnd(WordClass(w), s, 9) == 12;
    assert RunEnd(NotWhitespace, s, 19) == 19;
    assert RunEnd(NotWhitespace, s, 18) == 19;
    assert RunEnd(NotWhitespace, s, 17) == 19;
    assert RunEnd(NotWhitespace, s, 16) == 19;
  }

  lemma ScrubExampleTail(w: WordOracle, s: string)
    requires s == "@ab hi, http://t.co x"
    ensures Scrub(w, s, 7) == "   x"
  {
    UrlMatches(w, s);
    WordMatches(w, s);
    assert |s| == 21;
    ScrubCopy(w, s, 20);
    assert Scrub(w, s, 20) == "x";
    ScrubCopy(w, s, 19);
    assert Scrub(w, s, 19) == " x";
    ScrubReplace(w, s, 8, 19);
    ScrubCopy(w, s, 7);
  }

  lemma ScrubExample(w: WordOracle, s: string)
    requires s == "@ab hi, http://t.co x"
    ensures Scrub(w, s, 0) == "  hi    x"
  {
    ScrubExampleTail(w, s);
    MentionMatch(w, s);
    WordMatches(w, s);
    ScrubReplace(w, s, 6, 7);
    ScrubCopy(w, s, 5);
    assert Scrub(w, s, 5) == "i    x";
    ScrubCopy(w, s, 4);
    assert Scrub(w, s, 4) == "hi    x";
    ScrubCopy(w, s, 3);
    ScrubReplace(w, s, 0, 3);
  }

  lemma SplitExample(x: string)
    requires x == "  hi    x"
    ensures Split(x) == ["hi", "x"]
  {
    var t := x[8..];
    assert t == "x";
    assert RunEnd(NotWhitespace, t, 0) == 1;
    assert t[..1] == "x" && t[1..] == [];
    assert Split(t) == ["x"];
    assert x[4..][1..] == x[5..] && x[5..][1..] == x[6..] && x[6..][1..] == x[7..] && x[7..][1..] == t;
    assert Split(x[6..]) == ["x"];
    assert Split(x[4..]) == ["x"];
    var u := x[2..];
    assert RunEnd(NotWhitespace, u, 0) == 2;
    assert u[2..] == x[4..];
    assert u[..2] == "hi";
    assert Split(u) == ["hi", "x"];
    assert x[1..][1..] == u;
  }
}
