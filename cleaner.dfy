/** `clean_tweet`: one `re.sub` pass of the pattern
      `(@[A-Za-z0-9]+)|([^0-9A-Za-z \t])|(\w+://\S+)`
    replacing each match by a single space, followed by `' '.join(s.split())`. */
module Cleaner {
  import opened Chars
  import opened Wrappers

  /** The end of the longest run of characters satisfying `p` that starts at `i`. */
  function RunEnd(p: char -> bool, s: string, i: nat): (j: nat)
    requires i <= |s|
    ensures i <= j <= |s|
    ensures forall k | i <= k < j :: p(s[k])
    ensures j == |s| || !p(s[j])
    decreases |s| - i
  {
    if i < |s| && p(s[i]) then RunEnd(p, s, i + 1) else i
  }

  /** `\w` as a function value. */
  function WordClass(w: WordOracle): char -> bool {
    c => IsWordChar(w, c)
  }

  predicate NotWhitespace(c: char) {
    !IsWhitespace(c)
  }

  /** Where the cleaning pattern's match starting at `i` ends, if one starts there.
      The alternatives are tried in the pattern's order; the first that matches wins.
      For the third one, `\w+` is greedy and giving characters back cannot help,
      since `:` is not a word character, so the whole word run must be followed
      by `://` and at least one non-whitespace character. */
  function MatchAt(w: WordOracle, s: string, i: nat): (r: Option<nat>)
    requires i < |s|
    ensures r.Some? ==> i < r.value <= |s|
    ensures r.None? ==> IsKept(s[i])
  {
    if s[i] == '@' && i + 1 < |s| && IsAsciiAlnum(s[i + 1]) then
      Some(RunEnd(IsAsciiAlnum, s, i + 1))
    else if !IsKept(s[i]) then
      Some(i + 1)
    else
      var j := RunEnd(WordClass(w), s, i);
      if i < j && j + 3 < |s| && s[j..j + 3] == "://" && !IsWhitespace(s[j + 3]) then
        Some(RunEnd(NotWhitespace, s, j + 3))
      else
        None
  }

  /** The `re.sub` pass over `s[i..]`: each match becomes one space, every other
      character is copied, and scanning resumes after the match. What is left is
      letters, digits, spaces and tabs, and never longer than the input. */
  function Scrub(w: WordOracle, s: string, i: nat): (r: string)
    requires i <= |s|
    ensures forall k | 0 <= k < |r| :: IsKept(r[k])
    ensures |r| <= |s| - i
    decreases |s| - i
  {
    if i == |s| then ""
    else
      match MatchAt(w, s, i)
      case Some(e) => " " + Scrub(w, s, e)
      case None => [s[i]] + Scrub(w, s, i + 1)
  }

  /** A field produced by `str.split()`: non-empty, without whitespace. */
  predicate IsField(x: string) {
    x != [] && forall k | 0 <= k < |x| :: !IsWhitespace(x[k])
  }

  /** `str.split()` with no separator: the maximal runs of non-whitespace, in order. */
  function Split(s: string): (ws: seq<string>)
    ensures forall k | 0 <= k < |ws| :: IsField(ws[k])
    ensures forall k, m | 0 <= k < |ws| && 0 <= m < |ws[k]| :: ws[k][m] in s
    decreases |s|
  {
    if s == [] then []
    else if IsWhitespace(s[0]) then
      var rest := Split(s[1..]);
      assert forall x | x in s[1..] :: x in s;
      rest
    else
      var n := RunEnd(NotWhitespace, s, 0);
      var rest := Split(s[n..]);
      assert forall x | x in s[n..] :: x in s;
      assert forall m | 0 <= m < n :: s[..n][m] in s;
      [s[..n]] + rest
  }

  /** A run of whitespace between or around fields (possibly empty). */
  predicate IsGap(g: string) {
    forall k | 0 <= k < |g| :: IsWhitespace(g[k])
  }

  /** `gs[0] + ws[0] + gs[1] + ... + ws[n-1] + gs[n]`: fields laid out with gaps. */
  function Spaced(gs: seq<string>, ws: seq<string>): string
    requires |gs| == |ws| + 1
    decreases |ws|
  {
    if ws == [] then gs[0] else gs[0] + ws[0] + Spaced(gs[1..], ws[1..])
  }

  /** A layout of a text: fields, whitespace gaps, and a non-empty gap between any
      two neighbouring fields (the outer gaps may be empty). */
  predicate Layout(gs: seq<string>, ws: seq<string>) {
    && |gs| == |ws| + 1
    && (forall k | 0 <= k < |ws| :: IsField(ws[k]))
    && (forall k | 0 <= k < |gs| :: IsGap(gs[k]))
    && (forall k | 0 < k < |ws| :: gs[k] != [])
  }

  /** The whitespace before, between and after the fields of `Split(s)`. */
  function Gaps(s: string): (gs: seq<string>)
    ensures |gs| == |Split(s)| + 1
    ensures gs[0] != [] <==> s != [] && IsWhitespace(s[0])
    decreases |s|
  {
    if s == [] then [""]
    else if IsWhitespace(s[0]) then
      var g := Gaps(s[1..]);
      [[s[0]] + g[0]] + g[1..]
    else
      [""] + Gaps(s[RunEnd(NotWhitespace, s, 0)..])
  }

  /** Every text is its own split fields laid out with its gaps: the fields are
      the maximal non-whitespace runs, in order, and nothing else is dropped. */
  lemma {:induction false} SplitLayout(s: string)
    ensures Layout(Gaps(s), Split(s))
    ensures Spaced(Gaps(s), Split(s)) == s
    decreases |s|
  {
    if s == [] {
    } else if IsWhitespace(s[0]) {
      SplitLayout(s[1..]);
      LayoutSpace(s);
    } else {
      var n := RunEnd(NotWhitespace, s, 0);
      SplitLayout(s[n..]);
      LayoutField(s, n);
    }
  }

  /** The step of `SplitLayout` for a text that starts with whitespace. */
  lemma LayoutSpace(s: string)
    requires s != [] && IsWhitespace(s[0])
    requires Layout(Gaps(s[1..]), Split(s[1..]))
    requires Spaced(Gaps(s[1..]), Split(s[1..])) == s[1..]
    ensures Layout(Gaps(s), Split(s))
    ensures Spaced(Gaps(s), Split(s)) == s
  {
    var g := Gaps(s[1..]);
    var ws := Split(s[1..]);
    assert Split(s) == ws;
    assert Gaps(s) == [[s[0]] + g[0]] + g[1..];
    LayoutWiden(s[0], g, ws);
    assert s == [s[0]] + s[1..];
  }

  /** The step of `SplitLayout` for a text that starts with a field of length `n`. */
  lemma LayoutField(s: string, n: nat)
    requires s != [] && !IsWhitespace(s[0])
    requires n == RunEnd(NotWhitespace, s, 0)
    requires Layout(Gaps(s[n..]), Split(s[n..]))
    requires Spaced(Gaps(s[n..]), Split(s[n..])) == s[n..]
    ensures Layout(Gaps(s), Split(s))
    ensures Spaced(Gaps(s), Split(s)) == s
  {
    var t := s[n..];
    var g := Gaps(t);
    var ws := Split(t);
    assert Gaps(s) == [""] + g;
    assert Split(s) == [s[..n]] + ws;
    if ws != [] {
      assert t != [] && IsWhitespace(t[0]);
    }
    LayoutCons(s[..n], g, ws);
    assert s == s[..n] + t;
  }

  /** Widening the first gap by a whitespace character keeps a layout. */
  lemma LayoutWiden(c: char, gs: seq<string>, ws: seq<string>)
    requires IsWhitespace(c) && Layout(gs, ws)
    ensures Layout([[c] + gs[0]] + gs[1..], ws)
    ensures Spaced([[c] + gs[0]] + gs[1..], ws) == [c] + Spaced(gs, ws)
  {
    var hs := [[c] + gs[0]] + gs[1..];
    assert gs == [gs[0]] + gs[1..];
    SpacedWiden(c, gs[0], gs[1..], ws);
    assert IsGap(hs[0]) by {
      forall k | 0 <= k < |hs[0]| ensures IsWhitespace(hs[0][k]) {
        if k > 0 {
          assert hs[0][k] == gs[0][k - 1];
        }
      }
    }
    assert forall k | 0 < k < |hs| :: hs[k] == gs[k];
  }

  /** A field in front of a layout whose first gap separates it (when there is a
      next field) gives a layout with an empty first gap. */
  lemma LayoutCons(f: string, gs: seq<string>, ws: seq<string>)
    requires IsField(f) && Layout(gs, ws)
    requires ws != [] ==> gs[0] != []
    ensures Layout([""] + gs, [f] + ws)
    ensures Spaced([""] + gs, [f] + ws) == f + Spaced(gs, ws)
  {
    var hs := [""] + gs;
    var vs := [f] + ws;
    assert hs[1..] == gs && vs[1..] == ws;
    assert forall k | 0 < k < |hs| :: hs[k] == gs[k - 1];
    assert forall k | 0 < k < |vs| :: vs[k] == ws[k - 1];
    assert Spaced(hs, vs) == "" + f + Spaced(gs, ws);
  }

  /** Growing the first gap by one character grows the layout's text by it. */
  lemma SpacedWiden(c: char, g0: string, rest: seq<string>, ws: seq<string>)
    requires |rest| == |ws|
    ensures Spaced([[c] + g0] + rest, ws) == [c] + Spaced([g0] + rest, ws)
  {
    var hs := [[c] + g0] + rest;
    var gs := [g0] + rest;
    assert hs[0] == [c] + g0 && gs[0] == g0;
    if ws != [] {
      assert hs[1..] == rest && gs[1..] == rest;
      var tail := Spaced(rest, ws[1..]);
      assert ([c] + g0) + ws[0] + tail == [c] + (g0 + ws[0] + tail);
    }
  }

  /** `str.split()` recovers the fields of any layout, so `Split` is determined
      on every text by `SplitLayout`. */
  lemma {:induction false} SplitSpaced(gs: seq<string>, ws: seq<string>)
    requires Layout(gs, ws)
    ensures Split(Spaced(gs, ws)) == ws
    decreases |ws|
  {
    var s := Spaced(gs, ws);
    if ws == [] {
      SplitGap(gs[0], []);
      assert gs[0] + [] == gs[0];
    } else {
      var rest := Spaced(gs[1..], ws[1..]);
      assert s == gs[0] + (ws[0] + rest);
      SplitGap(gs[0], ws[0] + rest);
      if |ws| > 1 {
        assert rest == gs[1] + (ws[1] + Spaced(gs[2..], ws[2..]));
        assert rest[0] == gs[1][0];
      } else {
        assert rest == gs[1];
      }
      SplitField(ws[0], rest);
      assert Layout(gs[1..], ws[1..]);
      SplitSpaced(gs[1..], ws[1..]);
    }
  }

  /** Leading whitespace does not change the split. */
  lemma {:induction false} SplitGap(g: string, t: string)
    requires IsGap(g)
    ensures Split(g + t) == Split(t)
    decreases |g|
  {
    if g == [] {
      assert g + t == t;
    } else {
      assert (g + t)[1..] == g[1..] + t;
      SplitGap(g[1..], t);
    }
  }

  /** A field at the front, followed by whitespace or nothing, is split off whole. */
  lemma SplitField(x: string, t: string)
    requires IsField(x)
    requires t == [] || IsWhitespace(t[0])
    ensures Split(x + t) == [x] + Split(t)
  {
    var s := x + t;
    assert s[..|x|] == x;
    RunEndOfField(s, x);
    assert s[|x|..] == t;
  }

  /** `' '.join(ws)`. */
  function Join(ws: seq<string>): string {
    if |ws| == 0 then ""
    else if |ws| == 1 then ws[0]
    else ws[0] + " " + Join(ws[1..])
  }

  /** Whitespace-normalised text: its only whitespace is the space, which is neither
      first nor last and never doubled. */
  predicate SingleSpaced(r: string) {
    && (forall k | 0 <= k < |r| :: r[k] == ' ' || !IsWhitespace(r[k]))
    && (|r| > 0 ==> r[0] != ' ' && r[|r| - 1] != ' ')
    && (forall k | 0 < k < |r| && r[k] == ' ' :: r[k - 1] != ' ')
  }

  /** `clean_tweet`: what is left is ASCII letters and digits separated by single
      spaces, and it is never longer than the input (so "" stays ""). */
  function Clean(w: WordOracle, s: string): (r: string)
    ensures forall k | 0 <= k < |r| :: IsAsciiAlnum(r[k]) || r[k] == ' '
    ensures SingleSpaced(r)
    ensures |r| <= |s|
  {
    var x := Scrub(w, s, 0);
    var ws := Split(x);
    assert forall k | 0 <= k < |ws| :: AlnumField(ws[k]) by {
      forall k | 0 <= k < |ws| ensures AlnumField(ws[k]) {
        forall m | 0 <= m < |ws[k]| ensures IsAsciiAlnum(ws[k][m]) {
          assert ws[k][m] in x;
          assert !IsWhitespace(ws[k][m]);
        }
      }
    }
    JoinSingleSpaced(ws);
    JoinAlnum(ws);
    NormalizeShorter(x);
    Join(ws)
  }

  predicate AlnumField(x: string) {
    x != [] && forall k | 0 <= k < |x| :: IsAsciiAlnum(x[k])
  }

  lemma {:induction false} JoinSingleSpaced(ws: seq<string>)
    requires forall k | 0 <= k < |ws| :: IsField(ws[k])
    ensures SingleSpaced(Join(ws))
    ensures |ws| > 0 ==> |Join(ws)| >= |ws[0]| && Join(ws)[..|ws[0]|] == ws[0]
    decreases |ws|
  {
    if |ws| > 1 {
      var rest := Join(ws[1..]);
      JoinSingleSpaced(ws[1..]);
      var r := ws[0] + " " + rest;
      assert r == Join(ws);
      var n := |ws[0]|;
      assert r[..n] == ws[0];
      assert rest[0] == ws[1][0];
      forall k | 0 < k < |r| ensures r[k] == ' ' ==> r[k - 1] != ' ' {
        if k <= n {
          assert r[k - 1] == ws[0][k - 1];
        } else if k == n + 1 {
          assert r[k] == rest[0];
        } else {
          assert r[k] == rest[k - n - 1] && r[k - 1] == rest[k - n - 2];
        }
      }
      forall k | 0 <= k < |r| ensures r[k] == ' ' || !IsWhitespace(r[k]) {
        if k < n {
          assert r[k] == ws[0][k];
        } else if k > n {
          assert r[k] == rest[k - n - 1];
        }
      }
    }
  }

  lemma {:induction false} JoinAlnum(ws: seq<string>)
    requires forall k | 0 <= k < |ws| :: AlnumField(ws[k])
    ensures forall k | 0 <= k < |Join(ws)| :: IsAsciiAlnum(Join(ws)[k]) || Join(ws)[k] == ' '
    decreases |ws|
  {
    if |ws| > 1 {
      JoinAlnum(ws[1..]);
      var rest := Join(ws[1..]);
      var r := ws[0] + " " + rest;
      var n := |ws[0]|;
      forall k | 0 <= k < |r| ensures IsAsciiAlnum(r[k]) || r[k] == ' ' {
        if k < n {
          assert r[k] == ws[0][k];
        } else if k > n {
          assert r[k] == rest[k - n - 1];
        }
      }
    }
  }

  /** `' '.join(s.split())` is never longer than `s`. */
  lemma {:induction false} NormalizeShorter(s: string)
    ensures |Join(Split(s))| <= |s|
    decreases |s|
  {
    if s == [] {
    } else if IsWhitespace(s[0]) {
      NormalizeShorter(s[1..]);
    } else {
      var n := RunEnd(NotWhitespace, s, 0);
      var tail := s[n..];
      assert Split(s) == [s[..n]] + Split(tail);
      if Split(tail) != [] {
        assert tail != [] && IsWhitespace(tail[0]);
        assert Split(tail) == Split(tail[1..]);
        NormalizeShorter(tail[1..]);
        assert Split(s)[1..] == Split(tail);
      }
    }
  }

  /** Splitting joined fields gives the fields back. */
  lemma {:induction false} SplitJoin(ws: seq<string>)
    requires forall k | 0 <= k < |ws| :: IsField(ws[k])
    ensures Split(Join(ws)) == ws
    decreases |ws|
  {
    if |ws| == 0 {
    } else {
      var s := Join(ws);
      var w0 := ws[0];
      JoinSingleSpaced(ws);
      assert s[..|w0|] == w0;
      RunEndOfField(s, w0);
      var n := RunEnd(NotWhitespace, s, 0);
      assert n == |w0|;
      if |ws| == 1 {
        assert s[n..] == [];
      } else {
        var rest := Join(ws[1..]);
        assert s == w0 + " " + rest;
        assert s[n..] == " " + rest;
        assert (" " + rest)[1..] == rest;
        SplitJoin(ws[1..]);
        assert Split(s[n..]) == Split(rest);
      }
    }
  }

  /** A field at the front of a text, followed by whitespace or nothing, is the
      first non-whitespace run. */
  lemma RunEndOfField(s: string, w0: string)
    requires IsField(w0) && |w0| <= |s| && s[..|w0|] == w0
    requires |w0| == |s| || IsWhitespace(s[|w0|])
    ensures RunEnd(NotWhitespace, s, 0) == |w0|
  {
    assert forall k | 0 <= k < |w0| :: s[k] == w0[k];
  }

  /** On text made only of letters, digits, spaces and tabs, no alternative of the
      cleaning pattern matches anywhere. */
  lemma NoMatchInKept(w: WordOracle, s: string, i: nat)
    requires i < |s|
    requires forall k | i <= k < |s| :: IsKept(s[k])
    ensures MatchAt(w, s, i).None?
  {
    var j := RunEnd(WordClass(w), s, i);
    if j + 3 < |s| {
      assert IsKept(s[j]);
      assert s[j..j + 3][0] == s[j];
    }
  }

  /** The scan leaves such text unchanged. */
  lemma {:induction false} ScrubKept(w: WordOracle, s: string, i: nat)
    requires i <= |s|
    requires forall k | i <= k < |s| :: IsKept(s[k])
    ensures Scrub(w, s, i) == s[i..]
    decreases |s| - i
  {
    if i < |s| {
      NoMatchInKept(w, s, i);
      ScrubKept(w, s, i + 1);
      assert s[i..] == [s[i]] + s[i + 1..];
    }
  }

  /** Nothing in a cleaned text matches the cleaning pattern. */
  lemma CleanMatchesNothing(w: WordOracle, s: string)
    ensures forall i | 0 <= i < |Clean(w, s)| :: MatchAt(w, Clean(w, s), i).None?
  {
    var r := Clean(w, s);
    forall i | 0 <= i < |r| ensures MatchAt(w, r, i).None? {
      NoMatchInKept(w, r, i);
    }
  }

  /** Cleaning a cleaned text changes nothing. */
  lemma CleanIdempotent(w: WordOracle, s: string)
    ensures Clean(w, Clean(w, s)) == Clean(w, s)
  {
    var x := Scrub(w, s, 0);
    var ws := Split(x);
    var r := Clean(w, s);
    assert r == Join(ws);
    ScrubKept(w, r, 0);
    assert Scrub(w, r, 0) == r;
    SplitJoin(ws);
  }
}
