/** String helpers for the roster import and the exporters: JavaScript's `trim`,
    `split` on a separator (single or a run), `join`, and number-to-decimal
    conversion as used in template strings such as `Group ${i + 1}`. */
module Text {
  import opened Seqs

  /** The whitespace `String.prototype.trim` removes, restricted to a fixed set:
      ASCII blanks and line terminators, no-break space, ideographic space and
      the byte-order mark. */
  predicate IsWhitespace(c: char)
  {
    c == ' ' || c == '\t' || c == '\n' || c == '\r' || c == '\U{000B}' || c == '\U{000C}'
    || c == '\U{00A0}' || c == '\U{3000}' || c == '\U{FEFF}'
  }

  /** `t` contains no character of `cs`. */
  predicate Avoids(t: string, cs: set<char>)
  {
    forall k :: 0 <= k < |t| ==> t[k] !in cs
  }

  /** Number of whitespace characters at the start of `s`. */
  function LeadingBlanks(s: string): (n: nat)
    ensures n <= |s|
    ensures forall i :: 0 <= i < n ==> IsWhitespace(s[i])
    ensures n < |s| ==> !IsWhitespace(s[n])
    decreases |s|
  {
    if |s| > 0 && IsWhitespace(s[0]) then 1 + LeadingBlanks(s[1..]) else 0
  }

  /** Number of whitespace characters at the end of `s`. */
  function TrailingBlanks(s: string): (n: nat)
    ensures n <= |s|
    ensures forall i :: |s| - n <= i < |s| ==> IsWhitespace(s[i])
    ensures n < |s| ==> !IsWhitespace(s[|s| - n - 1])
    decreases |s|
  {
    if |s| > 0 && IsWhitespace(s[|s| - 1]) then 1 + TrailingBlanks(s[..|s| - 1]) else 0
  }

  /** `s.trim()`: the infix of `s` left after removing whitespace at both ends.
      Everything removed is whitespace and the result neither starts nor ends with it. */
  function Trim(s: string): (r: string)
    ensures LeadingBlanks(s) + |r| <= |s|
    ensures r == s[LeadingBlanks(s)..LeadingBlanks(s) + |r|]
    ensures forall i :: LeadingBlanks(s) + |r| <= i < |s| ==> IsWhitespace(s[i])
    ensures |r| > 0 ==> !IsWhitespace(r[0]) && !IsWhitespace(r[|r| - 1])
  {
    var lo := LeadingBlanks(s);
    var t := s[lo..];
    var n := |t| - TrailingBlanks(t);
    assert forall i :: lo + n <= i < |s| ==> IsWhitespace(s[i]) by {
      forall i | lo + n <= i < |s|
        ensures IsWhitespace(s[i])
      {
        assert s[i] == t[i - lo];
      }
    }
    s[lo..lo + n]
  }

  /** Trimming only removes characters, so it cannot introduce any. */
  lemma TrimAvoids(s: string, cs: set<char>)
    requires Avoids(s, cs)
    ensures Avoids(Trim(s), cs)
  {
    var lo := LeadingBlanks(s);
    var r := Trim(s);
    forall k | 0 <= k < |r|
      ensures r[k] !in cs
    {
      assert r[k] == s[lo + k];
    }
  }

  /** A string that neither starts nor ends with whitespace is its own trim. */
  lemma TrimClean(s: string)
    requires |s| > 0 ==> !IsWhitespace(s[0]) && !IsWhitespace(s[|s| - 1])
    ensures Trim(s) == s
  {
    var r := Trim(s);
    assert LeadingBlanks(s) == 0;
  }

  /** Length of the longest prefix of `s` free of characters in `seps`. */
  function PieceLength(s: string, seps: set<char>): (n: nat)
    ensures n <= |s|
    ensures forall i :: 0 <= i < n ==> s[i] !in seps
    ensures n < |s| ==> s[n] in seps
    decreases |s|
  {
    if |s| == 0 || s[0] in seps then 0 else 1 + PieceLength(s[1..], seps)
  }

  /** Length of the run of separator characters at the start of `s`. */
  function RunLength(s: string, seps: set<char>): (n: nat)
    ensures n <= |s|
    ensures forall i :: 0 <= i < n ==> s[i] in seps
    ensures n < |s| ==> s[n] !in seps
    decreases |s|
  {
    if |s| > 0 && s[0] in seps then 1 + RunLength(s[1..], seps) else 0
  }

  /** `s.split(/[seps]+/)`: the pieces between maximal runs of separator
      characters. A leading (trailing) run yields an empty first (last) piece,
      and the empty string yields one empty piece, as in JavaScript. */
  function SplitRuns(s: string, seps: set<char>): (pieces: seq<string>)
    ensures |pieces| >= 1
    ensures forall i :: 0 <= i < |pieces| ==> Avoids(pieces[i], seps)
    ensures forall i :: 0 < i < |pieces| - 1 ==> pieces[i] != ""
    decreases |s|
  {
    var n := PieceLength(s, seps);
    if n == |s| then [s]
    else
      var rest := s[n + RunLength(s[n..], seps)..];
      [s[..n]] + SplitRuns(rest, seps)
  }

  /** `t` is made only of characters of `cs`. */
  predicate Within(t: string, cs: set<char>)
  {
    forall k :: 0 <= k < |t| ==> t[k] in cs
  }

  /** Every gap is a non-empty run of separator characters. */
  predicate SeparatorRuns(gaps: seq<string>, seps: set<char>)
  {
    forall i :: 0 <= i < |gaps| ==> gaps[i] != "" && Within(gaps[i], seps)
  }

  /** There is one gap between each two neighbouring parts. */
  predicate GapsFit(parts: seq<string>, gaps: seq<string>)
  {
    |gaps| == if |parts| == 0 then 0 else |parts| - 1
  }

  /** `parts` put together with `gaps[i]` between `parts[i]` and `parts[i + 1]`:
      a join whose separator may differ from one gap to the next, as in pasted
      text that mixes line feeds, commas and semicolons. */
  function Weave(parts: seq<string>, gaps: seq<string>): (r: string)
    requires GapsFit(parts, gaps)
    ensures |parts| >= 1 ==> |r| >= |parts[0]| && r[..|parts[0]|] == parts[0]
    decreases |parts|
  {
    if |parts| == 0 then ""
    else if |parts| == 1 then parts[0]
    else parts[0] + gaps[0] + Weave(parts[1..], gaps[1..])
  }

  /** Splitting on separator runs undoes any weave of separator-free parts
      whose gaps are non-empty separator runs, as long as no part other than
      the first and the last is empty. Together with `SplitRunsRebuilds` this
      pins `SplitRuns` down: its pieces are the only such decomposition. */
  lemma {:induction false} SplitRunsWeave(parts: seq<string>, gaps: seq<string>, seps: set<char>)
    requires |parts| >= 1 && GapsFit(parts, gaps) && SeparatorRuns(gaps, seps)
    requires forall i :: 0 <= i < |parts| ==> Avoids(parts[i], seps)
    requires forall i :: 0 < i < |parts| - 1 ==> parts[i] != ""
    ensures SplitRuns(Weave(parts, gaps), seps) == parts
    decreases |parts|
  {
    var p := parts[0];
    if |parts| == 1 {
      PieceLengthAll(p, seps);
    } else {
      var rest := Weave(parts[1..], gaps[1..]);
      assert |rest| > 0 ==> rest[0] !in seps by {
        if |parts| > 2 {
          assert rest[..|parts[1]|] == parts[1];
        } else {
          assert rest == parts[1];
        }
      }
      SplitRunsCons(p, gaps[0], rest, seps);
      SplitRunsWeave(parts[1..], gaps[1..], seps);
      assert parts == [p] + parts[1..];
    }
  }

  /** The pieces of `s`, woven back together with the separator runs that were
      cut out, give `s` again. */
  lemma {:induction false} SplitRunsRebuilds(s: string, seps: set<char>) returns (gaps: seq<string>)
    ensures GapsFit(SplitRuns(s, seps), gaps) && SeparatorRuns(gaps, seps)
    ensures Weave(SplitRuns(s, seps), gaps) == s
    decreases |s|
  {
    var n := PieceLength(s, seps);
    if n == |s| {
      gaps := [];
    } else {
      var rest := SplitRunsStep(s, n, seps);
      var run := CutRun(s, n, rest, seps);
      var more := SplitRunsRebuilds(rest, seps);
      gaps := [run] + more;
      WeaveCons(s[..n], SplitRuns(rest, seps), run, more);
    }
  }

  /** Between the first piece and the rest of the split lies a non-empty run
      of separators. */
  lemma CutRun(s: string, n: nat, rest: string, seps: set<char>) returns (run: string)
    requires n == PieceLength(s, seps) < |s|
    requires rest == s[n + RunLength(s[n..], seps)..] && |rest| < |s| - n
    ensures run != "" && Within(run, seps)
    ensures s == s[..n] + run + rest
  {
    var m := RunLength(s[n..], seps);
    run := s[n..n + m];
    RunAfterPiece(s, n, seps);
    SliceWithin(s, n, n + m, seps);
    SplitThree(s, n, n + m);
  }

  /** A slice of separator positions is made of separators. */
  lemma SliceWithin(s: string, lo: nat, hi: nat, seps: set<char>)
    requires lo <= hi <= |s|
    requires forall i :: lo <= i < hi ==> s[i] in seps
    ensures Within(s[lo..hi], seps)
  {
    forall k | 0 <= k < hi - lo
      ensures s[lo..hi][k] in seps
    {
      assert s[lo..hi][k] == s[lo + k];
    }
  }

  /** Weaving a part in front puts its gap between it and the rest. */
  lemma WeaveCons(p: string, parts: seq<string>, gap: string, gaps: seq<string>)
    requires |parts| >= 1 && GapsFit(parts, gaps)
    ensures GapsFit([p] + parts, [gap] + gaps)
    ensures forall seps :: gap != "" && Within(gap, seps) && SeparatorRuns(gaps, seps) ==> SeparatorRuns([gap] + gaps, seps)
    ensures Weave([p] + parts, [gap] + gaps) == p + gap + Weave(parts, gaps)
  {
    assert ([p] + parts)[1..] == parts && ([gap] + gaps)[1..] == gaps;
  }

  /** A join is the weave whose gaps all hold the one separator. */
  lemma {:induction false} JoinIsWeave(parts: seq<string>, sep: string)
    ensures GapsFit(parts, Copies(sep, |parts|))
    ensures Join(parts, sep) == Weave(parts, Copies(sep, |parts|))
    decreases |parts|
  {
    if |parts| >= 2 {
      JoinIsWeave(parts[1..], sep);
      assert Copies(sep, |parts|)[1..] == Copies(sep, |parts| - 1);
    }
  }

  /** The gaps of a join: `sep` once between each two neighbouring parts. */
  function Copies(sep: string, n: nat): (gaps: seq<string>)
    ensures |gaps| == if n == 0 then 0 else n - 1
    ensures forall i :: 0 <= i < |gaps| ==> gaps[i] == sep
  {
    seq(if n == 0 then 0 else n - 1, _ => sep)
  }

  /** Splitting on separator runs undoes a join whose separator is a non-empty
      run of separator characters (one character, or `\r\n` between lines), as
      long as every part is separator-free and no inner part is empty. */
  lemma SplitRunsJoin(parts: seq<string>, sep: string, seps: set<char>)
    requires |sep| >= 1 && Within(sep, seps) && |parts| >= 1
    requires forall i :: 0 <= i < |parts| ==> Avoids(parts[i], seps)
    requires forall i :: 0 < i < |parts| - 1 ==> parts[i] != ""
    ensures SplitRuns(Join(parts, sep), seps) == parts
  {
    JoinIsWeave(parts, sep);
    SplitRunsWeave(parts, Copies(sep, |parts|), seps);
  }

  /** A join begins with its first part. */
  lemma JoinStartsWithFirst(parts: seq<string>, sep: string)
    requires |parts| >= 1
    ensures |Join(parts, sep)| >= |parts[0]|
    ensures Join(parts, sep)[..|parts[0]|] == parts[0]
  {
    if |parts| >= 2 {
      assert Join(parts, sep) == parts[0] + (sep + Join(parts[1..], sep));
    }
  }

  /** A separator-free first part, a run of separators and a rest that does
      not start with a separator split into that part and the split of the rest. */
  lemma SplitRunsCons(p: string, sep: string, rest: string, seps: set<char>)
    requires Avoids(p, seps) && |sep| >= 1 && Within(sep, seps)
    requires |rest| > 0 ==> rest[0] !in seps
    ensures SplitRuns(p + sep + rest, seps) == [p] + SplitRuns(rest, seps)
  {
    var s := p + sep + rest;
    assert s == p + (sep + rest);
    PieceLengthStops(p, sep + rest, seps);
    RunLengthOfSeparators(sep, rest, seps);
    assert s[|p|..] == sep + rest;
    assert s[|p| + |sep|..] == rest;
    assert s[..|p|] == p;
    SplitRunsUnfold(s, |p|, |sep|, seps);
  }

  /** A run of separators followed by a non-separator, or by nothing, is a run
      of its own length. */
  lemma {:induction false} RunLengthOfSeparators(sep: string, rest: string, seps: set<char>)
    requires Within(sep, seps) && (|rest| > 0 ==> rest[0] !in seps)
    ensures RunLength(sep + rest, seps) == |sep|
    decreases |sep|
  {
    if |sep| == 0 {
      assert sep + rest == rest;
    } else {
      assert (sep + rest)[1..] == sep[1..] + rest;
      RunLengthOfSeparators(sep[1..], rest, seps);
    }
  }

  /** Input made only of whitespace and separators splits into whitespace pieces. */
  lemma {:induction false} BlankPieces(s: string, seps: set<char>)
    requires forall k :: 0 <= k < |s| ==> IsWhitespace(s[k]) || s[k] in seps
    ensures forall i :: 0 <= i < |SplitRuns(s, seps)| ==> Trim(SplitRuns(s, seps)[i]) == ""
    decreases |s|
  {
    var n := PieceLength(s, seps);
    BlankPieceTrims(s, seps);
    if n < |s| {
      var rest := SplitRunsStep(s, n, seps);
      BlankSuffix(s, |s| - |rest|, seps);
      BlankPieces(rest, seps);
    }
  }

  /** The first piece of blank input trims to nothing. */
  lemma BlankPieceTrims(s: string, seps: set<char>)
    requires forall k :: 0 <= k < |s| ==> IsWhitespace(s[k]) || s[k] in seps
    ensures Trim(s[..PieceLength(s, seps)]) == ""
  {
    var p := s[..PieceLength(s, seps)];
    assert forall k :: 0 <= k < |p| ==> IsWhitespace(p[k]);
    assert LeadingBlanks(p) == |p|;
  }

  /** A suffix of blank input is blank. */
  lemma BlankSuffix(s: string, from: nat, seps: set<char>)
    requires from <= |s|
    requires forall k :: 0 <= k < |s| ==> IsWhitespace(s[k]) || s[k] in seps
    ensures forall k :: 0 <= k < |s| - from ==> IsWhitespace(s[from..][k]) || s[from..][k] in seps
  {
    forall k | 0 <= k < |s| - from
      ensures IsWhitespace(s[from..][k]) || s[from..][k] in seps
    {
      assert s[from..][k] == s[from + k];
    }
  }

  /** Characters of `s` that are not separators, in order. */
  function Content(s: string, seps: set<char>): string
    decreases |s|
  {
    if |s| == 0 then ""
    else (if s[0] in seps then "" else [s[0]]) + Content(s[1..], seps)
  }

  /** `Content` distributes over concatenation. */
  lemma {:induction false} ContentConcat(a: string, b: string, seps: set<char>)
    ensures Content(a + b, seps) == Content(a, seps) + Content(b, seps)
    decreases |a|
  {
    if |a| == 0 {
      assert a + b == b;
    } else {
      assert (a + b)[0] == a[0];
      assert (a + b)[1..] == a[1..] + b;
      ContentConcat(a[1..], b, seps);
    }
  }

  /** A separator-free string is its own content. */
  lemma {:induction false} ContentOfAvoiding(s: string, seps: set<char>)
    requires Avoids(s, seps)
    ensures Content(s, seps) == s
    decreases |s|
  {
    if |s| > 0 {
      ContentOfAvoiding(s[1..], seps);
    }
  }

  /** A run of separators has no content. */
  lemma {:induction false} ContentOfRun(s: string, seps: set<char>)
    requires forall i :: 0 <= i < |s| ==> s[i] in seps
    ensures Content(s, seps) == ""
    decreases |s|
  {
    if |s| > 0 {
      ContentOfRun(s[1..], seps);
    }
  }

  /** Splitting loses nothing but the separators: put back together, the pieces
      are the input with every separator character removed. */
  lemma {:induction false} SplitRunsKeepsContent(s: string, seps: set<char>)
    ensures Flatten(SplitRuns(s, seps)) == Content(s, seps)
    decreases |s|
  {
    var n := PieceLength(s, seps);
    if n == |s| {
      ContentOfAvoiding(s, seps);
      FlattenCons(s, []);
    } else {
      var rest := SplitRunsStep(s, n, seps);
      ContentPastPiece(s, n, seps);
      SplitRunsKeepsContent(rest, seps);
      FlattenCons(s[..n], SplitRuns(rest, seps));
    }
  }

  /** Past the first piece there is a separator run of at least one character,
      and the split continues after it. */
  lemma SplitRunsStep(s: string, n: nat, seps: set<char>) returns (rest: string)
    requires n == PieceLength(s, seps) < |s|
    ensures rest == s[n + RunLength(s[n..], seps)..]
    ensures |rest| < |s| - n
    ensures SplitRuns(s, seps) == [s[..n]] + SplitRuns(rest, seps)
  {
    var m := RunLength(s[n..], seps);
    RunLengthOfRun(s[n..], seps);
    rest := s[n + m..];
    SplitRunsUnfold(s, n, m, seps);
  }

  lemma RunLengthOfRun(t: string, seps: set<char>)
    requires |t| > 0 && t[0] in seps
    ensures RunLength(t, seps) >= 1
  {
  }

  lemma SplitRunsUnfold(s: string, n: nat, m: nat, seps: set<char>)
    requires n == PieceLength(s, seps) < |s|
    requires m == RunLength(s[n..], seps)
    ensures SplitRuns(s, seps) == [s[..n]] + SplitRuns(s[n + m..], seps)
  {
    var rest := s[PieceLength(s, seps) + RunLength(s[PieceLength(s, seps)..], seps)..];
    assert rest == s[n + m..];
  }

  /** The content of `s` is its first piece followed by the content past the
      separator run that ends that piece. */
  lemma ContentPastPiece(s: string, n: nat, seps: set<char>)
    requires n == PieceLength(s, seps) < |s|
    ensures Content(s, seps) == s[..n] + Content(s[n + RunLength(s[n..], seps)..], seps)
  {
    RunAfterPiece(s, n, seps);
    ContentOfPiece(s, n, RunLength(s[n..], seps), seps);
  }

  /** The run that ends the first piece consists of separators. */
  lemma RunAfterPiece(s: string, n: nat, seps: set<char>)
    requires n <= |s|
    ensures forall i :: n <= i < n + RunLength(s[n..], seps) ==> s[i] in seps
  {
    var t := s[n..];
    forall i | n <= i < n + RunLength(t, seps)
      ensures s[i] in seps
    {
      assert s[i] == t[i - n];
    }
  }

  /** The content of `s` is its first piece followed by the content after the
      first separator run. */
  lemma ContentOfPiece(s: string, n: nat, m: nat, seps: set<char>)
    requires n + m <= |s|
    requires forall i :: 0 <= i < n ==> s[i] !in seps
    requires forall i :: n <= i < n + m ==> s[i] in seps
    ensures Content(s, seps) == s[..n] + Content(s[n + m..], seps)
  {
    var p, run, rest := s[..n], s[n..n + m], s[n + m..];
    assert s == p + (run + rest);
    ContentOfAvoiding(p, seps);
    ContentOfRun(run, seps);
    ContentOfSeparated(p, run, rest, seps);
  }

  /** A part that is its own content, a run without content and a rest: the
      content is the part followed by the content of the rest. */
  lemma ContentOfSeparated(p: string, run: string, rest: string, seps: set<char>)
    requires Content(p, seps) == p && Content(run, seps) == ""
    ensures Content(p + (run + rest), seps) == p + Content(rest, seps)
  {
    ContentConcat(run, rest, seps);
    assert Content(run + rest, seps) == Content(rest, seps);
    ContentConcat(p, run + rest, seps);
  }

  /** `parts.join(sep)`. */
  function Join(parts: seq<string>, sep: string): string
    decreases |parts|
  {
    if |parts| == 0 then ""
    else if |parts| == 1 then parts[0]
    else parts[0] + sep + Join(parts[1..], sep)
  }

  /** Joining two non-empty lists is joining each and putting the separator between. */
  lemma {:induction false} JoinAppend(a: seq<string>, b: seq<string>, sep: string)
    requires |a| >= 1 && |b| >= 1
    ensures Join(a + b, sep) == Join(a, sep) + sep + Join(b, sep)
    decreases |a|
  {
    if |a| == 1 {
      assert (a + b)[0] == a[0] && (a + b)[1..] == b;
    } else {
      assert (a + b)[0] == a[0] && (a + b)[1..] == a[1..] + b;
      JoinAppend(a[1..], b, sep);
    }
  }

  /** `s.split(c)` for a single character: every occurrence of `c` ends a piece. */
  function SplitOn(s: string, c: char): (pieces: seq<string>)
    ensures |pieces| >= 1
    ensures forall i :: 0 <= i < |pieces| ==> Avoids(pieces[i], {c})
    decreases |s|
  {
    var n := PieceLength(s, {c});
    if n == |s| then [s] else [s[..n]] + SplitOn(s[n + 1..], c)
  }

  /** Splitting a join on its separator gives the parts back, as long as no
      part contains the separator. */
  lemma {:induction false} SplitOnJoin(parts: seq<string>, c: char)
    requires |parts| >= 1
    requires forall i :: 0 <= i < |parts| ==> Avoids(parts[i], {c})
    ensures SplitOn(Join(parts, [c]), c) == parts
    decreases |parts|
  {
    if |parts| == 1 {
      PieceLengthAll(parts[0], {c});
    } else {
      SplitOnJoin(parts[1..], c);
      SplitOnJoinCons(parts, c);
    }
  }

  /** The inductive step: once the tail of a join splits back into the tail,
      the whole join splits back into the whole list. */
  lemma SplitOnJoinCons(parts: seq<string>, c: char)
    requires |parts| >= 2 && Avoids(parts[0], {c})
    requires SplitOn(Join(parts[1..], [c]), c) == parts[1..]
    ensures SplitOn(Join(parts, [c]), c) == parts
  {
    var rest := Join(parts[1..], [c]);
    assert Join(parts, [c]) == parts[0] + [c] + rest;
    SplitOnCons(parts[0], rest, c);
    assert parts == [parts[0]] + parts[1..];
  }

  /** A separator-free first part followed by the separator splits off as one piece. */
  lemma SplitOnCons(p: string, rest: string, c: char)
    requires Avoids(p, {c})
    ensures SplitOn(p + [c] + rest, c) == [p] + SplitOn(rest, c)
  {
    var s := p + [c] + rest;
    assert s == p + ([c] + rest);
    PieceLengthStops(p, [c] + rest, {c});
    assert s[..|p|] == p;
    assert s[|p| + 1..] == rest;
  }

  /** A separator-free string is one whole piece. */
  lemma {:induction false} PieceLengthAll(s: string, seps: set<char>)
    requires Avoids(s, seps)
    ensures PieceLength(s, seps) == |s|
    decreases |s|
  {
    if |s| > 0 {
      PieceLengthAll(s[1..], seps);
    }
  }

  /** A piece ends at the first separator. */
  lemma {:induction false} PieceLengthStops(p: string, t: string, seps: set<char>)
    requires Avoids(p, seps) && |t| > 0 && t[0] in seps
    ensures PieceLength(p + t, seps) == |p|
    decreases |p|
  {
    if |p| == 0 {
      assert p + t == t;
    } else {
      assert (p + t)[1..] == p[1..] + t;
      PieceLengthStops(p[1..], t, seps);
    }
  }

  /** The digit characters. */
  predicate IsDigit(c: char)
  {
    '0' <= c <= '9'
  }

  /** Decimal notation of `n`, without leading zeros, as `String(n)` produces it. */
  function Decimal(n: nat): (r: string)
    ensures |r| >= 1
    ensures forall i :: 0 <= i < |r| ==> IsDigit(r[i])
    ensures n >= 10 ==> r[0] != '0'
    decreases n
  {
    var d := ((n % 10) + 48) as char;
    if n < 10 then [d] else Decimal(n / 10) + [d]
  }

  /** The value of a string of decimal digits. */
  function DecimalValue(s: string): nat
    requires forall i :: 0 <= i < |s| ==> IsDigit(s[i])
    decreases |s|
  {
    if |s| == 0 then 0
    else
      assert IsDigit(s[|s| - 1]);
      10 * DecimalValue(s[..|s| - 1]) + ((s[|s| - 1] as int) - ('0' as int))
  }

  /** Reading back the decimal notation of `n` gives `n`. */
  lemma {:induction false} DecimalRoundTrip(n: nat)
    ensures DecimalValue(Decimal(n)) == n
    decreases n
  {
    var r := Decimal(n);
    if n >= 10 {
      DecimalRoundTrip(n / 10);
      assert r[..|r| - 1] == Decimal(n / 10);
    }
  }

  /** Different numbers have different decimal notations, so the fallback names
      `Group 1`, `Group 2`, ... are pairwise distinct. */
  lemma DecimalInjective(a: nat, b: nat)
    requires a != b
    ensures Decimal(a) != Decimal(b)
  {
    DecimalRoundTrip(a);
    DecimalRoundTrip(b);
  }
}
