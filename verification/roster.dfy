/** The roster panel: name counts and the duplicate badge, adding pasted names,
    importing a text file line by line, removing duplicates and removing one
    entry. Ids, drawn by the application as random base-36 strings, come from a
    counter here: the `k`-th new entry of one operation gets `nextId + k`. */
module Roster {
  import opened Types
  import opened Seqs
  import opened Text

  // ---------------------------------------------------------------------------
  // Name counts and the duplicate badge
  // ---------------------------------------------------------------------------

  /** `nameCounts`: one pass over the roster that counts each name. Its keys are
      exactly the names on the roster and each value is that name's number of
      occurrences. */
  method NameCounts(roster: seq<Participant>) returns (counts: map<string, nat>)
    ensures counts.Keys == NameSet(roster)
    ensures forall x :: x in counts ==> counts[x] == multiset(Names(roster))[x]
  {
    counts := map[];
    var i := 0;
    while i < |roster|
      invariant 0 <= i <= |roster|
      invariant counts == Tally(roster[..i])
    {
      var p := roster[i];
      var c := if p.name in counts then counts[p.name] else 0;
      TallyPrefix(roster, i);
      counts := counts[p.name := c + 1];
      i := i + 1;
    }
    assert roster[..i] == roster;
    TallyCounts(roster);
  }

  /** Reference count of names, entry by entry from the front: the count after
      an entry is the count before it with that entry's name raised by one. */
  function Tally(entries: seq<Participant>): map<string, nat>
    decreases |entries|
  {
    if |entries| == 0 then map[]
    else
      var before := Tally(entries[..|entries| - 1]);
      var y := entries[|entries| - 1].name;
      before[y := (if y in before then before[y] else 0) + 1]
  }

  /** The tally of a prefix one entry longer. */
  lemma TallyPrefix(roster: seq<Participant>, i: nat)
    requires i < |roster|
    ensures var before := Tally(roster[..i]);
            var y := roster[i].name;
            Tally(roster[..i + 1]) == before[y := (if y in before then before[y] else 0) + 1]
  {
    assert roster[..i + 1][..i] == roster[..i];
  }

  /** The tally has exactly the roster's names as keys, each mapped to its
      number of occurrences. */
  lemma {:induction false} TallyCounts(entries: seq<Participant>)
    ensures Tally(entries).Keys == NameSet(entries)
    ensures forall x :: x in Tally(entries) ==> Tally(entries)[x] == multiset(Names(entries))[x]
    decreases |entries|
  {
    TallyCountsOf(entries);
  }

  /** `TallyCounts` in the form of the `CountsOf` invariant. */
  lemma {:induction false} TallyCountsOf(entries: seq<Participant>)
    ensures CountsOf(Tally(entries), entries)
    decreases |entries|
  {
    if |entries| > 0 {
      var init, p := entries[..|entries| - 1], entries[|entries| - 1];
      TallyCountsOf(init);
      CountStep(Tally(init), init, p);
      SplitLast(entries);
    }
  }

  /** `counts` maps each name of `entries` to its number of occurrences. */
  ghost predicate CountsOf(counts: map<string, nat>, entries: seq<Participant>)
  {
    && counts.Keys == NameSet(entries)
    && forall x :: multiset(Names(entries))[x] == if x in counts then counts[x] else 0
  }

  /** Counting one more entry adds one to its name's count and nothing else. */
  lemma CountStep(counts: map<string, nat>, entries: seq<Participant>, p: Participant)
    requires CountsOf(counts, entries)
    ensures CountsOf(counts[p.name := (if p.name in counts then counts[p.name] else 0) + 1], entries + [p])
  {
    NamesSnoc(entries, p);
    NameSetSnoc(entries, p);
    TallyStep(counts, Names(entries), p.name);
  }

  /** One more entry adds its name at the end of the name list. */
  lemma NamesSnoc(entries: seq<Participant>, p: Participant)
    ensures Names(entries + [p]) == Names(entries) + [p.name]
  {
  }

  /** One more entry adds its name to the name set. */
  lemma NameSetSnoc(entries: seq<Participant>, p: Participant)
    ensures NameSet(entries + [p]) == NameSet(entries) + {p.name}
  {
    NameSetAppend(entries, [p]);
    NameSetSingleton(p);
  }

  /** The counting step on bare names: one more `y` raises its tally by one. */
  lemma TallyStep(counts: map<string, nat>, names: seq<string>, y: string)
    requires forall x :: multiset(names)[x] == if x in counts then counts[x] else 0
    ensures var after := counts[y := (if y in counts then counts[y] else 0) + 1];
            forall x :: multiset(names + [y])[x] == if x in after then after[x] else 0
  {
    var after := counts[y := (if y in counts then counts[y] else 0) + 1];
    forall x
      ensures multiset(names + [y])[x] == if x in after then after[x] else 0
    {
      MultisetSnoc(names, y, x);
    }
  }

  /** A one-entry roster has one name. */
  lemma NameSetSingleton(p: Participant)
    ensures NameSet([p]) == {p.name}
  {
    assert [p][0] == p;
  }

  /** Appending `y` adds one occurrence of `y` and none of anything else. */
  lemma MultisetSnoc(s: seq<string>, y: string, x: string)
    ensures multiset(s + [y])[x] == multiset(s)[x] + (if x == y then 1 else 0)
  {
  }

  /** `nameCounts[name] > 1`: the name occurs more than once on the roster. */
  predicate SharesName(roster: seq<Participant>, name: string)
  {
    multiset(Names(roster))[name] > 1
  }

  /** Reference for `duplicateCount`: how many entries carry a name that some
      other entry carries too. */
  function DuplicateCount(roster: seq<Participant>): (n: nat)
    ensures n <= |roster|
  {
    |Filter((p: Participant) => SharesName(roster, p.name), roster)|
  }

  /** `duplicateCount` as the panel computes it, through the map of counts. */
  method CountDuplicates(roster: seq<Participant>) returns (n: nat)
    ensures n == DuplicateCount(roster)
  {
    var counts := NameCounts(roster);
    var flagged := (p: Participant) => p.name in counts && counts[p.name] > 1;
    FilterCongruent(flagged, (p: Participant) => SharesName(roster, p.name), roster);
    n := |Filter(flagged, roster)|;
  }

  /** The duplicate badge shows zero exactly when all names are distinct. */
  lemma NoDuplicatesIffDistinct(roster: seq<Participant>)
    ensures DuplicateCount(roster) == 0 <==> DistinctNames(roster)
  {
    var flagged := (p: Participant) => SharesName(roster, p.name);
    var names := Names(roster);
    if !DistinctNames(roster) {
      var i, j :| 0 <= i < j < |roster| && roster[i].name == roster[j].name;
      OccursTwice(names, i, j);
      FilterTwoHits(flagged, roster, i, j);
    } else if |Filter(flagged, roster)| > 0 {
      var i := FlaggedPosition(roster, 0);
      var j := OtherOccurrence(names, i);
    }
  }

  /** A name is never shared with nobody: the duplicate badge never shows one. */
  lemma DuplicateCountNeverOne(roster: seq<Participant>)
    ensures DuplicateCount(roster) != 1
  {
    var flagged := (p: Participant) => SharesName(roster, p.name);
    if |Filter(flagged, roster)| > 0 {
      var i := FlaggedPosition(roster, 0);
      var j := OtherOccurrence(Names(roster), i);
      assert flagged(roster[j]);
      if i < j {
        FilterTwoHits(flagged, roster, i, j);
      } else {
        FilterTwoHits(flagged, roster, j, i);
      }
    }
  }

  /** The roster position of an entry counted by `DuplicateCount`. */
  lemma FlaggedPosition(roster: seq<Participant>, k: nat) returns (i: nat)
    requires k < |Filter((p: Participant) => SharesName(roster, p.name), roster)|
    ensures i < |roster| && SharesName(roster, roster[i].name)
    ensures multiset(Names(roster))[Names(roster)[i]] >= 2
  {
    var flagged := (p: Participant) => SharesName(roster, p.name);
    var q := Filter(flagged, roster)[k];
    assert q in roster && flagged(q);
    var m :| 0 <= m < |roster| && roster[m] == q;
    i := m;
  }

  /** Keys a plain JavaScript object already has through `Object.prototype`
      before anything is stored in it. */
  const InheritedKeys: set<string> := {
    "constructor", "__proto__", "toString", "toLocaleString", "valueOf",
    "hasOwnProperty", "isPrototypeOf", "propertyIsEnumerable",
    "__defineGetter__", "__defineSetter__", "__lookupGetter__", "__lookupSetter__"
  }

  /** `duplicateCount` as the code computes it with an object literal for the
      counts. For an inherited key, `counts[name] || 0` reads the inherited
      member, so the stored value is a string (or, for `__proto__`, the store
      is ignored), and `nameCounts[name] > 1` is false: such entries are never
      flagged, however often their name occurs. */
  function DuplicateCountAsWritten(roster: seq<Participant>): (n: nat)
    ensures n <= DuplicateCount(roster)
  {
    var flagged := (p: Participant) => p.name !in InheritedKeys && SharesName(roster, p.name);
    FilterImplies(flagged, (p: Participant) => SharesName(roster, p.name), roster);
    |Filter(flagged, roster)|
  }

  /** Filtering by a stronger predicate keeps no more elements. */
  lemma {:induction false} FilterImplies<T>(f: T -> bool, g: T -> bool, s: seq<T>)
    requires forall i :: 0 <= i < |s| ==> f(s[i]) ==> g(s[i])
    ensures |Filter(f, s)| <= |Filter(g, s)|
    decreases |s|
  {
    if |s| > 0 {
      FilterImplies(f, g, s[1..]);
    }
  }

  /** Two entries called `constructor`: the names are not distinct and both
      entries share a name, yet the code's count is zero, so neither entry is
      marked and the remove-duplicates button does not appear. */
  lemma InheritedNameHidesDuplicates() returns (roster: seq<Participant>)
    ensures roster == [Participant(0, "constructor"), Participant(1, "constructor")]
    ensures !DistinctNames(roster)
    ensures DuplicateCount(roster) == 2
    ensures DuplicateCountAsWritten(roster) == 0
  {
    roster := [Participant(0, "constructor"), Participant(1, "constructor")];
    assert roster[0].name == roster[1].name;
    var shares := (p: Participant) => SharesName(roster, p.name);
    OccursTwice(Names(roster), 0, 1);
    assert SharesName(roster, "constructor");
    FilterKeepsAll(shares, roster);
    var flagged := (p: Participant) => p.name !in InheritedKeys && SharesName(roster, p.name);
    assert "constructor" in InheritedKeys;
    FilterNone(flagged, roster);
  }

  /** Away from inherited keys the code's count is the intended one. */
  lemma AsWrittenAgreesOffInherited(roster: seq<Participant>)
    requires forall i :: 0 <= i < |roster| ==> roster[i].name !in InheritedKeys
    ensures DuplicateCountAsWritten(roster) == DuplicateCount(roster)
  {
    FilterCongruent((p: Participant) => p.name !in InheritedKeys && SharesName(roster, p.name),
                    (p: Participant) => SharesName(roster, p.name), roster);
  }

  // ---------------------------------------------------------------------------
  // Removing duplicates
  // ---------------------------------------------------------------------------

  /** Reference for `handleRemoveDuplicates`: an entry is kept exactly when no
      earlier entry has the same name. */
  function FirstOfEachName(roster: seq<Participant>): seq<Participant>
    decreases |roster|
  {
    if |roster| == 0 then []
    else
      var init := roster[..|roster| - 1];
      var last := roster[|roster| - 1];
      FirstOfEachName(init) + (if last.name in NameSet(init) then [] else [last])
  }

  /** One more entry is kept exactly when its name is new. */
  lemma FirstOfEachNameSnoc(init: seq<Participant>, p: Participant)
    ensures FirstOfEachName(init + [p])
         == FirstOfEachName(init) + (if p.name in NameSet(init) then [] else [p])
  {
    assert (init + [p])[..|init|] == init;
  }

  /** Removing duplicates keeps every name. */
  lemma {:induction false} FirstOfEachNameKeepsNames(roster: seq<Participant>)
    ensures NameSet(FirstOfEachName(roster)) == NameSet(roster)
    decreases |roster|
  {
    if |roster| > 0 {
      var init := roster[..|roster| - 1];
      var last := roster[|roster| - 1];
      FirstOfEachNameKeepsNames(init);
      SplitLast(roster);
      var kept := FirstOfEachName(init);
      var tail: seq<Participant> := if last.name in NameSet(init) then [] else [last];
      assert FirstOfEachName(roster) == kept + tail;
      NameSetAppend(kept, tail);
      NameSetAppend(init, [last]);
      NameSetSingleton(last);
      assert NameSet(tail) == if last.name in NameSet(init) then {} else {last.name};
    }
  }

  /** The names of a concatenation are the names of the two parts. */
  lemma NameSetAppend(a: seq<Participant>, b: seq<Participant>)
    ensures NameSet(a + b) == NameSet(a) + NameSet(b)
  {
    forall x | x in NameSet(a + b)
      ensures x in NameSet(a) + NameSet(b)
    {
      var k :| 0 <= k < |a + b| && (a + b)[k].name == x;
      if k < |a| {
        assert a[k].name == x;
      } else {
        assert b[k - |a|].name == x;
      }
    }
    forall x | x in NameSet(a)
      ensures x in NameSet(a + b)
    {
      var k :| 0 <= k < |a| && a[k].name == x;
      assert (a + b)[k].name == x;
    }
    forall x | x in NameSet(b)
      ensures x in NameSet(a + b)
    {
      var k :| 0 <= k < |b| && b[k].name == x;
      assert (a + b)[|a| + k].name == x;
    }
  }

  /** After removing duplicates no name occurs twice. */
  lemma {:induction false} FirstOfEachNameDistinct(roster: seq<Participant>)
    ensures DistinctNames(FirstOfEachName(roster))
    decreases |roster|
  {
    if |roster| > 0 {
      var init := roster[..|roster| - 1];
      var last := roster[|roster| - 1];
      FirstOfEachNameDistinct(init);
      FirstOfEachNameKeepsNames(init);
      var kept := FirstOfEachName(init);
      if last.name !in NameSet(init) {
        var r := kept + [last];
        forall i, j | 0 <= i < j < |r|
          ensures r[i].name != r[j].name
        {
          if j == |kept| {
            assert r[i] == kept[i];
            assert kept[i].name in NameSet(kept);
          } else {
            assert r[i] == kept[i] && r[j] == kept[j];
          }
        }
      }
    }
  }

  /** Removing duplicates deletes entries and keeps the order of the rest. */
  lemma {:induction false} FirstOfEachNameIsSubsequence(roster: seq<Participant>)
    ensures IsSubsequence(FirstOfEachName(roster), roster)
    decreases |roster|
  {
    if |roster| > 0 {
      var init := roster[..|roster| - 1];
      var last := roster[|roster| - 1];
      FirstOfEachNameIsSubsequence(init);
      SubsequenceSnoc(FirstOfEachName(init), init, last);
      assert FirstOfEachName(init) + [] == FirstOfEachName(init);
      SplitLast(roster);
    }
  }

  /** A roster without repeated names is left as it is. */
  lemma {:induction false} FirstOfEachNameOfDistinct(roster: seq<Participant>)
    requires DistinctNames(roster)
    ensures FirstOfEachName(roster) == roster
    decreases |roster|
  {
    if |roster| > 0 {
      var n := |roster| - 1;
      var init := roster[..n];
      DistinctNamesInit(roster);
      FirstOfEachNameOfDistinct(init);
      SplitLast(roster);
    }
  }

  /** Without repeated names, the roster minus its last entry has no repeated
      names, and the last entry's name is not among them. */
  lemma DistinctNamesInit(roster: seq<Participant>)
    requires |roster| > 0 && DistinctNames(roster)
    ensures DistinctNames(roster[..|roster| - 1])
    ensures roster[|roster| - 1].name !in NameSet(roster[..|roster| - 1])
  {
    var init := roster[..|roster| - 1];
    forall i, j | 0 <= i < j < |init|
      ensures init[i].name != init[j].name
    {
      assert init[i] == roster[i] && init[j] == roster[j];
    }
  }

  /** No entry before position `i` has the name of entry `i`. */
  predicate FirstWithName(roster: seq<Participant>, i: nat)
    requires i < |roster|
  {
    forall j :: 0 <= j < i ==> roster[j].name != roster[i].name
  }

  /** The first entry with each name survives removal of duplicates. */
  lemma {:induction false} FirstOfEachNameKeepsFirst(roster: seq<Participant>, i: nat)
    requires i < |roster| && FirstWithName(roster, i)
    ensures roster[i] in FirstOfEachName(roster)
    decreases |roster|
  {
    var n := |roster| - 1;
    var init := roster[..n];
    var last := roster[n];
    assert FirstOfEachName(roster) == FirstOfEachName(init) + (if last.name in NameSet(init) then [] else [last]);
    if i < n {
      assert init[i] == roster[i];
      assert FirstWithName(init, i) by {
        forall j | 0 <= j < i
          ensures init[j].name != init[i].name
        {
          assert init[j] == roster[j];
        }
      }
      FirstOfEachNameKeepsFirst(init, i);
    }
  }

  /** Every entry that survives removal of duplicates is the first entry with
      its name; `i` is its roster position. */
  lemma {:induction false} FirstOfEachNameOnlyFirst(roster: seq<Participant>, k: nat) returns (i: nat)
    requires k < |FirstOfEachName(roster)|
    ensures i < |roster| && roster[i] == FirstOfEachName(roster)[k] && FirstWithName(roster, i)
    decreases |roster|
  {
    var n := |roster| - 1;
    var init := roster[..n];
    var last := roster[n];
    var kept := FirstOfEachName(init);
    assert FirstOfEachName(roster) == kept + (if last.name in NameSet(init) then [] else [last]);
    if k < |kept| {
      i := FirstOfEachNameOnlyFirst(init, k);
      assert roster[i] == init[i];
      forall j | 0 <= j < i
        ensures roster[j].name != roster[i].name
      {
        assert roster[j] == init[j];
      }
    } else {
      i := n;
      forall j | 0 <= j < n
        ensures roster[j].name != last.name
      {
        assert roster[j] == init[j];
      }
    }
  }

  /** Removing duplicates twice is the same as once. */
  lemma FirstOfEachNameIdempotent(roster: seq<Participant>)
    ensures FirstOfEachName(FirstOfEachName(roster)) == FirstOfEachName(roster)
    ensures DuplicateCount(FirstOfEachName(roster)) == 0
  {
    FirstOfEachNameDistinct(roster);
    FirstOfEachNameOfDistinct(FirstOfEachName(roster));
    NoDuplicatesIffDistinct(FirstOfEachName(roster));
  }

  /** `handleRemoveDuplicates`: one pass with a set of names already seen. The
      result keeps the first entry of each name, in roster order, so every name
      survives exactly once. */
  method RemoveDuplicates(roster: seq<Participant>) returns (unique: seq<Participant>)
    ensures unique == FirstOfEachName(roster)
    ensures DistinctNames(unique)
    ensures NameSet(unique) == NameSet(roster)
    ensures IsSubsequence(unique, roster)
  {
    var seen: set<string> := {};
    unique := [];
    var i := 0;
    while i < |roster|
      invariant 0 <= i <= |roster|
      invariant seen == NameSet(roster[..i])
      invariant unique == FirstOfEachName(roster[..i])
    {
      var p := roster[i];
      assert roster[..i + 1] == roster[..i] + [p];
      FirstOfEachNameSnoc(roster[..i], p);
      NameSetAppend(roster[..i], [p]);
      NameSetSingleton(p);
      if p.name !in seen {
        unique := unique + [p];
        seen := seen + {p.name};
      }
      i := i + 1;
    }
    assert roster[..i] == roster;
    FirstOfEachNameDistinct(roster);
    FirstOfEachNameKeepsNames(roster);
    FirstOfEachNameIsSubsequence(roster);
  }

  // ---------------------------------------------------------------------------
  // Adding names: pasted text and imported files
  // ---------------------------------------------------------------------------

  /** The separators of pasted text: line feed, comma and semicolon. */
  const EntrySeparators: set<char> := {'\n', ',', ';'}

  /** The line terminators of an imported file. */
  const LineBreaks: set<char> := {'\n', '\r'}

  /** `t` is a usable name for a list separated by `seps`: non-empty,
      separator-free and with no whitespace at either end. */
  predicate Clean(t: string, seps: set<char>)
  {
    |t| > 0 && Avoids(t, seps) && !IsWhitespace(t[0]) && !IsWhitespace(t[|t| - 1])
  }

  /** `.map(s => s.trim())`. */
  function TrimAll(pieces: seq<string>): (r: seq<string>)
    ensures |r| == |pieces|
    ensures forall i :: 0 <= i < |pieces| ==> r[i] == Trim(pieces[i])
  {
    seq(|pieces|, i requires 0 <= i < |pieces| => Trim(pieces[i]))
  }

  /** `.filter(s => s.length > 0)`. */
  function NonEmpty(pieces: seq<string>): (r: seq<string>)
    ensures forall i :: 0 <= i < |r| ==> |r[i]| > 0
  {
    Filter((t: string) => |t| > 0, pieces)
  }

  /** The names `handleAddNames` reads from pasted text: split on runs of line
      feeds, commas and semicolons, trim each piece, drop the empty ones. */
  function PastedNames(text: string): (names: seq<string>)
    ensures forall i :: 0 <= i < |names| ==> Clean(names[i], EntrySeparators)
  {
    CleanAfterTrim(SplitRuns(text, EntrySeparators), EntrySeparators);
    NonEmpty(TrimAll(SplitRuns(text, EntrySeparators)))
  }

  /** Splitting, trimming and dropping empty pieces leaves only clean names. */
  lemma CleanAfterTrim(pieces: seq<string>, seps: set<char>)
    requires forall i :: 0 <= i < |pieces| ==> Avoids(pieces[i], seps)
    ensures forall i :: 0 <= i < |NonEmpty(TrimAll(pieces))| ==> Clean(NonEmpty(TrimAll(pieces))[i], seps)
  {
    var trimmed := TrimAll(pieces);
    var names := NonEmpty(trimmed);
    forall i | 0 <= i < |names|
      ensures Clean(names[i], seps)
    {
      assert names[i] in trimmed;
      var k :| 0 <= k < |trimmed| && trimmed[k] == names[i];
      TrimmedPieceClean(pieces[k], seps);
    }
  }

  /** A separator-free piece that is not blank trims to a clean name. */
  lemma TrimmedPieceClean(piece: string, seps: set<char>)
    requires Avoids(piece, seps) && |Trim(piece)| > 0
    ensures Clean(Trim(piece), seps)
  {
    TrimAvoids(piece, seps);
  }

  /** Clean names are neither changed by trimming nor dropped by the filter. */
  lemma CleanSurvivesTrim(names: seq<string>, seps: set<char>)
    requires forall i :: 0 <= i < |names| ==> Clean(names[i], seps)
    ensures NonEmpty(TrimAll(names)) == names
  {
    forall i | 0 <= i < |names|
      ensures Trim(names[i]) == names[i]
    {
      TrimClean(names[i]);
    }
    assert TrimAll(names) == names;
    FilterKeepsAll((t: string) => |t| > 0, names);
  }

  /** Pasting clean names with a run of line feeds, commas or semicolons
      between each two of them, the runs mixed in any way (`Alice,Bob\nCarol`,
      `a,b;;c`), reads back exactly those names in that order. */
  lemma PastedNamesRoundTrip(names: seq<string>, gaps: seq<string>)
    requires GapsFit(names, gaps) && SeparatorRuns(gaps, EntrySeparators)
    requires forall i :: 0 <= i < |names| ==> Clean(names[i], EntrySeparators)
    ensures PastedNames(Weave(names, gaps)) == names
  {
    if |names| == 0 {
      BlankTextAddsNothing("");
    } else {
      CleanEntriesSplit(names, gaps);
      CleanSurvivesTrim(names, EntrySeparators);
    }
  }

  /** Mixed separators: `a,b;;c` pastes as the three names `a`, `b` and `c`. */
  lemma PastedMixedSeparators()
    ensures PastedNames("a,b;;c") == ["a", "b", "c"]
  {
    var names, gaps := ["a", "b", "c"], [",", ";;"];
    assert Weave(names, gaps) == "a,b;;c" by {
      assert Weave(names[1..], gaps[1..]) == "b;;c";
    }
    PastedNamesRoundTrip(names, gaps);
  }

  /** Clean names woven with runs of entry separators split back into those names. */
  lemma CleanEntriesSplit(names: seq<string>, gaps: seq<string>)
    requires |names| >= 1 && GapsFit(names, gaps) && SeparatorRuns(gaps, EntrySeparators)
    requires forall i :: 0 <= i < |names| ==> Clean(names[i], EntrySeparators)
    ensures SplitRuns(Weave(names, gaps), EntrySeparators) == names
  {
    SplitRunsWeave(names, gaps, EntrySeparators);
  }

  /** Text made only of whitespace and separators adds nobody (the add button
      is disabled for whitespace-only text in any case). */
  lemma BlankTextAddsNothing(text: string)
    requires forall k :: 0 <= k < |text| ==> IsWhitespace(text[k]) || text[k] in EntrySeparators
    ensures PastedNames(text) == []
  {
    BlankPieces(text, EntrySeparators);
    FilterNone((t: string) => |t| > 0, TrimAll(SplitRuns(text, EntrySeparators)));
  }

  /** New roster entries for `names`, with ids counted up from `nextId`. */
  function Enroll(names: seq<string>, nextId: Id): (ps: seq<Participant>)
    ensures |ps| == |names|
    ensures Names(ps) == names
    ensures forall i :: 0 <= i < |ps| ==> ps[i].id == nextId + i
  {
    seq(|names|, i requires 0 <= i < |names| => Participant(nextId + i, names[i]))
  }

  /** Appending entries with fresh ids keeps ids distinct. */
  lemma EnrollKeepsIdsDistinct(roster: seq<Participant>, names: seq<string>, nextId: Id)
    requires DistinctIds(roster)
    requires forall i :: 0 <= i < |roster| ==> roster[i].id < nextId
    ensures DistinctIds(roster + Enroll(names, nextId))
    ensures forall i :: 0 <= i < |roster| + |names| ==> (roster + Enroll(names, nextId))[i].id < nextId + |names|
  {
    var r := roster + Enroll(names, nextId);
    forall i, j | 0 <= i < j < |r|
      ensures r[i].id != r[j].id
    {
      if j < |roster| {
        assert r[i] == roster[i] && r[j] == roster[j];
      } else if i < |roster| {
        assert r[i] == roster[i];
      }
    }
  }

  /** `handleAddNames`: the roster with one new entry per pasted name appended
      at the end. */
  function AddNames(roster: seq<Participant>, text: string, nextId: Id): (r: seq<Participant>)
    ensures |r| == |roster| + |PastedNames(text)|
    ensures r[..|roster|] == roster
    ensures Names(r[|roster|..]) == PastedNames(text)
    ensures forall i :: |roster| <= i < |r| ==> r[i].id == nextId + (i - |roster|)
  {
    var added := Enroll(PastedNames(text), nextId);
    assert (roster + added)[|roster|..] == added;
    roster + added
  }

  /** `name.replace(/^"|"$/g, '')`: drops one double quote at the start and one
      at the end, if present. A lone `"` loses its only character. */
  function StripQuotes(s: string): (r: string)
    ensures |r| <= |s| <= |r| + 2
    ensures |s| - |r| == (if |s| > 0 && s[0] == '"' then 1 else 0)
                       + (if |s| > 1 && s[|s| - 1] == '"' then 1 else 0)
    ensures |s| > 0 && s[0] == '"' ==> r == s[1..1 + |r|]
    ensures |s| == 0 || s[0] != '"' ==> r == s[..|r|]
  {
    var lo := if |s| > 0 && s[0] == '"' then 1 else 0;
    var hi := if |s| > lo && s[|s| - 1] == '"' then |s| - 1 else |s|;
    s[lo..hi]
  }

  /** A name quoted on both sides comes back without its quotes, whatever it holds. */
  lemma StripQuotesOfQuoted(t: string)
    ensures StripQuotes("\"" + t + "\"") == t
  {
    var s := "\"" + t + "\"";
    assert s[1..|s| - 1] == t;
  }

  /** A quote at the start alone goes; the rest of the line stays. */
  lemma StripQuotesOfLeading(t: string)
    requires |t| == 0 || t[|t| - 1] != '"'
    ensures StripQuotes("\"" + t) == t
  {
    var s := "\"" + t;
    assert s[1..] == t;
  }

  /** A quote at the end alone goes; the rest of the line stays. */
  lemma StripQuotesOfTrailing(t: string)
    requires |t| == 0 || t[0] != '"'
    ensures StripQuotes(t + "\"") == t
  {
    var s := t + "\"";
    assert s[..|t|] == t;
  }

  /** A line without quotes at its ends is left as it is. */
  lemma StripQuotesOfUnquoted(s: string)
    requires |s| > 0 ==> s[0] != '"' && s[|s| - 1] != '"'
    ensures StripQuotes(s) == s
  {
  }

  /** `.map(name => name.replace(...))` over the lines of a file. */
  function StripAll(lines: seq<string>): (r: seq<string>)
    ensures |r| == |lines|
    ensures forall i :: 0 <= i < |lines| ==> r[i] == StripQuotes(lines[i])
  {
    seq(|lines|, i requires 0 <= i < |lines| => StripQuotes(lines[i]))
  }

  /** The names `handleFileUpload` reads from a file's text: split on runs of
      line feeds and carriage returns, trim each line, drop empty lines, then
      strip the surrounding quotes. Quotes are stripped after the empty lines
      are dropped, so a line holding only `"` becomes an empty name. */
  function ImportedNames(text: string): (names: seq<string>)
    ensures forall i :: 0 <= i < |names| ==> Avoids(names[i], LineBreaks)
  {
    var lines := NonEmpty(TrimAll(SplitRuns(text, LineBreaks)));
    CleanAfterTrim(SplitRuns(text, LineBreaks), LineBreaks);
    StripAllAvoids(lines, LineBreaks);
    StripAll(lines)
  }

  /** Stripping quotes adds no character, so separator-free lines stay so. */
  lemma StripAllAvoids(lines: seq<string>, seps: set<char>)
    requires forall i :: 0 <= i < |lines| ==> Clean(lines[i], seps)
    ensures forall i :: 0 <= i < |lines| ==> Avoids(StripAll(lines)[i], seps)
  {
    forall i | 0 <= i < |lines|
      ensures Avoids(StripAll(lines)[i], seps)
    {
      var s, r := lines[i], StripQuotes(lines[i]);
      forall k | 0 <= k < |r|
        ensures r[k] !in seps
      {
        if s[0] == '"' {
          assert r[k] == s[1 + k];
        } else {
          assert r[k] == s[k];
        }
      }
    }
  }

  /** A file whose lines are clean reads back as those lines with their
      surrounding quotes removed, whatever ends each line: `\n`, `\r\n`, `\r`,
      or any run of these, such as blank lines in between, mixed in any way. */
  lemma ImportRoundTrip(lines: seq<string>, eols: seq<string>)
    requires GapsFit(lines, eols) && SeparatorRuns(eols, LineBreaks)
    requires forall i :: 0 <= i < |lines| ==> Clean(lines[i], LineBreaks)
    ensures ImportedNames(Weave(lines, eols)) == StripAll(lines)
  {
    if |lines| == 0 {
      EmptyFileImportsNothing();
    } else {
      CleanLinesSplit(lines, eols);
      CleanSurvivesTrim(lines, LineBreaks);
    }
  }

  /** An empty file holds no names. */
  lemma EmptyFileImportsNothing()
    ensures ImportedNames("") == []
  {
    assert SplitRuns("", LineBreaks) == [""];
    assert TrimAll([""]) == [""];
    assert NonEmpty([""]) == [];
  }

  /** Clean lines woven with line-break runs split back into those lines. */
  lemma CleanLinesSplit(lines: seq<string>, eols: seq<string>)
    requires |lines| >= 1 && GapsFit(lines, eols) && SeparatorRuns(eols, LineBreaks)
    requires forall i :: 0 <= i < |lines| ==> Clean(lines[i], LineBreaks)
    ensures SplitRuns(Weave(lines, eols), LineBreaks) == lines
  {
    SplitRunsWeave(lines, eols, LineBreaks);
  }

  /** `"name"` on each line of a file imports exactly those names, even names
      that are empty, hold spaces at their ends or contain quotes, with `\n`,
      `\r\n` or `\r` line endings, mixed in any way. */
  lemma ImportQuotedNames(names: seq<string>, eols: seq<string>)
    requires GapsFit(names, eols) && SeparatorRuns(eols, LineBreaks)
    requires forall i :: 0 <= i < |names| ==> Avoids(names[i], LineBreaks)
    ensures ImportedNames(Weave(QuoteAll(names), eols)) == names
  {
    QuotedLinesClean(names);
    ImportRoundTrip(QuoteAll(names), eols);
    StripQuoteAll(names);
  }

  /** A name between quotes is a clean line as long as the name has no line break. */
  lemma QuotedLinesClean(names: seq<string>)
    requires forall i :: 0 <= i < |names| ==> Avoids(names[i], LineBreaks)
    ensures forall i :: 0 <= i < |names| ==> Clean(QuoteAll(names)[i], LineBreaks)
  {
    var lines := QuoteAll(names);
    forall i | 0 <= i < |lines|
      ensures Clean(lines[i], LineBreaks)
    {
      var t := names[i];
      assert lines[i] == "\"" + t + "\"";
      forall k | 0 <= k < |lines[i]|
        ensures lines[i][k] !in LineBreaks
      {
        if 0 < k < |lines[i]| - 1 {
          assert lines[i][k] == t[k - 1];
        }
      }
    }
  }

  /** Stripping the quotes put around each name gives the names back. */
  lemma StripQuoteAll(names: seq<string>)
    ensures StripAll(QuoteAll(names)) == names
  {
    forall i | 0 <= i < |names|
      ensures StripAll(QuoteAll(names))[i] == names[i]
    {
      StripQuotesOfQuoted(names[i]);
    }
  }

  /** Each name put between double quotes. */
  function QuoteAll(names: seq<string>): (lines: seq<string>)
    ensures |lines| == |names|
    ensures forall i :: 0 <= i < |names| ==> lines[i] == "\"" + names[i] + "\""
  {
    seq(|names|, i requires 0 <= i < |names| => "\"" + names[i] + "\"")
  }

  /** A file consisting of the line `"` imports one participant with an empty
      name: the emptiness filter runs before the quotes are stripped. */
  lemma LoneQuoteImportsEmptyName()
    ensures ImportedNames("\"") == [""]
  {
    var q := "\"";
    LoneQuoteIsOneLine();
    TrimClean(q);
    OneLineKept(q);
    ImportOneLine(q);
    assert StripQuotes(q) == "";
  }

  /** A file of one line that survives trimming and the emptiness filter
      imports that line with its quotes stripped. */
  lemma ImportOneLine(t: string)
    requires SplitRuns(t, LineBreaks) == [t] && NonEmpty(TrimAll([t])) == [t]
    ensures ImportedNames(t) == [StripQuotes(t)]
  {
    assert StripAll([t]) == [StripQuotes(t)];
  }

  /** A single line that trims to itself and is not empty survives trimming
      and the emptiness filter. */
  lemma OneLineKept(t: string)
    requires Trim(t) == t && |t| > 0
    ensures NonEmpty(TrimAll([t])) == [t]
  {
    assert TrimAll([t]) == [t];
    FilterKeepsAll((u: string) => |u| > 0, [t]);
  }

  /** A lone quote holds no line break, so it is a file of one line. */
  lemma LoneQuoteIsOneLine()
    ensures SplitRuns("\"", LineBreaks) == ["\""]
  {
    assert PieceLength("\"", LineBreaks) == 1;
  }

  /** `handleFileUpload`: the roster with one new entry per imported name
      appended at the end. */
  function ImportFile(roster: seq<Participant>, text: string, nextId: Id): (r: seq<Participant>)
    ensures |r| == |roster| + |ImportedNames(text)|
    ensures r[..|roster|] == roster
    ensures Names(r[|roster|..]) == ImportedNames(text)
    ensures forall i :: |roster| <= i < |r| ==> r[i].id == nextId + (i - |roster|)
  {
    var added := Enroll(ImportedNames(text), nextId);
    assert (roster + added)[|roster|..] == added;
    roster + added
  }

  // ---------------------------------------------------------------------------
  // Removing one entry
  // ---------------------------------------------------------------------------

  /** `removeParticipant`: every entry with the given id goes, every other entry
      stays, in its original order. */
  function RemoveParticipant(roster: seq<Participant>, id: Id): (r: seq<Participant>)
    ensures forall i :: 0 <= i < |r| ==> r[i].id != id && r[i] in roster
    ensures forall i :: 0 <= i < |roster| && roster[i].id != id ==> roster[i] in r
    ensures IsSubsequence(r, roster)
    ensures forall p :: multiset(r)[p] == if p.id != id then multiset(roster)[p] else 0
  {
    var other := (p: Participant) => p.id != id;
    FilterIsSubsequence(other, roster);
    FilterMultiset(other, roster);
    Filter(other, roster)
  }

  /** With distinct ids, removing an id on the roster shortens it by exactly one,
      and removing an id not on the roster changes nothing. */
  lemma RemoveParticipantCount(roster: seq<Participant>, id: Id)
    requires DistinctIds(roster)
    ensures (exists i :: 0 <= i < |roster| && roster[i].id == id) ==> |RemoveParticipant(roster, id)| == |roster| - 1
    ensures (forall i :: 0 <= i < |roster| ==> roster[i].id != id) ==> RemoveParticipant(roster, id) == roster
  {
    var other := (p: Participant) => p.id != id;
    if exists i :: 0 <= i < |roster| && roster[i].id == id {
      var i :| 0 <= i < |roster| && roster[i].id == id;
      FilterDropsOne(other, roster, i);
    } else {
      FilterKeepsAll(other, roster);
    }
  }

  /** Removing an entry keeps the remaining ids distinct. */
  lemma RemoveParticipantKeepsIdsDistinct(roster: seq<Participant>, id: Id)
    requires DistinctIds(roster)
    ensures DistinctIds(RemoveParticipant(roster, id))
  {
    var r := RemoveParticipant(roster, id);
    SubsequenceDistinct(r, roster);
  }

  /** A subsequence of a roster with distinct ids has distinct ids. */
  lemma {:induction false} SubsequenceDistinct(r: seq<Participant>, s: seq<Participant>)
    requires IsSubsequence(r, s) && DistinctIds(s)
    ensures DistinctIds(r)
    decreases |s|
  {
    if |r| > 0 {
      var tail := s[1..];
      assert DistinctIds(tail) by {
        forall i, j | 0 <= i < j < |tail|
          ensures tail[i].id != tail[j].id
        {
          assert tail[i] == s[i + 1] && tail[j] == s[j + 1];
        }
      }
      if r[0] == s[0] {
        SubsequenceDistinct(r[1..], tail);
        SubsequenceElements(r[1..], tail);
        forall j | 0 < j < |r|
          ensures r[0].id != r[j].id
        {
          assert r[j] == r[1..][j - 1];
          var k :| 0 <= k < |tail| && tail[k] == r[j];
          assert s[k + 1] == r[j];
        }
        forall i, j | 0 < i < j < |r|
          ensures r[i].id != r[j].id
        {
          assert r[i] == r[1..][i - 1] && r[j] == r[1..][j - 1];
        }
      } else {
        SubsequenceDistinct(r, tail);
      }
    }
  }

  /** Every element of a subsequence is an element of the sequence. */
  lemma {:induction false} SubsequenceElements<T>(r: seq<T>, s: seq<T>)
    requires IsSubsequence(r, s)
    ensures forall i :: 0 <= i < |r| ==> r[i] in s
    decreases |s|
  {
    if |r| > 0 {
      if r[0] == s[0] {
        SubsequenceElements(r[1..], s[1..]);
        forall i | 0 < i < |r|
          ensures r[i] in s
        {
          assert r[i] == r[1..][i - 1];
        }
      } else {
        SubsequenceElements(r, s[1..]);
      }
    }
  }
}
