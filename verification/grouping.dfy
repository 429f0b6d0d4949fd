/** The grouping engine of the grouping panel (`performGrouping`): shuffle the
    roster once, cut it into `ceil(n / k)` consecutive chunks of `k`, and name
    each chunk from the team-name service, falling back to `Group {i+1}`. */
module Grouping {
  import opened Types
  import opened Seqs
  import opened Text
  import opened Shuffle

  /** `Math.ceil(n / k)` for a positive group size: the least `q` with `q * k >= n`. */
  function CeilDiv(n: nat, k: nat): (q: nat)
    requires k >= 1
    ensures q * k >= n
    ensures q * k < n + k
  {
    (n + k - 1) / k
  }

  /** What the team-name service answered for a request of `numGroups` names:
      a list (possibly shorter than asked, possibly with empty entries), or an
      error thrown by the call. */
  datatype NameSource = Generated(names: seq<string>) | GenerationError

  /** `Team ${i + 1}`: the name the grouping panel substitutes when the service throws. */
  function TeamName(i: nat): string
  {
    "Team " + Decimal(i + 1)
  }

  /** `Group ${i + 1}`: the name used when the list has no usable entry for group `i`. */
  function DefaultName(i: nat): string
  {
    "Group " + Decimal(i + 1)
  }

  /** The list of names the panel works with after the `try`/`catch`. */
  function ResolveNames(source: NameSource, numGroups: nat): (names: seq<string>)
    ensures source.GenerationError? ==> |names| == numGroups
  {
    match source
    case Generated(ns) => ns
    case GenerationError => seq(numGroups, i requires 0 <= i => TeamName(i))
  }

  /** `names[i] || `Group ${i + 1}``: a missing or empty entry is replaced. */
  function GroupName(names: seq<string>, i: nat): (r: string)
    ensures r != ""
    ensures (i < |names| && r == names[i]) || r == DefaultName(i)
  {
    if i < |names| && names[i] != "" then names[i] else DefaultName(i)
  }

  /** `s.slice(lo, hi)` for non-negative bounds: both are clamped to the length. */
  function Slice<T>(s: seq<T>, lo: nat, hi: nat): (r: seq<T>)
    ensures |r| <= |s|
    ensures lo <= hi <= |s| ==> r == s[lo..hi]
    ensures lo <= |s| <= hi ==> r == s[lo..]
    ensures |s| <= lo || hi <= lo ==> r == []
  {
    var a := if lo < |s| then lo else |s|;
    var b := if hi < |s| then hi else |s|;
    if a < b then s[a..b] else []
  }

  /** The smaller of two naturals. */
  function Min(a: nat, b: nat): nat
  {
    if a < b then a else b
  }

  /** `groups` cut `shuffled` into consecutive chunks: `ceil(n / k)` groups,
      whose members read in order give back `shuffled`, none empty, none larger
      than `k`, and all but the last exactly `k`. */
  predicate IsChunking(groups: seq<Group>, shuffled: seq<Participant>, k: nat)
    requires k >= 1
  {
    && |groups| == CeilDiv(|shuffled|, k)
    && Flatten(Members(groups)) == shuffled
    && (forall g :: 0 <= g < |groups| ==> 1 <= |groups[g].members| <= k)
    && (forall g :: 0 <= g < |groups| - 1 ==> |groups[g].members| == k)
  }

  /** Group `g` is named from `names` and carries the `g`-th fresh id. */
  predicate NamedFrom(groups: seq<Group>, names: seq<string>, firstId: Id)
  {
    forall g :: 0 <= g < |groups| ==> groups[g].name == GroupName(names, g) && groups[g].id == firstId + g
  }

  /** Appending the next group, named and numbered for its position, keeps
      the naming invariant. */
  lemma NamedStep(groups: seq<Group>, names: seq<string>, firstId: Id, group: Group)
    requires NamedFrom(groups, names, firstId)
    requires group.name == GroupName(names, |groups|) && group.id == firstId + |groups|
    ensures NamedFrom(groups + [group], names, firstId)
  {
    var gs := groups + [group];
    forall g | 0 <= g < |gs|
      ensures gs[g].name == GroupName(names, g) && gs[g].id == firstId + g
    {
      if g < |groups| {
        assert gs[g] == groups[g];
      }
    }
  }

  /** Multiplying by a natural keeps order. */
  lemma {:induction false} MulMonotone(a: nat, b: nat, k: nat)
    requires a <= b
    ensures a * k <= b * k
    decreases b - a
  {
    if a < b {
      MulMonotone(a, b - 1, k);
      assert b * k == (b - 1) * k + k;
    }
  }

  /** Where chunk `i` starts and ends. */
  lemma ChunkBounds(n: nat, k: nat, i: nat)
    requires k >= 1 && i < CeilDiv(n, k)
    ensures i * k < n
    ensures i + 1 < CeilDiv(n, k) ==> (i + 1) * k < n
    ensures i + 1 == CeilDiv(n, k) ==> (i + 1) * k >= n
  {
    var q := CeilDiv(n, k);
    assert (q - 1) * k == q * k - k;
    MulMonotone(i, q - 1, k);
    if i + 1 < q {
      MulMonotone(i + 1, q - 1, k);
    }
  }

  /** The loop of `performGrouping` that turns the shuffled roster into groups.
      The `members.length > 0` filter of the source is kept; the contract shows
      it never drops a chunk. */
  method BuildGroups(shuffled: seq<Participant>, k: nat, names: seq<string>, firstId: Id)
      returns (groups: seq<Group>)
    requires k >= 1
    ensures IsChunking(groups, shuffled, k)
    ensures NamedFrom(groups, names, firstId)
  {
    groups := [];
    var nextId := firstId;
    var i := 0;
    while i < CeilDiv(|shuffled|, k)
      invariant Placed(groups, shuffled, k, i)
      invariant nextId == firstId + i
      invariant NamedFrom(groups, names, firstId)
    {
      var members := Slice(shuffled, i * k, (i + 1) * k);
      var group := Group(nextId, GroupName(names, i), members);
      PlacedStep(groups, shuffled, k, i, group);
      NamedStep(groups, names, firstId, group);
      if |members| > 0 {
        groups := groups + [group];
        nextId := nextId + 1;
      }
      i := i + 1;
    }
    PlacedAll(groups, shuffled, k);
  }

  /** Loop invariant of `BuildGroups`: the first `i` chunks are in place, none
      empty, none larger than `k`, and all but the last of the `ceil(n / k)`
      exactly `k`. */
  ghost predicate Placed(groups: seq<Group>, shuffled: seq<Participant>, k: nat, i: nat)
    requires k >= 1
  {
    && i <= CeilDiv(|shuffled|, k)
    && |groups| == i
    && Flatten(Members(groups)) == shuffled[..Min(i * k, |shuffled|)]
    && (forall g :: 0 <= g < i ==> 1 <= |groups[g].members| <= k)
    && (forall g :: 0 <= g < i && g < CeilDiv(|shuffled|, k) - 1 ==> |groups[g].members| == k)
  }

  /** One turn of the loop: the next chunk is non-empty and keeps the invariant. */
  lemma PlacedStep(groups: seq<Group>, shuffled: seq<Participant>, k: nat, i: nat, group: Group)
    requires k >= 1 && Placed(groups, shuffled, k, i) && i < CeilDiv(|shuffled|, k)
    requires group.members == Slice(shuffled, i * k, (i + 1) * k)
    ensures |group.members| > 0
    ensures Placed(groups + [group], shuffled, k, i + 1)
  {
    NextChunk(shuffled, k, i);
    AppendGroup(groups, group);
  }

  /** After the last turn the chunks cover the whole roster. */
  lemma PlacedAll(groups: seq<Group>, shuffled: seq<Participant>, k: nat)
    requires k >= 1 && Placed(groups, shuffled, k, CeilDiv(|shuffled|, k))
    ensures IsChunking(groups, shuffled, k)
  {
    var q := CeilDiv(|shuffled|, k);
    if q > 0 {
      NextChunk(shuffled, k, q - 1);
    } else {
      assert |shuffled| == 0;
    }
  }

  /** Chunk `i` of the loop: the slice `[i * k, (i + 1) * k)`, which is never
      empty, has `k` members unless it is the last, and extends the part of
      `shuffled` already placed. */
  lemma NextChunk(shuffled: seq<Participant>, k: nat, i: nat)
    requires k >= 1 && i < CeilDiv(|shuffled|, k)
    ensures var members := Slice(shuffled, i * k, (i + 1) * k);
      && 1 <= |members| <= k
      && (i < CeilDiv(|shuffled|, k) - 1 ==> |members| == k)
      && shuffled[..Min((i + 1) * k, |shuffled|)] == shuffled[..Min(i * k, |shuffled|)] + members
    ensures i + 1 == CeilDiv(|shuffled|, k) ==> Min((i + 1) * k, |shuffled|) == |shuffled|
  {
    var n := |shuffled|;
    var lo, hi := i * k, (i + 1) * k;
    ChunkBounds(n, k, i);
    assert hi == lo + k;
    var members := Slice(shuffled, lo, hi);
    assert members == shuffled[lo..Min(hi, n)];
  }

  /** Appending a group appends its members to the flattened member list. */
  lemma AppendGroup(groups: seq<Group>, group: Group)
    ensures Flatten(Members(groups + [group])) == Flatten(Members(groups)) + group.members
  {
    FlattenAppend(Members(groups), group.members);
    assert Members(groups + [group]) == Members(groups) + [group.members];
  }

  /** Result of a grouping request. */
  datatype GroupingOutcome = Grouped | InsufficientParticipants

  /** `performGrouping`: rejects rosters of fewer than two people and leaves the
      current groups in place; otherwise shuffles with `draws`, asks for
      `ceil(n / k)` names and builds the groups with fresh ids from `firstId`. */
  method PerformGrouping(current: seq<Group>, roster: seq<Participant>, groupSize: nat,
                         draws: seq<nat>, source: NameSource, firstId: Id)
      returns (groups: seq<Group>, outcome: GroupingOutcome)
    requires groupSize >= 1
    requires ValidDraws(|roster|, draws)
    ensures outcome == InsufficientParticipants <==> |roster| < 2
    ensures outcome == InsufficientParticipants ==> groups == current
    ensures outcome == Grouped ==> IsChunking(groups, FisherYates(roster, draws), groupSize)
    ensures outcome == Grouped ==> NamedFrom(groups, ResolveNames(source, |groups|), firstId)
  {
    if |roster| < 2 {
      return current, InsufficientParticipants;
    }
    var shuffled := ShuffleArray(roster, draws);
    var numGroups := CeilDiv(|shuffled|, groupSize);
    var names := ResolveNames(source, numGroups);
    groups := BuildGroups(shuffled, groupSize, names, firstId);
    outcome := Grouped;
  }

  /** Grouping neither loses nor duplicates anyone: the members of all groups
      together are the roster, up to order, and their number is the roster's length. */
  lemma GroupingKeepsEveryone(roster: seq<Participant>, draws: seq<nat>, k: nat, groups: seq<Group>)
    requires k >= 1 && ValidDraws(|roster|, draws)
    requires IsChunking(groups, FisherYates(roster, draws), k)
    ensures multiset(Flatten(Members(groups))) == multiset(roster)
    ensures TotalLength(Members(groups)) == |roster|
  {
    FisherYatesPermutes(roster, draws);
    FlattenLength(Members(groups));
  }

  /** Group ids drawn from the counter are pairwise distinct. */
  lemma GroupIdsDistinct(groups: seq<Group>, names: seq<string>, firstId: Id)
    requires NamedFrom(groups, names, firstId)
    ensures forall a, b :: 0 <= a < b < |groups| ==> groups[a].id != groups[b].id
  {
  }

  /** When the name service throws, group `i` is called `Team {i+1}`, and these
      names are pairwise distinct. */
  lemma FallbackNamesOnError(groups: seq<Group>, firstId: Id)
    requires NamedFrom(groups, ResolveNames(GenerationError, |groups|), firstId)
    ensures forall g :: 0 <= g < |groups| ==> groups[g].name == TeamName(g)
    ensures forall a, b :: 0 <= a < b < |groups| ==> groups[a].name != groups[b].name
  {
    forall a, b | 0 <= a < b < |groups|
      ensures groups[a].name != groups[b].name
    {
      DecimalInjective(a + 1, b + 1);
      PrefixedDistinct("Team ", Decimal(a + 1), Decimal(b + 1));
    }
  }

  /** Groups past the end of the service's list, and groups whose entry is
      empty, are called `Group {i+1}`; every other group takes its entry. */
  lemma BackfillShortList(groups: seq<Group>, ns: seq<string>, firstId: Id)
    requires NamedFrom(groups, ResolveNames(Generated(ns), |groups|), firstId)
    ensures forall g :: |ns| <= g < |groups| ==> groups[g].name == DefaultName(g)
    ensures forall g :: 0 <= g < |ns| && g < |groups| && ns[g] != "" ==> groups[g].name == ns[g]
    ensures forall g :: 0 <= g < |ns| && g < |groups| && ns[g] == "" ==> groups[g].name == DefaultName(g)
  {
  }

  /** A common prefix keeps distinct suffixes distinct. */
  lemma PrefixedDistinct(p: string, a: string, b: string)
    requires a != b
    ensures p + a != p + b
  {
    assert (p + a)[|p|..] == a;
    assert (p + b)[|p|..] == b;
  }

  /** Five people in groups of two: three groups of sizes 2, 2 and 1. */
  lemma FiveInPairs(groups: seq<Group>, shuffled: seq<Participant>)
    requires |shuffled| == 5 && IsChunking(groups, shuffled, 2)
    ensures |groups| == 3
    ensures |groups[0].members| == 2 && |groups[1].members| == 2 && |groups[2].members| == 1
  {
    FlattenLength(Members(groups));
    var ms := Members(groups);
    assert TotalLength(ms) == |ms[0]| + TotalLength(ms[1..]);
    assert TotalLength(ms[1..]) == |ms[1]| + TotalLength(ms[2..]);
    assert TotalLength(ms[2..]) == |ms[2]| + TotalLength(ms[3..]);
  }
}
