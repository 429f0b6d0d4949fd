/** The lucky-draw panel as a state machine. A draw takes a snapshot of the
    eligible pool, shows `MaxCount` random samples one frame at a time, and
    records the last sample as the winner at the front of the history. Timer
    scheduling and the slowing-down curve are left out: a frame is a `Tick`
    carrying the index `Math.random` would have produced. */
module LuckyDraw {
  import opened Types
  import opened Seqs
  import opened Wrappers

  /** Frames per draw (`maxCount`). */
  const MaxCount: nat := 40

  /** What the display shows before any draw and after the history is cleared. */
  const Placeholder: string := "???"

  /** `isDrawing`, together with what the running `cycle` closure holds: the
      pool captured when the draw started and the frames shown so far. */
  datatype Phase = Idle | Drawing(pool: seq<Participant>, count: nat)

  /** The panel's state. */
  datatype Panel = Panel(
    phase: Phase,
    currentName: string,
    winners: seq<DrawWinner>,
    allowRepeat: bool,
    lastWinner: Option<string>)

  /** The state the panel is mounted with. */
  const InitialPanel: Panel := Panel(Idle, Placeholder, [], false, None)

  /** Names that appear in some winner record. */
  function WinnerNames(winners: seq<DrawWinner>): set<string>
  {
    set i | 0 <= i < |winners| :: winners[i].name
  }

  /** `availableParticipants`: the whole roster in repeat mode; otherwise the
      roster entries whose name is not in any winner record, in roster order. */
  function AvailableParticipants(roster: seq<Participant>, winners: seq<DrawWinner>, allowRepeat: bool)
      : (pool: seq<Participant>)
    ensures allowRepeat ==> pool == roster
    ensures IsSubsequence(pool, roster)
    ensures forall i :: 0 <= i < |pool| ==> allowRepeat || pool[i].name !in WinnerNames(winners)
    ensures forall i :: 0 <= i < |roster| && (allowRepeat || roster[i].name !in WinnerNames(winners)) ==>
                          roster[i] in pool
    ensures forall p :: multiset(pool)[p]
                          == if allowRepeat || p.name !in WinnerNames(winners) then multiset(roster)[p] else 0
  {
    if allowRepeat then
      SubsequenceRefl(roster);
      roster
    else
      var names := WinnerNames(winners);
      var notYetWon := (p: Participant) => p.name !in names;
      FilterIsSubsequence(notYetWon, roster);
      FilterMultiset(notYetWon, roster);
      Filter(notYetWon, roster)
  }

  /** What a click on the draw button did. */
  datatype StartResult =
    | Started     // the panel entered `Drawing`
    | Ignored     // the button is disabled: a draw is running or the roster is empty
    | NoneLeft    // `startDraw` found the pool empty and only raised an alert

  /** The draw button and `startDraw`. The button is disabled while drawing and
      while the roster is empty; `startDraw` itself rejects an empty pool.
      Otherwise the pool is captured and the last winner is cleared. */
  function StartDraw(panel: Panel, roster: seq<Participant>): (r: (Panel, StartResult))
    ensures r.1 == Ignored <==> panel.phase.Drawing? || |roster| == 0
    ensures r.1 == NoneLeft <==>
              !panel.phase.Drawing? && |roster| > 0
              && |AvailableParticipants(roster, panel.winners, panel.allowRepeat)| == 0
    ensures r.1 != Started ==> r.0 == panel
    ensures r.1 == Started ==>
              && r.0.phase == Drawing(AvailableParticipants(roster, panel.winners, panel.allowRepeat), 0)
              && |r.0.phase.pool| > 0
              && r.0.winners == panel.winners
              && r.0.lastWinner == None
              && r.0.allowRepeat == panel.allowRepeat
              && r.0.currentName == panel.currentName
  {
    if panel.phase.Drawing? || |roster| == 0 then (panel, Ignored)
    else
      var pool := AvailableParticipants(roster, panel.winners, panel.allowRepeat);
      if |pool| == 0 then (panel, NoneLeft)
      else (panel.(phase := Drawing(pool, 0), lastWinner := None), Started)
  }

  /** One run of `cycle`: show the sampled name; before the last frame keep
      drawing, on the last frame put a fresh record for the sampled participant
      at the front of the history and return to `Idle`. */
  function Tick(panel: Panel, index: nat, freshId: Id, now: int): (r: Panel)
    requires panel.phase.Drawing? && index < |panel.phase.pool|
    ensures r.currentName == panel.phase.pool[index].name
    ensures r.allowRepeat == panel.allowRepeat
    ensures panel.phase.count + 1 < MaxCount ==>
              r == panel.(phase := Drawing(panel.phase.pool, panel.phase.count + 1),
                          currentName := panel.phase.pool[index].name)
    ensures panel.phase.count + 1 >= MaxCount ==>
              && r.phase == Idle
              && |r.winners| == |panel.winners| + 1
              && r.winners[1..] == panel.winners
              && r.winners[0] == DrawWinner(freshId, r.currentName, now)
              && r.lastWinner == Some(r.currentName)
  {
    var name := panel.phase.pool[index].name;
    var count := panel.phase.count + 1;
    if count < MaxCount then
      panel.(phase := Drawing(panel.phase.pool, count), currentName := name)
    else
      panel.(phase := Idle, currentName := name,
             winners := [DrawWinner(freshId, name, now)] + panel.winners,
             lastWinner := Some(name))
  }

  /** Every frame index is a valid position in the pool of a running draw. */
  predicate FramesFit(panel: Panel, indices: seq<nat>)
  {
    panel.phase.Drawing? ==> forall f :: 0 <= f < |indices| ==> indices[f] < |panel.phase.pool|
  }

  /** The frames of a running draw, one index each, until the panel is idle again. */
  function Animate(panel: Panel, indices: seq<nat>, freshId: Id, now: int): (r: Panel)
    requires FramesFit(panel, indices)
    ensures r.allowRepeat == panel.allowRepeat
    ensures !panel.phase.Drawing? ==> r == panel
    ensures r.phase.Drawing? ==> r.winners == panel.winners && r.lastWinner == panel.lastWinner
    ensures panel.phase.Drawing? && !r.phase.Drawing? ==>
              && r.phase == Idle
              && r.winners == [DrawWinner(freshId, r.currentName, now)] + panel.winners
              && r.lastWinner == Some(r.currentName)
              && exists p :: p in panel.phase.pool && p.name == r.currentName
    decreases |indices|
  {
    if !panel.phase.Drawing? || |indices| == 0 then panel
    else Animate(Tick(panel, indices[0], freshId, now), indices[1..], freshId, now)
  }

  /** A click on the draw button followed by the whole animation. */
  function Draw(panel: Panel, roster: seq<Participant>, indices: seq<nat>, freshId: Id, now: int): (r: Panel)
    requires StartDraw(panel, roster).1 == Started ==> FramesFit(StartDraw(panel, roster).0, indices)
    ensures StartDraw(panel, roster).1 != Started ==> r == panel
    ensures r.allowRepeat == panel.allowRepeat
    ensures StartDraw(panel, roster).1 == Started && |indices| == MaxCount ==>
              var name := AvailableParticipants(roster, panel.winners, panel.allowRepeat)[indices[MaxCount - 1]].name;
              && r.phase == Idle
              && r.currentName == name
              && r.winners == [DrawWinner(freshId, name, now)] + panel.winners
              && r.lastWinner == Some(name)
  {
    var (started, result) := StartDraw(panel, roster);
    if result == Started then
      if |indices| == MaxCount then
        AnimationEndsOnLastFrame(started, indices, freshId, now);
        Animate(started, indices, freshId, now)
      else
        Animate(started, indices, freshId, now)
    else started
  }

  /** A draw that still has `MaxCount - count` frames to go ends after exactly
      those frames: the panel is idle, shows the sample of the last frame, and
      that sample heads the history as the new winner. */
  lemma {:induction false} AnimationEndsOnLastFrame(panel: Panel, indices: seq<nat>, freshId: Id, now: int)
    requires panel.phase.Drawing? && panel.phase.count < MaxCount
    requires |indices| == MaxCount - panel.phase.count
    requires FramesFit(panel, indices)
    ensures var r := Animate(panel, indices, freshId, now);
            var name := panel.phase.pool[indices[|indices| - 1]].name;
            && r.phase == Idle
            && r.currentName == name
            && r.winners == [DrawWinner(freshId, name, now)] + panel.winners
            && r.lastWinner == Some(name)
            && r.allowRepeat == panel.allowRepeat
    decreases |indices|
  {
    var next := Tick(panel, indices[0], freshId, now);
    if panel.phase.count + 1 < MaxCount {
      assert indices[1..][|indices| - 2] == indices[|indices| - 1];
      AnimationEndsOnLastFrame(next, indices[1..], freshId, now);
    } else {
      assert |indices| == 1;
      assert next.winners == [next.winners[0]] + next.winners[1..];
    }
  }

  /** A completed draw adds exactly one record at the front of the history,
      leaves the rest unchanged, and its winner is a member of the pool taken
      when the draw started. In no-repeat mode the winner had not won before. */
  lemma DrawRecordsOneWinner(panel: Panel, roster: seq<Participant>, indices: seq<nat>, freshId: Id, now: int)
    requires panel.phase.Idle? && |roster| > 0
    requires |indices| == MaxCount
    requires var pool := AvailableParticipants(roster, panel.winners, panel.allowRepeat);
             |pool| > 0 && forall f :: 0 <= f < |indices| ==> indices[f] < |pool|
    ensures var pool := AvailableParticipants(roster, panel.winners, panel.allowRepeat);
            var r := Draw(panel, roster, indices, freshId, now);
            && r.phase == Idle
            && r.winners == [DrawWinner(freshId, pool[indices[MaxCount - 1]].name, now)] + panel.winners
            && (exists p :: p in pool && p.name == r.winners[0].name)
            && (!panel.allowRepeat ==> r.winners[0].name !in WinnerNames(panel.winners))
  {
    var pool := AvailableParticipants(roster, panel.winners, panel.allowRepeat);
    var started := StartDraw(panel, roster).0;
    AnimationEndsOnLastFrame(started, indices, freshId, now);
    assert pool[indices[MaxCount - 1]] in pool;
  }

  /** No name appears twice in the history. */
  predicate DistinctWinnerNames(winners: seq<DrawWinner>)
  {
    forall i, j :: 0 <= i < j < |winners| ==> winners[i].name != winners[j].name
  }

  /** Draws in no-repeat mode keep the history free of repeated names. */
  lemma NoRepeatKeepsHistoryDistinct(panel: Panel, roster: seq<Participant>, indices: seq<nat>, freshId: Id, now: int)
    requires panel.phase.Idle? && |roster| > 0 && !panel.allowRepeat
    requires DistinctWinnerNames(panel.winners)
    requires |indices| == MaxCount
    requires var pool := AvailableParticipants(roster, panel.winners, panel.allowRepeat);
             |pool| > 0 && forall f :: 0 <= f < |indices| ==> indices[f] < |pool|
    ensures DistinctWinnerNames(Draw(panel, roster, indices, freshId, now).winners)
  {
    DrawRecordsOneWinner(panel, roster, indices, freshId, now);
    var w := Draw(panel, roster, indices, freshId, now).winners;
    PrependNewName(w[0], panel.winners);
  }

  /** Putting a record whose name has not won yet in front of a history
      without repeats gives a history without repeats. */
  lemma PrependNewName(x: DrawWinner, winners: seq<DrawWinner>)
    requires DistinctWinnerNames(winners) && x.name !in WinnerNames(winners)
    ensures DistinctWinnerNames([x] + winners)
  {
    var w := [x] + winners;
    forall i, j | 0 <= i < j < |w|
      ensures w[i].name != w[j].name
    {
      if i == 0 {
        assert w[j] == winners[j - 1];
        assert w[j].name in WinnerNames(winners);
      } else {
        assert w[i] == winners[i - 1] && w[j] == winners[j - 1];
      }
    }
  }

  /** Once every roster name has won in no-repeat mode, a click changes nothing:
      the pool is empty and the draw is refused until the history is cleared. */
  lemma ExhaustedPoolRefusesDraw(panel: Panel, roster: seq<Participant>)
    requires panel.phase.Idle? && |roster| > 0 && !panel.allowRepeat
    requires forall i :: 0 <= i < |roster| ==> roster[i].name in WinnerNames(panel.winners)
    ensures AvailableParticipants(roster, panel.winners, false) == []
    ensures StartDraw(panel, roster) == (panel, NoneLeft)
  {
  }

  /** In repeat mode every click on an idle panel with a non-empty roster starts
      a draw, whatever the history holds. */
  lemma RepeatModeAlwaysStarts(panel: Panel, roster: seq<Participant>)
    requires panel.phase.Idle? && |roster| > 0 && panel.allowRepeat
    ensures StartDraw(panel, roster).1 == Started
    ensures StartDraw(panel, roster).0.phase.pool == roster
  {
  }

  /** `clearHistory` (after the confirmation): empties the history, forgets the
      last winner and resets the display. A running draw is not stopped. */
  function ClearHistory(panel: Panel): (r: Panel)
    ensures r.winners == [] && r.lastWinner == None && r.currentName == Placeholder
    ensures r.phase == panel.phase && r.allowRepeat == panel.allowRepeat
  {
    panel.(winners := [], lastWinner := None, currentName := Placeholder)
  }

  /** After clearing, the no-repeat pool is the whole roster again. */
  lemma ClearRestoresPool(panel: Panel, roster: seq<Participant>)
    ensures AvailableParticipants(roster, ClearHistory(panel).winners, false) == roster
  {
    var names := WinnerNames(ClearHistory(panel).winners);
    assert names == {};
    FilterKeepsAll((p: Participant) => p.name !in names, roster);
  }

  /** Leaving the draw tab and coming back. The app renders only the active
      tab's panel, so leaving unmounts this one and coming back mounts a fresh
      one: the history, the mode, the shown name and the last winner are lost.
      A draw's pending timer chain only updates the unmounted panel, which
      React ignores, so the fresh panel starts idle. */
  function Remount(panel: Panel): (r: Panel)
    ensures r.phase == Idle && r.winners == [] && r.lastWinner == None
    ensures !r.allowRepeat && r.currentName == Placeholder
  {
    InitialPanel
  }

  /** A freshly mounted panel offers the whole roster: every earlier winner can
      win again, even in no-repeat mode, so the history does not only grow
      across tab switches. A click on it starts a draw over the whole roster
      unless the roster is empty. */
  lemma RemountOffersWholeRoster(panel: Panel, roster: seq<Participant>)
    ensures var mounted := Remount(panel);
            AvailableParticipants(roster, mounted.winners, mounted.allowRepeat) == roster
    ensures |roster| > 0 ==> StartDraw(Remount(panel), roster).1 == Started
                             && StartDraw(Remount(panel), roster).0.phase.pool == roster
    ensures |roster| == 0 ==> StartDraw(Remount(panel), roster).1 == Ignored
  {
    ClearRestoresPool(InitialPanel, roster);
    assert ClearHistory(InitialPanel) == InitialPanel;
  }

  /** The `No Repeat` / `Allow Repeat` switch. A running draw keeps the pool it
      captured when it started. */
  function SetAllowRepeat(panel: Panel, allow: bool): (r: Panel)
    ensures r.allowRepeat == allow
    ensures r.phase == panel.phase && r.winners == panel.winners
    ensures r.currentName == panel.currentName && r.lastWinner == panel.lastWinner
  {
    panel.(allowRepeat := allow)
  }

  /** The whole draw as the panel runs it: the click, then frame after frame
      while the panel is drawing. */
  method RunDraw(panel: Panel, roster: seq<Participant>, indices: seq<nat>, freshId: Id, now: int)
      returns (r: Panel, result: StartResult)
    requires |indices| == MaxCount
    requires StartDraw(panel, roster).1 == Started ==> forall f :: 0 <= f < |indices| ==>
               indices[f] < |AvailableParticipants(roster, panel.winners, panel.allowRepeat)|
    ensures result == StartDraw(panel, roster).1
    ensures result != Started ==> r == panel
    ensures r.allowRepeat == panel.allowRepeat
    ensures result == Started ==>
              var name := AvailableParticipants(roster, panel.winners, panel.allowRepeat)[indices[MaxCount - 1]].name;
              && r.phase == Idle
              && r.currentName == name
              && r.winners == [DrawWinner(freshId, name, now)] + panel.winners
              && r.lastWinner == Some(name)
  {
    r, result := StartDraw(panel, roster).0, StartDraw(panel, roster).1;
    if result == Started {
      r := RunFrames(r, indices, freshId, now);
    }
  }

  /** The `setTimeout` chain of a started draw as a loop: one `Tick` per frame
      until the panel is idle again, which happens after exactly 40 frames. */
  method RunFrames(start: Panel, indices: seq<nat>, freshId: Id, now: int) returns (r: Panel)
    requires start.phase.Drawing? && start.phase.count == 0 && |indices| == MaxCount
    requires forall f :: 0 <= f < |indices| ==> indices[f] < |start.phase.pool|
    ensures r.phase == Idle
    ensures r.currentName == start.phase.pool[indices[MaxCount - 1]].name
    ensures r.winners == [DrawWinner(freshId, r.currentName, now)] + start.winners
    ensures r.lastWinner == Some(r.currentName)
    ensures r.allowRepeat == start.allowRepeat
  {
    var pool := start.phase.pool;
    r := start;
    var f := 0;
    while r.phase.Drawing?
      invariant 0 <= f <= MaxCount
      invariant r.allowRepeat == start.allowRepeat
      invariant r.phase.Drawing? ==> r.phase == Drawing(pool, f) && f < MaxCount && r.winners == start.winners
      invariant !r.phase.Drawing? ==>
                  && f == MaxCount
                  && r.currentName == pool[indices[MaxCount - 1]].name
                  && r.winners == [DrawWinner(freshId, r.currentName, now)] + start.winners
                  && r.lastWinner == Some(r.currentName)
      decreases MaxCount - f
    {
      TickAdvances(r, pool, f, indices[f], freshId, now);
      r := Tick(r, indices[f], freshId, now);
      f := f + 1;
    }
  }

  /** One turn of `RunDraw`'s loop: frame `f` either keeps the draw running at
      frame `f + 1` or, as the last frame, records its sample in front of the
      history. */
  lemma TickAdvances(panel: Panel, pool: seq<Participant>, f: nat, index: nat, freshId: Id, now: int)
    requires panel.phase == Drawing(pool, f) && f < MaxCount && index < |pool|
    ensures var r := Tick(panel, index, freshId, now);
            && (r.phase.Drawing? ==> r.phase == Drawing(pool, f + 1) && f + 1 < MaxCount && r.winners == panel.winners)
            && (!r.phase.Drawing? ==>
                  && f + 1 == MaxCount
                  && r.currentName == pool[index].name
                  && r.winners == [DrawWinner(freshId, r.currentName, now)] + panel.winners
                  && r.lastWinner == Some(r.currentName))
  {
    var r := Tick(panel, index, freshId, now);
    if !r.phase.Drawing? {
      assert r.winners == [r.winners[0]] + r.winners[1..];
    }
  }
}
