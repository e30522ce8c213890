/** The draw state of app.js (`state`) and the operations that change it:
    `prepareOrder`, `nextSlot`, `pickNext`, `markAssigned`,
    `advanceSlotPointer`, `doOneDraw` (its synchronous form), `startDrawing`,
    `stopDrawing`, the guarded manual step and `resetAll`. */
module Draw {
  import opened Slots
  import opened Utilities

  datatype Option<T> = None | Some(value: T)

  /** What `pickNext` returns: the team drawn and the slot it goes to. */
  datatype Pick = Pick(teamId: int, poolIndex: int, round: int)

  /** The ids 0..n-1 in order (`Array.from({length: n}, (_, i) => i)`). */
  function Identity(n: nat): (s: seq<int>)
    ensures |s| == n && forall i :: 0 <= i < n ==> s[i] == i
  {
    seq(n, i => i)
  }

  /** `s` is a permutation of the team ids 0..23. */
  ghost predicate IsTeamOrder(s: seq<int>) {
    multiset(s) == multiset(Identity(Teams))
  }

  /** The flags `state.assigned` holds once the first k entries of the order
      have been drawn. */
  ghost function AssignedAfter(order: seq<int>, k: nat): (flags: seq<bool>)
    requires k <= |order|
    ensures |flags| == Teams
  {
    seq(Teams, t => t in order[..k])
  }

  lemma {:induction false} IdentityCounts(n: nat, v: int)
    ensures multiset(Identity(n))[v] == if 0 <= v < n then 1 else 0
  {
    if n > 0 {
      IdentityCounts(n - 1, v);
      assert Identity(n) == Identity(n - 1) + [n - 1];
    }
  }

  /** A permutation of 0..23 has 24 entries, all of them team ids. */
  lemma TeamOrderInRange(s: seq<int>, i: int)
    requires IsTeamOrder(s) && 0 <= i < |s|
    ensures |s| == Teams && 0 <= s[i] < Teams
  {
    assert |multiset(s)| == |multiset(Identity(Teams))|;
    assert s[i] in multiset(s);
    IdentityCounts(Teams, s[i]);
  }

  /** In a permutation of 0..23 every team id occurs. */
  lemma TeamOrderCovers(s: seq<int>, t: int)
    requires IsTeamOrder(s) && 0 <= t < Teams
    ensures t in s
  {
    IdentityCounts(Teams, t);
    assert t in multiset(s);
  }

  /** In a permutation of 0..23 no team id occurs twice. */
  lemma TeamOrderDistinct(s: seq<int>, i: int, j: int)
    requires IsTeamOrder(s) && 0 <= i < j < |s|
    ensures s[i] != s[j]
  {
    if s[i] == s[j] {
      var v := s[i];
      assert s == s[..j] + s[j..];
      assert multiset(s) == multiset(s[..j]) + multiset(s[j..]);
      assert v in multiset(s[..j]) by { assert s[..j][i] == v; }
      assert v in multiset(s[j..]) by { assert s[j..][0] == v; }
      IdentityCounts(Teams, v);
      assert false;
    }
  }

  /** The k-th draw takes a team not drawn before, and sets its flag and no other. */
  lemma DrawMarksNewTeam(order: seq<int>, k: nat)
    requires IsTeamOrder(order) && k < |order|
    ensures 0 <= order[k] < Teams && !AssignedAfter(order, k)[order[k]]
    ensures AssignedAfter(order, k + 1) == AssignedAfter(order, k)[order[k] := true]
  {
    TeamOrderInRange(order, k);
    if order[k] in order[..k] {
      var i :| 0 <= i < k && order[..k][i] == order[k];
      TeamOrderDistinct(order, i, k);
    }
    assert order[..k + 1] == order[..k] + [order[k]];
  }

  /** Once all 24 entries are drawn, every team's flag is set. */
  lemma AllAssignedAtEnd(order: seq<int>, t: int)
    requires IsTeamOrder(order) && |order| == Teams && 0 <= t < Teams
    ensures AssignedAfter(order, Teams)[t]
  {
    TeamOrderCovers(order, t);
    assert order[..Teams] == order;
  }

  /** The draws in the order a full run makes them: draw n takes entry n of
      the order into round n / 6, pool n % 6. */
  ghost function Schedule(order: seq<int>): (picks: seq<Pick>)
    ensures |picks| == |order|
  {
    seq(|order|, n requires 0 <= n < |order| => Pick(order[n], SlotOf(n).poolIndex, SlotOf(n).round))
  }

  /** Over a full schedule every team is drawn, and no team is drawn twice. */
  lemma ScheduleDrawsEachTeamOnce(order: seq<int>, t: int)
    requires IsTeamOrder(order) && 0 <= t < Teams
    ensures exists n :: 0 <= n < |order| && Schedule(order)[n].teamId == t
    ensures forall n, m :: 0 <= n < m < |order| ==> Schedule(order)[n].teamId != Schedule(order)[m].teamId
  {
    TeamOrderCovers(order, t);
    var n :| 0 <= n < |order| && order[n] == t;
    assert Schedule(order)[n].teamId == t;
    forall n, m | 0 <= n < m < |order|
      ensures Schedule(order)[n].teamId != Schedule(order)[m].teamId
    {
      TeamOrderDistinct(order, n, m);
    }
  }

  /** The module-level `state` object of app.js, restricted to the fields
      the draw logic uses. */
  class State {
    var order: array<int>
    var assignedFlags: array<bool>
    var round: int
    var poolIndex: int
    var running: bool

    /** The slot pointer (round, poolIndex). */
    function Pointer(): (s: Slot)
      reads this
    {
      Slot(round, poolIndex)
    }

    /** The order is a permutation of the team ids, the pointer stands at one
        of the positions 0..24 of the draw, and exactly the teams drawn so far
        are flagged as assigned. */
    ghost predicate Valid()
      reads this, order, assignedFlags
    {
      order.Length == Teams && assignedFlags.Length == Teams &&
      0 <= poolIndex < Pools && 0 <= Index(Pointer()) <= Teams &&
      IsTeamOrder(order[..]) &&
      assignedFlags[..] == AssignedAfter(order[..], Index(Pointer()))
    }

    /** The initial `state` (nothing assigned, not running) followed by the
        `prepareOrder` call of `main`. */
    constructor (rand: seq<real>)
      requires Teams - 1 <= |rand| && ValidRandoms(rand)
      ensures Valid() && fresh(order) && fresh(assignedFlags)
      ensures order[..] == Shuffled(Identity(Teams), rand)
      ensures Pointer() == Slot(0, 0) && !running
      ensures forall t :: 0 <= t < Teams ==> !assignedFlags[t]
    {
      order := new int[0];
      assignedFlags := new bool[Teams](_ => false);
      round, poolIndex, running := 0, 0, false;
      new;
      PrepareOrder(rand);
    }

    /** `prepareOrder`: a fresh shuffled permutation of 0..23 and the pointer
        back at (0, 0). It leaves `assigned` alone, so it re-establishes the
        invariant only when no team is flagged. */
    method PrepareOrder(rand: seq<real>)
      requires Teams - 1 <= |rand| && ValidRandoms(rand)
      modifies this`order, this`round, this`poolIndex
      ensures fresh(order) && order[..] == Shuffled(Identity(Teams), rand)
      ensures IsTeamOrder(order[..])
      ensures Pointer() == Slot(0, 0)
      ensures assignedFlags.Length == Teams && (forall t :: 0 <= t < Teams ==> !assignedFlags[t]) ==> Valid()
    {
      var ids := new int[Teams](i => i);
      assert ids[..] == Identity(Teams);
      order := Shuffle(ids, rand);
      ShuffledPermutes(Identity(Teams), rand);
      round := 0;
      poolIndex := 0;
      if assignedFlags.Length == Teams && forall t :: 0 <= t < Teams ==> !assignedFlags[t] {
        assert assignedFlags[..] == AssignedAfter(order[..], 0);
      }
    }

    /** `nextSlot`: the current slot, or nothing once round 4 is reached. */
    function NextSlot(): (r: Option<Slot>)
      reads this
      ensures r.None? <==> round >= Rounds
      ensures r.Some? ==> r.value == Pointer()
    {
      if round >= Rounds then None else Some(Slot(round, poolIndex))
    }

    /** `pickNext`: the team at entry `round * 6 + poolIndex` of the order,
        with the slot it is drawn into. It does not consult `assigned`, yet
        the team it returns is never one already drawn. */
    function PickNext(): (r: Option<Pick>)
      reads this, order, assignedFlags
      requires Valid()
      ensures r.None? <==> NextSlot().None?
      ensures r.Some? ==> 0 <= Index(Pointer()) < Teams &&
                          r.value == Pick(order[Index(Pointer())], poolIndex, round)
      ensures r.Some? ==> 0 <= r.value.teamId < Teams && !assignedFlags[r.value.teamId]
    {
      match NextSlot()
      case None => None
      case Some(slot) =>
        var orderIndex := slot.round * Pools + slot.poolIndex;
        DrawMarksNewTeam(order[..], orderIndex);
        Some(Pick(order[orderIndex], slot.poolIndex, slot.round))
    }

    /** The state part of `markAssigned`: flag `teamId` as drawn. */
    method MarkAssigned(teamId: int)
      requires 0 <= teamId < assignedFlags.Length
      modifies assignedFlags
      ensures assignedFlags[..] == old(assignedFlags[..])[teamId := true]
    {
      assignedFlags[teamId] := true;
    }

    /** `advanceSlotPointer`. */
    method AdvanceSlotPointer()
      modifies this`round, this`poolIndex
      ensures Pointer() == Advanced(old(Pointer()))
    {
      poolIndex := poolIndex + 1;
      if poolIndex >= Pools {
        poolIndex := 0;
        round := round + 1;
      }
    }

    /** `stopDrawing`, without its timers: clears `running`, and a second
        call changes nothing more. */
    method StopDrawing()
      modifies this`running
      ensures !running
    {
      running := false;
    }

    /** `doOneDraw` with the reveal applied at once: when a pick exists, flag
        its team and advance the pointer; otherwise stop. */
    method DoOneDraw()
      requires Valid()
      modifies this`round, this`poolIndex, this`running, assignedFlags
      ensures Valid()
      ensures old(PickNext()).None? ==>
                !running && Pointer() == old(Pointer()) && assignedFlags[..] == old(assignedFlags[..])
      ensures old(PickNext()).Some? ==>
                running == old(running) &&
                old(!assignedFlags[PickNext().value.teamId]) &&
                assignedFlags[..] == old(assignedFlags[..])[old(PickNext()).value.teamId := true] &&
                Pointer() == Advanced(old(Pointer())) &&
                Index(Pointer()) == old(Index(Pointer())) + 1
    {
      var pick := PickNext();
      match pick
      case None =>
        StopDrawing();
      case Some(p) =>
        ghost var k := Index(Pointer());
        DrawMarksNewTeam(order[..], k);
        MarkAssigned(p.teamId);
        AdvanceSlotPointer();
    }

    /** `startDrawing`, with one synchronous draw in place of the timer loop:
        nothing happens while already running. */
    method StartDrawing()
      requires Valid()
      modifies this`round, this`poolIndex, this`running, assignedFlags
      ensures Valid()
      ensures old(running) ==>
                running && Pointer() == old(Pointer()) && assignedFlags[..] == old(assignedFlags[..])
      ensures !old(running) && old(PickNext()).None? ==>
                !running && Pointer() == old(Pointer()) && assignedFlags[..] == old(assignedFlags[..])
      ensures !old(running) && old(PickNext()).Some? ==>
                running &&
                assignedFlags[..] == old(assignedFlags[..])[old(PickNext()).value.teamId := true] &&
                Pointer() == Advanced(old(Pointer()))
    {
      if running {
        return;
      }
      running := true;
      DoOneDraw();
    }

    /** The handler of the "draw one team" button: ignored while the
        automatic draw is running, one draw otherwise. */
    method StepOnce()
      requires Valid()
      modifies this`round, this`poolIndex, this`running, assignedFlags
      ensures Valid()
      ensures old(running) ==>
                running && Pointer() == old(Pointer()) && assignedFlags[..] == old(assignedFlags[..])
      ensures !old(running) && old(PickNext()).None? ==>
                !running && Pointer() == old(Pointer()) && assignedFlags[..] == old(assignedFlags[..])
      ensures !old(running) && old(PickNext()).Some? ==>
                !running &&
                assignedFlags[..] == old(assignedFlags[..])[old(PickNext()).value.teamId := true] &&
                Pointer() == Advanced(old(Pointer()))
    {
      if running {
        return;
      }
      DoOneDraw();
    }

    /** The automatic draw left to run: `startDrawing`, then the ticks of its
        1800 ms interval, each a synchronous `doOneDraw`, until a draw finds no
        slot and stops the interval, with no pause and no manual step in
        between. The draws made are the rest of the schedule, in order, and
        at the end every team is flagged. `picks` records them. */
    method RunToCompletion() returns (ghost picks: seq<Pick>)
      requires Valid()
      modifies this`round, this`poolIndex, this`running, assignedFlags
      ensures Valid() && !running && Index(Pointer()) == Teams
      ensures PickNext().None? && forall t :: 0 <= t < Teams ==> assignedFlags[t]
      ensures picks == Schedule(order[..])[old(Index(Pointer()))..]
    {
      ghost var start := Index(Pointer());
      ghost var first := PickNext();
      PickIsScheduled(this);
      var wasRunning := running;
      StartDrawing();
      picks := if !wasRunning && first.Some? then [first.value] else [];
      while running
        invariant Valid()
        invariant start <= Index(Pointer())
        invariant !running ==> Index(Pointer()) == Teams
        invariant picks == Schedule(order[..])[start..Index(Pointer())]
        decreases Teams - Index(Pointer()) + (if running then 1 else 0)
      {
        ghost var pick := PickNext();
        PickIsScheduled(this);
        DoOneDraw();
        if pick.Some? {
          picks := picks + [pick.value];
        }
      }
      DrawComplete(this);
    }

    /** `resetAll`: stop, clear every flag, and prepare a fresh order. */
    method ResetAll(rand: seq<real>)
      requires Teams - 1 <= |rand| && ValidRandoms(rand)
      modifies this
      ensures Valid() && fresh(order) && fresh(assignedFlags)
      ensures order[..] == Shuffled(Identity(Teams), rand)
      ensures Pointer() == Slot(0, 0) && !running
      ensures forall t :: 0 <= t < Teams ==> !assignedFlags[t]
    {
      StopDrawing();
      assignedFlags := new bool[Teams](_ => false);
      PrepareOrder(rand);
    }
  }

  /** A valid state stands where the 24-step walk from (0, 0) stands after as
      many draws as it has made, so successive draws fill the slots
      (0,0), (0,1), ..., (3,5) in that order; `nextSlot` has a slot exactly
      while fewer than 24 draws are made. */
  lemma PointerFollowsWalk(d: State)
    requires d.Valid()
    ensures d.Pointer() == Walk(Index(d.Pointer()))
    ensures d.NextSlot().Some? <==> Index(d.Pointer()) < Teams
  {
    var k := Index(d.Pointer());
    WalkVisitsSlotsInOrder(k);
    IndexRoundTrip(k, d.Pointer());
  }

  /** The pick of a valid state is the next entry of the schedule; a pick
      exists exactly while fewer than 24 draws are made. */
  lemma PickIsScheduled(d: State)
    requires d.Valid()
    ensures d.PickNext().Some? <==> Index(d.Pointer()) < Teams
    ensures d.PickNext().Some? ==> d.PickNext().value == Schedule(d.order[..])[Index(d.Pointer())]
  {
    PointerFollowsWalk(d);
    IndexRoundTrip(Index(d.Pointer()), d.Pointer());
  }

  /** After the 24th draw every team is flagged and the next pick is null. */
  lemma DrawComplete(d: State)
    requires d.Valid() && Index(d.Pointer()) == Teams
    ensures d.PickNext().None?
    ensures forall t :: 0 <= t < Teams ==> d.assignedFlags[t]
  {
    forall t | 0 <= t < Teams ensures d.assignedFlags[t] {
      AllAssignedAtEnd(d.order[..], t);
      assert d.assignedFlags[t] == d.assignedFlags[..][t];
    }
  }
}
