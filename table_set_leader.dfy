/** The server's "/setleader" command: the leader of a table passes the lead
    to another player (before or during a game) or to another spectator (in
    a shared replay). In the pregame the new leader also takes the old
    leader's seat, so that the leader is the leftmost player. */
module TableSetLeader {
  import opened Wrappers

  datatype Player = Player(id: int, name: string)

  datatype Spectator = Spectator(id: int, name: string)

  /** The chosen leader: their user ID, their name, and their seat (-1 for a
      spectator). */
  datatype NewLeader = NewLeader(id: int, username: string, index: int)

  datatype Outcome =
    | MissingName                   // a warning: no name was given
    | SoloReplay                    // a warning: solo replays have no leader to pass
    | TargetIsSelf                  // a warning: the caller named themself
    | NotAtTable(replay: bool)      // an error: nobody of that name is at the table
    | LeaderSet(leader: NewLeader)  // the lead was passed
    | CallerNotSeated               // the caller has no seat to swap (a run-time panic)

  /** The position of the first name that normalises to `target`. */
  function FirstMatch(names: seq<string>, target: string, normalize: string -> string): (r: Option<nat>)
    ensures r.None? <==> forall j :: 0 <= j < |names| ==> normalize(names[j]) != target
    ensures r.Some? ==> r.value < |names| && normalize(names[r.value]) == target
    ensures r.Some? ==> forall j :: 0 <= j < r.value ==> normalize(names[j]) != target
    decreases |names|
  {
    if names == [] then None
    else
      var init := names[..|names| - 1];
      assert forall j :: 0 <= j < |init| ==> init[j] == names[j];
      match FirstMatch(init, target, normalize)
      case Some(k) => Some(k)
      case None => if normalize(names[|names| - 1]) == target then Some(|names| - 1) else None
  }

  /** The players' names, in seat order. `SpectatorNames` is the same
      projection over the spectator record, which Go declares separately. */
  function PlayerNames(players: seq<Player>): (names: seq<string>)
    ensures |names| == |players|
    ensures forall j :: 0 <= j < |players| ==> names[j] == players[j].name
  {
    seq(|players|, j requires 0 <= j < |players| => players[j].name)
  }

  function SpectatorNames(spectators: seq<Spectator>): (names: seq<string>)
    ensures |names| == |spectators|
    ensures forall j :: 0 <= j < |spectators| ==> names[j] == spectators[j].name
  {
    seq(|spectators|, j requires 0 <= j < |spectators| => spectators[j].name)
  }

  /** Who the normalised name `target` designates: in a replay the first
      spectator of that name, otherwise the first player of that name with
      their seat. */
  function FindLeader(replay: bool, players: seq<Player>, spectators: seq<Spectator>, target: string, normalize: string -> string): (r: Option<NewLeader>)
    ensures replay ==> (r.None? <==> forall j :: 0 <= j < |spectators| ==> normalize(spectators[j].name) != target)
    ensures !replay ==> (r.None? <==> forall j :: 0 <= j < |players| ==> normalize(players[j].name) != target)
    ensures r.Some? && replay ==> r.value.index == -1
    ensures r.Some? && replay ==>
      exists k :: 0 <= k < |spectators| && spectators[k] == Spectator(r.value.id, r.value.username)
        && normalize(spectators[k].name) == target
        && forall j :: 0 <= j < k ==> normalize(spectators[j].name) != target
    ensures r.Some? && !replay ==> 0 <= r.value.index < |players|
    ensures r.Some? && !replay ==> players[r.value.index] == Player(r.value.id, r.value.username)
    ensures r.Some? && !replay ==> normalize(players[r.value.index].name) == target
    ensures r.Some? && !replay ==> forall j :: 0 <= j < r.value.index ==> normalize(players[j].name) != target
  {
    if replay then
      match FirstMatch(SpectatorNames(spectators), target, normalize)
      case None => None
      case Some(k) => Some(NewLeader(spectators[k].id, spectators[k].name, -1))
    else
      match FirstMatch(PlayerNames(players), target, normalize)
      case None => None
      case Some(k) => Some(NewLeader(players[k].id, players[k].name, k))
  }

  /** The checks and the search of the command (everything before the lead
      changes hands). */
  function Decide(replay: bool, visible: bool, players: seq<Player>, spectators: seq<Spectator>,
                  name: string, callerName: string, normalize: string -> string): (r: Outcome)
    ensures r != CallerNotSeated
  {
    if |name| == 0 then MissingName
    else if replay && !visible then SoloReplay
    else if normalize(name) == normalize(callerName) then TargetIsSelf
    else
      match FindLeader(replay, players, spectators, normalize(name), normalize)
      case None => NotAtTable(replay)
      case Some(leader) => LeaderSet(leader)
  }

  /** The lead is passed exactly when a name is given, the table is not a
      solo replay, the name is not the caller's, and someone of that name is
      at the table (a spectator in a replay, a player otherwise); the new
      leader then answers to that name, is not the caller, and is the first
      one of that name. */
  lemma DecideLeader(replay: bool, visible: bool, players: seq<Player>, spectators: seq<Spectator>,
                     name: string, callerName: string, normalize: string -> string)
    ensures var r := Decide(replay, visible, players, spectators, name, callerName, normalize);
      && (r == MissingName <==> |name| == 0)
      && (r == SoloReplay <==> |name| > 0 && replay && !visible)
      && (r == TargetIsSelf <==> |name| > 0 && !(replay && !visible) && normalize(name) == normalize(callerName))
      && (r.LeaderSet? <==>
            && |name| > 0 && !(replay && !visible)
            && normalize(name) != normalize(callerName)
            && (if replay then exists j :: 0 <= j < |spectators| && normalize(spectators[j].name) == normalize(name)
                else exists j :: 0 <= j < |players| && normalize(players[j].name) == normalize(name)))
      && (r.LeaderSet? ==> normalize(r.leader.username) == normalize(name) != normalize(callerName))
      && (r.LeaderSet? && !replay ==> 0 <= r.leader.index < |players| && players[r.leader.index].id == r.leader.id)
      && (r.NotAtTable? ==> r.replay == replay)
  {
  }

  /** `s` with the elements at `i` and `j` exchanged. */
  function Swap<T>(s: seq<T>, i: int, j: int): (r: seq<T>)
    requires 0 <= i < |s| && 0 <= j < |s|
    ensures |r| == |s|
    ensures r[i] == s[j] && r[j] == s[i]
    ensures forall k :: 0 <= k < |s| && k != i && k != j ==> r[k] == s[k]
  {
    s[i := s[j]][j := s[i]]
  }

  /** The swap is a permutation, and swapping again restores the seats. */
  lemma SwapPermutes<T>(s: seq<T>, i: int, j: int)
    requires 0 <= i < |s| && 0 <= j < |s|
    ensures multiset(Swap(s, i, j)) == multiset(s)
    ensures Swap(Swap(s, i, j), i, j) == s
  {
  }

  class Table {
    var replay: bool
    var visible: bool
    var running: bool
    var owner: int
    var players: array<Player>
    var spectators: seq<Spectator>

    /** The first player whose name normalises to `target`, with their seat:
        the loop over `t.Players`. */
    method SearchPlayers(target: string, normalize: string -> string) returns (leader: Option<NewLeader>)
      ensures leader == FindLeader(false, players[..], spectators, target, normalize)
    {
      leader := None;
      var i := 0;
      while i < players.Length
        invariant 0 <= i <= players.Length
        invariant forall j :: 0 <= j < i ==> normalize(players[j].name) != target
      {
        var p := players[i];
        if normalize(p.name) == target {
          leader := Some(NewLeader(p.id, p.name, i));
          break;
        }
        i := i + 1;
      }
    }

    /** The first spectator whose name normalises to `target`: the loop over
        `t.Spectators`. */
    method SearchSpectators(target: string, normalize: string -> string) returns (leader: Option<NewLeader>)
      ensures leader == FindLeader(true, players[..], spectators, target, normalize)
    {
      leader := None;
      for i := 0 to |spectators|
        invariant forall j :: 0 <= j < i ==> normalize(spectators[j].name) != target
      {
        var sp := spectators[i];
        if normalize(sp.name) == target {
          return Some(NewLeader(sp.id, sp.name, -1));
        }
      }
    }

    /** `tableSetLeader`: the table's owner becomes the new leader and, in
        the pregame, the caller and the new leader exchange seats; the
        caller's seat comes from `playerIndexFromId`. */
    method SetLeader(callerId: int, newLeader: NewLeader, playerIndexFromId: (seq<Player>, int) -> int) returns (seated: bool)
      requires !replay ==> 0 <= newLeader.index < players.Length
      modifies this, players
      ensures replay == old(replay) && visible == old(visible) && running == old(running)
      ensures players == old(players) && spectators == old(spectators)
      ensures owner == newLeader.id
      ensures replay || running ==> seated && players[..] == old(players[..])
      ensures !replay && !running ==>
        var seat := playerIndexFromId(old(players[..]), callerId);
        && (seated <==> 0 <= seat < players.Length)
        && (seated ==> players[..] == Swap(old(players[..]), seat, newLeader.index))
        && (!seated ==> players[..] == old(players[..]))
    {
      owner := newLeader.id;
      seated := true;
      if !replay && !running {
        var seat := playerIndexFromId(players[..], callerId);
        if !(0 <= seat < players.Length) {
          return false;
        }
        players[seat], players[newLeader.index] := players[newLeader.index], players[seat];
      }
    }

    /** `commandTableSetLeader` after the table is found and locked: the
        name checks, the search, and the hand-off. */
    method CommandSetLeader(callerId: int, callerName: string, name: string,
                            normalize: string -> string, playerIndexFromId: (seq<Player>, int) -> int)
      returns (outcome: Outcome)
      modifies this, players
      ensures replay == old(replay) && visible == old(visible) && running == old(running)
      ensures players == old(players) && spectators == old(spectators)
      ensures var decided := Decide(old(replay), old(visible), old(players[..]), old(spectators), name, callerName, normalize);
        && (!decided.LeaderSet? ==> outcome == decided && owner == old(owner) && players[..] == old(players[..]))
        && (decided.LeaderSet? ==> owner == decided.leader.id)
        && (decided.LeaderSet? && (replay || running) ==> outcome == decided && players[..] == old(players[..]))
        && (decided.LeaderSet? && !replay && !running ==>
              var seat := playerIndexFromId(old(players[..]), callerId);
              if 0 <= seat < players.Length
              then outcome == decided && players[..] == Swap(old(players[..]), seat, decided.leader.index)
              else outcome == CallerNotSeated && players[..] == old(players[..]))
    {
      if |name| == 0 {
        return MissingName;
      }
      if replay && !visible {
        return SoloReplay;
      }
      var target := normalize(name);
      if target == normalize(callerName) {
        return TargetIsSelf;
      }
      var newLeader: Option<NewLeader>;
      if replay {
        newLeader := SearchSpectators(target, normalize);
      } else {
        newLeader := SearchPlayers(target, normalize);
      }
      if newLeader.None? {
        return NotAtTable(replay);
      }
      var seated := SetLeader(callerId, newLeader.value, playerIndexFromId);
      outcome := if seated then LeaderSet(newLeader.value) else CallerNotSeated;
    }
  }
}
