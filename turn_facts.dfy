/**
 * Turn order: what `endTurn` does with `turnsToMake`, how an Attack
 * compounds the turns it passes on, and when the game is over.
 */
module TurnFacts {
  import opened Seqs
  import opened Cards
  import opened Players
  import opened Rules

  /**
   * The scan from seat `d` on finds an active seat at distance `d` or
   * more, with every seat between inactive, or finds none because every
   * seat from `d` on is inactive.
   */
  lemma {:induction false} ScanFromFacts(ps: seq<PlayerView>, cur: nat, d: nat)
    requires cur < |ps| && 1 <= d <= |ps| + 1
    ensures var r := ScanFrom(ps, cur, d);
      && (r.Some? ==> r.value < |ps| && ps[r.value].isActive && d <= Dist(cur, r.value, |ps|))
      && (r.Some? ==> forall j :: 0 <= j < |ps| && d <= Dist(cur, j, |ps|) < Dist(cur, r.value, |ps|) ==> !ps[j].isActive)
      && (r.None? ==> forall j :: 0 <= j < |ps| && d <= Dist(cur, j, |ps|) ==> !ps[j].isActive)
    decreases |ps| + 1 - d
  {
    if d <= |ps| {
      DistPos(cur, d, |ps|);
      if !ps[Pos(cur, d, |ps|)].isActive {
        ScanFromFacts(ps, cur, d + 1);
        forall j | 0 <= j < |ps| && Dist(cur, j, |ps|) == d ensures j == Pos(cur, d, |ps|) {
          DistInjective(cur, j, Pos(cur, d, |ps|), |ps|);
        }
      }
    }
  }

  /**
   * `getNextPlayerIndex` returns the first active seat after the current
   * one going round the table (the current seat last), and loops forever
   * exactly when no player is active.
   */
  lemma NextActiveFacts(ps: seq<PlayerView>, cur: nat)
    requires cur < |ps|
    ensures var r := NextActive(ps, cur);
      && (r.Some? ==> r.value < |ps| && ps[r.value].isActive)
      && (r.Some? ==> forall j :: 0 <= j < |ps| && Dist(cur, j, |ps|) < Dist(cur, r.value, |ps|) ==> !ps[j].isActive)
      && (r.None? <==> !AnyActive(ps))
  {
    ScanFromFacts(ps, cur, 1);
  }

  /** `endTurn` touches only the turn fields: players, cards and cat-pair state stay. */
  lemma EndTurnKeeps(t: Table)
    requires WellFormed(t)
    ensures var s := EndTurn(t);
      s.Ok? ==> s.t.players == t.players && s.t.deck == t.deck && s.t.discard == t.discard
                && s.t.comboMode == t.comboMode && s.t.selected == t.selected
                && s.note == Quiet && !s.t.actionTaken
  {
  }

  /** With turns still owed, `endTurn` uses one up and the same player goes on. */
  lemma EndTurnExtra(t: Table)
    requires WellFormed(t) && t.turns > 1
    ensures var s := EndTurn(t);
      s.Ok? && s.t.current == t.current && s.t.turns == t.turns - 1 && !s.t.actionTaken
  {
  }

  /**
   * On the last owed turn, `endTurn` passes to the first active player
   * after the current one, going round the table, and owes them one turn.
   */
  lemma EndTurnPasses(t: Table)
    requires WellFormed(t) && t.turns <= 1 && AnyActive(t.players)
    ensures var s := EndTurn(t);
      && s.Ok? && s.t.turns == 1 && !s.t.actionTaken && WellFormed(s.t)
      && s.t.players[s.t.current].isActive
      && forall j :: 0 <= j < |t.players| && Dist(t.current, j, |t.players|) < Dist(t.current, s.t.current, |t.players|)
           ==> !t.players[j].isActive
  {
    NextActiveFacts(t.players, t.current);
  }

  /** `endTurn` loops forever exactly when the turn passes and nobody is active. */
  lemma EndTurnSpins(t: Table)
    requires WellFormed(t)
    ensures EndTurn(t).Spins? <==> t.turns <= 1 && !AnyActive(t.players)
  {
    NextActiveFacts(t.players, t.current);
  }

  /** Seats are visited in order: seat `d` after `cur` is at distance `d`. */
  lemma {:induction false} DistPos(cur: nat, d: nat, n: nat)
    requires cur < n && 1 <= d <= n
    ensures Dist(cur, Pos(cur, d, n), n) == d
  {
  }

  /** When the next seat is active, the turn goes there. */
  lemma NextSeatActive(t: Table)
    requires WellFormed(t) && t.turns <= 1
    requires t.players[Pos(t.current, 1, |t.players|)].isActive
    ensures EndTurn(t) == Ok(t.(turns := 1, current := Pos(t.current, 1, |t.players|), actionTaken := false), Quiet)
  {
  }

  /** The turn never passes to an inactive player: the seat found is the first active one. */
  lemma NextActiveUnique(ps: seq<PlayerView>, cur: nat, j: nat)
    requires cur < |ps| && j < |ps| && ps[j].isActive
    requires forall k :: 0 <= k < |ps| && Dist(cur, k, |ps|) < Dist(cur, j, |ps|) ==> !ps[k].isActive
    ensures NextActive(ps, cur) == Some(j)
  {
    NextActiveFacts(ps, cur);
    var r := NextActive(ps, cur);
    assert r.Some?;
    if Dist(cur, r.value, |ps|) < Dist(cur, j, |ps|) {
    } else if Dist(cur, j, |ps|) < Dist(cur, r.value, |ps|) {
    } else {
      DistInjective(cur, j, r.value, |ps|);
    }
  }

  lemma DistInjective(cur: nat, i: nat, j: nat, n: nat)
    requires cur < n && i < n && j < n && Dist(cur, i, n) == Dist(cur, j, n)
    ensures i == j
  {
  }

  // ------------------------------------------------------------- Attack

  /**
   * An Attack played from a positive turn count hands the next active
   * player one turn more than the attacker still owed, and clears the lock.
   */
  lemma AttackCompounds(t: Table, index: nat, picks: seq<nat>)
    requires WellFormed(t) && index < |t.players[t.current].hand| && !Locked(t)
    requires ShufflePicks(picks) && |t.deck| <= |picks| + 1
    requires t.players[t.current].hand[index] == Attack && t.turns > 0
    requires AnyActive(t.players)
    ensures var s := PlayCardWithoutNope(t, index, picks);
      && s.Ok? && s.t.turns == t.turns + 1 && !s.t.actionTaken
      && Some(s.t.current) == NextActive(t.players, t.current)
      && WellFormed(s.t) && s.t.players[s.t.current].isActive
      && s.t.deck == t.deck
  {
    NextActiveFacts(t.players, t.current);
    var r := RemoveCardFrom(t.players[t.current], index);
    var ps := t.players[t.current := r.0];
    assert forall j :: 0 <= j < |ps| ==> ps[j].isActive == t.players[j].isActive;
    NextActiveSameFlags(ps, t.players, t.current);
  }

  /** The turn order depends only on who is active. */
  lemma NextActiveSameFlags(ps: seq<PlayerView>, qs: seq<PlayerView>, cur: nat)
    requires cur < |ps| == |qs|
    requires forall j :: 0 <= j < |ps| ==> ps[j].isActive == qs[j].isActive
    ensures NextActive(ps, cur) == NextActive(qs, cur)
  {
    NextActiveFacts(ps, cur);
    NextActiveFacts(qs, cur);
    var r := NextActive(qs, cur);
    if r.Some? {
      NextActiveUnique(ps, cur, r.value);
    } else {
      assert !AnyActive(ps);
    }
  }

  /**
   * Two Attacks in a row compound: from one owed turn, the first hands on
   * two, and the attacked player's own Attack hands on three.
   */
  lemma AttackChain(t: Table, i: nat, j: nat, picks: seq<nat>, picks2: seq<nat>)
    requires WellFormed(t) && i < |t.players[t.current].hand| && !Locked(t) && t.turns == 1
    requires ShufflePicks(picks) && |t.deck| <= |picks| + 1
    requires ShufflePicks(picks2) && |t.deck| <= |picks2| + 1
    requires t.players[t.current].hand[i] == Attack
    requires AnyActive(t.players)
    ensures var s := PlayCardWithoutNope(t, i, picks);
      && s.Ok? && s.t.turns == 2 && WellFormed(s.t)
      && (j < |s.t.players[s.t.current].hand| && s.t.players[s.t.current].hand[j] == Attack ==>
            var s2 := PlayCardWithoutNope(s.t, j, picks2);
            s2.Ok? && s2.t.turns == 3)
  {
    AttackCompounds(t, i, picks);
    var s := PlayCardWithoutNope(t, i, picks);
    if j < |s.t.players[s.t.current].hand| && s.t.players[s.t.current].hand[j] == Attack {
      assert s.t.players[s.t.current].isActive;
      AttackCompounds(s.t, j, picks2);
    }
  }

  // ------------------------------------------------------------- end of game

  /** Player `j` is active and nobody else is. */
  predicate OnlyActive(ps: seq<PlayerView>, j: nat)
  {
    j < |ps| && ps[j].isActive && forall k :: 0 <= k < |ps| && ps[k].isActive ==> k == j
  }

  lemma GameEndOnlyActive(ps: seq<PlayerView>)
    requires CheckGameEnd(ps)
    ensures OnlyActive(ps, ActivePlayers(ps)[0])
  {
    var a := ActivePlayers(ps);
    assert a[0] in a;
    forall k | 0 <= k < |ps| && ps[k].isActive ensures k == a[0] {
      assert k in a;
    }
  }

  lemma OnlyActiveGameEnd(ps: seq<PlayerView>, j: nat)
    requires OnlyActive(ps, j)
    ensures CheckGameEnd(ps)
  {
    var a := ActivePlayers(ps);
    assert j in a;
    if |a| >= 2 {
      TwoActive(ps);
      assert false;
    }
  }

  /** Two entries of the active list are two different active players. */
  lemma TwoActive(ps: seq<PlayerView>)
    requires |ActivePlayers(ps)| >= 2
    ensures var a := ActivePlayers(ps);
      a[0] != a[1] && a[0] < |ps| && a[1] < |ps| && ps[a[0]].isActive && ps[a[1]].isActive
  {
    var a := ActivePlayers(ps);
    assert a[0] in a && a[1] in a;
  }

  /** `checkGameEnd` holds exactly when one player, and only one, is active. */
  lemma CheckGameEndIff(ps: seq<PlayerView>)
    ensures CheckGameEnd(ps) <==> exists j :: OnlyActive(ps, j)
  {
    if CheckGameEnd(ps) {
      GameEndOnlyActive(ps);
    }
    if exists j :: OnlyActive(ps, j) {
      var j :| OnlyActive(ps, j);
      OnlyActiveGameEnd(ps, j);
    }
  }

  /** When the game is over, `getWinner` names the one player still active. */
  lemma WinnerIsLastActive(ps: seq<PlayerView>)
    requires CheckGameEnd(ps)
    ensures Winner(ps).Some? && OnlyActive(ps, Winner(ps).value)
  {
    GameEndOnlyActive(ps);
    GameEndHasWinner(ps);
  }
}
