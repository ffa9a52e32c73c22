/**
 * Puzzle logic of one tick: recomputing each switch from the players'
 * positions, and `evaluateDoorCondition`, which decides from the switches
 * whether a door is open.
 */
module Puzzle {
  import opened Wrappers
  import opened Geometry
  import opened Levels
  import opened Entities

  /** The 'cross' condition splits switches at this tile column. */
  const CROSS_COLUMN: int := 25
  /** The 'final' door opens once the sequence counter passes this value. */
  const FINAL_THRESHOLD: int := 7

  function SwitchRect(d: SwitchDef): Rect {
    TileRect(d.x, d.y)
  }

  /** Some player's box overlaps the switch's tile. */
  predicate Pressed(d: SwitchDef, players: seq<Player>) {
    exists k :: 0 <= k < |players| && Overlap(Box(players[k]), SwitchRect(d))
  }

  /**
   * The switch after one tick: active exactly when pressed, stamped with
   * `now` when active, and for a timed active switch `isExpired` recomputed
   * as `now - lastActivated > duration` from the stamp just written.
   */
  function TickedSwitch(s: Switch, players: seq<Player>, now: int): Switch {
    var active := Pressed(s.def, players);
    var last := if active then now else s.lastActivated;
    var expired := if s.def.timed && active then now - last > s.def.duration else s.isExpired;
    Switch(s.def, active, last, expired)
  }

  /** The body of the per-switch callback in `update`, with its loop over the players. */
  method TickSwitch(s: Switch, players: seq<Player>, now: int) returns (t: Switch)
    ensures t == TickedSwitch(s, players, now)
    ensures t.def == s.def
    ensures t.active <==> exists k :: 0 <= k < |players| && Overlap(Box(players[k]), SwitchRect(s.def))
    ensures t.active ==> t.lastActivated == now
    ensures !t.active ==> t.lastActivated == s.lastActivated && t.isExpired == s.isExpired
    ensures t.active && s.def.duration >= 0 ==> t.isExpired == (s.isExpired && !s.def.timed)
  {
    var rect := SwitchRect(s.def);
    var active := false;
    var last := s.lastActivated;
    var j := 0;
    while j < |players|
      invariant 0 <= j <= |players|
      invariant active <==> exists k :: 0 <= k < j && Overlap(Box(players[k]), rect)
      invariant last == if active then now else s.lastActivated
    {
      if Overlap(Box(players[j]), rect) {
        active := true;
        last := now;
      }
      j := j + 1;
    }
    var expired := s.isExpired;
    if s.def.timed && active {
      if now - last > s.def.duration {
        expired := true;
      } else {
        expired := false;
      }
    }
    t := Switch(s.def, active, last, expired);
  }

  /** Because the stamp is rewritten on every active tick, a switch that was not expired never becomes expired. */
  lemma ExpiryNeverFires(s: Switch, players: seq<Player>, now: int)
    requires !s.isExpired && s.def.duration >= 0
    ensures !TickedSwitch(s, players, now).isExpired
  {
  }

  // ---- the folds of evaluateDoorCondition ----

  /** 'both': the counter `activeCount`. */
  function CountLive(sw: seq<Switch>): nat {
    if sw == [] then 0 else (if Live(sw[0]) then 1 else 0) + CountLive(sw[1..])
  }

  /** 'all': the flag `allActive`. */
  function AllLive(sw: seq<Switch>): bool {
    sw == [] || (Live(sw[0]) && AllLive(sw[1..]))
  }

  /** 'cross': the flags `leftActive` and `rightActive`. */
  function CrossSides(sw: seq<Switch>): (sides: (bool, bool)) {
    if sw == [] then (false, false)
    else
      var rest := CrossSides(sw[1..]);
      if Live(sw[0]) then
        (if sw[0].def.x < CROSS_COLUMN then (true, rest.1) else (rest.0, true))
      else rest
  }

  /** 'timed': the flag `allTimedActive`. */
  function AllTimedLive(sw: seq<Switch>): bool {
    sw == [] || ((!sw[0].def.timed || Live(sw[0])) && AllTimedLive(sw[1..]))
  }

  /**
   * 'final': one left-to-right pass with the counter `sequencePosition`
   * and the flag `sequenceCorrect`, returned as a pair.
   */
  function FinalPass(sw: seq<Switch>, position: int, correct: bool): (int, bool) {
    if sw == [] then (position, correct)
    else
      var s := sw[0];
      if s.def.sequence == Some(position) && Live(s) then FinalPass(sw[1..], position + 1, correct)
      else if s.def.sequence.Some? && s.def.sequence.value != 0 && s.def.sequence.value < position && !Live(s)
      then FinalPass(sw[1..], position, false)
      else FinalPass(sw[1..], position, correct)
  }

  /** `this.switches.get(id)`: the switch with that id. */
  function Lookup(sw: seq<Switch>, id: int): Option<Switch> {
    if sw == [] then None else if sw[0].def.id == id then Some(sw[0]) else Lookup(sw[1..], id)
  }

  /** `evaluateDoorCondition`. The 'final' verdict reads only the counter, never `sequenceCorrect`. */
  function EvaluateDoorCondition(c: Condition, sw: seq<Switch>): bool {
    match c
    case Both => CountLive(sw) >= 2
    case All => AllLive(sw) && |sw| > 0
    case Cross => CrossSides(sw).0 && CrossSides(sw).1
    case Timed => AllTimedLive(sw)
    case Final => FinalPass(sw, 1, true).0 > FINAL_THRESHOLD
    case BySwitch(id) => Lookup(sw, id).Some? && Live(Lookup(sw, id).value)
    case Unrecognized(_) => false
  }

  // ---- what each condition means ----

  lemma {:induction false} CountLiveAtLeastOne(sw: seq<Switch>)
    ensures CountLive(sw) >= 1 <==> exists i :: 0 <= i < |sw| && Live(sw[i])
  {
    if sw != [] {
      CountLiveAtLeastOne(sw[1..]);
      assert forall i :: 0 < i < |sw| ==> sw[i] == sw[1..][i - 1];
    }
  }

  /** 'both' opens exactly when two different switches are active and not expired. */
  lemma {:induction false} BothOpensIff(sw: seq<Switch>)
    ensures EvaluateDoorCondition(Both, sw) <==>
      exists i, j :: 0 <= i < j < |sw| && Live(sw[i]) && Live(sw[j])
  {
    if sw != [] {
      BothOpensIff(sw[1..]);
      CountLiveAtLeastOne(sw[1..]);
      assert forall i :: 0 < i < |sw| ==> sw[i] == sw[1..][i - 1];
      if exists i, j :: 0 <= i < j < |sw| && Live(sw[i]) && Live(sw[j]) {
        var i, j :| 0 <= i < j < |sw| && Live(sw[i]) && Live(sw[j]);
        if i > 0 {
          assert Live(sw[1..][i - 1]) && Live(sw[1..][j - 1]);
        } else {
          assert Live(sw[1..][j - 1]);
        }
      }
      if CountLive(sw) >= 2 && Live(sw[0]) {
        var j :| 0 <= j < |sw[1..]| && Live(sw[1..][j]);
        assert Live(sw[0]) && Live(sw[j + 1]);
      }
      if CountLive(sw) >= 2 && !Live(sw[0]) {
        var i, j :| 0 <= i < j < |sw[1..]| && Live(sw[1..][i]) && Live(sw[1..][j]);
        assert Live(sw[i + 1]) && Live(sw[j + 1]);
      }
    }
  }

  /** 'all' opens exactly when there is a switch and every switch is active and not expired. */
  lemma {:induction false} AllOpensIff(sw: seq<Switch>)
    ensures EvaluateDoorCondition(All, sw) <==> |sw| > 0 && forall i :: 0 <= i < |sw| ==> Live(sw[i])
  {
    AllLiveMeansEvery(sw);
  }

  lemma {:induction false} AllLiveMeansEvery(sw: seq<Switch>)
    ensures AllLive(sw) <==> forall i :: 0 <= i < |sw| ==> Live(sw[i])
  {
    if sw != [] {
      AllLiveMeansEvery(sw[1..]);
      assert forall i :: 0 < i < |sw| ==> sw[i] == sw[1..][i - 1];
    }
  }

  /** 'cross' opens exactly when a live switch stands left of column 25 and another at or right of it. */
  lemma {:induction false} CrossOpensIff(sw: seq<Switch>)
    ensures CrossSides(sw).0 <==> exists i :: 0 <= i < |sw| && Live(sw[i]) && sw[i].def.x < CROSS_COLUMN
    ensures CrossSides(sw).1 <==> exists i :: 0 <= i < |sw| && Live(sw[i]) && sw[i].def.x >= CROSS_COLUMN
    ensures EvaluateDoorCondition(Cross, sw) <==>
      (exists i :: 0 <= i < |sw| && Live(sw[i]) && sw[i].def.x < CROSS_COLUMN) &&
      (exists j :: 0 <= j < |sw| && Live(sw[j]) && sw[j].def.x >= CROSS_COLUMN)
  {
    if sw != [] {
      CrossOpensIff(sw[1..]);
      assert forall i :: 0 < i < |sw| ==> sw[i] == sw[1..][i - 1];
    }
  }

  /** 'timed' opens exactly when every timed switch is active and not expired; with no timed switch it is open. */
  lemma {:induction false} TimedOpensIff(sw: seq<Switch>)
    ensures EvaluateDoorCondition(Timed, sw) <==> forall i :: 0 <= i < |sw| && sw[i].def.timed ==> Live(sw[i])
  {
    if sw != [] {
      TimedOpensIff(sw[1..]);
      assert forall i :: 0 < i < |sw| ==> sw[i] == sw[1..][i - 1];
    }
  }

  /** With distinct ids, a door on switch `id` opens exactly when that switch exists and is live. */
  lemma {:induction false} BySwitchOpensIff(sw: seq<Switch>, id: int)
    requires forall i, j :: 0 <= i < j < |sw| ==> sw[i].def.id != sw[j].def.id
    ensures EvaluateDoorCondition(BySwitch(id), sw) <==> exists i :: 0 <= i < |sw| && sw[i].def.id == id && Live(sw[i])
  {
    if sw != [] {
      BySwitchOpensIff(sw[1..], id);
      assert forall i :: 0 < i < |sw| ==> sw[i] == sw[1..][i - 1];
    }
  }

  /** A door whose condition is not recognised (such as 'elevator') never opens. */
  lemma UnrecognizedNeverOpens(tag: string, sw: seq<Switch>)
    ensures !EvaluateDoorCondition(Unrecognized(tag), sw)
  {
  }

  // ---- the 'final' pass is a greedy subsequence match ----

  /**
   * Reference definition: the ranks from, from+1, ..., from+len-1 appear,
   * in that order (not necessarily adjacent), on live switches.
   */
  ghost predicate ChainIn(sw: seq<Switch>, from: int, len: nat)
    decreases |sw|
  {
    len == 0 ||
    (sw != [] &&
      ((Live(sw[0]) && sw[0].def.sequence == Some(from) && ChainIn(sw[1..], from + 1, len - 1)) ||
       ChainIn(sw[1..], from, len)))
  }

  /** The counter never goes down. */
  lemma {:induction false} FinalPassGrows(sw: seq<Switch>, position: int, correct: bool)
    ensures FinalPass(sw, position, correct).0 >= position
  {
    if sw != [] {
      FinalPassGrows(sw[1..], position + 1, correct);
      FinalPassGrows(sw[1..], position, false);
      FinalPassGrows(sw[1..], position, correct);
    }
  }

  /** The flag `sequenceCorrect` has no influence on the counter. */
  lemma {:induction false} FinalIgnoresCorrectness(sw: seq<Switch>, position: int, b: bool, b': bool)
    ensures FinalPass(sw, position, b).0 == FinalPass(sw, position, b').0
  {
    if sw != [] {
      FinalIgnoresCorrectness(sw[1..], position + 1, b, b');
      FinalIgnoresCorrectness(sw[1..], position, false, b');
      FinalIgnoresCorrectness(sw[1..], position, b, false);
      FinalIgnoresCorrectness(sw[1..], position, b, b');
    }
  }

  /** A chain from `from` also contains a shorter chain from `from + 1`. */
  lemma {:induction false} ChainDropFirst(sw: seq<Switch>, from: int, len: nat)
    requires ChainIn(sw, from, len + 1)
    ensures ChainIn(sw, from + 1, len)
    decreases |sw|
  {
    if len > 0 {
      if Live(sw[0]) && sw[0].def.sequence == Some(from) && ChainIn(sw[1..], from + 1, len) {
      } else {
        ChainDropFirst(sw[1..], from, len);
      }
    }
  }

  /** The greedy pass reaches `from + len` exactly when the ranks from..from+len-1 occur in order on live switches. */
  lemma {:induction false} FinalPassFindsChain(sw: seq<Switch>, from: int, correct: bool, len: nat)
    ensures FinalPass(sw, from, correct).0 >= from + len <==> ChainIn(sw, from, len)
    decreases |sw|
  {
    FinalPassGrows(sw, from, correct);
    if sw != [] && len > 0 {
      var s := sw[0];
      if s.def.sequence == Some(from) && Live(s) {
        FinalPassFindsChain(sw[1..], from + 1, correct, len - 1);
        if ChainIn(sw[1..], from, len) {
          ChainDropFirst(sw[1..], from, len - 1);
        }
      } else {
        FinalIgnoresCorrectness(sw[1..], from, false, correct);
        FinalPassFindsChain(sw[1..], from, correct, len);
      }
    }
  }

  /** 'final' opens exactly when ranks 1 to 7 occur, in order, on live switches. */
  lemma FinalOpensIff(sw: seq<Switch>)
    ensures EvaluateDoorCondition(Final, sw) <==> ChainIn(sw, 1, FINAL_THRESHOLD)
  {
    FinalPassFindsChain(sw, 1, true, FINAL_THRESHOLD);
  }

  /** Every rank of a chain is carried by some live switch. */
  lemma {:induction false} ChainHasEveryRank(sw: seq<Switch>, from: int, len: nat, k: int)
    requires ChainIn(sw, from, len)
    requires from <= k < from + len
    ensures exists i :: 0 <= i < |sw| && Live(sw[i]) && sw[i].def.sequence == Some(k)
    decreases |sw|
  {
    if Live(sw[0]) && sw[0].def.sequence == Some(from) && ChainIn(sw[1..], from + 1, len - 1) {
      if k > from {
        ChainHasEveryRank(sw[1..], from + 1, len - 1, k);
        var i :| 0 <= i < |sw[1..]| && Live(sw[1..][i]) && sw[1..][i].def.sequence == Some(k);
        assert sw[i + 1] == sw[1..][i];
      }
    } else {
      ChainHasEveryRank(sw[1..], from, len, k);
      var i :| 0 <= i < |sw[1..]| && Live(sw[1..][i]) && sw[1..][i].def.sequence == Some(k);
      assert sw[i + 1] == sw[1..][i];
    }
  }

  /** If no live switch carries some rank from 1 to 7 (say rank 3 is released), the 'final' door stays shut. */
  lemma FinalNeedsEveryRank(sw: seq<Switch>, k: int)
    requires 1 <= k <= FINAL_THRESHOLD
    requires forall i :: 0 <= i < |sw| && Live(sw[i]) ==> sw[i].def.sequence != Some(k)
    ensures !EvaluateDoorCondition(Final, sw)
  {
    FinalOpensIff(sw);
    if ChainIn(sw, 1, FINAL_THRESHOLD) {
      ChainHasEveryRank(sw, 1, FINAL_THRESHOLD, k);
    }
  }
}
