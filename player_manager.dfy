/** The game's player manager: one object holding the circular turn order
    in a mutable list, `roster`, whose operations change it in place. */
module PlayerManagement {
  import opened TurnOrder

  class PlayerManager<T(==)> {
    /** The players in turn order; index 0 is the first player. */
    var roster: seq<Option<T>>

    /** No player is held twice. */
    ghost predicate Valid()
      reads this
    {
      Distinct(roster)
    }

    /** An empty circle. */
    constructor ()
      ensures Valid() && roster == []
    {
      roster := [];
    }

    /** A circle built by adding the given players one after the other:
        a repeated player is kept at its first occurrence only. */
    constructor FromPlayers(players: seq<Option<T>>)
      ensures Valid() && roster == AddedAll([], players)
    {
      roster := [];
      new;
      var _ := AddAll(players);
    }

    /** The player after `prev` in the circle, wrapping from the last player
        to the first; null when the circle is empty or `prev` is not in it. */
    function Next(prev: Option<T>): (r: Option<T>)
      reads this
      ensures r == Successor(roster, prev)
    {
      if |roster| == 0 then None
      else if prev !in roster then None
      else if |roster| == 1 then
        CyclicNext(0, 1);
        roster[0]
      else
        var i := IndexOf(roster, prev);
        CyclicNext(i, |roster|);
        if i == |roster| - 1 then roster[0] else roster[i + 1]
    }

    /** The first player, or null when the circle is empty. */
    function First(): (r: Option<T>)
      reads this
      ensures roster == [] ==> r == None
      ensures roster != [] ==> r == roster[0]
    {
      if roster == [] then None else roster[0]
    }

    /** The rotated copy of the circle that starts at position `k`, built
        as `changeFirst` builds it: the players from `k` to the end, then
        those before `k`. */
    method RotatedCopy(k: nat) returns (changed: seq<Option<T>>)
      requires k < |roster|
      ensures changed == Rotation(roster, k)
    {
      changed := [];
      var i := k;
      while i < |roster|
        invariant k <= i <= |roster|
        invariant changed == roster[k..i]
      {
        changed := changed + [roster[i]];
        i := i + 1;
      }
      i := 0;
      while i < k
        invariant 0 <= i <= k
        invariant changed == roster[k..] + roster[..i]
      {
        changed := changed + [roster[i]];
        i := i + 1;
      }
    }

    /** Reports whether `p` is a non-null player of the circle. The rotated
        order it computes is never stored, so the circle keeps its order. */
    method ChangeFirst(p: Option<T>) returns (ok: bool)
      requires !(p != None && p in roster && roster[0] == None)
      ensures ok == (p != None && p in roster)
    {
      ok := false;
      if p == None {
        ok := false;
      } else if p !in roster {
        ok := false;
      } else {
        if First() != p {
          var changed := RotatedCopy(IndexOf(roster, p));
        }
        ok := true;
      }
    }

    /** `changeFirst` as documented: the rotated order replaces the circle,
        so that `p` becomes the first player. */
    method ChangeFirstApplied(p: Option<T>) returns (ok: bool)
      requires Valid()
      requires !(p != None && p in roster && roster[0] == None)
      modifies this
      ensures Valid()
      ensures ok == (p != None && p in old(roster))
      ensures roster == Designated(old(roster), p)
    {
      ok := false;
      if p == None {
        ok := false;
      } else if p !in roster {
        ok := false;
      } else {
        if First() != p {
          var changed := RotatedCopy(IndexOf(roster, p));
          DesignatedProperties(roster, p);
          roster := changed;
        } else {
          DesignatedFirstIsIdentity(roster, p);
        }
        ok := true;
      }
    }

    /** Appends `p` unless it is already in the circle (null included);
        reports whether it was appended. */
    method Add(p: Option<T>) returns (ok: bool)
      requires Valid()
      modifies this
      ensures Valid()
      ensures ok == (p !in old(roster))
      ensures roster == Added(old(roster), p)
    {
      ok := false;
      if p == None {
        ok := false;
      }
      if p in roster {
        ok := false;
      } else {
        roster := roster + [p];
        ok := true;
      }
    }

    /** Adds each player in turn; reports whether every addition succeeded.
        Additions made before a failing one are kept. */
    method AddAll(players: seq<Option<T>>) returns (ok: bool)
      requires Valid()
      modifies this
      ensures Valid()
      ensures ok == AllAdded(old(roster), players)
      ensures roster == AddedAll(old(roster), players)
    {
      ok := true;
      var i := 0;
      while i < |players|
        invariant 0 <= i <= |players|
        invariant Valid()
        invariant roster == AddedAll(old(roster), players[..i])
        invariant ok == AllAdded(old(roster), players[..i])
      {
        assert players[..i + 1][..i] == players[..i];
        var flag := Add(players[i]);
        if !flag {
          ok := false;
        }
        i := i + 1;
      }
      assert players[..i] == players;
    }

    /** Removes the first occurrence of `p`; reports whether it was there. */
    method Remove(p: Option<T>) returns (ok: bool)
      requires Valid()
      modifies this
      ensures Valid()
      ensures ok == (p in old(roster))
      ensures roster == Removed(old(roster), p)
    {
      ok := false;
      if p == None {
        ok := false;
      }
      if p !in roster {
        ok := false;
      } else {
        RemovedIsSlice(roster, p);
        RemovedFromDistinct(roster, p);
        var i := IndexOf(roster, p);
        roster := roster[..i] + roster[i + 1..];
        ok := true;
      }
    }

    /** The number of players. */
    function Size(): (n: nat)
      reads this
      ensures n == |roster|
    {
      |roster|
    }

    /** Empties the circle; reports whether it held any player. */
    method Clear() returns (ok: bool)
      modifies this
      ensures Valid()
      ensures ok == (old(roster) != [])
      ensures roster == []
    {
      ok := false;
      if |roster| == 0 {
        ok := false;
      } else {
        roster := [];
        ok := true;
      }
    }

    /** The players in turn order, first player at index 0. */
    function ToList(): (r: seq<Option<T>>)
      reads this
      ensures |r| == Size()
      ensures forall i | 0 <= i < |r| :: r[i] == roster[i]
    {
      roster
    }
  }

  /** A round of play, first part: three players join, and the turn passes
      from the first to the second and from the last back to the first. */
  method TurnScenario() returns (m: PlayerManager<int>)
    ensures m.Valid() && m.roster == [Some(1), Some(2), Some(3)]
  {
    var a, b, c := Some(1), Some(2), Some(3);
    m := new PlayerManager<int>();
    var ok := m.AddAll([a, b, c]);
    AllAddedIff([], [a, b, c]);
    AllAddedAppends([], [a, b, c]);
    assert ok && m.ToList() == [a, b, c];
    SuccessorAt(m.roster, 0);
    SuccessorAt(m.roster, 2);
    assert m.Next(a) == b && m.Next(c) == a;
    ok := m.ChangeFirst(c);
    assert ok && m.First() == a;
  }

  /** A round of play, second part: the middle player leaves and joins
      again, now last. */
  method LeaveAndRejoinScenario(m: PlayerManager<int>)
    requires m.Valid() && m.roster == [Some(1), Some(2), Some(3)]
    modifies m
    ensures m.Valid() && m.roster == [Some(1), Some(3), Some(2)]
  {
    var a, b, c := Some(1), Some(2), Some(3);
    var ok := m.Remove(b);
    RemovedIsSlice([a, b, c], b);
    assert IndexOf([a, b, c], b) == 1 by { assert [a, b, c][1] == b && [a, b, c][0] != b; }
    assert [a, b, c][..1] + [a, b, c][2..] == [a, c];
    assert ok && m.roster == [a, c];
    SuccessorAt(m.roster, 0);
    assert m.Next(a) == c;
    ok := m.Add(b);
    assert b !in [a, c];
    assert ok;
  }
}
