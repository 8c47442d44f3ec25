/** The circular turn order of a game, as a value: a sequence of players in
    which index 0 is the first player. A player is `Option<T>`, where `None`
    stands for a null reference, which the managed list is able to hold.
    Membership and search use equality only, as the list operations do. */
module TurnOrder {

  datatype Option<T> = None | Some(value: T)

  /** No player occurs twice. */
  ghost predicate Distinct<T>(s: seq<T>)
  {
    forall i, j | 0 <= i < j < |s| :: s[i] != s[j]
  }

  /** No null player is held. */
  ghost predicate NullFree<T>(s: seq<Option<T>>)
  {
    forall i | 0 <= i < |s| :: s[i] != None
  }

  /** Position of the first occurrence of `p`, or -1 when there is none
      (the list's `indexOf`). */
  function IndexOf<T(==)>(s: seq<T>, p: T): (i: int)
    ensures -1 <= i < |s|
    ensures i == -1 <==> p !in s
    ensures 0 <= i ==> s[i] == p && forall k | 0 <= k < i :: s[k] != p
  {
    if s == [] then -1
    else if s[0] == p then 0
    else
      var j := IndexOf(s[1..], p);
      if j == -1 then -1 else j + 1
  }

  /** The player after `p` in cyclic order: the reference definition of
      "who goes next", by index arithmetic modulo the number of players.
      A player that is not in the circle has no successor (null). */
  function Successor<T(==)>(s: seq<Option<T>>, p: Option<T>): (r: Option<T>)
  {
    if p in s then s[(IndexOf(s, p) + 1) % |s|] else None
  }

  /** The circle after `add(p)`: `p` is appended unless it is already there. */
  function Added<T(==)>(s: seq<T>, p: T): (r: seq<T>)
    ensures s <= r && p in r
    ensures forall i | 0 <= i < |r| :: r[i] in s || r[i] == p
    ensures Distinct(s) ==> Distinct(r)
  {
    if p in s then s else s + [p]
  }

  /** The circle after `remove(p)`: the first occurrence of `p` is dropped. */
  function Removed<T(==)>(s: seq<T>, p: T): (r: seq<T>)
    ensures p !in s ==> r == s
    ensures multiset(r) == multiset(s) - multiset{p}
  {
    if s == [] then []
    else
      assert s == [s[0]] + s[1..];
      if s[0] == p then s[1..] else [s[0]] + Removed(s[1..], p)
  }

  /** The circle after `addAll(ps)`: `add` applied to each player in turn. */
  function AddedAll<T(==)>(s: seq<T>, ps: seq<T>): (r: seq<T>)
    decreases |ps|
  {
    if ps == [] then s
    else Added(AddedAll(s, ps[..|ps| - 1]), ps[|ps| - 1])
  }

  /** Whether every single `add` performed by `addAll(ps)` succeeded. */
  function AllAdded<T(==)>(s: seq<T>, ps: seq<T>): (ok: bool)
    decreases |ps|
  {
    if ps == [] then true
    else
      var init := ps[..|ps| - 1];
      AllAdded(s, init) && ps[|ps| - 1] !in AddedAll(s, init)
  }

  /** The circle started at position `k`: the players from `k` to the end,
      then those before `k`, each part in its original order. */
  function Rotation<T>(s: seq<T>, k: nat): (r: seq<T>)
    requires k <= |s|
    ensures |r| == |s|
    ensures forall i | 0 <= i < |s| :: r[i] == s[if k + i < |s| then k + i else k + i - |s|]
  {
    s[k..] + s[..k]
  }

  /** The circle after making `p` the first player, as documented: rotated
      so that `p` is first when `p` is a non-null member, unchanged otherwise. */
  function Designated<T(==)>(s: seq<Option<T>>, p: Option<T>): (r: seq<Option<T>>)
  {
    if p != None && p in s then Rotation(s, IndexOf(s, p)) else s
  }

  /** The circle after an `add(p)` that rejects null, as the null branch
      of `add` evidently meant to. */
  function AddedNonNull<T(==)>(s: seq<Option<T>>, p: Option<T>): (r: seq<Option<T>>)
    ensures p != None ==> r == Added(s, p)
    ensures p == None ==> r == s
    ensures NullFree(s) ==> NullFree(r)
  {
    if p == None then s else Added(s, p)
  }

  // ---------------------------------------------------------------------
  // Successor ("next")

  /** In a circle without repeats, the index search finds the position itself. */
  lemma IndexOfDistinct<T>(s: seq<T>, j: nat)
    requires Distinct(s) && j < |s|
    ensures IndexOf(s, s[j]) == j
  {
  }

  /** Removing a member drops exactly its first occurrence and keeps the
      order of the others. */
  lemma {:induction false} RemovedIsSlice<T>(s: seq<T>, p: T)
    requires p in s
    ensures Removed(s, p) == s[..IndexOf(s, p)] + s[IndexOf(s, p) + 1..]
  {
    if s[0] == p {
      assert s[..0] + s[1..] == s[1..];
    } else {
      var t := s[1..];
      assert p in t by { var k :| 0 <= k < |s| && s[k] == p; assert t[k - 1] == p; }
      RemovedIsSlice(t, p);
      SliceAfterHead(s, IndexOf(t, p));
    }
  }

  /** Dropping position `i` of the tail is dropping position `i + 1`. */
  lemma SliceAfterHead<T>(s: seq<T>, i: nat)
    requires i + 1 < |s|
    ensures [s[0]] + (s[1..][..i] + s[1..][i + 1..]) == s[..i + 1] + s[i + 2..]
  {
  }

  /** Cyclic successor of an index: the next index, or 0 after the last. */
  lemma CyclicNext(i: int, n: int)
    requires 0 <= i < n
    ensures (i + 1) % n == if i + 1 < n then i + 1 else 0
  {
  }

  /** The successor of a member is a member, found one place further on,
      wrapping from the last player back to the first. */
  lemma SuccessorOfMember<T>(s: seq<Option<T>>, p: Option<T>)
    requires p in s
    ensures Successor(s, p) in s
    ensures IndexOf(s, p) + 1 < |s| ==> Successor(s, p) == s[IndexOf(s, p) + 1]
    ensures IndexOf(s, p) == |s| - 1 ==> Successor(s, p) == s[0]
  {
    CyclicNext(IndexOf(s, p), |s|);
  }

  /** A player alone in the circle is its own successor. */
  lemma SuccessorSingleton<T>(x: Option<T>)
    ensures Successor([x], x) == x
  {
  }

  /** In a circle without repeats, the successor of the player at position
      `j` is the player at the next position, cyclically. */
  lemma SuccessorAt<T>(s: seq<Option<T>>, j: nat)
    requires Distinct(s) && j < |s|
    ensures Successor(s, s[j]) == s[if j + 1 < |s| then j + 1 else 0]
  {
    IndexOfDistinct(s, j);
    CyclicNext(j, |s|);
  }

  /** Rotating the circle keeps the successor of the player at position `j`. */
  lemma RotationKeepsSuccessorAt<T>(s: seq<Option<T>>, k: nat, j: nat)
    requires Distinct(s) && k < |s| && j < |s|
    ensures Successor(Rotation(s, k), s[j]) == Successor(s, s[j])
  {
    var n, r := |s|, Rotation(s, k);
    RotationKeepsDistinct(s, k);
    var m := if j >= k then j - k else j - k + n;
    assert r[m] == s[j];
    SuccessorAt(r, m);
    SuccessorAt(s, j);
  }

  /** A rotation holds the same players. */
  lemma RotationMembers<T>(s: seq<T>, k: nat, q: T)
    requires k <= |s|
    ensures q in Rotation(s, k) <==> q in s
  {
  }

  /** Rotating the circle keeps who goes after whom. */
  lemma RotationKeepsSuccessor<T>(s: seq<Option<T>>, k: nat, q: Option<T>)
    requires Distinct(s) && k < |s|
    ensures Successor(Rotation(s, k), q) == Successor(s, q)
  {
    RotationMembers(s, k, q);
    if q in s {
      RotationKeepsSuccessorAt(s, k, IndexOf(s, q));
    }
  }

  // ---------------------------------------------------------------------
  // Rotation (changing the first player)

  /** A rotation is a permutation of the circle. */
  lemma RotationIsPermutation<T>(s: seq<T>, k: nat)
    requires k <= |s|
    ensures multiset(Rotation(s, k)) == multiset(s)
  {
    assert s == s[..k] + s[k..];
  }

  /** A rotation of a circle without repeats has no repeats. */
  lemma RotationKeepsDistinct<T>(s: seq<T>, k: nat)
    requires k <= |s| && Distinct(s)
    ensures Distinct(Rotation(s, k))
  {
  }

  /** Designating a non-null member as first puts it at index 0 and keeps
      the players, their uniqueness and who goes after whom. */
  lemma DesignatedProperties<T>(s: seq<Option<T>>, p: Option<T>)
    requires Distinct(s)
    ensures p != None && p in s ==> Designated(s, p)[0] == p
    ensures multiset(Designated(s, p)) == multiset(s)
    ensures Distinct(Designated(s, p))
    ensures forall q :: Successor(Designated(s, p), q) == Successor(s, q)
  {
    if p != None && p in s {
      var k := IndexOf(s, p);
      RotationIsPermutation(s, k);
      RotationKeepsDistinct(s, k);
      forall q ensures Successor(Designated(s, p), q) == Successor(s, q) {
        RotationKeepsSuccessor(s, k, q);
      }
    }
  }

  /** When `p` is already first, designating it changes nothing. */
  lemma DesignatedFirstIsIdentity<T>(s: seq<Option<T>>, p: Option<T>)
    requires s != [] && s[0] == p
    ensures Designated(s, p) == s
  {
  }

  // ---------------------------------------------------------------------
  // Adding and removing

  /** Removing a player that was just added restores the circle. */
  lemma AddThenRemove<T>(s: seq<T>, p: T)
    requires p !in s
    ensures Removed(Added(s, p), p) == s
  {
    var t := s + [p];
    assert t[|s|] == p;
    assert forall k | 0 <= k < |s| :: t[k] == s[k];
    assert IndexOf(t, p) == |s|;
    RemovedIsSlice(t, p);
    assert t[..|s|] == s;
  }

  /** Adding the same player twice has the effect of adding it once. */
  lemma AddTwice<T>(s: seq<T>, p: T)
    ensures Added(Added(s, p), p) == Added(s, p)
  {
  }

  /** Removing a player from a circle without repeats removes it entirely
      and keeps the circle without repeats. */
  lemma RemovedFromDistinct<T>(s: seq<T>, p: T)
    requires Distinct(s)
    ensures p !in Removed(s, p)
    ensures Distinct(Removed(s, p))
  {
    if p in s {
      RemovedIsSlice(s, p);
      DropAtDistinct(s, IndexOf(s, p));
    }
  }

  /** Dropping one position of a sequence without repeats leaves one without
      repeats that no longer holds the dropped element. */
  lemma DropAtDistinct<T>(s: seq<T>, i: nat)
    requires Distinct(s) && i < |s|
    ensures s[i] !in s[..i] + s[i + 1..]
    ensures Distinct(s[..i] + s[i + 1..])
  {
  }

  // ---------------------------------------------------------------------
  // Adding a batch

  /** The players after `addAll` are those before plus those offered. */
  lemma {:induction false} AddedAllMembers<T>(s: seq<T>, ps: seq<T>)
    ensures forall q :: q in AddedAll(s, ps) <==> q in s || q in ps
    decreases |ps|
  {
    if ps != [] {
      var init := ps[..|ps| - 1];
      AddedAllMembers(s, init);
      assert ps == init + [ps[|ps| - 1]];
    }
  }

  /** `addAll` keeps a circle without repeats. */
  lemma {:induction false} AddedAllDistinct<T>(s: seq<T>, ps: seq<T>)
    requires Distinct(s)
    ensures Distinct(AddedAll(s, ps))
    decreases |ps|
  {
    if ps != [] {
      AddedAllDistinct(s, ps[..|ps| - 1]);
    }
  }

  /** Additions made before a failing one are kept: the circle after a
      prefix of the batch is a prefix of the circle after the whole batch. */
  lemma {:induction false} AddedAllKeepsEarlier<T>(s: seq<T>, ps: seq<T>, i: nat)
    requires i <= |ps|
    ensures AddedAll(s, ps[..i]) <= AddedAll(s, ps)
    decreases |ps|
  {
    if i < |ps| {
      var init := ps[..|ps| - 1];
      assert ps[..i] == init[..i];
      AddedAllKeepsEarlier(s, init, i);
    } else {
      assert ps[..i] == ps;
    }
  }

  /** `addAll` reports success exactly when the batch has no repeats and
      none of its players was already in the circle. */
  lemma {:induction false} AllAddedIff<T>(s: seq<T>, ps: seq<T>)
    ensures AllAdded(s, ps) <==> Distinct(ps) && forall q :: q in ps ==> q !in s
    decreases |ps|
  {
    if ps != [] {
      var init, last := ps[..|ps| - 1], ps[|ps| - 1];
      AllAddedIff(s, init);
      AddedAllMembers(s, init);
      assert ps == init + [last];
      if Distinct(ps) {
        forall i, j | 0 <= i < j < |init| ensures init[i] != init[j] {
          assert init[i] == ps[i] && init[j] == ps[j];
        }
      }
    }
  }

  /** When `addAll` reports success, the batch is appended as given. */
  lemma {:induction false} AllAddedAppends<T>(s: seq<T>, ps: seq<T>)
    requires AllAdded(s, ps)
    ensures AddedAll(s, ps) == s + ps
    decreases |ps|
  {
    if ps != [] {
      var init := ps[..|ps| - 1];
      AllAddedAppends(s, init);
      assert ps == init + [ps[|ps| - 1]];
    }
  }

  /** A batch with a repeated player: `addAll([A, B, A])` on an empty circle
      fails and leaves `[A, B]`. */
  lemma AddAllRepeatExample()
    ensures AddedAll([], [Some(1), Some(2), Some(1)]) == [Some(1), Some(2)]
    ensures !AllAdded([], [Some(1), Some(2), Some(1)])
  {
    var ps := [Some(1), Some(2), Some(1)];
    assert ps[..2] == [Some(1), Some(2)];
    assert ps[..2][..1] == [Some(1)];
    assert ps[..2][..1][..0] == [];
    assert AddedAll([], [Some(1)]) == [Some(1)];
    assert AddedAll([], [Some(1), Some(2)]) == [Some(1), Some(2)];
  }

  // ---------------------------------------------------------------------
  // Null players

  /** As written, `add(null)` stores null, after which `next(null)` yields
      the player after it instead of null. */
  lemma NullStoredAsWritten()
    ensures Added<Option<int>>([], None) == [None]
    ensures Successor([None, Some(7)], None) == Some(7)
  {
  }

  /** Once null is rejected by every addition, `next(null)` is null, as
      documented. */
  lemma NullFreeHasNoNullSuccessor<T>(s: seq<Option<T>>)
    requires NullFree(s)
    ensures Successor(s, None) == None
  {
  }

  // ---------------------------------------------------------------------
  // Changing the first player

  /** The documented effect of `changeFirst(C)` on `[A, B, C]` is `[C, A, B]`,
      which differs from the circle the code leaves behind. */
  lemma ChangeFirstScenarioDiffers()
    ensures Designated([Some(1), Some(2), Some(3)], Some(3)) == [Some(3), Some(1), Some(2)]
    ensures Designated([Some(1), Some(2), Some(3)], Some(3)) != [Some(1), Some(2), Some(3)]
  {
  }
}
