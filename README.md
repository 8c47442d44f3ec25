# PlayerManager: a circular turn order of players

`gamesim.PlayerManager<T>` keeps the players of a turn-based game in a
circle. It holds one mutable list, `roster`, of distinct players in turn
order (index 0 is the first player). It answers "who goes after this
player" with wrap-around from the last player to the first, and it lets
players be added one at a time or in a batch, removed, and cleared. It also
offers `changeFirst`, meant to rotate the circle so that a given player
goes first.

The model has two modules:

- `TurnOrder` (`turn_order.dfy`) is the circle as a value. A player is
  `Option<T>`, and `None` stands for Java `null`, which the list can hold.
  It gives the reference definitions of each operation's effect on the
  sequence: `Successor` (cyclic index arithmetic), `Added`, `Removed`,
  `AddedAll`/`AllAdded`, `Rotation` and `Designated`. It also proves the
  lemmas that relate them.
- `PlayerManagement` (`player_manager.dfy`) is the class `PlayerManager`.
  Its field `roster: seq<Option<T>>` is reassigned in place, just as the
  Java methods mutate the list. `Valid()` is the no-repeats invariant, which
  every mutating method keeps. Read-only queries are functions with
  `reads this`. Each method's `ensures` ties its result and the new
  `roster` to the `TurnOrder` definitions. The loops of `addAll` and of
  the rotation inside `changeFirst` carry their invariants.

The class follows the code wherever the code and its doc comments
disagree. There are two such places:

- `changeFirst` computes the rotated list and then drops it. It returns
  `true` and the order does not change. `ChangeFirst` has no `modifies`
  clause for that reason. The documented behaviour is modelled beside it as
  `ChangeFirstApplied`.
- The null checks in `add` and `remove` set the result to `false` but do
  not return. So `add(null)` appends `null` when it is not already there,
  and `next(null)` then returns the player after it, even though the doc
  comment at line 39 says it returns null. The model stores `None` exactly
  as the code stores `null`.

## Model

| member | source | states |
|---|---|---|
| `TurnOrder.IndexOf` | src/main/java/gamesim/PlayerManager.java:52 | the result is -1 exactly when the player is absent; otherwise it holds the player, and no earlier position does |
| `PlayerManagement.PlayerManager.Next` | src/main/java/gamesim/PlayerManager.java:43-60 | the branchy lookup (empty, not a member, single player, last index, otherwise) equals the reference successor: the player at `(indexOf(p) + 1) mod size`, or null when `p` is not in the circle |
| `TurnOrder.SuccessorOfMember` | src/main/java/gamesim/PlayerManager.java:49-58 | the successor of a member is a member; it is the next position, and for the last player it is the first player |
| `TurnOrder.SuccessorAt` | src/main/java/gamesim/PlayerManager.java:52-57 | in a circle without repeats, the player after the one at position `j` is at `j + 1`, or at 0 when `j` is last |
| `TurnOrder.SuccessorSingleton` | src/main/java/gamesim/PlayerManager.java:49-50 | in a circle of one player, that player comes after itself |
| `PlayerManagement.PlayerManager.First` | src/main/java/gamesim/PlayerManager.java:67-72 | null for an empty circle, otherwise the player at index 0 |
| `TurnOrder.Rotation` | src/main/java/gamesim/PlayerManager.java:92-98 | the rotated list has the circle's length, and position `i` holds the player at `k + i`, wrapping past the end |
| `PlayerManagement.PlayerManager.RotatedCopy` | src/main/java/gamesim/PlayerManager.java:91-98 | the two loops build exactly the rotation that starts at `k` |
| `PlayerManagement.PlayerManager.ChangeFirst` | src/main/java/gamesim/PlayerManager.java:83-103 | true exactly for a non-null member; the circle is left unchanged in every case (no `modifies`) |
| `PlayerManagement.PlayerManager.ChangeFirstApplied` | src/main/java/gamesim/PlayerManager.java:74-82 | the documented behaviour: same result, and the circle becomes the rotation that starts at `p`; the no-repeats invariant is kept |
| `TurnOrder.RotationIsPermutation` | src/main/java/gamesim/PlayerManager.java:77-78 | a rotation holds the same players with the same multiplicities |
| `TurnOrder.RotationKeepsDistinct` | src/main/java/gamesim/PlayerManager.java:77-78 | a rotation of a circle without repeats has no repeats |
| `TurnOrder.RotationKeepsSuccessor` | src/main/java/gamesim/PlayerManager.java:77 | after a rotation, every player has the same successor as before ("all the relative positions stay the same") |
| `TurnOrder.DesignatedProperties` | src/main/java/gamesim/PlayerManager.java:74-81 | the documented rotation puts a non-null member at index 0, is a permutation, keeps the circle free of repeats and keeps every successor |
| `TurnOrder.DesignatedFirstIsIdentity` | src/main/java/gamesim/PlayerManager.java:80-81 | designating the player who is already first changes nothing |
| `TurnOrder.ChangeFirstScenarioDiffers` | src/main/java/gamesim/PlayerManager.java:90-100 | for `[A, B, C]` and `C` the documented order is `[C, A, B]`, which is not the unchanged order that the code leaves |
| `PlayerManagement.PlayerManager.Add` | src/main/java/gamesim/PlayerManager.java:110-122 | true exactly when `p` (null included) was absent; the circle then gains `p` at the end, and otherwise it is unchanged; no repeats |
| `TurnOrder.Added` | src/main/java/gamesim/PlayerManager.java:115-120 | the old circle is a prefix of the new one; the new one holds `p` and only old players besides it; no repeats are introduced |
| `TurnOrder.AddTwice` | src/main/java/gamesim/PlayerManager.java:12-13 | adding the same player a second time does not change the circle |
| `PlayerManagement.PlayerManager.AddAll` | src/main/java/gamesim/PlayerManager.java:131-138 | the loop applies `add` to each player in order; the result is the conjunction of the individual results |
| `TurnOrder.AllAddedIff` | src/main/java/gamesim/PlayerManager.java:124-138 | `addAll` returns true exactly when the batch has no repeats and none of its players was already present |
| `TurnOrder.AllAddedAppends` | src/main/java/gamesim/PlayerManager.java:129-137 | on success, the batch is appended as given |
| `TurnOrder.AddedAllMembers` | src/main/java/gamesim/PlayerManager.java:131-138 | after `addAll`, the players are exactly the old ones plus those of the batch |
| `TurnOrder.AddedAllDistinct` | src/main/java/gamesim/PlayerManager.java:131-138 | `addAll` keeps the circle free of repeats |
| `TurnOrder.AddedAllKeepsEarlier` | src/main/java/gamesim/PlayerManager.java:133-136 | additions made before a failing one are not rolled back: the circle after any prefix of the batch is a prefix of the final circle |
| `TurnOrder.AddAllRepeatExample` | src/main/java/gamesim/PlayerManager.java:131-138 | `addAll([A, B, A])` on an empty circle returns false and leaves `[A, B]` |
| `PlayerManagement.PlayerManager.constructor` | src/main/java/gamesim/PlayerManager.java:23-25 | a new manager is empty |
| `PlayerManagement.PlayerManager.FromPlayers` | src/main/java/gamesim/PlayerManager.java:27-30 | a manager built from a collection holds what `addAll` on an empty circle gives, without repeats |
| `PlayerManagement.PlayerManager.Remove` | src/main/java/gamesim/PlayerManager.java:145-157 | true exactly when `p` (null included) was present; the new circle is the old one without that occurrence; no repeats |
| `TurnOrder.Removed` | src/main/java/gamesim/PlayerManager.java:153 | a non-member leaves the circle unchanged; otherwise exactly one copy of `p` is dropped (multiset difference) |
| `TurnOrder.RemovedIsSlice` | src/main/java/gamesim/PlayerManager.java:153 | removal drops the first occurrence and keeps the others in their order |
| `TurnOrder.RemovedFromDistinct` | src/main/java/gamesim/PlayerManager.java:150-155 | in a circle without repeats, a removed player is gone entirely and no repeats appear |
| `TurnOrder.AddThenRemove` | src/main/java/gamesim/PlayerManager.java:110-157 | removing a player that was just added restores the circle exactly |
| `PlayerManagement.PlayerManager.Size` | src/main/java/gamesim/PlayerManager.java:164-166 | the number of players in the circle |
| `PlayerManagement.PlayerManager.Clear` | src/main/java/gamesim/PlayerManager.java:172-183 | true exactly when the circle held a player; afterwards it is empty |
| `PlayerManagement.PlayerManager.ToList` | src/main/java/gamesim/PlayerManager.java:191-193 | the players in turn order, position by position, first player at index 0 |
| `TurnOrder.NullStoredAsWritten` | src/main/java/gamesim/PlayerManager.java:110-122 | as written, adding null to an empty circle stores it, and in `[null, 7]` the player after null is 7, not null |
| `TurnOrder.AddedNonNull` | src/main/java/gamesim/PlayerManager.java:112-114 | an addition that rejects null agrees with `add` on non-null players and keeps a null-free circle null-free |
| `TurnOrder.NullFreeHasNoNullSuccessor` | src/main/java/gamesim/PlayerManager.java:39 | in a circle holding no null, the player after null is null, as documented |

`TurnScenario` and `LeaveAndRejoinScenario` are clients. They walk through
a round of play using only the methods' contracts: `[A, B, C]` is filled,
`next(A) = B`, `next(C) = A`, `changeFirst(C)` leaves `A` first, `B` leaves
and rejoins, and the circle ends as `[A, C, B]`.

## Findings

| source | as written | input that shows it | evidently intended | confidence | as-written member | corrected member |
|---|---|---|---|---|---|---|
| src/main/java/gamesim/PlayerManager.java:90-100 | the rotated list `changed` is built and never assigned to `roster`; the call returns true and the order stays the same | roster `[A, B, C]`, `changeFirst(C)` | the roster becomes `[C, A, B]` and `first()` is `C` | high; not executed | `PlayerManagement.PlayerManager.ChangeFirst`, `TurnOrder.ChangeFirstScenarioDiffers` | `PlayerManagement.PlayerManager.ChangeFirstApplied`, `TurnOrder.DesignatedProperties` |
| src/main/java/gamesim/PlayerManager.java:112-115 | the null branch sets `false` but falls through to the membership test, so `add(null)` appends null | empty roster, `add(null)`, `add(7)`: `next(null)` returns 7, while line 39 says it returns null | `add(null)` returns false and changes nothing, so `next(null)` is always null | medium; not executed | `PlayerManagement.PlayerManager.Add`, `TurnOrder.NullStoredAsWritten` | `TurnOrder.AddedNonNull`, `TurnOrder.NullFreeHasNoNullSuccessor` |

The class keeps the behaviour as written, because callers observe it. The
corrected definitions sit beside it, and the intended properties are proved
about them.

## Left out

- `PlayerManagement.PlayerManager.ChangeFirst` and `ChangeFirstApplied`
  require that they are not called in the one case where line 90 throws a
  `NullPointerException`: a non-null member is passed while the first
  player is null. The exception itself is not modelled.
- The `roster == null` branches of `size` and `clear` (lines 165 and 174)
  are not modelled. `roster` is never null after construction, so these
  branches are dead.
- Aliasing of the copy returned by `toList` is not modelled. A Dafny
  sequence is a value, so returning `roster` already has copy semantics.
- Java `equals` is replaced by Dafny equality on `Option<T>`. The
  `Collection` given to `addAll` and to the constructor becomes a sequence
  in its iteration order.
- Java's `int` size bound is not modelled: sizes and indices are unbounded.
  A list cannot grow past `Integer.MAX_VALUE` elements in practice.
- Subclasses writing to the `protected` field `roster` directly are not
  modelled. The no-repeats invariant is assumed to hold between calls.
