# Hunger Games engine, modelled in Dafny

`HungerGames` keeps the districts of Panem in two places. One is a waiting
list (`districts`). The other is a binary search tree keyed on district ID
(`game`), which holds the districts still in the game. Every district keeps
its competitors in two ordered lists: people with odd birth months and people
with even birth months.

The engine does four things:

- **Entering districts.** It adds districts to the tree, and each one it adds
  leaves the waiting list.
- **Searching.** It finds a district of the tree by ID.
- **Selecting.** It picks a pair of duelers. The odd list supplies person1 and
  the even list supplies person2, and the two never come from the same
  district. Tessera holders, found by a preorder scan, come first. A person
  drawn at random fills any role still empty. Both chosen people are then
  reserved, that is, removed from their district's list.
- **Resolving a duel.** The winner goes back to their district. The loser's
  district leaves the tree (by BST deletion) once one of its lists is empty.

The model has five modules:

- `Lists` (`lists.dfy`): `Option` (a Java reference that may be null), and
  `ArrayList.remove(Object)` as `RemoveFirst`, with its properties proved as lemmas.
- `Panem` (`panem.dfy`): `Person` and `District` as values, Java's truncating
  `%`, the tessera and parity rules of setup, and the three changes the engine
  makes to a district's lists.
- `DistrictTree` (`district_tree.dfy`): the tree as a datatype, with three
  views of it. `Keys` gives the IDs, `Held` the districts and `Districts` an
  ID-to-district map; `IsBST` is the ordering invariant. The module also has
  the search, insertion and deletion routines, proved against the map view.
- `Selection` (`selection.dfy`):
  - the tessera scans (`odd`/`even`, one method `Scan`);
  - the random fallback (`randomOdd`/`randomEven`, one function `RandomPick`);
  - the choice part of `selectDuelers` (`PickDuelers`).
- `Game` (`game.dfy`): the class `HungerGames`. Its fields are the waiting
  list, the tree, the random source and a draw counter. Its methods are proved
  against the map view, and through `Shape` they also give the tree's new
  outline. The module also holds lemmas, and the class method `PlayRound`,
  showing that a full round keeps every district stocked.

The class's invariant `Valid()` has two parts:

- the tree is a BST;
- every district in it lists only its own people, each in the list that
  `eliminateDueler` would return them to.

Setup establishes this invariant for birth months that are not negative
(`Panem.Enlist`), and every operation preserves it.

The tree is never rebalanced, so its shape depends only on the order in which
districts were entered. The tessera scans walk it in preorder, which makes the
shape matter: two trees with the same districts can put different tessera
holders first. `DistrictTree.Shape` records the shape, and the contracts give
the new shape after every operation:

- insertion hangs exactly one new leaf (`AddsLeaf`);
- deletion leaves the outline that `Without` computes. A node with an empty
  side is replaced by its other side. A node with two children takes the
  least ID of its right subtree, and the leftmost node of that subtree is
  dropped (`DropMin`). Nothing else moves;
- reserving, returning and writing back a district leave the shape as it was.

The source passes -1 to the scans and random walks to mean "exclude no
district" (lines 181, 185, 192 and 200). Those four calls skip a district
whose ID is -1. The other calls exclude a real district instead: the even scan
at line 187 and the random walks at lines 194 and 202. Those calls can pick
from district -1. So district -1 behaves as follows:

- its tessera holders are never person1 by priority;
- they are person2 by priority only when an odd tessera holder elsewhere was
  chosen first;
- it can supply either dueler through the random walk that excludes the other
  dueler's district.

The model passes the same excluded IDs (`Selection.ChoiceRule`).
`Selection.PickDuelers` states that no dueler is chosen exactly when the tree
holds nothing but ID -1.

## Model

| member | source | states |
|---|---|---|
| Lists.RemoveFirstCounts | HungerGames.java:212-217 | `ArrayList.remove`: the result's multiset is the input's minus one `x`, it is one shorter exactly when `x` occurs, and it is unchanged when `x` does not occur |
| Lists.RemoveFirstSplices | HungerGames.java:212-217 | removal splices out exactly the first occurrence of `x` and keeps the order of the rest |
| Panem.JavaRem2 | HungerGames.java:92 | Java's `m % 2` is zero exactly for even `m`. It is 1 for positive odd `m` and -1 for negative odd `m` |
| Panem.Enlist | HungerGames.java:84-96 | setting up one person (see the notes after the table) |
| Panem.ReturnMatchesSetup | HungerGames.java:92-95 | for birth months that are not negative, setup's `% 2 == 0` rule and the return rule `% 2 == 1` choose the same list |
| Panem.NegativeMonthDisagrees | HungerGames.java:92-95 | for every negative odd birth month, setup puts the person in the odd list but a return would put them in the even list |
| Panem.Withdraw | HungerGames.java:208-218 | the reservation: the chosen list loses one copy of `p` and is one shorter when `p` was there; the other list and the ID are kept; well-formedness is preserved |
| Panem.Rejoin | HungerGames.java:397-403 | the return: `p` is appended to the list chosen by `birthMonth % 2 == 1`, the other list is kept, and well-formedness is preserved when `p` belongs to the district |
| Panem.WithdrawThenRejoin | HungerGames.java:208-218 | in a well-formed district, reserving a person and then returning them restores the multiset of their list, and the other list is untouched |
| DistrictTree.FindDistrict | HungerGames.java:146-160 | on a BST the search returns exactly the map entry for `id`, or None when `id` is absent. Any result carries `id` and is a district of the tree |
| DistrictTree.FindDistrictByID | HungerGames.java:446-460 | any result carries `id` and is a district of the tree |
| DistrictTree.FindersAgree | HungerGames.java:146-160 | the two searches (equal-first and less-first descent) return the same result on every tree |
| DistrictTree.InsertHelper | HungerGames.java:117-133 | the result is a BST. A leaf is added exactly when the ID is new: the shape gains exactly one leaf and nothing else moves, and the keys and map gain that district. A duplicate ID leaves the tree as it was |
| DistrictTree.FindSmallestDistrict | HungerGames.java:371-378 | the result is the district with the least key of the subtree |
| DistrictTree.DeleteDistrict | HungerGames.java:345-369 | the result is a BST whose map is the old map minus `id`, and whose outline is `Without(old outline, id)`. An absent ID changes nothing. Descending left or right keeps the node and its other subtree; a node with an empty side becomes its other side; a node with two children keeps its left subtree and takes the in-order successor's district |
| DistrictTree.MinIdIsLeast | HungerGames.java:371-378 | in a BST the leftmost node of the outline, where `findSmallestDistrict` stops, holds the least key |
| DistrictTree.WithoutMin | HungerGames.java:345-369 | deleting the least key of a BST drops its leftmost node from the outline, as the successor deletion inside `deleteDistrict` does |
| DistrictTree.SuccessorShape | HungerGames.java:363-365 | the successor promoted by `deleteDistrict` carries the outline's leftmost ID of the right subtree, and the right subtree loses exactly its leftmost node |
| DistrictTree.Replace | HungerGames.java:208-218 | writing back a changed district keeps the BST, the keys and the shape, and updates the map at that ID when present |
| Selection.Tesserae | HungerGames.java:230-235 | the result holds exactly the tessera holders of the list |
| Selection.Scan | HungerGames.java:223-272 | `odd`/`even` return the first element of `Candidates`, the preorder list of tessera holders outside the excluded district |
| Selection.CandidatesAre | HungerGames.java:223-272 | a person is a candidate exactly when they hold a tessera and sit in the chosen list of a district of the tree other than the excluded one |
| Selection.CandidateDistrict | HungerGames.java:223-272 | among well-formed districts, a candidate's own district is not the excluded one and holds them |
| Selection.RandomPick | HungerGames.java:274-330 | `randomOdd`/`randomEven`: the draw count never decreases. Any result is from a district of the tree and not from the excluded district |
| Selection.RandomPickEmpty | HungerGames.java:274-330 | among well-formed, stocked districts the random walk returns null exactly when every ID in the tree is the excluded one |
| Selection.PickDuelers | HungerGames.java:179-206 | the choice part of `selectDuelers` ensures `Picked` (see the notes after the table) |
| Game.HungerGames.constructor | HungerGames.java:23-27 | an empty waiting list and an empty tree |
| Game.HungerGames.AddDistrictToGame | HungerGames.java:108-115 | `addDistrictToGame` (see the notes after the table) |
| Game.HungerGames.FindDistrict | HungerGames.java:141-144 | a result exists exactly when the ID is in the tree, and it is the tree's district under that ID |
| Game.HungerGames.EliminateDistrict | HungerGames.java:341-343 | the tree loses exactly the district with that ID and keeps the invariant; its new outline is `Without(old outline, id)`; an absent ID changes nothing |
| Game.HungerGames.Reserve | HungerGames.java:208-218 | the chosen person's district in the map loses them from the given list; keys, shape and invariant are kept |
| Game.HungerGames.SelectDuelers | HungerGames.java:179-221 | `Picked` about the tree and the draw count as they were (every promise of `PickDuelers`), and then the new map is the old one with person1 reserved from its odd list and person2 from its even list; keys and shape are kept |
| Game.HungerGames.ChooseDuelers | HungerGames.java:179-206 | `Picked` for the game's tree, its random source and its draw counter; only the counter changes |
| Game.HungerGames.ReservePair | HungerGames.java:208-218 | both reservations together: the map reserves person1 then person2, and keys, shape and invariant are kept |
| Game.HungerGames.ReturnToDistrict | HungerGames.java:395-403 | the map rejoins `p` to their district when it is in the tree; keys, shape and invariant are kept |
| Game.HungerGames.EliminateIfExhausted | HungerGames.java:406-415 | the loser's district, when in the tree, is deleted exactly when its odd or its even list is empty; a district that stays has both lists non-empty; when nothing is deleted the tree is unchanged, and otherwise its outline is `Without(old outline, loser's ID)` |
| Game.HungerGames.PlayRound | HungerGames.java:390-444 | one round, `selectDuelers` then `eliminateDueler`: from a stocked game it ends in a stocked game, with or without two duelers. Only the loser's district can leave, and with fewer than two duelers no district leaves |
| Game.HungerGames.EliminateDueler | HungerGames.java:390-444 | `eliminateDueler` (see the notes after the table) |
| Game.RoundKeepsStocked | HungerGames.java:179-221 | a round with two duelers leaves every remaining district with both lists non-empty. Only the loser's district can leave the game |
| Game.LoneRoundKeepsStocked | HungerGames.java:417-443 | a lone dueler reserved and handed back leaves every district stocked and none removed |
| Game.ValidIsConsistent | HungerGames.java:17 | under the class invariant, every map entry sits under its own ID and is well formed |
| Game.StockedIsStockedMap | HungerGames.java:282 | every node has non-empty odd and even lists exactly when every map entry has them |
| DistrictTree.KeyedById | HungerGames.java:17 | every district of the map view sits under its own ID |
| Game.WinnerReturned | HungerGames.java:390-415 | after the winner's return and the loser check, every district left in the map is stocked |
| Game.WinnerRefilled | HungerGames.java:395-403 | a stocked, well-formed district that loses a member and gets them back is stocked again |
| Game.ExhaustedStocked | HungerGames.java:406-415 | dropping the loser's district when one of its lists is empty leaves only stocked districts, if all others were stocked |
| Game.ReservedBoth | HungerGames.java:208-218 | reserving two people from different districts changes exactly those two districts |

Notes on the longer rows:

- **`Panem.Enlist`** (setting up one person). The person gets a tessera
  exactly when their age is 12 to 17. They are appended to the even list when
  `birthMonth % 2 == 0` and to the odd list otherwise. The other list is
  untouched. A district with a different ID is unchanged. Well-formedness is
  preserved for months that are not negative.
- **`Selection.PickDuelers`** (the choice part of `selectDuelers`) ensures
  the predicate `Selection.Picked`, which says:
  - the draw count never decreases;
  - each chosen person sits in the right list of their own district in the
    tree;
  - the two come from different districts;
  - `ChoiceRule` says who is chosen, for the given random source and draw
    count:
    - the first odd tessera candidate is always person1;
    - person2 is the first even tessera candidate outside person1's district,
      or outside none when no odd candidate exists;
    - a role the scans leave empty is the result of `RandomPick`, excluding
      the other dueler's district. person1's walk comes first, and person2's
      walk continues the draws where person1's stopped;
    - the new draw count is the one the last walk returns, or the old one
      when no walk is made;
  - both roles are filled exactly when the tree has two or more districts;
  - both are empty exactly when the tree only holds ID -1 or nothing.
- **`Game.HungerGames.AddDistrictToGame`** (`addDistrictToGame`):
  - an empty game becomes a single node;
  - a new ID enters the tree and the map as one new leaf, and the district
    leaves the waiting list (first occurrence);
  - a duplicate ID changes neither the tree nor the waiting list;
  - the invariant is kept.
- **`Game.HungerGames.EliminateDueler`** (`eliminateDueler`):
  - with two duelers, the map is the old one with the winner rejoined, and
    then the loser's district is removed if one of its lists is empty;
  - a district of the loser's that stays has both lists non-empty;
  - a lone dueler is rejoined;
  - the shape is kept unless the loser's district is deleted, and then it is
    `Without(old outline, loser's ID)`;
  - no dueler leaves the tree as it was.

## Left out

- Reading the input files (`setupPanem`, `setupDistricts` and the file loop of
  `setupPeople`, lines 36-99) is left out because it is file I/O. Only the
  tessera and parity rule for one person is modelled (`Panem.Enlist`).
- `StdRandom.uniform` is a parameter of the game (`Uniform`): the k-th draw
  with bound n is some number below n. The seed and the generator itself are
  not modelled. The draw counter `draws` stands for the generator's state.
- `Person.duel` is a parameter of `EliminateDueler` (`Duel`): it returns one
  of its two arguments. How it decides the winner (effectiveness, random
  draws) is not modelled, because `Person` is not part of this model.
- `getDistricts` and `getRoot` are plain accessors and are left out: the class
  fields stand for them.
- The driver's loop, which repeats rounds until one district is left, is left
  out. `Game.HungerGames.PlayRound` models one of its rounds.
- Tree nodes and District objects are modelled as values. The source mutates
  a District found by `findDistrict` in place; the model writes the changed
  district back into the tree (`Replace`). Aliasing between the waiting list
  and the tree's District objects is therefore not modelled: a district's
  list changes in the tree do not show in the waiting list.
- `ArrayList.remove(Object)` and the `winner == person1` test compare by
  reference in Java and by value here. Two different people with equal
  fields in one list are therefore not told apart.
- Game.HungerGames.AddDistrictToGame: the source takes the root as an
  argument. The model assumes it is always the tree's own root and inserts
  there. Callers are not part of this model. It also requires the new
  district to be well formed, which setup ensures for birth months that are
  not negative.
- Game.HungerGames.SelectDuelers: requires every district in the tree to have
  non-empty odd and even lists, even when both tessera scans fill the roles
  and no draw is made. The source imposes no such condition on those inputs.
  - Example: district A has odd = [a tessera holder] and even = []; district
    B has odd = [] and even = [a tessera holder]. The source returns that pair
    without drawing (lines 181-187). The model does not accept this tree.
  - `addDistrictToGame` (lines 108-133) admits such districts.
  - On inputs where the random fallback does reach an empty list, the source
    throws from `StdRandom.uniform(0)`; that exception is not modelled either.
  - `Game.HungerGames.PlayRound` shows that a round started from stocked
    districts keeps them stocked.
- Selection.RandomPick: has the same non-empty-list requirement as
  `SelectDuelers`, over the whole tree rather than only the nodes the walk
  visits.
- Game.HungerGames.ChooseDuelers: has the same non-empty-list requirement as
  `SelectDuelers`.
- Selection.PickDuelers: has the same non-empty-list requirement as
  `SelectDuelers`, so it too refuses trees where the scans alone would fill
  both roles.
- DistrictTree.FindDistrictByID: on its own it states only that any result
  carries the ID and belongs to the tree. Its exact result follows from
  `DistrictTree.FindersAgree` and `DistrictTree.FindDistrict`.
- Negative birth months: setup files the person as odd but a return files
  them as even (`Panem.NegativeMonthDisagrees`). The invariant, and with it
  every guarantee above, holds only for birth months that are not negative.
