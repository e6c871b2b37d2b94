/**
 * The game engine: a waiting list of districts and the BST of districts still
 * in the game, with insertion, search, elimination, dueler selection and
 * duel resolution.
 */
module Game {
  import opened Lists
  import opened Panem
  import opened DistrictTree
  import opened Selection

  /** Person.duel: returns one of the two competitors; how it decides is not modelled. */
  type Duel = f: (Person, Person) -> Person | forall a: Person, b: Person :: f(a, b) == a || f(a, b) == b
    witness (a: Person, b: Person) => a

  /** The district map after p, if present, leaves their district's par list. */
  function Reserved(m: map<int, District>, p: Option<Person>, par: Parity): map<int, District> {
    if p.Some? && p.value.districtID in m then m[p.value.districtID := Withdraw(m[p.value.districtID], p.value, par)]
    else m
  }

  /** The district map after p is returned to their district, when that district is still in the game. */
  function Returned(m: map<int, District>, p: Person): map<int, District> {
    if p.districtID in m then m[p.districtID := Rejoin(m[p.districtID], p)] else m
  }

  /** The district map after the loser's district is eliminated because one of its lists ran out. */
  function Exhausted(m: map<int, District>, loserID: int): map<int, District> {
    if loserID in m && (m[loserID].odd == [] || m[loserID].even == []) then m - {loserID} else m
  }

  /** Every district of the map still has somebody in both of its lists. */
  ghost predicate StockedMap(m: map<int, District>) {
    forall k :: k in m ==> m[k].odd != [] && m[k].even != []
  }

  /** Every district of the map sits under its own ID and is well formed. */
  ghost predicate Consistent(m: map<int, District>) {
    forall k :: k in m ==> m[k].id == k && WellFormed(m[k])
  }

  /**
   * One round with two duelers, selectDuelers followed by eliminateDueler,
   * leaves every remaining district with both lists non-empty: the winner's
   * district gets its member back, and the loser's district leaves the game
   * as soon as one of its lists runs out. This is what lets the next
   * selectDuelers draw from every list it visits.
   */
  lemma RoundKeepsStocked(m: map<int, District>, p1: Person, p2: Person, winner: Person)
    requires Consistent(m) && StockedMap(m)
    requires p1.districtID in m && p1 in m[p1.districtID].odd
    requires p2.districtID in m && p2 in m[p2.districtID].even
    requires p1.districtID != p2.districtID
    requires winner == p1 || winner == p2
    ensures var loserID := if winner == p1 then p2.districtID else p1.districtID;
      var after := Exhausted(Returned(Reserved(Reserved(m, Some(p1), Odd), Some(p2), Even), winner), loserID);
      && StockedMap(after) && after.Keys <= m.Keys && m.Keys - {loserID} <= after.Keys
  {
    var reserved := Reserved(Reserved(m, Some(p1), Odd), Some(p2), Even);
    ReservedBoth(m, p1, p2);
    if winner == p1 {
      WinnerReturned(m, reserved, p1, Odd, p2.districtID);
    } else {
      WinnerReturned(m, reserved, p2, Even, p1.districtID);
    }
  }

  /**
   * The step of RoundKeepsStocked after the reservation: the winner's district
   * differs from m only by the winner's withdrawal, the loser's district is
   * arbitrary, and every other district is as in m.
   */
  lemma WinnerReturned(m: map<int, District>, reserved: map<int, District>, winner: Person, par: Parity, loserID: int)
    requires Consistent(m) && StockedMap(m) && reserved.Keys == m.Keys
    requires winner.districtID in m && winner in Population(m[winner.districtID], par)
    requires winner.districtID != loserID
    requires reserved[winner.districtID] == Withdraw(m[winner.districtID], winner, par)
    requires forall k :: k in m && k != winner.districtID && k != loserID ==> reserved[k] == m[k]
    ensures var after := Exhausted(Returned(reserved, winner), loserID);
      && StockedMap(after) && after.Keys <= m.Keys && m.Keys - {loserID} <= after.Keys
  {
    var w := winner.districtID;
    WinnerRefilled(m[w], winner, par);
    var returned := reserved[w := Rejoin(Withdraw(m[w], winner, par), winner)];
    assert Returned(reserved, winner) == returned;
    ExhaustedStocked(returned, loserID);
  }

  /** Dropping the loser's district when it ran out leaves a stocked map, if all the others were stocked. */
  lemma ExhaustedStocked(m: map<int, District>, loserID: int)
    requires forall k :: k in m && k != loserID ==> m[k].odd != [] && m[k].even != []
    ensures var after := Exhausted(m, loserID);
      StockedMap(after) && after.Keys <= m.Keys && m.Keys - {loserID} <= after.Keys
  {
  }

  /** Reserving two people of different districts touches exactly their two districts. */
  lemma ReservedBoth(m: map<int, District>, p1: Person, p2: Person)
    requires p1.districtID in m && p2.districtID in m && p1.districtID != p2.districtID
    ensures var reserved := Reserved(Reserved(m, Some(p1), Odd), Some(p2), Even);
      && reserved.Keys == m.Keys
      && reserved[p1.districtID] == Withdraw(m[p1.districtID], p1, Odd)
      && reserved[p2.districtID] == Withdraw(m[p2.districtID], p2, Even)
      && forall k :: k in m && k != p1.districtID && k != p2.districtID ==> reserved[k] == m[k]
  {
    var w1 := Withdraw(m[p1.districtID], p1, Odd);
    var w2 := Withdraw(m[p2.districtID], p2, Even);
    UpdateTwo(m, p1.districtID, w1, p2.districtID, w2);
    assert Reserved(m, Some(p1), Odd) == m[p1.districtID := w1];
  }

  lemma UpdateTwo<K, V>(m: map<K, V>, a: K, va: V, b: K, vb: V)
    requires a in m && b in m && a != b
    ensures var r := m[a := va][b := vb];
      && r.Keys == m.Keys && r[a] == va && r[b] == vb && m[a := va][b] == m[b]
      && forall k :: k in m && k != a && k != b ==> r[k] == m[k]
  {
  }

  /**
   * A round with a single dueler, who is reserved by selectDuelers and handed
   * back by eliminateDueler, leaves every district stocked and none removed.
   */
  lemma LoneRoundKeepsStocked(m: map<int, District>, p: Person, par: Parity)
    requires Consistent(m) && StockedMap(m)
    requires p.districtID in m && p in Population(m[p.districtID], par)
    ensures var after := Returned(Reserved(m, Some(p), par), p);
      StockedMap(after) && after.Keys == m.Keys
  {
    var w := p.districtID;
    WinnerRefilled(m[w], p, par);
    var after := m[w := Rejoin(Withdraw(m[w], p, par), p)];
    assert Returned(Reserved(m, Some(p), par), p) == after;
  }

  /** The class invariant, read on the map view. */
  lemma ValidIsConsistent(t: Tree)
    requires IsBST(t) && EveryDistrict(t, WellFormed)
    ensures Consistent(Districts(t))
  {
    KeyedById(t);
    EveryDistrictByMap(t, WellFormed);
  }

  /** Stocked lists at every node, read on the map view. */
  lemma StockedIsStockedMap(t: Tree)
    requires IsBST(t)
    ensures Stocked(t, Odd) && Stocked(t, Even) <==> StockedMap(Districts(t))
  {
    EveryDistrictByMap(t, HasOdd);
    EveryDistrictByMap(t, HasEven);
  }

  /** A member reserved from a stocked, well-formed district and returned leaves it stocked. */
  lemma WinnerRefilled(d: District, p: Person, par: Parity)
    requires WellFormed(d) && p in Population(d, par) && d.odd != [] && d.even != []
    ensures var back := Rejoin(Withdraw(d, p, par), p); back.odd != [] && back.even != []
  {
    WithdrawThenRejoin(d, p, par);
    var back := Rejoin(Withdraw(d, p, par), p);
    assert Population(d, par)[0] in multiset(Population(back, par));
    assert Population(back, par) != [];
    if par == Odd {
      assert back.even == d.even;
    } else {
      assert back.odd == d.odd;
    }
  }

  class HungerGames {
    /** The districts not yet entered into the game. */
    var districts: seq<District>
    /** The root of the BST of districts still in the game. */
    var game: Tree
    /** The seeded random source ... */
    const uniform: Uniform
    /** ... and the number of draws taken from it so far. */
    var draws: nat

    /**
     * The tree keeps the ordering invariant, and each of its districts lists
     * only its own people, each in the list matching their birth month.
     */
    ghost predicate Valid()
      reads this
    {
      IsBST(game) && EveryDistrict(game, WellFormed)
    }

    /** An empty game; the random source is the one setSeed fixed. */
    constructor (uniform: Uniform)
      ensures Valid()
      ensures districts == [] && game == Nil && this.uniform == uniform && draws == 0
    {
      districts := [];
      game := Nil;
      this.uniform := uniform;
      draws := 0;
    }

    /**
     * addDistrictToGame(getRoot(), newDistrict): an empty game gets a single
     * node; otherwise the helper adds a leaf unless the ID is present. Each
     * new node removes its district from the waiting list.
     */
    method AddDistrictToGame(newDistrict: District)
      requires Valid() && WellFormed(newDistrict)
      modifies this
      ensures Valid() && draws == old(draws)
      ensures old(game) == Nil ==> game == Node(newDistrict, Nil, Nil)
      ensures newDistrict.id !in Keys(old(game)) ==>
        && Keys(game) == Keys(old(game)) + {newDistrict.id}
        && Districts(game) == Districts(old(game))[newDistrict.id := newDistrict]
        && districts == RemoveFirst(old(districts), newDistrict)
        && AddsLeaf(Shape(old(game)), Shape(game), newDistrict.id)
      ensures newDistrict.id in Keys(old(game)) ==> game == old(game) && districts == old(districts)
    {
      if game == Nil {
        game := Node(newDistrict, Nil, Nil);
        districts := RemoveFirst(districts, newDistrict);
      } else {
        var added;
        EveryDistrictByMap(game, WellFormed);
        game, added := InsertHelper(game, newDistrict);
        EveryDistrictByMap(game, WellFormed);
        if added {
          districts := RemoveFirst(districts, newDistrict);
        }
      }
    }

    /** findDistrict(id): the district of the game with that ID, if any. */
    function FindDistrict(id: int): (r: Option<District>)
      reads this
      requires Valid()
      ensures r.Some? <==> id in Keys(game)
      ensures r.Some? ==> r.value.id == id && r.value == Districts(game)[id]
    {
      DistrictTree.FindDistrict(game, id)
    }

    /** eliminateDistrict(id): deletes the district from the tree; absent IDs change nothing. */
    method EliminateDistrict(id: int)
      requires Valid()
      modifies this
      ensures Valid() && districts == old(districts) && draws == old(draws)
      ensures Keys(game) == Keys(old(game)) - {id}
      ensures Districts(game) == Districts(old(game)) - {id}
      ensures id !in Keys(old(game)) ==> game == old(game)
      ensures Shape(game) == Without(Shape(old(game)), id)
    {
      EveryDistrictByMap(game, WellFormed);
      game := DeleteDistrict(game, id);
      EveryDistrictByMap(game, WellFormed);
    }

    /** Takes p out of the par list of their district, as found by findDistrict. */
    method Reserve(p: Person, par: Parity)
      requires Valid() && Holds(game, p, par)
      modifies this`game
      ensures Valid() && Keys(game) == Keys(old(game)) && Shape(game) == Shape(old(game))
      ensures Districts(game) == Reserved(Districts(old(game)), Some(p), par)
    {
      var district := FindDistrict(p.districtID);
      EveryDistrictByMap(game, WellFormed);
      game := Replace(game, Withdraw(district.value, p, par));
      EveryDistrictByMap(game, WellFormed);
    }

    /**
     * selectDuelers: picks person1 from an odd list and person2 from an even
     * list of districts other than each other's, then reserves both by
     * removing them from those lists. The random fallback needs every
     * district's lists to be non-empty.
     */
    method SelectDuelers() returns (pair: DuelPair)
      requires Valid() && Stocked(game, Odd) && Stocked(game, Even)
      modifies this`game, this`draws
      ensures Valid() && districts == old(districts)
      ensures Picked(old(game), uniform, old(draws), pair, draws)
      ensures Keys(game) == Keys(old(game)) && Shape(game) == Shape(old(game))
      ensures Districts(game) == Reserved(Reserved(Districts(old(game)), pair.person1, Odd), pair.person2, Even)
    {
      pair := ChooseDuelers();
      ReservePair(pair);
    }

    /** The choice part of selectDuelers, drawing from the game's random source. */
    method ChooseDuelers() returns (pair: DuelPair)
      requires Valid() && Stocked(game, Odd) && Stocked(game, Even)
      modifies this`draws
      ensures Picked(game, uniform, old(draws), pair, draws)
    {
      var calls;
      pair, calls := PickDuelers(game, uniform, draws);
      draws := calls;
    }

    /** The end of selectDuelers: each chosen person leaves their district's list. */
    method ReservePair(pair: DuelPair)
      requires Valid()
      requires pair.person1.Some? ==> Holds(game, pair.person1.value, Odd)
      requires pair.person2.Some? ==> Holds(game, pair.person2.value, Even)
      requires pair.person1.Some? && pair.person2.Some? ==>
        pair.person1.value.districtID != pair.person2.value.districtID
      modifies this`game
      ensures Valid() && Keys(game) == Keys(old(game)) && Shape(game) == Shape(old(game))
      ensures Districts(game) == Reserved(Reserved(Districts(old(game)), pair.person1, Odd), pair.person2, Even)
    {
      ghost var picked := game;
      if pair.person1.Some? {
        Reserve(pair.person1.value, Odd);
      }
      if pair.person2.Some? {
        var p := pair.person2.value;
        assert Districts(game)[p.districtID] == Districts(picked)[p.districtID];
        Reserve(p, Even);
      }
    }

    /** Returns p to their district's list matching their birth month, if the district is in the game. */
    method ReturnToDistrict(p: Person)
      requires Valid()
      modifies this`game
      ensures Valid() && Keys(game) == Keys(old(game)) && Shape(game) == Shape(old(game))
      ensures Districts(game) == Returned(Districts(old(game)), p)
    {
      var district := FindDistrictByID(game, p.districtID);
      FindersAgree(game, p.districtID);
      if district.Some? {
        EveryDistrictByMap(game, WellFormed);
        game := Replace(game, Rejoin(district.value, p));
        EveryDistrictByMap(game, WellFormed);
      }
    }

    /** The loser's part of eliminateDueler: their district leaves the game once one of its lists is empty. */
    method EliminateIfExhausted(loserDistrictID: int)
      requires Valid()
      modifies this
      ensures Valid() && districts == old(districts) && draws == old(draws)
      ensures Districts(game) == Exhausted(Districts(old(game)), loserDistrictID)
      ensures loserDistrictID in Districts(game) ==>
        Districts(game)[loserDistrictID].odd != [] && Districts(game)[loserDistrictID].even != []
      ensures Keys(game) == Keys(old(game)) ==> game == old(game)
      ensures Keys(game) != Keys(old(game)) ==> Shape(game) == Without(Shape(old(game)), loserDistrictID)
    {
      var loserDistrict := FindDistrictByID(game, loserDistrictID);
      FindersAgree(game, loserDistrictID);
      if loserDistrict.Some? {
        var oddPopulationSize := |loserDistrict.value.odd|;
        var evenPopulationSize := |loserDistrict.value.even|;
        if oddPopulationSize == 0 || evenPopulationSize == 0 {
          EliminateDistrict(loserDistrictID);
        }
      }
    }

    /**
     * One round of the game as its driver plays it: selectDuelers, then
     * eliminateDueler on the pair it returned. Every district still in the
     * game keeps both lists non-empty, so the next round may select again;
     * only the loser's district can leave.
     */
    method PlayRound(duel: Duel) returns (pair: DuelPair)
      requires Valid() && Stocked(game, Odd) && Stocked(game, Even)
      modifies this
      ensures Valid() && Stocked(game, Odd) && Stocked(game, Even)
      ensures districts == old(districts) && old(draws) <= draws
      ensures Keys(game) <= Keys(old(game))
      ensures pair.person1.Some? && pair.person2.Some? ==>
        var winner := duel(pair.person1.value, pair.person2.value);
        var loserID := if winner == pair.person1.value then pair.person2.value.districtID
                       else pair.person1.value.districtID;
        Keys(old(game)) - {loserID} <= Keys(game)
      ensures pair.person1.None? || pair.person2.None? ==> Keys(game) == Keys(old(game))
    {
      ghost var m := Districts(game);
      ValidIsConsistent(game);
      StockedIsStockedMap(game);
      pair := SelectDuelers();
      EliminateDueler(pair, duel);
      if pair.person1.Some? && pair.person2.Some? {
        RoundKeepsStocked(m, pair.person1.value, pair.person2.value, duel(pair.person1.value, pair.person2.value));
      } else if pair.person1.Some? {
        LoneRoundKeepsStocked(m, pair.person1.value, Odd);
      } else if pair.person2.Some? {
        LoneRoundKeepsStocked(m, pair.person2.value, Even);
      }
      StockedIsStockedMap(game);
    }

    /**
     * eliminateDueler: with two duelers, the winner goes back to their
     * district and the loser is dropped; the loser's district leaves the game
     * if one of its lists is now empty. A lone dueler simply goes back.
     */
    method EliminateDueler(pair: DuelPair, duel: Duel)
      requires Valid()
      modifies this
      ensures Valid() && districts == old(districts) && draws == old(draws)
      ensures pair.person1.Some? && pair.person2.Some? ==>
        var winner := duel(pair.person1.value, pair.person2.value);
        var loserID := if winner == pair.person1.value then pair.person2.value.districtID
                       else pair.person1.value.districtID;
        && Districts(game) == Exhausted(Returned(Districts(old(game)), winner), loserID)
        && (loserID in Districts(game) ==> Districts(game)[loserID].odd != [] && Districts(game)[loserID].even != [])
        && (Keys(game) == Keys(old(game)) ==> Shape(game) == Shape(old(game)))
        && (Keys(game) != Keys(old(game)) ==> Shape(game) == Without(Shape(old(game)), loserID))
      ensures pair.person1.Some? && pair.person2.None? ==>
        && Keys(game) == Keys(old(game)) && Shape(game) == Shape(old(game))
        && Districts(game) == Returned(Districts(old(game)), pair.person1.value)
      ensures pair.person1.None? && pair.person2.Some? ==>
        && Keys(game) == Keys(old(game)) && Shape(game) == Shape(old(game))
        && Districts(game) == Returned(Districts(old(game)), pair.person2.value)
      ensures pair.person1.None? && pair.person2.None? ==> game == old(game)
    {
      var person1 := pair.person1;
      var person2 := pair.person2;
      if person1.Some? && person2.Some? {
        var winner := duel(person1.value, person2.value);
        ReturnToDistrict(winner);
        var loserDistrictID := if winner == person1.value then person2.value.districtID else person1.value.districtID;
        EliminateIfExhausted(loserDistrictID);
      } else {
        if person1.Some? {
          ReturnToDistrict(person1.value);
        }
        if person2.Some? {
          ReturnToDistrict(person2.value);
        }
      }
    }
  }
}
