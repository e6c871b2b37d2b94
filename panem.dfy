/**
 * People and districts of Panem. A District holds its competitors in two
 * ordered lists, one for odd birth months and one for even birth months.
 */
module Panem {
  import opened Lists

  /** A competitor; only districtID, birthMonth and tessera matter to the engine. */
  datatype Person = Person(
    firstName: string,
    lastName: string,
    birthMonth: int,
    age: int,
    districtID: int,
    effectiveness: int,
    tessera: bool)

  datatype District = District(id: int, odd: seq<Person>, even: seq<Person>)

  /** Names one of a district's two lists. */
  datatype Parity = Odd | Even

  function Population(d: District, par: Parity): seq<Person> {
    if par == Odd then d.odd else d.even
  }

  /** Replaces the list that par names and keeps the other one. */
  function WithPopulation(d: District, par: Parity, s: seq<Person>): (r: District)
    ensures r.id == d.id && Population(r, par) == s
    ensures Population(r, Other(par)) == Population(d, Other(par))
  {
    if par == Odd then District(d.id, s, d.even) else District(d.id, d.odd, s)
  }

  function Other(par: Parity): Parity {
    if par == Odd then Even else Odd
  }

  /** Java's `m % 2`: the remainder truncates toward zero, so it is -1 for negative odd m. */
  function JavaRem2(m: int): (r: int)
    ensures r == 0 <==> m % 2 == 0
    ensures m % 2 == 1 && m > 0 ==> r == 1
    ensures m % 2 == 1 && m < 0 ==> r == -1
  {
    if m >= 0 then m % 2 else -((-m) % 2)
  }

  /** The tessera rule of setup: a competitor aged 12 to 17 holds a tessera. */
  predicate HasTessera(age: int) {
    12 <= age < 18
  }

  /** The list setup puts a person in: even when `birthMonth % 2 == 0`, odd otherwise. */
  function SetupParity(birthMonth: int): Parity {
    if JavaRem2(birthMonth) == 0 then Even else Odd
  }

  /** The list a dueler is returned to: odd when `birthMonth % 2 == 1`, even otherwise. */
  function ReturnParity(p: Person): Parity {
    if JavaRem2(p.birthMonth) == 1 then Odd else Even
  }

  /**
   * What setup establishes of every district: each listed person carries the
   * district's ID and sits in the list that a return would put them back in.
   */
  predicate WellFormed(d: District) {
    && (forall p :: p in d.odd ==> p.districtID == d.id && ReturnParity(p) == Odd)
    && (forall p :: p in d.even ==> p.districtID == d.id && ReturnParity(p) == Even)
  }

  /** Setting up one person: tessera by age, then into the matching district's list by birth month. */
  function Enlist(d: District, firstName: string, lastName: string, birthMonth: int, age: int,
                  districtID: int, effectiveness: int): (r: District)
    ensures r.id == d.id
    ensures districtID != d.id ==> r == d
    ensures districtID == d.id ==>
      var par, n := SetupParity(birthMonth), |Population(d, SetupParity(birthMonth))|;
      && |Population(r, par)| == n + 1
      && Population(r, par)[..n] == Population(d, par)
      && (Population(r, par)[n].tessera <==> 12 <= age <= 17)
      && Population(r, par)[n].birthMonth == birthMonth
      && Population(r, par)[n].districtID == districtID
      && Population(r, Other(par)) == Population(d, Other(par))
    ensures WellFormed(d) && birthMonth >= 0 ==> WellFormed(r)
  {
    var p := Person(firstName, lastName, birthMonth, age, districtID, effectiveness, HasTessera(age));
    if districtID != d.id then d
    else
      var par := SetupParity(birthMonth);
      assert Population(d, par) + [p] == Population(WithPopulation(d, par, Population(d, par) + [p]), par);
      WithPopulation(d, par, Population(d, par) + [p])
  }

  /** For the birth months setup accepts, the two parity rules agree. */
  lemma ReturnMatchesSetup(p: Person)
    requires p.birthMonth >= 0
    ensures ReturnParity(p) == SetupParity(p.birthMonth)
  {
  }

  /** For a negative odd month they do not: setup says odd, a return says even. */
  lemma NegativeMonthDisagrees(p: Person)
    requires p.birthMonth < 0 && p.birthMonth % 2 == 1
    ensures SetupParity(p.birthMonth) == Odd && ReturnParity(p) == Even
  {
  }

  /** selectDuelers' reservation: the first occurrence of p leaves the list par names. */
  function Withdraw(d: District, p: Person, par: Parity): (r: District)
    ensures r.id == d.id
    ensures multiset(Population(r, par)) == multiset(Population(d, par)) - multiset{p}
    ensures p in Population(d, par) ==> |Population(r, par)| == |Population(d, par)| - 1
    ensures Population(r, Other(par)) == Population(d, Other(par))
    ensures WellFormed(d) ==> WellFormed(r)
  {
    RemoveFirstCounts(Population(d, par), p);
    WithPopulation(d, par, RemoveFirst(Population(d, par), p))
  }

  /** eliminateDueler's return: p is appended to the list matching their birth month. */
  function Rejoin(d: District, p: Person): (r: District)
    ensures r.id == d.id
    ensures Population(r, ReturnParity(p)) == Population(d, ReturnParity(p)) + [p]
    ensures Population(r, Other(ReturnParity(p))) == Population(d, Other(ReturnParity(p)))
    ensures WellFormed(d) && p.districtID == d.id ==> WellFormed(r)
  {
    if ReturnParity(p) == Odd then District(d.id, d.odd + [p], d.even)
    else District(d.id, d.odd, d.even + [p])
  }

  /**
   * A competitor reserved from a well-formed district and then returned goes
   * back to the list they came from, and that list again holds the same people.
   */
  lemma {:induction false} WithdrawThenRejoin(d: District, p: Person, par: Parity)
    requires WellFormed(d) && p in Population(d, par)
    ensures ReturnParity(p) == par
    ensures multiset(Population(Rejoin(Withdraw(d, p, par), p), par)) == multiset(Population(d, par))
    ensures Population(Rejoin(Withdraw(d, p, par), p), Other(par)) == Population(d, Other(par))
  {
    assert ReturnParity(p) == par by {
      if par == Odd { assert p in d.odd; } else { assert p in d.even; }
    }
    var w := Withdraw(d, p, par);
    assert multiset(Population(w, par) + [p]) == multiset(Population(w, par)) + multiset{p};
  }
}
