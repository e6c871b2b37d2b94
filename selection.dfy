/**
 * Choosing the two duelers: the tessera scans, the random fallback and the
 * priority between them. Everything here only reads the tree.
 */
module Selection {
  import opened Lists
  import opened Panem
  import opened DistrictTree

  /** The two people chosen for one duel; person1 comes from an odd list, person2 from an even list. */
  datatype DuelPair = DuelPair(person1: Option<Person>, person2: Option<Person>)

  /** The exclusion ID the source passes when no district is to be skipped. */
  const NoExclusion: int := -1

  /**
   * The random source: the k-th draw made with bound n, always below n.
   * It stands for the seeded StdRandom.uniform.
   */
  type Uniform = u: (nat, nat) -> nat | forall k: nat, n: nat :: 0 < n ==> u(k, n) < n
    witness (k: nat, n: nat) => 0

  /** The tessera holders of s, in order. */
  function Tesserae(s: seq<Person>): (r: seq<Person>)
    ensures forall p :: p in r <==> p in s && p.tessera
  {
    if s == [] then []
    else
      assert s == [s[0]] + s[1..];
      (if s[0].tessera then [s[0]] else []) + Tesserae(s[1..])
  }

  /**
   * Every person a tessera scan of t may return, in the order the scan meets
   * them: a node's own list, then its left subtree, then its right subtree;
   * the district whose ID is excl contributes nobody.
   */
  function Candidates(t: Tree, excl: int, par: Parity): seq<Person> {
    match t
    case Nil => []
    case Node(d, l, r) =>
      (if d.id != excl then Tesserae(Population(d, par)) else []) + Candidates(l, excl, par) + Candidates(r, excl, par)
  }

  function First(s: seq<Person>): Option<Person> {
    if s == [] then None else Some(s[0])
  }

  /** The district a later pick must avoid: the chosen person's, or none when nobody was chosen. */
  function ExclusionOf(p: Option<Person>): int {
    if p.None? then NoExclusion else p.value.districtID
  }

  /**
   * odd(x, id) for par == Odd, even(x, id) for par == Even: the first tessera
   * holder in the scan order, outside district id, or None.
   */
  method Scan(x: Tree, id: int, par: Parity) returns (p: Option<Person>)
    ensures p == First(Candidates(x, id, par))
  {
    if x == Nil {
      return None;
    }
    var pop := Population(x.district, par);
    for i := 0 to |pop|
      invariant x.district.id != id ==> Tesserae(pop) == Tesserae(pop[i..])
    {
      assert pop[i..] == [pop[i]] + pop[i + 1..];
      if pop[i].tessera {
        if x.district.id != id {
          return Some(pop[i]);
        }
      }
    }
    var next := Scan(x.left, id, par);
    if next.Some? {
      return next;
    }
    var nextnext := Scan(x.right, id, par);
    if nextnext.Some? {
      return nextnext;
    }
    return None;
  }

  /** The candidates are exactly the tessera holders of the par lists of districts other than excl. */
  lemma {:induction false} CandidatesAre(t: Tree, excl: int, par: Parity, p: Person)
    ensures p in Candidates(t, excl, par) <==>
      p.tessera && exists d :: d in Held(t) && d.id != excl && p in Population(d, par)
  {
    if t.Node? {
      var Node(d, l, r) := t;
      CandidatesAre(l, excl, par, p);
      CandidatesAre(r, excl, par, p);
    }
  }

  /** In a tree of well-formed districts, a candidate belongs to a district other than excl. */
  lemma CandidateDistrict(t: Tree, excl: int, par: Parity, p: Person)
    requires EveryDistrict(t, WellFormed) && p in Candidates(t, excl, par)
    ensures p.tessera && p.districtID != excl
    ensures exists d :: d in Held(t) && d.id == p.districtID && p in Population(d, par)
  {
    CandidatesAre(t, excl, par, p);
    var d :| d in Held(t) && d.id != excl && p in Population(d, par);
    HeldWellFormed(t, d);
  }

  lemma {:induction false} HeldWellFormed(t: Tree, d: District)
    requires EveryDistrict(t, WellFormed) && d in Held(t)
    ensures WellFormed(d)
  {
    var Node(x, l, r) := t;
    if d in Held(l) {
      HeldWellFormed(l, d);
    } else if d in Held(r) {
      HeldWellFormed(r, d);
    }
  }

  predicate HasOdd(d: District) {
    d.odd != []
  }

  predicate HasEven(d: District) {
    d.even != []
  }

  /** Every district of t has a non-empty par list, so uniform(size) is never called with 0. */
  predicate Stocked(t: Tree, par: Parity) {
    if par == Odd then EveryDistrict(t, HasOdd) else EveryDistrict(t, HasEven)
  }

  /**
   * randomOdd(x, id) for par == Odd, randomEven(x, id) for par == Even: draws
   * one person of the node's list; if that person's district is id, tries the
   * left subtree and then the right one. The draws are numbered from calls;
   * the result also gives the number of draws made so far.
   */
  function RandomPick(t: Tree, excl: int, par: Parity, uniform: Uniform, calls: nat): (r: (Option<Person>, nat))
    requires Stocked(t, par)
    ensures calls <= r.1
    ensures r.0.Some? ==> r.0.value.districtID != excl
    ensures r.0.Some? ==> exists d :: d in Held(t) && r.0.value in Population(d, par)
  {
    match t
    case Nil => (None, calls)
    case Node(d, l, rr) =>
      var pop := Population(d, par);
      var randomperson := pop[uniform(calls, |pop|)];
      if randomperson.districtID == excl then
        var next := RandomPick(l, excl, par, uniform, calls + 1);
        if next.0.Some? then next
        else RandomPick(rr, excl, par, uniform, next.1)
      else (Some(randomperson), calls + 1)
  }

  /**
   * In a tree of well-formed districts the random walk comes back empty
   * exactly when every district of the tree is the excluded one.
   */
  lemma {:induction false} RandomPickEmpty(t: Tree, excl: int, par: Parity, uniform: Uniform, calls: nat)
    requires Stocked(t, par) && EveryDistrict(t, WellFormed)
    ensures RandomPick(t, excl, par, uniform, calls).0.None? <==> Keys(t) <= {excl}
  {
    if t.Node? {
      var Node(d, l, rr) := t;
      var pop := Population(d, par);
      var randomperson := pop[uniform(calls, |pop|)];
      assert randomperson.districtID == d.id;
      RandomPickEmpty(l, excl, par, uniform, calls + 1);
      RandomPickEmpty(rr, excl, par, uniform, RandomPick(l, excl, par, uniform, calls + 1).1);
    }
  }

  /** p sits in the par list of the district the tree keeps under p's district ID. */
  predicate Holds(t: Tree, p: Person, par: Parity) {
    p.districtID in Districts(t) && p in Population(Districts(t)[p.districtID], par)
  }

  /**
   * Who selectDuelers picks, and how many draws it makes, given the tree and
   * the random source: the first odd tessera holder is person1; person2 is the
   * first even tessera holder outside person1's district (outside none when
   * there is no person1 yet). A role the scans leave empty is filled by the
   * random walk, person1's first, each excluding the other dueler's district;
   * person2's walk continues the draws where person1's stopped.
   */
  ghost predicate ChoiceRule(t: Tree, uniform: Uniform, calls: nat, pair: DuelPair, calls': nat)
    requires Stocked(t, Odd) && Stocked(t, Even)
  {
    var scan1 := First(Candidates(t, NoExclusion, Odd));
    var scan2 := First(Candidates(t, ExclusionOf(scan1), Even));
    && (scan1.Some? ==> pair.person1 == scan1)
    && (scan2.Some? ==> pair.person2 == scan2)
    && (scan1.None? ==>
          var pick1 := RandomPick(t, ExclusionOf(scan2), Odd, uniform, calls);
          && pair.person1 == pick1.0
          && (scan2.Some? ==> calls' == pick1.1)
          && (scan2.None? ==>
                var pick2 := RandomPick(t, ExclusionOf(pick1.0), Even, uniform, pick1.1);
                pair.person2 == pick2.0 && calls' == pick2.1))
    && (scan1.Some? && scan2.None? ==>
          var pick2 := RandomPick(t, ExclusionOf(scan1), Even, uniform, calls);
          pair.person2 == pick2.0 && calls' == pick2.1)
    && (scan1.Some? && scan2.Some? ==> calls' == calls)
  }

  /**
   * Everything the choice part of selectDuelers promises, in one place: the
   * draw count never decreases, each dueler holds a place in the right list
   * of their own district, the two come from different districts, the
   * choices follow ChoiceRule, and the roles are filled according to how
   * many districts the tree holds.
   */
  ghost predicate Picked(t: Tree, uniform: Uniform, calls: nat, pair: DuelPair, calls': nat)
    requires Stocked(t, Odd) && Stocked(t, Even)
  {
    && calls <= calls'
    && (pair.person1.Some? ==> Holds(t, pair.person1.value, Odd))
    && (pair.person2.Some? ==> Holds(t, pair.person2.value, Even))
    && (pair.person1.Some? && pair.person2.Some? ==>
          pair.person1.value.districtID != pair.person2.value.districtID)
    && ChoiceRule(t, uniform, calls, pair, calls')
    && (pair.person1.Some? && pair.person2.Some? <==> |Keys(t)| >= 2)
    && (pair.person1.None? && pair.person2.None? <==> Keys(t) <= {NoExclusion})
  }

  /**
   * The choice part of selectDuelers (everything before the reservation):
   * tessera scans first, person1 before person2 unless no odd tessera holder
   * exists, then the random fallback for whichever role is still empty, each
   * time excluding the district of the person already chosen.
   */
  method PickDuelers(t: Tree, uniform: Uniform, calls: nat) returns (pair: DuelPair, calls': nat)
    requires IsBST(t) && EveryDistrict(t, WellFormed)
    requires Stocked(t, Odd) && Stocked(t, Even)
    ensures Picked(t, uniform, calls, pair, calls')
  {
    var person1 := Scan(t, NoExclusion, Odd);
    var person2;
    if person1.None? {
      person2 := Scan(t, NoExclusion, Even);
    } else {
      person2 := Scan(t, person1.value.districtID, Even);
    }
    ScanFacts(t, NoExclusion, Odd, person1);
    ScanFacts(t, if person1.None? then NoExclusion else person1.value.districtID, Even, person2);

    calls' := calls;
    if person1.None? {
      var excl := if person2.None? then NoExclusion else person2.value.districtID;
      RandomPickEmpty(t, excl, Odd, uniform, calls');
      RandomFacts(t, excl, Odd, uniform, calls');
      person1, calls' := RandomPick(t, excl, Odd, uniform, calls').0, RandomPick(t, excl, Odd, uniform, calls').1;
    }
    if person2.None? {
      var excl := if person1.None? then NoExclusion else person1.value.districtID;
      RandomPickEmpty(t, excl, Even, uniform, calls');
      RandomFacts(t, excl, Even, uniform, calls');
      person2, calls' := RandomPick(t, excl, Even, uniform, calls').0, RandomPick(t, excl, Even, uniform, calls').1;
    }
    pair := DuelPair(person1, person2);
    if person1.Some? {
      SingleKey(Keys(t), person1.value.districtID);
    } else if person2.Some? {
      SingleKey(Keys(t), person2.value.districtID);
    }
  }

  /** For a key x of S: S holds nothing but x exactly when S has fewer than two keys. */
  lemma SingleKey(S: set<int>, x: int)
    requires x in S
    ensures S <= {x} <==> |S| < 2
  {
    if S <= {x} {
      assert S == {x};
    } else {
      assert S - {x} != {};
      assert S == (S - {x}) + {x};
    }
  }

  /** What a scan result says about the tree, in the terms PickDuelers states. */
  lemma ScanFacts(t: Tree, excl: int, par: Parity, p: Option<Person>)
    requires IsBST(t) && EveryDistrict(t, WellFormed) && p == First(Candidates(t, excl, par))
    ensures p.Some? ==> Holds(t, p.value, par) && p.value.districtID != excl
    ensures p.Some? ==> p.value.districtID in Keys(t)
  {
    if p.Some? {
      CandidateDistrict(t, excl, par, p.value);
      var d :| d in Held(t) && d.id == p.value.districtID && p.value in Population(d, par);
      HeldIsMapped(t, d);
    }
  }

  /** What a random pick says about the tree, in the terms PickDuelers states. */
  lemma RandomFacts(t: Tree, excl: int, par: Parity, uniform: Uniform, calls: nat)
    requires IsBST(t) && EveryDistrict(t, WellFormed) && Stocked(t, par)
    ensures var p := RandomPick(t, excl, par, uniform, calls).0;
      p.Some? ==> Holds(t, p.value, par) && p.value.districtID in Keys(t)
  {
    var p := RandomPick(t, excl, par, uniform, calls).0;
    if p.Some? {
      var d :| d in Held(t) && p.value in Population(d, par);
      HeldWellFormed(t, d);
      assert p.value.districtID == d.id;
      HeldIsMapped(t, d);
    }
  }
}
