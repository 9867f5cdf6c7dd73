/** `PoolerRoster`: the four lists of player ids a participant owns, and the list
    operations the engine performs on them. The roster is a value held in the
    context's map, so its `&mut self` removals are functions returning the new roster. */
module Roster {
  import opened PoolTypes

  /** `iter().position(|x| x == v)`: the index of the first occurrence of `v`. */
  function IndexOf(s: seq<nat>, v: nat): (i: nat)
    requires v in s
    ensures i < |s| && s[i] == v && v !in s[..i]
  {
    if s[0] == v then 0
    else
      assert v in s[1..] by { var k :| 0 <= k < |s| && s[k] == v; assert s[1..][k - 1] == v; }
      var j := IndexOf(s[1..], v);
      assert s[..j + 1] == [s[0]] + s[1..][..j];
      j + 1
  }

  /** `position(..).map(|i| s.remove(i)).is_some()`: removes the first occurrence of `v`,
      reporting whether there was one. */
  function RemoveFirst(s: seq<nat>, v: nat): (r: (bool, seq<nat>))
    ensures r.0 <==> v in s
    ensures !r.0 ==> r.1 == s
    ensures r.0 ==> |r.1| == |s| - 1 && multiset(r.1) == multiset(s) - multiset{v}
    ensures r.0 ==> exists i :: 0 <= i < |s| && s[i] == v && v !in s[..i] && r.1 == s[..i] + s[i + 1..]
  {
    if v in s then
      var i := IndexOf(s, v);
      assert s == s[..i] + [s[i]] + s[i + 1..];
      assert s[i] == v && v !in s[..i];
      (true, s[..i] + s[i + 1..])
    else (false, s)
  }

  /** Removing a value that was just appended to a list that did not hold it gives the list back. */
  lemma RemoveFirstOfAppended(s: seq<nat>, v: nat)
    requires v !in s
    ensures RemoveFirst(s + [v], v) == (true, s)
  {
    var t := s + [v];
    assert t[|s|] == v;
    assert t[..|s|] == s;
    assert t[|s| + 1..] == [];
    var i := IndexOf(t, v);
    assert i == |s|;
    assert t[..i] + t[i + 1..] == s;
    assert RemoveFirst(t, v) == (true, t[..i] + t[i + 1..]);
  }

  /** `retain(|x| x != v)`: drops every occurrence of `v`, keeping the order of the rest. */
  function Without(s: seq<nat>, v: nat): (r: seq<nat>)
    ensures v !in r
    ensures forall x :: x != v ==> multiset(r)[x] == multiset(s)[x]
    ensures v !in s ==> r == s
  {
    if |s| == 0 then []
    else
      assert s == [s[0]] + s[1..];
      if s[0] == v then Without(s[1..], v) else [s[0]] + Without(s[1..], v)
  }

  /** `retain` is a filter: on a concatenation it keeps each part's survivors, in order. */
  lemma {:induction false} WithoutConcat(a: seq<nat>, b: seq<nat>, v: nat)
    ensures Without(a + b, v) == Without(a, v) + Without(b, v)
    decreases |a|
  {
    if |a| == 0 {
      assert a + b == b;
    } else {
      var rest := a[1..];
      assert a + b == [a[0]] + (rest + b) && (a + b)[1..] == rest + b;
      WithoutConcat(rest, b, v);
    }
  }

  /** A one-element list survives `retain` exactly when its element differs from `v`. */
  lemma WithoutSingle(x: nat, v: nat)
    ensures Without([x], v) == if x == v then [] else [x]
  {
    assert [x][1..] == [];
  }

  /** Taking one occurrence out of one part of a multiset sum takes it out of the sum. */
  lemma TakeOne(a: multiset<nat>, b: multiset<nat>, x: nat)
    ensures x in a ==> (a - multiset{x}) + b == (a + b) - multiset{x}
  {
  }

  /** Appending to one part of a multiset sum adds to the sum. */
  lemma PutOne(s: seq<nat>, b: multiset<nat>, x: nat)
    ensures multiset(s + [x]) + b == (multiset(s) + b) + multiset{x}
  {
  }

  datatype PoolerRoster = PoolerRoster(
    forwards: seq<nat>,
    defenders: seq<nat>,
    goalies: seq<nat>,
    reservists: seq<nat>)
  {
    /** `get_roster_count`: the size of the four lists together. */
    function Count(): nat
    {
      |forwards| + |defenders| + |goalies| + |reservists|
    }

    /** All the ids of the roster, with their multiplicities. */
    function Ids(): multiset<nat>
    {
      multiset(forwards) + multiset(defenders) + multiset(goalies) + multiset(reservists)
    }

    /** `validate_player_possession`: the id is in one of the four lists. */
    predicate Possesses(id: nat)
    {
      id in forwards || id in defenders || id in goalies || id in reservists
    }

    function RemoveForward(id: nat): (r: (bool, PoolerRoster))
      ensures r.0 <==> id in forwards
      ensures r.1 == this.(forwards := RemoveFirst(forwards, id).1)
      ensures r.0 ==> r.1.Count() == Count() - 1 && r.1.Ids() == Ids() - multiset{id}
    {
      var (found, rest) := RemoveFirst(forwards, id);
      TakeOne(multiset(forwards), multiset(defenders) + multiset(goalies) + multiset(reservists), id);
      (found, this.(forwards := rest))
    }

    function RemoveDefender(id: nat): (r: (bool, PoolerRoster))
      ensures r.0 <==> id in defenders
      ensures r.1 == this.(defenders := RemoveFirst(defenders, id).1)
      ensures r.0 ==> r.1.Count() == Count() - 1 && r.1.Ids() == Ids() - multiset{id}
    {
      var (found, rest) := RemoveFirst(defenders, id);
      TakeOne(multiset(defenders), multiset(forwards) + multiset(goalies) + multiset(reservists), id);
      (found, this.(defenders := rest))
    }

    function RemoveGoalie(id: nat): (r: (bool, PoolerRoster))
      ensures r.0 <==> id in goalies
      ensures r.1 == this.(goalies := RemoveFirst(goalies, id).1)
      ensures r.0 ==> r.1.Count() == Count() - 1 && r.1.Ids() == Ids() - multiset{id}
    {
      var (found, rest) := RemoveFirst(goalies, id);
      TakeOne(multiset(goalies), multiset(forwards) + multiset(defenders) + multiset(reservists), id);
      (found, this.(goalies := rest))
    }

    function RemoveReservist(id: nat): (r: (bool, PoolerRoster))
      ensures r.0 <==> id in reservists
      ensures r.1 == this.(reservists := RemoveFirst(reservists, id).1)
      ensures r.0 ==> r.1.Count() == Count() - 1 && r.1.Ids() == Ids() - multiset{id}
    {
      var (found, rest) := RemoveFirst(reservists, id);
      TakeOne(multiset(reservists), multiset(forwards) + multiset(defenders) + multiset(goalies), id);
      (found, this.(reservists := rest))
    }

    /** The roster part of `remove_player_from_roster`: the first list holding the id
        (forwards, defenders, goalies, reservists) loses its first occurrence of it. */
    function RemovePlayer(id: nat): (r: Option<PoolerRoster>)
      ensures r.None? <==> !Possesses(id)
      ensures r.Some? ==> r.value.Count() == Count() - 1 && r.value.Ids() == Ids() - multiset{id}
      ensures id in forwards ==> r == Some(this.(forwards := RemoveFirst(forwards, id).1))
      ensures id !in forwards && id in defenders ==> r == Some(this.(defenders := RemoveFirst(defenders, id).1))
      ensures id !in forwards && id !in defenders && id in goalies ==>
        r == Some(this.(goalies := RemoveFirst(goalies, id).1))
      ensures id !in forwards && id !in defenders && id !in goalies && id in reservists ==>
        r == Some(this.(reservists := RemoveFirst(reservists, id).1))
    {
      var (f, r1) := RemoveForward(id);
      if f then Some(r1) else
      var (d, r2) := RemoveDefender(id);
      if d then Some(r2) else
      var (g, r3) := RemoveGoalie(id);
      if g then Some(r3) else
      var (v, r4) := RemoveReservist(id);
      if v then Some(r4) else None
    }

    /** `add_player_to_roster` on one roster: the id joins the reservists. */
    function AddReservist(id: nat): (r: PoolerRoster)
      ensures r.Count() == Count() + 1 && r.Ids() == Ids() + multiset{id}
      ensures r.Possesses(id)
    {
      this.(reservists := reservists + [id])
    }

    /** The placement of `add_drafted_player`: the position's list if its length (as `u8`)
        is under the position's cap, otherwise the reservists if they are under their cap,
        otherwise no room. */
    function Place(id: nat, pos: Position, settings: PoolSettings): (r: Option<PoolerRoster>)
      ensures r.Some? ==> r.value.Count() == Count() + 1 && r.value.Ids() == Ids() + multiset{id}
      ensures r.Some? ==> r.value.Possesses(id)
    {
      match pos
      case F =>
        PutOne(forwards, multiset(defenders) + multiset(goalies) + multiset(reservists), id);
        if AsU8(|forwards|) < settings.numberForwards then Some(this.(forwards := forwards + [id]))
        else PlaceReservist(id, settings)
      case D =>
        PutOne(defenders, multiset(forwards) + multiset(goalies) + multiset(reservists), id);
        if AsU8(|defenders|) < settings.numberDefenders then Some(this.(defenders := defenders + [id]))
        else PlaceReservist(id, settings)
      case G =>
        PutOne(goalies, multiset(forwards) + multiset(defenders) + multiset(reservists), id);
        if AsU8(|goalies|) < settings.numberGoalies then Some(this.(goalies := goalies + [id]))
        else PlaceReservist(id, settings)
    }

    function PlaceReservist(id: nat, settings: PoolSettings): (r: Option<PoolerRoster>)
      ensures r.Some? ==> r.value == AddReservist(id)
      ensures r.None? <==> AsU8(|reservists|) >= settings.numberReservists
    {
      if AsU8(|reservists|) < settings.numberReservists then Some(AddReservist(id)) else None
    }

    /** The slot list a player of this position is drafted into first. */
    function Slot(pos: Position): seq<nat>
    {
      match pos
      case F => forwards
      case D => defenders
      case G => goalies
    }

    function SlotCap(pos: Position, settings: PoolSettings): U8
    {
      match pos
      case F => settings.numberForwards
      case D => settings.numberDefenders
      case G => settings.numberGoalies
    }
  }

  const EmptyRoster := PoolerRoster([], [], [], [])

  /** Placement follows the priority of the source: the position's list while it is under
      its cap, then the reservists while they are under theirs, else an error. */
  lemma PlacementPriority(r: PoolerRoster, id: nat, pos: Position, settings: PoolSettings)
    ensures AsU8(|r.Slot(pos)|) < r.SlotCap(pos, settings) ==>
      r.Place(id, pos, settings).Some? && r.Place(id, pos, settings).value.Slot(pos) == r.Slot(pos) + [id]
      && r.Place(id, pos, settings).value.reservists == r.reservists
    ensures AsU8(|r.Slot(pos)|) >= r.SlotCap(pos, settings) ==>
      r.Place(id, pos, settings) == r.PlaceReservist(id, settings)
    ensures r.Place(id, pos, settings).None? <==>
      AsU8(|r.Slot(pos)|) >= r.SlotCap(pos, settings) && AsU8(|r.reservists|) >= settings.numberReservists
  {
  }

  /** A roster holds an id exactly when the id occurs among the roster's ids. */
  lemma PossessesIds(r: PoolerRoster, id: nat)
    ensures r.Possesses(id) <==> r.Ids()[id] > 0
  {
    assert r.Ids()[id] == multiset(r.forwards)[id] + multiset(r.defenders)[id]
                         + multiset(r.goalies)[id] + multiset(r.reservists)[id];
  }

  /** Removing a reservist that was just added to a roster that did not hold it gives the
      roster back. */
  lemma RemoveAfterAddReservist(r: PoolerRoster, id: nat)
    requires !r.Possesses(id)
    ensures r.AddReservist(id).RemovePlayer(id) == Some(r)
  {
    RemoveFirstOfAppended(r.reservists, id);
  }

  /** Undoing a placement: when the roster did not hold the id, removing it from the
      placed roster gives back the roster it was placed into. */
  lemma RemoveAfterPlace(r: PoolerRoster, id: nat, pos: Position, settings: PoolSettings)
    requires !r.Possesses(id)
    requires r.Place(id, pos, settings).Some?
    ensures r.Place(id, pos, settings).value.RemovePlayer(id) == Some(r)
  {
    var placed := r.Place(id, pos, settings).value;
    if AsU8(|r.Slot(pos)|) < r.SlotCap(pos, settings) {
      match pos
      case F =>
        assert placed == r.(forwards := r.forwards + [id]);
        RemoveFirstOfAppended(r.forwards, id);
      case D =>
        assert placed == r.(defenders := r.defenders + [id]);
        RemoveFirstOfAppended(r.defenders, id);
      case G =>
        assert placed == r.(goalies := r.goalies + [id]);
        RemoveFirstOfAppended(r.goalies, id);
    } else {
      assert placed == r.(reservists := r.reservists + [id]);
      RemoveFirstOfAppended(r.reservists, id);
    }
  }
}
