/**
 * The player roster of the poker table: the values the table's handlers
 * build with `map`, `filter`, `find` and spread, and the pot, a `reduce`.
 * Chip amounts are integer cents.
 */
module Roster {
  import opened Common
  import opened Text
  import opened Money

  datatype Player = Player(id: int, name: string, chips: int, position: int, isActive: bool)

  /** Seats around the table; also the most players the table holds. */
  const MaxPlayers: nat := 10

  /** The buy-in, in dollars, used when the typed one is not a non-zero number. */
  const DefaultBuyIn: real := 10.0

  /** The roster the table opens with. */
  function InitialPlayers(): seq<Player> {
    [ Player(1, "Player 1", 1000, 0, true),
      Player(2, "Player 2", 2000, 3, false),
      Player(3, "You", 1500, 5, true),
      Player(4, "Player 4", 2000, 7, true) ]
  }

  /** The pot: every player's chips added up, left to right. */
  function Pot(ps: seq<Player>): int {
    if ps == [] then 0 else Pot(ps[..|ps| - 1]) + ps[|ps| - 1].chips
  }

  /** Every seat is one of the ten and no two players share one. */
  ghost predicate SeatsValid(ps: seq<Player>) {
    && (forall i :: 0 <= i < |ps| ==> 0 <= ps[i].position < MaxPlayers)
    && (forall i, j :: 0 <= i < j < |ps| ==> ps[i].position != ps[j].position)
  }

  ghost predicate IdsUnique(ps: seq<Player>) {
    forall i, j :: 0 <= i < j < |ps| ==> ps[i].id != ps[j].id
  }

  /** The roster invariant: at most ten players, seats valid, ids unique. */
  ghost predicate RosterValid(ps: seq<Player>) {
    |ps| <= MaxPlayers && SeatsValid(ps) && IdsUnique(ps)
  }

  predicate Occupied(ps: seq<Player>, seat: int) {
    exists i :: 0 <= i < |ps| && ps[i].position == seat
  }

  /** The first seat, from `from` on, that nobody holds. */
  function FreeSeatFrom(ps: seq<Player>, from: nat): (r: Option<int>)
    requires from <= MaxPlayers
    ensures r.Some? ==> from <= r.value < MaxPlayers && !Occupied(ps, r.value)
    ensures r.Some? ==> forall k :: from <= k < r.value ==> Occupied(ps, k)
    ensures r.None? ==> forall k :: from <= k < MaxPlayers ==> Occupied(ps, k)
    decreases MaxPlayers - from
  {
    if from == MaxPlayers then None
    else if !Occupied(ps, from) then Some(from)
    else FreeSeatFrom(ps, from + 1)
  }

  /** The lowest seat in `[0, 10)` that nobody holds, if any. */
  function FirstFreeSeat(ps: seq<Player>): Option<int> {
    FreeSeatFrom(ps, 0)
  }

  /** `Math.max(0, ...ids)`. */
  function MaxId(ps: seq<Player>): (r: int)
    ensures r >= 0
    ensures forall i :: 0 <= i < |ps| ==> ps[i].id <= r
    ensures r == 0 || exists i :: 0 <= i < |ps| && ps[i].id == r
  {
    if ps == [] then 0
    else
      var m := MaxId(ps[..|ps| - 1]);
      var x := ps[|ps| - 1].id;
      if x > m then x else m
  }

  /** The name a new player gets when none was typed: `Player <n>`. */
  function DefaultName(n: nat): string {
    "Player " + NatToString(n)
  }

  /** The buy-in of a new player: the typed amount, or 10 when it is not a non-zero number. */
  function BuyInCents(buyInText: string): int {
    RoundCents(NumberOr(ParseFloat(buyInText), DefaultBuyIn))
  }

  /** `addPlayer`: a new player in the lowest free seat, unless the table is full. */
  function Add(ps: seq<Player>, nameText: string, buyInText: string): seq<Player> {
    if |ps| >= MaxPlayers then ps
    else
      match FirstFreeSeat(ps)
      case None => ps
      case Some(seat) =>
        var name := if nameText == "" then DefaultName(|ps| + 1) else nameText;
        ps + [Player(MaxId(ps) + 1, name, BuyInCents(buyInText), seat, false)]
  }

  /** `removePlayer`: the players whose id differs from `id`, in order. */
  function Remove(ps: seq<Player>, id: int): (r: seq<Player>)
    ensures |r| <= |ps|
    ensures forall p :: p in r <==> p in ps && p.id != id
  {
    if ps == [] then []
    else
      var rest := Remove(ps[..|ps| - 1], id);
      assert forall p :: p in ps <==> p in ps[..|ps| - 1] || p == ps[|ps| - 1] by {
        assert ps == ps[..|ps| - 1] + [ps[|ps| - 1]];
      }
      if ps[|ps| - 1].id != id then rest + [ps[|ps| - 1]] else rest
  }

  /** What saving an open edit does to the player being edited. */
  function Edited(p: Player, nameText: string, buyInText: string): Player {
    p.(name := if nameText == "" then p.name else nameText,
       chips := RoundCents(NumberOr(ParseFloat(buyInText), Dollars(p.chips))))
  }

  /** `savePlayerEdit`: the player with `id` edited, every other player as it was. */
  function SaveEdit(ps: seq<Player>, id: int, nameText: string, buyInText: string): seq<Player> {
    seq(|ps|, i requires 0 <= i < |ps| => if ps[i].id == id then Edited(ps[i], nameText, buyInText) else ps[i])
  }

  // ---------------------------------------------------------------- the pot

  lemma {:induction false} PotAppend(a: seq<Player>, b: seq<Player>)
    ensures Pot(a + b) == Pot(a) + Pot(b)
    decreases |b|
  {
    if b == [] {
      assert a + b == a;
    } else {
      assert (a + b)[..|a + b| - 1] == a + b[..|b| - 1];
      PotAppend(a, b[..|b| - 1]);
    }
  }

  /** The opening roster's pot: 10 + 20 + 15 + 20 dollars. */
  lemma InitialPot()
    ensures Pot(InitialPlayers()) == 6500
  {
    var ps := InitialPlayers();
    assert Pot(ps[..1]) == 1000 by { assert ps[..1][..0] == []; }
    assert Pot(ps[..2]) == 3000 by { assert ps[..2][..1] == ps[..1]; }
    assert Pot(ps[..3]) == 4500 by { assert ps[..3][..2] == ps[..2]; }
    assert ps[..4] == ps;
  }

  /** The pot splits around any one player. */
  lemma PotSplit(ps: seq<Player>, k: nat)
    requires k < |ps|
    ensures Pot(ps) == Pot(ps[..k]) + ps[k].chips + Pot(ps[k + 1..])
  {
    assert ps == ps[..k] + [ps[k]] + ps[k + 1..];
    PotAppend(ps[..k] + [ps[k]], ps[k + 1..]);
    PotAppend(ps[..k], [ps[k]]);
    assert [ps[k]][..0] == [];
  }

  // ---------------------------------------------------------------- seats

  /** The seats taken, as a set. */
  function Seats(ps: seq<Player>): (r: set<int>)
    ensures |r| <= |ps|
    ensures forall seat :: seat in r <==> Occupied(ps, seat)
  {
    if ps == [] then {}
    else
      var init := ps[..|ps| - 1];
      var r := Seats(init) + {ps[|ps| - 1].position};
      assert forall seat :: Occupied(ps, seat) <==> Occupied(init, seat) || ps[|ps| - 1].position == seat by {
        forall seat ensures Occupied(ps, seat) <==> Occupied(init, seat) || ps[|ps| - 1].position == seat {
          if Occupied(ps, seat) {
            var i :| 0 <= i < |ps| && ps[i].position == seat;
            if i < |ps| - 1 { assert init[i] == ps[i]; }
          }
          if Occupied(init, seat) {
            var i :| 0 <= i < |init| && init[i].position == seat;
            assert ps[i] == init[i];
          }
        }
      }
      r
  }

  function SeatRange(n: nat): (r: set<int>)
    ensures |r| == n
    ensures forall k :: k in r <==> 0 <= k < n
  {
    if n == 0 then {} else SeatRange(n - 1) + {n - 1}
  }

  lemma SubsetCard(a: set<int>, b: set<int>)
    requires a <= b
    ensures |a| <= |b|
  {
    assert b == a + (b - a);
    assert a !! (b - a);
  }

  /** With fewer than ten players some seat is free, so `addPlayer` never finds none. */
  lemma FreeSeatExists(ps: seq<Player>)
    requires |ps| < MaxPlayers
    ensures FirstFreeSeat(ps).Some?
  {
    if FirstFreeSeat(ps).None? {
      var all := SeatRange(MaxPlayers);
      assert all <= Seats(ps);
      SubsetCard(all, Seats(ps));
    }
  }

  // ---------------------------------------------------------------- adding

  /** A full table is left as it is. */
  lemma AddWhenFull(ps: seq<Player>, nameText: string, buyInText: string)
    requires |ps| >= MaxPlayers
    ensures Add(ps, nameText, buyInText) == ps
  {
  }

  /**
   * Below ten players, `addPlayer` appends exactly one player and leaves the
   * others as they were: seated in the lowest free seat, with an id above every
   * current one, not active, and with the typed name or `Player <n+1>`.
   */
  lemma AddAppends(ps: seq<Player>, nameText: string, buyInText: string)
    requires |ps| < MaxPlayers
    ensures var r := Add(ps, nameText, buyInText);
      && |r| == |ps| + 1 && r[..|ps|] == ps
      && 0 <= r[|ps|].position < MaxPlayers
      && !Occupied(ps, r[|ps|].position)
      && (forall k :: 0 <= k < r[|ps|].position ==> Occupied(ps, k))
      && (forall i :: 0 <= i < |ps| ==> ps[i].id < r[|ps|].id)
      && r[|ps|].id == MaxId(ps) + 1
      && r[|ps|].name == (if nameText == "" then DefaultName(|ps| + 1) else nameText)
      && r[|ps|].chips == BuyInCents(buyInText)
      && !r[|ps|].isActive
  {
    FreeSeatExists(ps);
  }

  /** A buy-in that is not a non-zero number becomes ten dollars; a typed one is rounded to cents. */
  lemma BuyInFallback(buyInText: string)
    ensures ParseFloat(buyInText) == None || ParseFloat(buyInText) == Some(0.0) ==>
      BuyInCents(buyInText) == 1000
    ensures ParseFloat(buyInText).Some? && ParseFloat(buyInText).value != 0.0 ==>
      BuyInCents(buyInText) == RoundCents(ParseFloat(buyInText).value)
  {
    assert DefaultBuyIn == Dollars(1000);
    RoundCentsOfDollars(1000);
  }

  /** Whatever `toFixed(2)` shows for a non-zero amount is taken back as that amount. */
  lemma BuyInOfShownAmount(cents: int)
    requires cents != 0
    ensures BuyInCents(ToFixed2(cents)) == cents
  {
    var shown := ToFixed2(cents);
    ToFixed2ReadsBack(cents, []);
    assert shown + [] == shown;
    BuyInOfNumber(shown, Dollars(cents));
    RoundCentsOfDollars(cents);
  }

  lemma BuyInOfNumber(buyInText: string, v: real)
    requires ParseFloat(buyInText) == Some(v) && v != 0.0
    ensures BuyInCents(buyInText) == RoundCents(v)
  {
  }

  /** Adding keeps the roster invariant: seats distinct and in range, ids distinct, ten at most. */
  lemma AddKeepsValid(ps: seq<Player>, nameText: string, buyInText: string)
    requires RosterValid(ps)
    ensures RosterValid(Add(ps, nameText, buyInText))
  {
    if |ps| < MaxPlayers {
      AddAppends(ps, nameText, buyInText);
      var r := Add(ps, nameText, buyInText);
      assert r == ps + [r[|ps|]];
      AppendKeepsValid(ps, r[|ps|]);
    }
  }

  /** Adding raises the pot by the new player's buy-in. */
  lemma AddPot(ps: seq<Player>, nameText: string, buyInText: string)
    requires |ps| < MaxPlayers
    ensures Pot(Add(ps, nameText, buyInText)) == Pot(ps) + BuyInCents(buyInText)
  {
    AddAppends(ps, nameText, buyInText);
    var r := Add(ps, nameText, buyInText);
    assert r == ps + [r[|ps|]];
    PotAppend(ps, [r[|ps|]]);
    assert [r[|ps|]][..0] == [];
  }

  // ---------------------------------------------------------------- removing

  lemma {:induction false} RemoveAppend(a: seq<Player>, b: seq<Player>, id: int)
    ensures Remove(a + b, id) == Remove(a, id) + Remove(b, id)
    decreases |b|
  {
    if b == [] {
      assert a + b == a;
    } else {
      var b' := b[..|b| - 1];
      assert (a + b)[..|a + b| - 1] == a + b';
      RemoveAppend(a, b', id);
    }
  }

  lemma {:induction false} RemoveAbsent(ps: seq<Player>, id: int)
    requires forall i :: 0 <= i < |ps| ==> ps[i].id != id
    ensures Remove(ps, id) == ps
  {
    if ps != [] {
      RemoveAbsent(ps[..|ps| - 1], id);
      assert ps == ps[..|ps| - 1] + [ps[|ps| - 1]];
    }
  }

  /**
   * Removing filters out exactly the players with that id and keeps the order:
   * it distributes over concatenation and keeps a one-player roster unless that
   * player has the id.
   */
  lemma RemoveIsFilter(a: seq<Player>, b: seq<Player>, p: Player, id: int)
    ensures Remove(a + b, id) == Remove(a, id) + Remove(b, id)
    ensures Remove([p], id) == if p.id == id then [] else [p]
  {
    RemoveAppend(a, b, id);
    assert [p][..0] == [];
  }

  /** A player seated apart from, and with an id unlike, everyone on a valid roster can join it. */
  lemma AppendKeepsValid(ps: seq<Player>, p: Player)
    requires RosterValid(ps) && |ps| < MaxPlayers && 0 <= p.position < MaxPlayers
    requires forall q :: q in ps ==> q.position != p.position && q.id != p.id
    ensures RosterValid(ps + [p])
  {
    var r := ps + [p];
    forall i | 0 <= i < |ps| ensures r[i] == ps[i] && r[i] in ps { }
  }

  /** The last player of a valid roster is seated apart from, and has an id unlike, the others. */
  lemma LastApart(ps: seq<Player>)
    requires RosterValid(ps) && ps != []
    ensures RosterValid(ps[..|ps| - 1])
    ensures forall q :: q in ps[..|ps| - 1] ==> q.position != ps[|ps| - 1].position && q.id != ps[|ps| - 1].id
  {
    var init := ps[..|ps| - 1];
    forall q | q in init ensures q.position != ps[|ps| - 1].position && q.id != ps[|ps| - 1].id {
      var j :| 0 <= j < |init| && init[j] == q;
      assert ps[j] == q;
    }
  }

  lemma {:induction false} RemoveKeepsValid(ps: seq<Player>, id: int)
    requires RosterValid(ps)
    ensures RosterValid(Remove(ps, id))
  {
    if ps != [] {
      var init, last := ps[..|ps| - 1], ps[|ps| - 1];
      LastApart(ps);
      RemoveKeepsValid(init, id);
      if last.id != id {
        AppendKeepsValid(Remove(init, id), last);
      }
    }
  }

  /** Removing a player who is on the roster lowers the pot by that player's chips. */
  lemma {:induction false} RemovePot(ps: seq<Player>, k: nat)
    requires IdsUnique(ps) && k < |ps|
    ensures Pot(Remove(ps, ps[k].id)) == Pot(ps) - ps[k].chips
  {
    var a, b := ps[..k], ps[k + 1..];
    var id := ps[k].id;
    assert ps == a + [ps[k]] + b;
    forall i | 0 <= i < |a| ensures a[i].id != id { assert a[i] == ps[i]; }
    forall i | 0 <= i < |b| ensures b[i].id != id { assert b[i] == ps[k + 1 + i]; }
    RemoveMiddle(a, ps[k], b);
    PotAppend(a, b);
    PotAppend(a + [ps[k]], b);
    PotAppend(a, [ps[k]]);
  }

  /** Removing a player whose id no other player has leaves the players around it. */
  lemma RemoveMiddle(a: seq<Player>, p: Player, b: seq<Player>)
    requires forall i :: 0 <= i < |a| ==> a[i].id != p.id
    requires forall i :: 0 <= i < |b| ==> b[i].id != p.id
    ensures Remove(a + [p] + b, p.id) == a + b
  {
    RemoveAppend(a + [p], b, p.id);
    RemoveAppend(a, [p], p.id);
    assert [p][..0] == [];
    RemoveAbsent(a, p.id);
    RemoveAbsent(b, p.id);
  }

  /**
   * Removing the player just added gives back the roster before: the id is
   * fresh, so nobody else is removed. The next `addPlayer` then hands out the
   * same id again.
   */
  lemma AddThenRemove(ps: seq<Player>, nameText: string, buyInText: string)
    requires |ps| < MaxPlayers
    ensures Remove(Add(ps, nameText, buyInText), MaxId(ps) + 1) == ps
    ensures MaxId(Remove(Add(ps, nameText, buyInText), MaxId(ps) + 1)) + 1 == MaxId(ps) + 1
  {
    AddAppends(ps, nameText, buyInText);
    var r := Add(ps, nameText, buyInText);
    var id := MaxId(ps) + 1;
    assert r == ps + [r[|ps|]];
    RemoveAppend(ps, [r[|ps|]], id);
    assert [r[|ps|]][..0] == [];
    RemoveAbsent(ps, id);
  }

  // ---------------------------------------------------------------- editing

  /**
   * Saving an edit touches only the player with that id, which becomes the
   * edited player, and never changes an id, seat or active flag.
   */
  lemma SaveEditOnlyTarget(ps: seq<Player>, id: int, nameText: string, buyInText: string)
    ensures var r := SaveEdit(ps, id, nameText, buyInText);
      && |r| == |ps|
      && (forall i :: 0 <= i < |ps| && ps[i].id != id ==> r[i] == ps[i])
      && (forall i :: 0 <= i < |ps| && ps[i].id == id ==> r[i] == Edited(ps[i], nameText, buyInText))
      && (forall i :: 0 <= i < |ps| ==>
            r[i].id == ps[i].id && r[i].position == ps[i].position && r[i].isActive == ps[i].isActive)
  {
  }

  /**
   * The fallbacks of an edit: an empty name keeps the old name; an amount that
   * is not a non-zero number keeps the old chips; a typed amount is rounded to cents.
   */
  lemma EditedFallbacks(p: Player, nameText: string, buyInText: string)
    ensures nameText == "" ==> Edited(p, nameText, buyInText).name == p.name
    ensures nameText != "" ==> Edited(p, nameText, buyInText).name == nameText
    ensures ParseFloat(buyInText) == None || ParseFloat(buyInText) == Some(0.0) ==>
      Edited(p, nameText, buyInText).chips == p.chips
    ensures ParseFloat(buyInText).Some? && ParseFloat(buyInText).value != 0.0 ==>
      Edited(p, nameText, buyInText).chips == RoundCents(ParseFloat(buyInText).value)
  {
    RoundCentsOfDollars(p.chips);
  }

  /**
   * Opening an edit fills the draft with the player's name and `chips.toString()`;
   * saving that draft unchanged gives back the same player.
   */
  lemma EditUnchangedDraft(p: Player)
    ensures Edited(p, p.name, ToNumberString(p.chips)) == p
  {
    ToNumberStringReadsBack(p.chips);
    RoundCentsOfDollars(p.chips);
  }

  /**
   * Opening a player's edit and saving it untouched leaves the roster as it
   * was: the drafts start from the player's own name and shown buy-in.
   */
  lemma SaveUntouchedEdit(ps: seq<Player>, k: nat)
    requires IdsUnique(ps) && k < |ps|
    ensures SaveEdit(ps, ps[k].id, ps[k].name, ToNumberString(ps[k].chips)) == ps
  {
    var r := SaveEdit(ps, ps[k].id, ps[k].name, ToNumberString(ps[k].chips));
    forall i | 0 <= i < |ps|
      ensures r[i] == ps[i]
    {
      if i == k {
        EditUnchangedDraft(ps[k]);
      } else if i < k {
        assert ps[i].id != ps[k].id;
      } else {
        assert ps[k].id != ps[i].id;
      }
    }
  }

  lemma SaveEditKeepsValid(ps: seq<Player>, id: int, nameText: string, buyInText: string)
    requires RosterValid(ps)
    ensures RosterValid(SaveEdit(ps, id, nameText, buyInText))
  {
    SaveEditOnlyTarget(ps, id, nameText, buyInText);
  }

  /** Saving an edit of a player on the roster changes the pot by exactly that player's change. */
  lemma SaveEditPot(ps: seq<Player>, k: nat, nameText: string, buyInText: string)
    requires IdsUnique(ps) && k < |ps|
    ensures Pot(SaveEdit(ps, ps[k].id, nameText, buyInText)) ==
      Pot(ps) - ps[k].chips + Edited(ps[k], nameText, buyInText).chips
  {
    var e := Edited(ps[k], nameText, buyInText);
    assert SaveEdit(ps, ps[k].id, nameText, buyInText) == ps[k := e] by {
      forall i | 0 <= i < |ps| && i != k ensures ps[i].id != ps[k].id { }
    }
    PotReplace(ps, k, e);
  }

  /** Replacing one player changes the pot by the difference of the two stacks. */
  lemma PotReplace(ps: seq<Player>, k: nat, q: Player)
    requires k < |ps|
    ensures Pot(ps[k := q]) == Pot(ps) - ps[k].chips + q.chips
  {
    var r := ps[k := q];
    assert r[..k] == ps[..k] && r[k + 1..] == ps[k + 1..];
    PotSplit(ps, k);
    PotSplit(r, k);
  }

  /** The opening roster satisfies the roster invariant. */
  lemma InitialValid()
    ensures RosterValid(InitialPlayers())
  {
    var ps := InitialPlayers();
    assert |ps| == 4;
    assert ps[0].position == 0 && ps[1].position == 3 && ps[2].position == 5 && ps[3].position == 7;
    assert ps[0].id == 1 && ps[1].id == 2 && ps[2].id == 3 && ps[3].id == 4;
    forall i, j | 0 <= i < j < |ps| ensures ps[i].position < ps[j].position && ps[i].id < ps[j].id {
      assert ps[i].position == 2 * i + (if i > 0 then 1 else 0) && ps[i].id == i + 1;
      assert ps[j].position == 2 * j + (if j > 0 then 1 else 0) && ps[j].id == j + 1;
    }
  }
}
