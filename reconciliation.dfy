/**
 * The end-of-session screen: the final chip count typed for each player, and
 * the check that those counts add up to the total buy-in.
 */
module Reconciliation {
  import opened Common
  import opened Text
  import opened Money
  import opened Roster

  const MissingMessage: string := "Please enter final chip counts for all players"
  const ValidPrefix: string := "✓ Valid! Total matches: $"
  const InvalidPrefix: string := "✗ Invalid! Difference: "
  const ExpectedLabel: string := " (Expected: $"
  const GotLabel: string := ", Got: $"

  /** A count has been typed for `id`: the entry exists and is not the empty string. */
  predicate Entered(entries: map<int, string>, id: int) {
    id in entries && entries[id] != ""
  }

  /** The `every` check: each current player has a count. */
  predicate AllEntered(ps: seq<Player>, entries: map<int, string>) {
    forall i :: 0 <= i < |ps| ==> Entered(entries, ps[i].id)
  }

  /** `parseFloat(entry) || 0`: what one player's count adds to the total, in dollars. */
  function EntryValue(entries: map<int, string>, id: int): real {
    NumberOr(if id in entries then ParseFloat(entries[id]) else None, 0.0)
  }

  /** The `reduce` over the current players: their counts added up, left to right. */
  function FinalTotal(ps: seq<Player>, entries: map<int, string>): real {
    if ps == [] then 0.0 else FinalTotal(ps[..|ps| - 1], entries) + EntryValue(entries, ps[|ps| - 1].id)
  }

  /** The three outcomes of the check; amounts in cents. */
  datatype Verdict =
    | MissingEntries
    | Balanced(total: int)
    | Unbalanced(difference: int, expected: int, got: int)

  /** `calculateValidity`'s decision, before it is turned into text. */
  function Validate(ps: seq<Player>, entries: map<int, string>, totalBuyIn: int): Verdict {
    if !AllEntered(ps, entries) then MissingEntries
    else
      var got := RoundCents(FinalTotal(ps, entries));
      var expected := RoundCents(Dollars(totalBuyIn));
      if got == expected then Balanced(expected)
      else Unbalanced(RoundCents(Dollars(got) - Dollars(expected)), expected, got)
  }

  /** The message `calculateValidity` shows for a verdict. */
  function Message(v: Verdict): string {
    match v
    case MissingEntries => MissingMessage
    case Balanced(total) => ValidPrefix + ToFixed2(total)
    case Unbalanced(d, e, g) => InvalidPrefix + DifferenceText(d) + ExpectedGotText(e, g)
  }

  /** The signed difference: a `+` only when the counts exceed the buy-in, then its size. */
  function DifferenceText(d: int): string {
    (if d > 0 then "+" else "") + "$" + ToFixed2(Abs(d))
  }

  /** The bracketed expected and counted totals that close an unbalanced message. */
  function ExpectedGotText(e: int, g: int): string {
    ExpectedLabel + ToFixed2(e) + GotLabel + ToFixed2(g) + ")"
  }

  /**
   * The three outcomes: counts missing exactly when some current player has
   * none; otherwise balanced exactly when the rounded total equals the buy-in,
   * which it then reports; otherwise unbalanced by `got - expected`, never zero.
   */
  lemma ValidateOutcome(ps: seq<Player>, entries: map<int, string>, totalBuyIn: int)
    ensures var v := Validate(ps, entries, totalBuyIn);
      && (v.MissingEntries? <==> exists i :: 0 <= i < |ps| && !Entered(entries, ps[i].id))
      && (v.Balanced? <==> AllEntered(ps, entries) && RoundCents(FinalTotal(ps, entries)) == totalBuyIn)
      && (v.Balanced? ==> v.total == totalBuyIn)
      && (v.Unbalanced? ==>
            && v.expected == totalBuyIn
            && v.got == RoundCents(FinalTotal(ps, entries))
            && v.difference == v.got - v.expected
            && v.difference != 0)
  {
    RoundCentsOfDollars(totalBuyIn);
    if AllEntered(ps, entries) {
      var got := RoundCents(FinalTotal(ps, entries));
      assert Dollars(got) - Dollars(totalBuyIn) == Dollars(got - totalBuyIn);
      RoundCentsOfDollars(got - totalBuyIn);
    }
  }

  /**
   * The screen tells the outcomes apart: only a balanced verdict's message
   * starts with the check mark, only an unbalanced one's with the cross, and
   * the missing-counts message is the fixed sentence.
   */
  lemma MessageKinds(v: Verdict)
    ensures Message(v) != []
    ensures Message(v)[0] == '✓' <==> v.Balanced?
    ensures Message(v)[0] == '✗' <==> v.Unbalanced?
    ensures Message(v) == MissingMessage <==> v.MissingEntries?
  {
    match v
    case MissingEntries => MissingHead();
    case Balanced(total) => MissingHead(); StartsWith(ValidPrefix, ToFixed2(total));
    case Unbalanced(d, e, g) => MissingHead(); StartsWith(InvalidPrefix, DifferenceText(d) + ExpectedGotText(e, g));
  }

  lemma MissingHead()
    ensures MissingMessage != [] && MissingMessage[0] == 'P'
  {
    assert MissingMessage == "Please enter final chip counts " + "for all players";
  }

  lemma StartsWith(p: string, x: string)
    requires p != []
    ensures (p + x)[0] == p[0] && (p + x)[..|p|] == p && (p + x)[|p|..] == x
  {
  }

  /** A balanced message ends with the matched total, which reads back exactly. */
  lemma BalancedShowsTotal(total: int)
    ensures var m := Message(Balanced(total));
      m[..|ValidPrefix|] == ValidPrefix && ParseFloat(m[|ValidPrefix|..]) == Some(Dollars(total))
  {
    var m := Message(Balanced(total));
    assert m[|ValidPrefix|..] == ToFixed2(total) + [];
    ToFixed2ReadsBack(total, []);
  }

  /**
   * An unbalanced message shows a `+` right after the prefix exactly when
   * counts exceed the buy-in, then `$` and the size of the difference, which
   * reads back exactly; then the expected and counted totals.
   */
  lemma UnbalancedShowsDifference(d: int, e: int, g: int)
    ensures var m := Message(Unbalanced(d, e, g));
      var k := |InvalidPrefix|;
      var n := |ToFixed2(Abs(d))|;
      && m[..k] == InvalidPrefix
      && (d > 0 ==>
        && m[k] == '+' && m[k + 1] == '$' && ParseFloat(m[k + 2..]) == Some(Dollars(Abs(d)))
        && k + 2 + n <= |m| && ExpectedGotShown(m[k + 2 + n..], e, g))
      && (d <= 0 ==>
        && m[k] == '$' && ParseFloat(m[k + 1..]) == Some(Dollars(Abs(d)))
        && k + 1 + n <= |m| && ExpectedGotShown(m[k + 1 + n..], e, g))
  {
    UnbalancedHead(d, e, g);
    UnbalancedTail(d, e, g);
    ExpectedGotShowsTotals(e, g);
  }

  lemma UnbalancedHead(d: int, e: int, g: int)
    ensures var m := Message(Unbalanced(d, e, g));
      var k := |InvalidPrefix|;
      && m[..k] == InvalidPrefix
      && (d > 0 ==> m[k] == '+' && m[k + 1] == '$' && ParseFloat(m[k + 2..]) == Some(Dollars(Abs(d))))
      && (d <= 0 ==> m[k] == '$' && ParseFloat(m[k + 1..]) == Some(Dollars(Abs(d))))
  {
    var m := Message(Unbalanced(d, e, g));
    var k := |InvalidPrefix|;
    var amount, rest := ToFixed2(Abs(d)), ExpectedGotText(e, g);
    ExpectedGotHead(e, g);
    if d > 0 {
      assert m == InvalidPrefix + ("+" + "$" + amount) + rest;
      SignedAmountAt(m, InvalidPrefix, "+", amount, rest, Abs(d), k + 1);
    } else {
      assert m == InvalidPrefix + ("" + "$" + amount) + rest;
      SignedAmountAt(m, InvalidPrefix, "", amount, rest, Abs(d), k);
    }
  }

  /**
   * A sign, a dollar mark and a printed amount placed after `p`: where each
   * sits, with the dollar mark at `j`, and the amount reading back.
   */
  lemma SignedAmountAt(m: string, p: string, sign: string, amount: string, rest: string, cents: int, j: nat)
    requires m == p + (sign + "$" + amount) + rest
    requires amount == ToFixed2(cents) && (rest == [] || !IsDigit(rest[0]))
    requires j == |p| + |sign|
    ensures j < |m| && m[..|p|] == p && m[j] == '$'
    ensures sign != [] ==> m[|p|] == sign[0]
    ensures ParseFloat(m[j + 1..]) == Some(Dollars(cents))
  {
    UnbalancedLayout(p, sign, amount, rest);
    assert m[j + 1..] == ToFixed2(cents) + rest;
    ReadsBackAt(m, j + 1, cents, rest);
  }

  lemma UnbalancedTail(d: int, e: int, g: int)
    ensures var m := Message(Unbalanced(d, e, g));
      var k := |InvalidPrefix|;
      var n := |ToFixed2(Abs(d))|;
      && (d > 0 ==> k + 2 + n <= |m| && m[k + 2 + n..] == ExpectedGotText(e, g))
      && (d <= 0 ==> k + 1 + n <= |m| && m[k + 1 + n..] == ExpectedGotText(e, g))
  {
    var m := Message(Unbalanced(d, e, g));
    var amount, rest := ToFixed2(Abs(d)), ExpectedGotText(e, g);
    if d > 0 {
      assert m == InvalidPrefix + ("+" + "$" + amount) + rest;
      RestAt(m, InvalidPrefix, "+", amount, rest, |InvalidPrefix| + 2 + |amount|);
    } else {
      assert m == InvalidPrefix + ("" + "$" + amount) + rest;
      RestAt(m, InvalidPrefix, "", amount, rest, |InvalidPrefix| + 1 + |amount|);
    }
  }

  /** What follows a sign, a dollar mark and an amount placed after `p` starts at `i`. */
  lemma RestAt(m: string, p: string, sign: string, amount: string, rest: string, i: nat)
    requires m == p + (sign + "$" + amount) + rest
    requires i == |p| + |sign| + 1 + |amount|
    ensures i <= |m| && m[i..] == rest
  {
    assert m == (p + sign + "$" + amount) + rest;
  }

  /**
   * The close of an unbalanced message: the expected label, the expected
   * total, the got label, the counted total and a closing bracket, each total
   * reading back exactly.
   */
  predicate ExpectedGotShown(x: string, e: int, g: int) {
    && |x| >= |ExpectedLabel| && x[..|ExpectedLabel|] == ExpectedLabel
    && ParseFloat(x[|ExpectedLabel|..]) == Some(Dollars(e))
    && var b := |ExpectedLabel| + |ToFixed2(e)|;
    && b + |GotLabel| < |x| && x[b..b + |GotLabel|] == GotLabel
    && ParseFloat(x[b + |GotLabel|..]) == Some(Dollars(g))
    && |x| == b + |GotLabel| + |ToFixed2(g)| + 1 && x[|x| - 1] == ')'
  }

  lemma ExpectedGotShowsTotals(e: int, g: int)
    ensures ExpectedGotShown(ExpectedGotText(e, g), e, g)
  {
    var x := ExpectedGotText(e, g);
    var amountE, amountG := ToFixed2(e), ToFixed2(g);
    FiveParts(ExpectedLabel, amountE, GotLabel, amountG, ")");
    assert GotLabel[0] == ',';
    ReadsBackAt(x, |ExpectedLabel|, e, GotLabel + amountG + ")");
    ReadsBackAt(x, |ExpectedLabel| + |amountE| + |GotLabel|, g, ")");
  }

  /** Where each part of `p + a + q + b + z` sits. */
  lemma FiveParts(p: string, a: string, q: string, b: string, z: string)
    ensures var x := p + a + q + b + z;
      var i, j := |p| + |a|, |p| + |a| + |q|;
      && |x| == j + |b| + |z|
      && x[..|p|] == p && x[|p|..] == a + (q + b + z)
      && x[i..j] == q && x[j..] == b + z
      && (q != [] ==> (q + b + z)[0] == q[0])
  {
    var x := p + a + q + b + z;
    assert x == p + (a + (q + (b + z)));
  }

  lemma ReadsBackAt(m: string, i: nat, cents: int, rest: string)
    requires i <= |m| && m[i..] == ToFixed2(cents) + rest
    requires rest == [] || !IsDigit(rest[0])
    ensures ParseFloat(m[i..]) == Some(Dollars(cents))
  {
    ToFixed2ReadsBack(cents, rest);
  }

  lemma ExpectedGotHead(e: int, g: int)
    ensures ExpectedGotText(e, g) != [] && ExpectedGotText(e, g)[0] == ' '
  {
  }

  lemma UnbalancedLayout(p: string, sign: string, amount: string, rest: string)
    ensures var m := p + (sign + "$" + amount) + rest;
      && m[..|p|] == p
      && m[|p| + |sign|] == '$'
      && m[|p| + |sign| + 1..] == amount + rest
      && (sign != [] ==> m[|p|] == sign[0])
  {
    var m := p + (sign + "$" + amount) + rest;
    assert m == p + (sign + ("$" + (amount + rest)));
  }

  /** Counts under keys of players not on the screen are ignored. */
  lemma {:induction false} OtherKeysIgnored(ps: seq<Player>, entries: map<int, string>, id: int, text: string)
    requires forall i :: 0 <= i < |ps| ==> ps[i].id != id
    ensures FinalTotal(ps, entries[id := text]) == FinalTotal(ps, entries)
    ensures AllEntered(ps, entries[id := text]) == AllEntered(ps, entries)
    ensures forall totalBuyIn :: Validate(ps, entries[id := text], totalBuyIn) == Validate(ps, entries, totalBuyIn)
  {
    if ps != [] {
      OtherKeysIgnored(ps[..|ps| - 1], entries, id, text);
    }
    assert AllEntered(ps, entries[id := text]) == AllEntered(ps, entries) by {
      assert forall i :: 0 <= i < |ps| ==> (Entered(entries[id := text], ps[i].id) <==> Entered(entries, ps[i].id));
    }
  }

  /** Amounts in cents added up, left to right. */
  function Sum(amounts: seq<int>): int {
    if amounts == [] then 0 else Sum(amounts[..|amounts| - 1]) + amounts[|amounts| - 1]
  }

  /**
   * The count typed for `id` stands for `cents`: it reads as that amount, or
   * it does not read as a number at all and `|| 0` makes it count as zero.
   */
  predicate CountsAs(entries: map<int, string>, id: int, cents: int) {
    id in entries &&
    (ParseFloat(entries[id]) == Some(Dollars(cents)) || (ParseFloat(entries[id]) == None && cents == 0))
  }

  /**
   * When player `i`'s count stands for `amounts[i]` cents, the total is
   * exactly the sum of the amounts: a count that does not parse, like one of
   * zero, adds nothing.
   */
  lemma {:induction false} FinalTotalOfAmounts(ps: seq<Player>, entries: map<int, string>, amounts: seq<int>)
    requires |amounts| == |ps|
    requires forall i :: 0 <= i < |ps| ==> CountsAs(entries, ps[i].id, amounts[i])
    ensures FinalTotal(ps, entries) == Dollars(Sum(amounts))
  {
    if ps != [] {
      var n := |ps| - 1;
      FinalTotalOfAmounts(ps[..n], entries, amounts[..n]);
      assert EntryValue(entries, ps[n].id) == Dollars(amounts[n]);
    }
  }

  lemma {:induction false} SumOfChips(ps: seq<Player>, amounts: seq<int>)
    requires |amounts| == |ps| && forall i :: 0 <= i < |ps| ==> amounts[i] == ps[i].chips
    ensures Sum(amounts) == Pot(ps)
  {
    if ps != [] {
      SumOfChips(ps[..|ps| - 1], amounts[..|amounts| - 1]);
    }
  }

  /**
   * If every player's count stands for that player's buy-in, the check
   * passes and reports the pot.
   */
  lemma HonestCountsBalance(ps: seq<Player>, entries: map<int, string>)
    requires forall i :: 0 <= i < |ps| ==> Entered(entries, ps[i].id) && CountsAs(entries, ps[i].id, ps[i].chips)
    ensures Validate(ps, entries, Pot(ps)) == Balanced(Pot(ps))
  {
    var amounts := seq(|ps|, i requires 0 <= i < |ps| => ps[i].chips);
    FinalTotalOfAmounts(ps, entries, amounts);
    SumOfChips(ps, amounts);
    RoundCentsOfDollars(Pot(ps));
  }

  /**
   * If the counts stand for amounts that add up to something other than the
   * pot, the check fails and reports the signed difference.
   */
  lemma MiscountUnbalanced(ps: seq<Player>, entries: map<int, string>, amounts: seq<int>)
    requires |amounts| == |ps|
    requires forall i :: 0 <= i < |ps| ==> Entered(entries, ps[i].id) && CountsAs(entries, ps[i].id, amounts[i])
    requires Sum(amounts) != Pot(ps)
    ensures Validate(ps, entries, Pot(ps)) == Unbalanced(Sum(amounts) - Pot(ps), Pot(ps), Sum(amounts))
  {
    FinalTotalOfAmounts(ps, entries, amounts);
    RoundCentsOfDollars(Sum(amounts));
    ValidateOutcome(ps, entries, Pot(ps));
  }

  /** The screen's own state: the counts typed so far and the last message. */
  class SessionValidation {
    const players: seq<Player>
    const totalBuyIn: int
    const sessionDuration: nat
    var finalChips: map<int, string>
    var validationMessage: string

    constructor (players: seq<Player>, totalBuyIn: int, sessionDuration: nat)
      ensures this.players == players && this.totalBuyIn == totalBuyIn
      ensures this.sessionDuration == sessionDuration
      ensures finalChips == map[] && validationMessage == ""
    {
      this.players := players;
      this.totalBuyIn := totalBuyIn;
      this.sessionDuration := sessionDuration;
      finalChips := map[];
      validationMessage := "";
    }

    /** `updateFinalChips`: records the text typed for one player; every other entry stays. */
    method UpdateFinalChips(playerId: int, amount: string)
      modifies this
      ensures finalChips == old(finalChips)[playerId := amount]
      ensures forall id :: id != playerId ==>
        (id in finalChips <==> id in old(finalChips)) && (id in finalChips ==> finalChips[id] == old(finalChips)[id])
      ensures validationMessage == old(validationMessage)
    {
      finalChips := finalChips[playerId := amount];
    }

    /** `calculateValidity`: sets the message for the counts typed so far. */
    method CalculateValidity()
      modifies this
      ensures finalChips == old(finalChips)
      ensures validationMessage == Message(Validate(players, finalChips, totalBuyIn))
    {
      var verdict := Validate(players, finalChips, totalBuyIn);
      validationMessage := Message(verdict);
    }
  }
}
