# Poker-Tracks table and session reconciliation in Dafny

Poker-Tracks is a small React app for a home poker game. The table screen
(`PokerTable`) keeps a roster of up to ten players, each with an id, a name,
a buy-in ("chips") and one of ten seats. It has add, remove and edit
controls, and a session stopwatch that runs from Start to Stop. When the
session ends, the end-of-session screen (`SessionValidation`) takes each
player's final chip count. It then checks that the counts add up to the
total buy-in (the pot).

This project models that logic and proves properties of it.

- `common.dfy`: the `Option` type. `None` stands for JavaScript's `NaN`
  where a parse fails.
- `text.dfy`: decimal digits, `Number#toString` of whole numbers and
  `padStart`.
- `money.dfy`: amounts as integer cents. It defines:
  - `parseFloat` as an exact decimal-prefix parser;
  - `Math.round(x * 100)` as rounding half up on exact rationals;
  - the `x || fallback` idiom, which treats `NaN` and `0` as falsy;
  - `toFixed(2)` and `Number#toString` for two-decimal amounts.

  Both printers are proved to parse back to the amount they print.
- `clock.dfy`: `formatDuration`, which both screens define identically. It is
  modelled once, with a reader for the `HH:MM:SS` display.
- `roster.dfy`: the roster values and the pot. It covers `addPlayer`'s new
  player (lowest free seat, id `max + 1`, default name and buy-in),
  `removePlayer`'s filter and `savePlayerEdit`'s map. It also states the
  roster invariant (at most ten players, seats in `[0, 10)` and distinct, ids
  distinct), which each operation preserves.
- `session.dfy`: the session status machine (not started, in progress,
  ended) and its stopwatch. An independent reference reads the expected
  status and duration off the event history.
- `reconciliation.dfy`:
  - the `calculateValidity` decision as a three-way verdict;
  - its message text;
  - the `SessionValidation` class, whose `finalChips` map and
    `validationMessage` its two handlers update.
- `poker_table.dfy`: the `Table` class. It holds the table screen's state
  fields (roster, remove mode, add and edit drafts, session status and
  duration), with one method per handler.

Money is in whole cents throughout, since every amount the app stores is a
whole number of cents. The opening roster's amounts are whole dollars, and
every typed amount goes through `Math.round(x * 100) / 100`. The table's pot
is handed to the end-of-session screen as its total buy-in, in cents.

Ids can be reused. `addPlayer` assigns `Math.max(0, ...ids) + 1`
(src/components/PokerTable.jsx:73), so deleting the newest player and adding
another hands out the same id; `Roster.AddThenRemove` shows the round trip.
The invariant kept is uniqueness among current players.

Rows whose third column starts with "definition" name a function that
writes out the cited lines directly. Their meaning is stated by the lemmas
the row names.

## Model

| member | source | states |
|---|---|---|
| Text.NatToString | src/components/PokerTable.jsx:45 | `toString` of a whole number is a non-empty string of digits with no leading zero, one digit exactly when the number is below ten |
| Text.NatToStringValue | src/components/PokerTable.jsx:45 | the digits `toString` writes read back to the number |
| Text.PadStart | src/components/PokerTable.jsx:45 | `padStart` gives a string of length `max(len, width)` that ends with the original and is filled with the pad character before it |
| Text.PadStartValue | src/components/PokerTable.jsx:45 | padding a numeral with zeros keeps it a numeral of the same value |
| Clock.FormatDuration | src/components/PokerTable.jsx:41-46 | definition of `formatDuration`, identical at src/components/SessionValidation.jsx:13-18; stated by `Clock.FormatDurationFields` and `Clock.FormatDurationInjective` |
| Clock.TwoDigitShape | src/components/PokerTable.jsx:45 | each clock field is all digits, at least two of them, exactly two below 100, and reads back to the field's number |
| Clock.FormatDurationFields | src/components/SessionValidation.jsx:13-18 | the display always reads back as hours, minutes and seconds with minutes and seconds below 60 and `3600h + 60m + s` equal to the duration |
| Clock.FormatDurationInjective | src/components/PokerTable.jsx:41-46 | two different durations never show the same display |
| Money.Abs | src/components/SessionValidation.jsx:48 | `Math.abs` gives the number or its negation, never negative |
| Money.RoundCents | src/components/PokerTable.jsx:71 | definition of `Math.round(x * 100)`; stated by `Money.RoundCentsNearest` and `Money.RoundCentsOfDollars` |
| Money.RoundCentsNearest | src/components/PokerTable.jsx:71 | `Math.round(x * 100)` is within half a cent of `x * 100`, halves rounding up |
| Money.RoundCentsOfDollars | src/components/PokerTable.jsx:106 | rounding an amount that is already whole cents gives the same cents |
| Money.ParseUnsignedInteger | src/components/PokerTable.jsx:71 | the unsigned part of `parseFloat` (no white space, no sign): digits followed by anything but a digit or a point read as the digits' value |
| Money.ParseUnsignedFraction | src/components/PokerTable.jsx:71 | the unsigned part of `parseFloat` (no white space, no sign): digits, a point and digits, followed by a non-digit, read as the exact decimal value |
| Money.ParseFloat | src/components/PokerTable.jsx:71 | definition of `parseFloat`: leading white space, an optional sign, then an unsigned decimal; stated by `Money.LeadingWhiteSpaceIgnored`, `Money.ParseUnsignedInteger`, `Money.ParseUnsignedFraction`, `Money.ParseSigned` and the two read-back lemmas |
| Money.LeadingWhiteSpaceIgnored | src/components/PokerTable.jsx:71 | any run of white space (including every Unicode space separator and line terminator) in front of a text leaves what `parseFloat` reads unchanged |
| Money.ParseSigned | src/components/PokerTable.jsx:71 | a leading minus negates the parsed value and no sign leaves it |
| Money.ToFixed2 | src/components/SessionValidation.jsx:44 | definition of `toFixed(2)` on an amount in cents; stated by `Money.ToFixed2ReadsBack` |
| Money.ToNumberString | src/components/PokerTable.jsx:99 | definition of `toString` on an amount in cents; stated by `Money.ToNumberStringReadsBack` |
| Money.CentsDigitsValue | src/components/SessionValidation.jsx:44 | the two decimals `toFixed(2)` writes read back as the cents |
| Money.ToFixed2ReadsBack | src/components/SessionValidation.jsx:44 | `toFixed(2)` of any amount, followed by any text not starting with a digit, parses back to exactly that amount |
| Money.ToNumberStringReadsBack | src/components/PokerTable.jsx:99 | `toString` of any two-decimal amount parses back to exactly that amount |
| Roster.Pot | src/components/PokerTable.jsx:27 | definition of the `reduce` that sums the chips; stated by `Roster.PotAppend`, `Roster.InitialPot`, `Roster.AddPot`, `Roster.RemovePot`, `Roster.SaveEditPot` and `Reconciliation.SumOfChips` |
| Roster.BuyInCents | src/components/PokerTable.jsx:71 | definition of the new player's buy-in; stated by `Roster.BuyInFallback` and `Roster.BuyInOfShownAmount` |
| Roster.Add | src/components/PokerTable.jsx:62-84 | definition of `addPlayer`'s new roster; stated by `Roster.AddWhenFull`, `Roster.AddAppends`, `Roster.AddKeepsValid`, `Roster.AddPot` and `Roster.AddThenRemove` |
| Roster.Edited | src/components/PokerTable.jsx:106 | definition of the edited player; stated by `Roster.EditedFallbacks` and `Roster.EditUnchangedDraft` |
| Roster.SaveEdit | src/components/PokerTable.jsx:103-108 | definition of `savePlayerEdit`'s new roster; stated by `Roster.SaveEditOnlyTarget`, `Roster.SaveUntouchedEdit`, `Roster.SaveEditKeepsValid` and `Roster.SaveEditPot` |
| Roster.MaxId | src/components/PokerTable.jsx:73 | `Math.max(0, ...ids)` is at least 0 and at least every id, and it is 0 or one of the ids |
| Roster.FreeSeatFrom | src/components/PokerTable.jsx:66-68 | the seat search returns the first unoccupied seat from its start, every earlier seat occupied; it finds none only when all seats from the start are taken |
| Roster.Remove | src/components/PokerTable.jsx:87 | the filter keeps a player exactly when it was in the roster with a different id, and never lengthens the roster |
| Roster.PotAppend | src/components/PokerTable.jsx:27 | the pot of two rosters put together is the sum of their pots |
| Roster.InitialPot | src/components/PokerTable.jsx:5-10 | the opening roster's pot is $65.00 |
| Roster.InitialValid | src/components/PokerTable.jsx:5-10 | the opening roster satisfies the roster invariant |
| Roster.FreeSeatExists | src/components/PokerTable.jsx:63-70 | with fewer than ten players a free seat always exists, so the test for no seat never fails |
| Roster.AddWhenFull | src/components/PokerTable.jsx:63 | adding to a table of ten players changes nothing |
| Roster.AddAppends | src/components/PokerTable.jsx:62-84 | below ten players, adding appends exactly one player after the old ones, unchanged. The new player gets the lowest free seat, an id above every current id (`max + 1`), the typed name or `Player <n+1>`, the buy-in from the typed text, and is inactive |
| Roster.BuyInFallback | src/components/PokerTable.jsx:71 | an unparsable or zero buy-in becomes $10.00; any other parses to its amount rounded to cents |
| Roster.BuyInOfShownAmount | src/components/PokerTable.jsx:71 | typing back a non-zero amount as `toFixed(2)` shows it gives exactly that buy-in |
| Roster.AddKeepsValid | src/components/PokerTable.jsx:62-84 | adding a player preserves the roster invariant |
| Roster.AddPot | src/components/PokerTable.jsx:27 | below ten players, adding raises the pot by exactly the new buy-in |
| Roster.RemoveIsFilter | src/components/PokerTable.jsx:87 | removal works player by player and keeps order: it distributes over concatenation and drops a single player exactly when its id matches |
| Roster.RemoveAbsent | src/components/PokerTable.jsx:87 | removing an id no player has leaves the roster as it was |
| Roster.RemoveKeepsValid | src/components/PokerTable.jsx:86-89 | removing a player preserves the roster invariant |
| Roster.RemovePot | src/components/PokerTable.jsx:27 | with distinct ids, removing a player lowers the pot by exactly that player's chips |
| Roster.AddThenRemove | src/components/PokerTable.jsx:73 | removing the player just added restores the roster, and the next add would reuse the removed id |
| Roster.SaveEditOnlyTarget | src/components/PokerTable.jsx:103-108 | saving an edit keeps the roster's length, turns each player with the id into `Edited` of it (whose fallbacks `Roster.EditedFallbacks` states), leaves every other player as it was, and never changes any id, seat or active flag |
| Roster.EditedFallbacks | src/components/PokerTable.jsx:106 | an empty name draft keeps the old name; an unparsable or zero buy-in draft keeps the old chips; otherwise the drafts' values are taken, rounded to cents |
| Roster.EditUnchangedDraft | src/components/PokerTable.jsx:95-106 | saving the drafts an edit opens with leaves the player exactly as it was |
| Roster.SaveUntouchedEdit | src/components/PokerTable.jsx:95-108 | with distinct ids, opening a player's edit and saving it untouched leaves the whole roster as it was |
| Roster.SaveEditKeepsValid | src/components/PokerTable.jsx:103-112 | saving an edit preserves the roster invariant |
| Roster.SaveEditPot | src/components/PokerTable.jsx:27 | with distinct ids, saving an edit changes the pot by exactly the edited player's change in chips |
| Session.Step | src/components/PokerTable.jsx:32-60 | definition of the three buttons' handlers and of one elapsed second; stated by `Session.RunMatchesReference`, `Session.StartFromInitial` and `Session.StopFreezes` |
| Session.Enabled | src/components/PokerTable.jsx:321-336 | definition of when each session button is enabled (lines 322, 329 and 336); the session lemmas take it as their precondition |
| Session.ReferenceAfterRestart | src/components/PokerTable.jsx:48-60 | after a Start the reference is in progress at zero; after a Reset it is not started at zero |
| Session.ReferenceAfterOther | src/components/PokerTable.jsx:30-55 | a Stop moves the reference from in progress to ended and otherwise leaves it; an elapsed second adds one to its duration exactly when it is in progress |
| Session.RunMatchesReference | src/components/PokerTable.jsx:30-60 | after any history of enabled button presses and elapsed seconds, the status and duration are the reference ones. The status is not started after a Reset, ended once a Stop follows the latest Start, else in progress. The duration is the seconds elapsed between the latest Start and the first Stop after it |
| Session.StartFromInitial | src/components/PokerTable.jsx:321-322 | Start is only enabled when the session has not started, and it begins a count at zero |
| Session.StopFreezes | src/components/PokerTable.jsx:53-55 | Stop ends the session and keeps its duration, and seconds after it no longer count |
| Reconciliation.AllEntered | src/components/SessionValidation.jsx:29 | definition of the `every` check; stated by `Reconciliation.ValidateOutcome` and `Reconciliation.OtherKeysIgnored` |
| Reconciliation.EntryValue | src/components/SessionValidation.jsx:38 | definition of `parseFloat(count) \|\| 0`; stated by `Reconciliation.FinalTotalOfAmounts` |
| Reconciliation.FinalTotal | src/components/SessionValidation.jsx:37-39 | definition of the `reduce` over the current players; stated by `Reconciliation.FinalTotalOfAmounts` and `Reconciliation.OtherKeysIgnored` |
| Reconciliation.Validate | src/components/SessionValidation.jsx:27-50 | definition of `calculateValidity`'s decision; stated by `Reconciliation.ValidateOutcome`, `Reconciliation.HonestCountsBalance` and `Reconciliation.MiscountUnbalanced` |
| Reconciliation.Message | src/components/SessionValidation.jsx:32-48 | definition of the three messages; stated by `Reconciliation.MessageKinds`, `Reconciliation.BalancedShowsTotal`, `Reconciliation.UnbalancedShowsDifference` and `Reconciliation.ExpectedGotShowsTotals` |
| Reconciliation.ValidateOutcome | src/components/SessionValidation.jsx:27-50 | exactly one of three outcomes. Counts are missing if and only if some current player's entry is absent or empty. Otherwise the counts balance if and only if their rounded total equals the buy-in, which is then reported. Otherwise they are unbalanced, reporting expected, got and a non-zero difference `got - expected` |
| Reconciliation.MessageKinds | src/components/SessionValidation.jsx:31-48 | the message is never empty. It starts with `✓` exactly when balanced and with `✗` exactly when unbalanced, and it is the fixed prompt exactly when counts are missing |
| Reconciliation.BalancedShowsTotal | src/components/SessionValidation.jsx:43-44 | the success message is the fixed prefix followed by text that parses back to the total |
| Reconciliation.UnbalancedShowsDifference | src/components/SessionValidation.jsx:46-48 | the failure message is the fixed prefix, a `+` exactly when the difference is positive, then `$` and text that parses back to the difference's absolute value. After that amount come `(Expected: $`, text that parses back to the expected total, `, Got: $`, text that parses back to the counted total, and a closing `)` |
| Reconciliation.ExpectedGotShowsTotals | src/components/SessionValidation.jsx:48 | the close of a failure message is `(Expected: $`, the expected total, `, Got: $`, the counted total and `)`, and each total parses back exactly |
| Reconciliation.OtherKeysIgnored | src/components/SessionValidation.jsx:37-39 | an entry for an id no current player has changes neither the total, nor the all-entered check, nor the verdict |
| Reconciliation.FinalTotalOfAmounts | src/components/SessionValidation.jsx:37-40 | when every count either parses to a whole-cent amount or does not parse at all (and so counts as 0), the total is exactly the sum of those amounts |
| Reconciliation.SumOfChips | src/components/PokerTable.jsx:27 | the sum of the players' chips is the pot |
| Reconciliation.HonestCountsBalance | src/components/SessionValidation.jsx:37-44 | if every player's count is typed and stands for their buy-in, the verdict against the pot is balanced at the pot |
| Reconciliation.MiscountUnbalanced | src/components/SessionValidation.jsx:46-48 | if every count is typed and the amounts they stand for (0 for one that does not parse) sum to anything but the pot, the verdict is unbalanced by exactly the excess, with expected the pot and got the sum |
| Reconciliation.SessionValidation.constructor | src/components/SessionValidation.jsx:3-10 | the screen opens with the roster, the buy-in and the duration it is given, no counts and no message |
| Reconciliation.SessionValidation.UpdateFinalChips | src/components/SessionValidation.jsx:20-25 | the typed text becomes the entry for that player, every other entry is unchanged, and so is the message |
| Reconciliation.SessionValidation.CalculateValidity | src/components/SessionValidation.jsx:27-50 | the message becomes the one for the verdict on the current counts, and the counts are unchanged |
| PokerTable.Table.constructor | src/components/PokerTable.jsx:5-24 | the table opens with the four-player roster, which is valid, has a $65.00 pot, closed panels, a $10.00 draft buy-in and a session not started |
| PokerTable.Table.AdvanceStopwatch | src/components/PokerTable.jsx:32-35 | one elapsed second adds one to the duration while in progress and changes nothing otherwise |
| PokerTable.Table.StartSession | src/components/PokerTable.jsx:48-51 | Start puts the session in progress at duration zero |
| PokerTable.Table.StopSession | src/components/PokerTable.jsx:53-55 | Stop ends the session, which switches to the validation screen, and keeps the duration |
| PokerTable.Table.ResetSession | src/components/PokerTable.jsx:57-60 | Reset returns the session to not started at zero; nothing but the session changes |
| PokerTable.Table.OpenValidation | src/components/PokerTable.jsx:137-145 | once ended, the validation screen receives the roster, the pot as total buy-in and the duration, with no counts typed |
| PokerTable.Table.OpenAddPlayer | src/components/PokerTable.jsx:300 | the add panel opens with its drafts as they were |
| PokerTable.Table.UpdateNewPlayerName | src/components/PokerTable.jsx:265 | the name draft becomes the typed text, the rest of the panel is unchanged |
| PokerTable.Table.UpdateNewPlayerBuyIn | src/components/PokerTable.jsx:274 | the buy-in draft becomes the typed text, the rest of the panel is unchanged |
| PokerTable.Table.CancelAddPlayer | src/components/PokerTable.jsx:286-290 | the add panel closes with an empty name draft and a buy-in draft of `10` |
| PokerTable.Table.AddPlayer | src/components/PokerTable.jsx:62-84 | the roster becomes the added roster and stays valid. Below ten players it grows by one with the old players first, and the panel closes and resets to `10.00`. At ten players roster and panel are unchanged |
| PokerTable.Table.ToggleRemoveMode | src/components/PokerTable.jsx:91-93 | remove mode flips |
| PokerTable.Table.RemovePlayer | src/components/PokerTable.jsx:86-89 | the roster keeps exactly the players with another id and stays valid; remove mode is off |
| PokerTable.Table.StartEditingPlayer | src/components/PokerTable.jsx:95-101 | outside remove mode the edit panel opens on the player with their name and chips as `toString` shows them; in remove mode nothing changes |
| PokerTable.Table.SeatClicked | src/components/PokerTable.jsx:217 | a seat click in remove mode removes its player and leaves remove mode; otherwise it opens that player's edit with the roster unchanged |
| PokerTable.Table.UpdateEditingName | src/components/PokerTable.jsx:186 | the edit name draft becomes the typed text |
| PokerTable.Table.UpdateEditingBuyIn | src/components/PokerTable.jsx:195 | the edit buy-in draft becomes the typed text |
| PokerTable.Table.SavePlayerEdit | src/components/PokerTable.jsx:103-112 | the roster becomes the edited roster and stays valid, with the same length and every other player unchanged; the edit panel clears |
| PokerTable.Table.CancelEdit | src/components/PokerTable.jsx:114-118 | the edit panel clears |
| PokerTable.EditWithoutChanges | src/components/PokerTable.jsx:95-112 | clicking a seat outside remove mode and saving without touching the drafts leaves the roster as it was and the edit panel cleared |

## Left out

- Rendering:
  - the JSX markup, styles and seat geometry (`getPlayerPosition`, floating-point trigonometry for CSS);
  - the placeholder community cards;
  - the `startsWith('✓')` colouring, which `Reconciliation.MessageKinds` covers.
- Timer plumbing. The `setInterval`/`clearInterval` effect is replaced by `PokerTable.Table.AdvanceStopwatch`, one call per elapsed second.
- `src/main.jsx`, which mounts the app and starts analytics. It is not part of this model.
- IEEE-754 arithmetic:
  - Amounts are exact rationals and cents are unbounded integers.
  - `Math.round(x * 100) / 100` is modelled as exact rounding half up to whole cents. The floating-point representation error of the source is not captured.
  - The pot is a sum of whole cents, so it is exact here.
- Money.ParseFloat: does not accept exponent forms (`1e3`) or `Infinity`, which JavaScript's `parseFloat` does. Such a text reads only up to its digits here.
- Money.ToFixed2: does not model the exponent form JavaScript uses for amounts of 10^21 and above.
- Money.ToNumberString: models `toString` only for two-decimal amounts, which is all the table stores. The exponent form is also not modelled.
- Disabled buttons:
  - The handlers are modelled as the source writes them, without guards.
  - For the session buttons, `Session.Enabled` states when each is enabled, and the session lemmas take it as a precondition.
  - Add Player is disabled at ten players or in remove mode, and Remove Player on an empty table. Those conditions are not stated for `PokerTable.Table.OpenAddPlayer` and `PokerTable.Table.ToggleRemoveMode`.
- `addPlayer`'s test for an undefined seat (src/components/PokerTable.jsx:70): `Roster.Add` keeps that branch (`case None => ps`). `Roster.FreeSeatExists` proves it is never taken below ten players, so `PokerTable.Table.AddPlayer` does not test it again.
- Back to Table:
  - The end-of-session screen's Back to Table button is the table's `resetSession`, so it is `PokerTable.Table.ResetSession`.
  - Which screen is shown is `PokerTable.Table.ShowsValidation`. The hand-over to the end-of-session screen is `PokerTable.Table.OpenValidation`.
- The input fields' `type="number"`, `min` and `step` attributes are left out. Any text may be typed, and the parser decides what it means.
