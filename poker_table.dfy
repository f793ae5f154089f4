/**
 * The poker table screen: the roster, the add, remove and edit controls, and
 * the session stopwatch. Each handler is a method that changes the screen's
 * state exactly as the roster and session functions say, and keeps the
 * roster invariant.
 */
module PokerTable {
  import opened Common
  import opened Money
  import opened Roster
  import opened Session
  import opened Reconciliation

  /** The new player's buy-in draft at start and after a successful add. */
  const AddedBuyInDraft: string := "10.00"
  /** The new player's buy-in draft after the add panel's Cancel. */
  const CancelledBuyInDraft: string := "10"

  class Table {
    var players: seq<Player>
    var removeMode: bool
    var showAddPlayer: bool
    var newPlayerName: string
    var newPlayerBuyIn: string
    var editingPlayerId: Option<int>
    var editingName: string
    var editingBuyIn: string
    var sessionStatus: Status
    var sessionDuration: nat

    ghost predicate Valid()
      reads this`players
    {
      RosterValid(players)
    }

    /** The stopwatch state. */
    function SessionNow(): SessionState
      reads this`sessionStatus, this`sessionDuration
    {
      SessionState(sessionStatus, sessionDuration)
    }

    /** The add-player panel: whether it is open, and its two drafts. */
    function AddPanel(): (bool, string, string)
      reads this`showAddPlayer, this`newPlayerName, this`newPlayerBuyIn
    {
      (showAddPlayer, newPlayerName, newPlayerBuyIn)
    }

    /** The seat being edited, if any, and its two drafts. */
    function EditPanel(): (Option<int>, string, string)
      reads this`editingPlayerId, this`editingName, this`editingBuyIn
    {
      (editingPlayerId, editingName, editingBuyIn)
    }

    /** The pot shown in the middle of the table. */
    function CurrentPot(): int
      reads this`players
    {
      Pot(players)
    }

    /** The table gives way to the validation screen once the session has ended. */
    predicate ShowsValidation()
      reads this`sessionStatus
    {
      sessionStatus == Ended
    }

    constructor ()
      ensures Valid()
      ensures players == InitialPlayers() && CurrentPot() == 6500
      ensures !removeMode
      ensures AddPanel() == (false, "", AddedBuyInDraft)
      ensures EditPanel() == (None, "", "")
      ensures SessionNow() == Initial
    {
      players := InitialPlayers();
      removeMode := false;
      showAddPlayer := false;
      newPlayerName := "";
      newPlayerBuyIn := AddedBuyInDraft;
      editingPlayerId := None;
      editingName := "";
      editingBuyIn := "";
      sessionStatus := NotStarted;
      sessionDuration := 0;
      InitialValid();
      InitialPot();
    }

    // ------------------------------------------------------------- session

    /** One second of the stopwatch interval, which runs only while the session is in progress. */
    method AdvanceStopwatch()
      modifies this`sessionDuration
      ensures SessionNow() == Step(old(SessionNow()), Tick)
      ensures old(sessionStatus) == InProgress ==> sessionDuration == old(sessionDuration) + 1
      ensures old(sessionStatus) != InProgress ==> sessionDuration == old(sessionDuration)
    {
      if sessionStatus == InProgress {
        sessionDuration := sessionDuration + 1;
      }
    }

    method StartSession()
      modifies this`sessionStatus, this`sessionDuration
      ensures SessionNow() == Step(old(SessionNow()), Start)
      ensures sessionStatus == InProgress && sessionDuration == 0
    {
      sessionStatus := InProgress;
      sessionDuration := 0;
    }

    method StopSession()
      modifies this`sessionStatus
      ensures SessionNow() == Step(old(SessionNow()), Stop)
      ensures ShowsValidation() && sessionDuration == old(sessionDuration)
    {
      sessionStatus := Ended;
    }

    /** Also the validation screen's Back to Table. */
    method ResetSession()
      modifies this`sessionStatus, this`sessionDuration
      ensures SessionNow() == Step(old(SessionNow()), Reset)
      ensures SessionNow() == Initial
    {
      sessionStatus := NotStarted;
      sessionDuration := 0;
    }

    /**
     * The handover to the validation screen: the roster, the pot as the
     * total buy-in and the final duration, with no counts typed yet.
     */
    method OpenValidation() returns (v: SessionValidation)
      requires ShowsValidation()
      ensures fresh(v)
      ensures v.players == players && v.totalBuyIn == CurrentPot()
      ensures v.sessionDuration == sessionDuration
      ensures v.finalChips == map[] && v.validationMessage == ""
    {
      v := new SessionValidation(players, Pot(players), sessionDuration);
    }

    // ------------------------------------------------------------ add panel

    method OpenAddPlayer()
      modifies this`showAddPlayer
      ensures AddPanel() == (true, old(newPlayerName), old(newPlayerBuyIn))
    {
      showAddPlayer := true;
    }

    method UpdateNewPlayerName(text: string)
      modifies this`newPlayerName
      ensures AddPanel() == (old(showAddPlayer), text, old(newPlayerBuyIn))
    {
      newPlayerName := text;
    }

    method UpdateNewPlayerBuyIn(text: string)
      modifies this`newPlayerBuyIn
      ensures AddPanel() == (old(showAddPlayer), old(newPlayerName), text)
    {
      newPlayerBuyIn := text;
    }

    method CancelAddPlayer()
      modifies this`showAddPlayer, this`newPlayerName, this`newPlayerBuyIn
      ensures AddPanel() == (false, "", CancelledBuyInDraft)
    {
      showAddPlayer := false;
      newPlayerName := "";
      newPlayerBuyIn := CancelledBuyInDraft;
    }

    /**
     * `addPlayer`: on a table with a free seat, appends the new player and
     * resets the panel; on a full table, changes nothing.
     */
    method AddPlayer()
      requires Valid()
      modifies this`players, this`showAddPlayer, this`newPlayerName, this`newPlayerBuyIn
      ensures Valid()
      ensures players == Add(old(players), old(newPlayerName), old(newPlayerBuyIn))
      ensures |old(players)| < MaxPlayers ==>
        && |players| == |old(players)| + 1
        && players[..|old(players)|] == old(players)
        && AddPanel() == (false, "", AddedBuyInDraft)
      ensures |old(players)| >= MaxPlayers ==> players == old(players) && AddPanel() == old(AddPanel())
    {
      if |players| >= MaxPlayers {
        return;
      }
      // Below ten players a free seat always exists, so the source's test for
      // an undefined seat never fails here.
      AddAppends(players, newPlayerName, newPlayerBuyIn);
      AddKeepsValid(players, newPlayerName, newPlayerBuyIn);
      players := Add(players, newPlayerName, newPlayerBuyIn);
      showAddPlayer := false;
      newPlayerName := "";
      newPlayerBuyIn := AddedBuyInDraft;
    }

    // ---------------------------------------------------------- remove mode

    method ToggleRemoveMode()
      modifies this`removeMode
      ensures removeMode == !old(removeMode)
    {
      removeMode := !removeMode;
    }

    /** `removePlayer`: drops the player with `id` and leaves remove mode. */
    method RemovePlayer(id: int)
      requires Valid()
      modifies this`players, this`removeMode
      ensures Valid()
      ensures players == Remove(old(players), id)
      ensures forall p :: p in players <==> p in old(players) && p.id != id
      ensures !removeMode
    {
      RemoveKeepsValid(players, id);
      players := Remove(players, id);
      removeMode := false;
    }

    // ---------------------------------------------------------------- edit

    /** Opens the edit panel on `p` with its name and shown buy-in, unless remove mode is on. */
    method StartEditingPlayer(p: Player)
      modifies this`editingPlayerId, this`editingName, this`editingBuyIn
      ensures !old(removeMode) ==> EditPanel() == (Some(p.id), p.name, ToNumberString(p.chips))
      ensures old(removeMode) ==> EditPanel() == old(EditPanel())
    {
      if !removeMode {
        editingPlayerId := Some(p.id);
        editingName := p.name;
        editingBuyIn := ToNumberString(p.chips);
      }
    }

    /** A click on a seat: removes its player in remove mode, opens its edit otherwise. */
    method SeatClicked(p: Player)
      requires Valid()
      modifies this`players, this`removeMode, this`editingPlayerId, this`editingName, this`editingBuyIn
      ensures Valid()
      ensures old(removeMode) ==> players == Remove(old(players), p.id) && !removeMode && EditPanel() == old(EditPanel())
      ensures !old(removeMode) ==>
        players == old(players) && !removeMode && EditPanel() == (Some(p.id), p.name, ToNumberString(p.chips))
    {
      if removeMode {
        RemovePlayer(p.id);
      } else {
        StartEditingPlayer(p);
      }
    }

    method UpdateEditingName(text: string)
      modifies this`editingName
      ensures EditPanel() == (old(editingPlayerId), text, old(editingBuyIn))
    {
      editingName := text;
    }

    method UpdateEditingBuyIn(text: string)
      modifies this`editingBuyIn
      ensures EditPanel() == (old(editingPlayerId), old(editingName), text)
    {
      editingBuyIn := text;
    }

    /** `savePlayerEdit`: applies the drafts to the player with `id`, then closes the panel. */
    method SavePlayerEdit(id: int)
      requires Valid()
      modifies this`players, this`editingPlayerId, this`editingName, this`editingBuyIn
      ensures Valid()
      ensures players == SaveEdit(old(players), id, old(editingName), old(editingBuyIn))
      ensures |players| == |old(players)|
      ensures forall i :: 0 <= i < |players| && old(players)[i].id != id ==> players[i] == old(players)[i]
      ensures EditPanel() == (None, "", "")
    {
      SaveEditKeepsValid(players, id, editingName, editingBuyIn);
      SaveEditOnlyTarget(players, id, editingName, editingBuyIn);
      players := SaveEdit(players, id, editingName, editingBuyIn);
      editingPlayerId := None;
      editingName := "";
      editingBuyIn := "";
    }

    method CancelEdit()
      modifies this`editingPlayerId, this`editingName, this`editingBuyIn
      ensures EditPanel() == (None, "", "")
    {
      editingPlayerId := None;
      editingName := "";
      editingBuyIn := "";
    }
  }

  /**
   * A client of the table: opening a player's edit and saving it without
   * touching the drafts leaves the roster as it was.
   */
  method EditWithoutChanges(t: Table, k: nat)
    requires t.Valid() && !t.removeMode && k < |t.players|
    modifies t
    ensures t.Valid() && t.players == old(t.players)
    ensures t.EditPanel() == (None, "", "")
  {
    var p := t.players[k];
    t.SeatClicked(p);
    SaveUntouchedEdit(t.players, k);
    t.SavePlayerEdit(p.id);
  }
}
