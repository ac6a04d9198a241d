/**
 * The game state machine of the memory game: a board of tiles over a
 * shuffled deck, two selection slots, the score and error counters, the
 * ready flag that gates clicks, and the two one-shot timers.
 *
 * A timer is modelled by a flag saying that it is armed; the host's event
 * loop may call the matching Fire method whenever the flag is set, at any
 * point between two clicks.
 */
module MatchCards {
  import opened Wrappers
  import opened Deck

  class Game {
    /** The deck: the name of the card under each board position. */
    const deck: array<Name>
    /** The icon of each tile: true for the card's face, false for the back. */
    const faceUp: array<bool>

    /** The two selection slots; tiles are named by their board position. */
    var card1: Option<nat>
    var card2: Option<nat>

    var score: nat
    var errors: nat
    /** Clicks are accepted only while this is set. */
    var ready: bool
    /** The hide timer is armed. */
    var hidePending: bool
    /** The one-shot preview timer is armed. */
    var previewPending: bool
    var restartEnabled: bool

    ghost predicate Valid()
      reads this, deck, faceUp
    {
      && faceUp.Length == BoardSize
      && (card1.Some? ==> card1.value < BoardSize && card1.value < deck.Length)
      && (card2.Some? ==> card2.value < BoardSize && card2.value < deck.Length)
      // a second selection only ever follows a first one, on another tile
      && (card2.Some? ==> card1.Some? && card1 != card2)
      // a full selection is always a mismatch waiting to be hidden
      && (card2.Some? ==> deck[card1.value] != deck[card2.value])
      && (ready ==> card2.None?)
      // while the board is ready, a first selection shows its face
      && (ready && card1.Some? ==> faceUp[card1.value])
      // the board is never locked without a timer that will unlock it
      && (!ready ==> hidePending)
    }

    /** Tile `t` occupies a selection slot. */
    predicate Selected(t: nat)
      reads this
    {
      card1 == Some(t) || card2 == Some(t)
    }

    /**
     * Builds the deck from the names whose image loaded, shuffles it with the
     * random choices `js`, lays out the board face-down, arms the preview
     * timer and starts the game.
     */
    constructor (names: seq<Name>, loads: seq<bool>, js: seq<nat>)
      requires |loads| == |names|
      requires InRange(js, 2 * |LoadedNames(names, loads)|)
      ensures Valid() && fresh(deck) && fresh(faceUp)
      ensures deck[..] == SwapPass(LoadedNames(names, loads) + LoadedNames(names, loads), js, 0)
      ensures Distinct(names) ==>
                forall x :: x in LoadedNames(names, loads) ==> multiset(deck[..])[x] == 2
      ensures forall t :: 0 <= t < faceUp.Length ==> !faceUp[t]
      ensures card1 == None && card2 == None && score == 0 && errors == 0
      ensures !ready && hidePending && previewPending && restartEnabled
    {
      var cardSet := SetupCards(names, loads);
      deck := new Name[|cardSet|](k requires 0 <= k < |cardSet| => cardSet[k]);
      faceUp := new bool[BoardSize](_ => false);
      card1, card2 := None, None;
      score, errors := 0, 0;
      ready, hidePending, previewPending, restartEnabled := false, false, false, false;
      new;
      assert deck[..] == cardSet;
      ShuffleCards(js);
      forall x | Distinct(names) && x in LoadedNames(names, loads)
        ensures multiset(deck[..])[x] == 2
      {
        ShuffledDeckPairs(names, loads, js, x);
      }
      previewPending := true;
      StartGame();
    }

    /**
     * The shuffle: for each position from left to right, exchange it with
     * position `js[i]`.
     */
    method ShuffleCards(js: seq<nat>)
      requires InRange(js, deck.Length)
      modifies deck
      ensures deck[..] == SwapPass(old(deck[..]), js, 0)
      ensures multiset(deck[..]) == multiset(old(deck[..]))
    {
      var i := 0;
      while i < deck.Length
        invariant 0 <= i <= deck.Length
        invariant SwapPass(deck[..], js, i) == SwapPass(old(deck[..]), js, 0)
      {
        SwapStep(deck[..], js, i);
        var j := js[i];
        var temp := deck[i];
        deck[i] := deck[j];
        deck[j] := temp;
        i := i + 1;
      }
      SwapPassPermutes(old(deck[..]), js, 0);
    }

    /**
     * A click on tile `t`, as delivered to the tile's listener: ignored while
     * the board is not ready or when `t` is already selected, otherwise
     * handled.
     */
    method Click(t: nat)
      requires Valid() && t < BoardSize
      requires ready && !Selected(t) ==> t < deck.Length
      modifies this, faceUp
      ensures Valid()
      // an ignored click changes nothing
      ensures !old(ready) || old(Selected(t)) ==>
                unchanged(this) && faceUp[..] == old(faceUp[..])
      // an accepted click shows the tile's face, and only that tile's
      ensures old(ready) && !old(Selected(t)) ==> faceUp[..] == old(faceUp[..])[t := true]
      ensures old(ready) && !old(Selected(t)) && old(card1).None? ==>
                && card1 == Some(t) && card2 == None
                && score == old(score) && errors == old(errors)
                && ready && hidePending == old(hidePending)
      ensures old(ready) && !old(Selected(t)) && old(card1).Some? ==>
                && faceUp[old(card1).value] && faceUp[t]
                && if deck[old(card1).value] != deck[t] then
                     && card1 == old(card1) && card2 == Some(t)
                     && errors == old(errors) + 1 && score == old(score)
                     && !ready && hidePending
                   else
                     && card1 == None && card2 == None
                     && score == old(score) + 1 && errors == old(errors)
                     && ready && hidePending == old(hidePending)
      ensures previewPending == old(previewPending) && restartEnabled == old(restartEnabled)
    {
      if !ready || card1 == Some(t) || card2 == Some(t) {
        return;
      }
      HandleCardClick(t);
    }

    /**
     * Fills the first free selection slot with `t` and shows its face; once
     * both slots are filled, compares the two names: a match scores and
     * clears the selection, a mismatch counts an error, locks the board and
     * arms the hide timer.
     */
    method HandleCardClick(t: nat)
      requires Valid() && t < BoardSize && t < deck.Length && !Selected(t)
      modifies this, faceUp
      ensures Valid()
      ensures old(card2).Some? ==> unchanged(this) && faceUp[..] == old(faceUp[..])
      ensures old(card2).None? ==> faceUp[..] == old(faceUp[..])[t := true]
      ensures old(card1).None? ==>
                && card1 == Some(t) && card2 == None
                && score == old(score) && errors == old(errors)
                && ready == old(ready) && hidePending == old(hidePending)
      ensures old(ready) && old(card1).Some? ==> faceUp[old(card1).value] && faceUp[t]
      ensures old(card1).Some? && old(card2).None? ==>
                if deck[old(card1).value] != deck[t] then
                  && card1 == old(card1) && card2 == Some(t)
                  && errors == old(errors) + 1 && score == old(score)
                  && !ready && hidePending
                else
                  && card1 == None && card2 == None
                  && score == old(score) + 1 && errors == old(errors)
                  && ready == old(ready) && hidePending == old(hidePending)
      ensures previewPending == old(previewPending) && restartEnabled == old(restartEnabled)
    {
      if card1 == None {
        card1 := Some(t);
        faceUp[t] := true;
      } else if card2 == None {
        card2 := Some(t);
        faceUp[t] := true;
        if deck[card1.value] != deck[card2.value] {
          errors := errors + 1;
          ready := false;
          hidePending := true;
        } else {
          score := score + 1;
          card1, card2 := None, None;
        }
      }
    }

    /**
     * The hide timer's action: turns the two selected tiles face-down when
     * both slots are filled, then clears the selection and unlocks the board.
     */
    method HideCards()
      requires Valid()
      modifies this, faceUp
      ensures Valid()
      ensures faceUp[..] == if old(card1).Some? && old(card2).Some?
                            then old(faceUp[..])[old(card1).value := false][old(card2).value := false]
                            else old(faceUp[..])
      ensures card1 == None && card2 == None && ready
      ensures score == old(score) && errors == old(errors) && hidePending == old(hidePending)
      ensures previewPending == old(previewPending) && restartEnabled == old(restartEnabled)
    {
      if card1 != None && card2 != None {
        faceUp[card1.value] := false;
        faceUp[card2.value] := false;
      }
      card1, card2 := None, None;
      ready := true;
    }

    /** The hide timer fires once and disarms itself. */
    method FireHideTimer()
      requires Valid() && hidePending
      modifies this, faceUp
      ensures Valid()
      ensures faceUp[..] == if old(card1).Some? && old(card2).Some?
                            then old(faceUp[..])[old(card1).value := false][old(card2).value := false]
                            else old(faceUp[..])
      ensures card1 == None && card2 == None && ready && !hidePending
      ensures score == old(score) && errors == old(errors)
      ensures previewPending == old(previewPending) && restartEnabled == old(restartEnabled)
    {
      HideCards();
      hidePending := false;
    }

    /** Shows the back of every tile. */
    method ShowAllBacks()
      modifies faceUp
      ensures forall t :: 0 <= t < faceUp.Length ==> !faceUp[t]
    {
      var t := 0;
      while t < faceUp.Length
        invariant 0 <= t <= faceUp.Length
        invariant forall u :: 0 <= u < t ==> !faceUp[u]
      {
        faceUp[t] := false;
        t := t + 1;
      }
    }

    /** The preview timer's action: every tile face-down, then a fresh start. */
    method FlipAllCardsBack()
      requires Valid()
      modifies this, faceUp
      ensures Valid()
      ensures forall t :: 0 <= t < faceUp.Length ==> !faceUp[t]
      ensures !ready && hidePending && restartEnabled
      ensures card1 == old(card1) && card2 == old(card2)
      ensures score == old(score) && errors == old(errors) && previewPending == old(previewPending)
    {
      ShowAllBacks();
      StartGame();
    }

    /** The preview timer fires once; it is never armed again. */
    method FirePreviewTimer()
      requires Valid() && previewPending
      modifies this, faceUp
      ensures Valid()
      ensures forall t :: 0 <= t < faceUp.Length ==> !faceUp[t]
      ensures !ready && hidePending && restartEnabled && !previewPending
      ensures card1 == old(card1) && card2 == old(card2)
      ensures score == old(score) && errors == old(errors)
    {
      FlipAllCardsBack();
      previewPending := false;
    }

    /**
     * The restart control: clears the selection, reshuffles the deck with the
     * random choices `js`, turns every tile face-down, resets both counters
     * and starts the game again.
     */
    method RestartGame(js: seq<nat>)
      requires Valid() && InRange(js, deck.Length)
      modifies this, deck, faceUp
      ensures Valid()
      ensures deck[..] == SwapPass(old(deck[..]), js, 0)
      ensures multiset(deck[..]) == multiset(old(deck[..]))
      ensures forall t :: 0 <= t < faceUp.Length ==> !faceUp[t]
      ensures card1 == None && card2 == None && score == 0 && errors == 0
      ensures !ready && hidePending && restartEnabled && previewPending == old(previewPending)
    {
      ready := false;
      restartEnabled := false;
      card1, card2 := None, None;
      ShuffleCards(js);
      ShowAllBacks();
      errors, score := 0, 0;
      StartGame();
    }

    /**
     * Locks the board and arms the hide timer, whose firing unlocks it;
     * enables the restart control.
     */
    method StartGame()
      modifies this
      ensures !ready && hidePending && restartEnabled
      ensures card1 == old(card1) && card2 == old(card2)
      ensures score == old(score) && errors == old(errors) && previewPending == old(previewPending)
    {
      ready := false;
      hidePending := true;
      restartEnabled := true;
    }
  }
  /**
   * A game over the full deck left in its built order: every image loads
   * and every position is swapped with itself.
   */
  method UnshuffledGame() returns (g: Game)
    ensures g.Valid() && fresh(g) && fresh(g.deck) && fresh(g.faceUp)
    ensures g.deck[..] == CardList + CardList
    ensures g.card1 == None && g.card2 == None && g.score == 0 && g.errors == 0
    ensures !g.ready && g.hidePending
  {
    var loads := seq(|CardList|, _ => true);
    var js: seq<nat> := seq(BoardSize, k => k);
    CardListDistinct();
    AllLoaded(CardList, loads);
    SwapPassIdentity(CardList + CardList, js, 0);
    g := new Game(CardList, loads, js);
  }

  /**
   * A short game over the unshuffled deck: after the start-up lock ends, the
   * first two tiles ("Darkness" and "Double") are a mismatch, then the two
   * "Darkness" tiles are a pair. Nothing records that a pair was won, so
   * clicking the same two tiles again scores again.
   */
  method ReplayMatchedPair() returns (score: nat, errors: nat)
    ensures score == 2 && errors == 1
  {
    var g := UnshuffledGame();
    CardListDistinct();
    assert g.deck.Length == BoardSize && g.deck[0] == g.deck[10] != g.deck[1];
    g.FireHideTimer();
    g.Click(0);
    g.Click(1);
    assert g.hidePending && g.score == 0 && g.errors == 1;
    g.FireHideTimer();
    g.Click(0);
    g.Click(10);
    assert g.ready && g.card1 == None && g.score == 1 && g.errors == 1;
    g.Click(0);
    g.Click(10);
    score, errors := g.score, g.errors;
  }
}
