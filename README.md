# Match Cards: a model of the memory game's state machine

The program is a Swing memory game. Twenty face-down tiles (4 rows of 5)
hide ten pairs of card names. The player turns up two tiles per turn. A pair
adds one to the score. A mismatch adds one to the error count and locks the
board until a timer turns the two tiles back down. This project models the
game's core in Dafny:

- building the deck from the cards whose image loaded, then doubling it;
- the in-place left-to-right swap shuffle;
- the tile listener's guard and the click handler;
- the hide timer, the one-shot preview timer, restart and start.

Module `Deck` (`deck.dfy`) holds the values: the fixed card list, the board
size, the deck-building loop `SetupCards` and the specification of the
shuffle (`Swap`, `SwapPass`), with lemmas about them.

Module `MatchCards` (`match_cards.dfy`) holds the class `Game`. Its fields
are the ones the source updates in place:

- the deck (`array<Name>`) and the tile icons (`array<bool>`, true for the
  face, false for the back);
- the two selection slots (`Option<nat>`; a tile is named by its board
  position);
- the score and error counters;
- the ready flag;
- one flag per timer, saying that the timer is armed;
- the restart control's enabled flag.

A timer firing is a method (`FireHideTimer`, `FirePreviewTimer`) that the
host's event loop may call whenever the timer's flag is set. The random index
of the shuffle is a caller-supplied sequence `js` with `js[i] < |deck|`.

`Game.Valid()` is the object invariant. Every transition the host can
trigger keeps it: `Click`, `HandleCardClick`, `HideCards`, `FireHideTimer`,
`FlipAllCardsBack`, `FirePreviewTimer` and `RestartGame`. The helpers
`ShuffleCards`, `ShowAllBacks` and `StartGame` do not state it. They run only
inside the constructor or a transition that restores it. The invariant says:

- both slots name board positions inside the deck;
- a second selection implies a first one on another tile;
- a full selection always holds two different names, i.e. a mismatch waiting
  to be hidden;
- `ready` implies that the second slot is empty;
- while the board is ready, a first selection shows its face, so both tiles
  of a match are face-up afterwards;
- a locked board always has the hide timer armed, so it is never locked for
  good.

Four behaviours of the code are easy to miss; the model follows the code:

- There is no face-up "peek" before play. Every tile is created showing its
  back (`src/MatchCards.java:82`), and the preview timer's action sets the
  back again.
- Matched tiles are not recorded anywhere. The listener's guard only looks
  at the two selection slots, so a face-up matched tile can be selected
  again. It can then score a second time, or be turned face-down by a later
  mismatch. `ReplayMatchedPair` plays one pair twice and ends with score 2.
  A score of at most ten is therefore not a property of the game.
- A card whose image fails to load is left out of the deck. The game does
  not refuse to start. The deck is then shorter than the board, and a click
  on a tile past its end fails in the source (`cardSet.get(index)`). The
  click methods therefore require the tile to lie inside the deck.
- The shuffle is kept as written: every position is exchanged with a
  position chosen from the whole deck, itself included.

## Model

| member | source | states |
|---|---|---|
| `Deck.CardListDistinct` | src/MatchCards.java:24-27 | the card list holds ten names, all different |
| `Deck.LoadedNames` | src/MatchCards.java:121-139 | the names whose image loaded, in list order; never longer than the list |
| `Deck.LoadedMember` | src/MatchCards.java:121-139 | a name is in the loaded list exactly when it stands in the card list at a position whose image loaded |
| `Deck.AllLoaded` | src/MatchCards.java:121-139 | when every image loads, the loaded list is the whole card list, in order |
| `Deck.LoadedDistinct` | src/MatchCards.java:121-139 | dropping the cards whose image failed keeps the names distinct |
| `Deck.SetupCards` | src/MatchCards.java:117-142 | the loop builds the deck as the loaded names followed by the same names again |
| `Deck.OccursOnce` | src/MatchCards.java:24-27 | in a list of distinct names each name occurs once or not at all |
| `Deck.PairedTwice` | src/MatchCards.java:142 | a distinct list appended to itself holds each of its names exactly twice and no other name |
| `Deck.FullDeckFillsBoard` | src/MatchCards.java:24-30 | with every image loaded, the deck has exactly as many cards as the board has tiles (rows times columns) |
| `Deck.Swap` | src/MatchCards.java:177-179 | positions i and j exchange their cards; every other position keeps its card; the length is kept |
| `Deck.SwapPass` | src/MatchCards.java:173-181 | the swap pass from position i onward keeps the deck's length |
| `Deck.SwapPassPermutes` | src/MatchCards.java:173-181 | the swap pass keeps the multiset of names: the shuffle only reorders the deck |
| `Deck.SwapStep` | src/MatchCards.java:175-180 | one loop iteration (exchange i with js[i]) advances the pass by one position |
| `Deck.SwapPassIdentity` | src/MatchCards.java:173-181 | when every position is exchanged with itself, the shuffle leaves the deck unchanged |
| `Deck.ShuffledDeckPairs` | src/MatchCards.java:121-181 | after building and shuffling from a distinct card list, each loaded name occurs exactly twice and no other name occurs |
| `MatchCards.Game.constructor` | src/MatchCards.java:53-115 | the deck is the shuffled doubled loaded list, and each loaded name is on it twice; every tile shows its back; both slots are empty; both counters are 0; the board is locked; the hide and preview timers are armed; restart is enabled |
| `MatchCards.Game.ShuffleCards` | src/MatchCards.java:173-181 | the in-place loop leaves the deck equal to the swap pass of the old deck, which is a permutation of it |
| `MatchCards.Game.Click` | src/MatchCards.java:84-89 | a click while the board is locked, or on a selected tile, changes nothing. Otherwise the clicked tile alone turns face-up. Then: a first selection fills slot one; both tiles of a pair are face-up afterwards; a mismatch fills slot two, adds exactly 1 to errors, keeps the score, locks the board and arms the hide timer; a match adds exactly 1 to the score, keeps errors, clears both slots and keeps the board ready |
| `MatchCards.Game.HandleCardClick` | src/MatchCards.java:183-205 | fills the first free slot with the tile and turns it face-up, and only it. On a ready board, both tiles of the pair are face-up afterwards. With both slots filled: a match adds exactly 1 to the score, keeps errors, empties both slots and leaves ready and the timer as they were; a mismatch adds exactly 1 to errors, keeps the score and both selections, locks the board and arms the hide timer. With both slots already full it changes nothing. It keeps the object invariant |
| `MatchCards.Game.HideCards` | src/MatchCards.java:207-215 | turns the two selected tiles face-down only when both slots are filled and leaves every other tile as it was; always empties both slots and makes the board ready; counters unchanged |
| `MatchCards.Game.FireHideTimer` | src/MatchCards.java:107-108 | the hide timer fires once: the effect of `HideCards`, after which the timer is no longer armed |
| `MatchCards.Game.ShowAllBacks` | src/MatchCards.java:218-220 | every tile shows its back |
| `MatchCards.Game.FlipAllCardsBack` | src/MatchCards.java:217-222 | every tile shows its back, then the game starts again: locked, hide timer armed, restart enabled; selections and counters unchanged |
| `MatchCards.Game.FirePreviewTimer` | src/MatchCards.java:110-112 | the one-shot preview timer fires: the effect of `FlipAllCardsBack`, after which the preview timer is never armed again |
| `MatchCards.Game.RestartGame` | src/MatchCards.java:224-240 | both slots empty, both counters 0, every tile face-down, the deck the swap pass of (so a permutation of) the old deck, the board locked, the hide timer armed, restart enabled |
| `MatchCards.Game.StartGame` | src/MatchCards.java:242-247 | locks the board, arms the hide timer and enables restart; selections and counters unchanged |
| `MatchCards.UnshuffledGame` | src/MatchCards.java:53-115 | with every image loaded and every position exchanged with itself, a new game's deck is the card list followed by itself |
| `MatchCards.ReplayMatchedPair` | src/MatchCards.java:183-205 | after the start-up lock, a mismatch, its hide, and the same matching pair clicked twice, the score is 2 and the errors 1 |

## Left out

- The Swing window, panels, layout, fonts, label texts and button sizes are
  user interface. The score and error labels always show the counters, so
  they are not modelled separately.
- Image loading and its fallback chain of file paths are file I/O. The
  outcome for each card of the list is an input (`loads[k]`). The back
  image, and the case where it fails to load, are not modelled.
- `Math.random` is floating-point randomness. The shuffle takes the chosen
  indices as an input, each in range. Whether the shuffle's distribution is
  uniform is not modelled.
- Real timer delays and wall-clock time are left out. Each timer is a flag
  saying that it is armed, plus a method that fires it.
- Starting a Swing timer that is already running leaves its countdown as it
  was. The flag model cannot tell this apart from restarting the countdown,
  so neither is modelled.
- The restart button delivers clicks only while enabled. `RestartGame` may
  be called at any time. After construction the flag is always true when
  the button can be pressed.
- `Card.toString` and the icon fields of a card are left out. A card is its
  name.
- The counters are unbounded naturals. Java's 32-bit `int` wrap-around would
  need over two billion clicks and is not modelled.
- A click on a tile past the end of a short deck makes the source throw from
  `cardSet.get`, after `card1Selected` was already set. That failure is not
  modelled. `Click` and `HandleCardClick` require the tile to lie inside the
  deck.
