/**
 * The deck of a memory game: the vocabulary of card names, the board
 * dimensions, how the deck is built from the cards whose image loaded, and
 * the left-to-right swap pass that shuffles it.
 */
module Deck {

  /** A card is known to the game only by its name. */
  type Name = string

  /** The fixed vocabulary, in the order the deck is built from. */
  const CardList: seq<Name> :=
    ["Darkness", "Double", "Fairy", "Fightning", "Fire",
     "Grass", "Lightning", "Metal", "Psychic", "Water"]

  const Rows: nat := 4
  const Columns: nat := 5

  /** The number of tiles on the board. */
  const BoardSize: nat := Rows * Columns

  predicate Distinct(s: seq<Name>) {
    forall i, j :: 0 <= i < j < |s| ==> s[i] != s[j]
  }

  lemma CardListDistinct()
    ensures Distinct(CardList) && |CardList| == 10
  {
  }

  // ---------------------------------------------------------------------------
  // Deck construction
  // ---------------------------------------------------------------------------

  /**
   * The names of `names` whose image loaded (`loads[k]` tells whether the
   * image of `names[k]` could be read), in their original order.
   */
  function LoadedNames(names: seq<Name>, loads: seq<bool>): (r: seq<Name>)
    requires |loads| == |names|
    ensures |r| <= |names|
    decreases |names|
  {
    if |names| == 0 then []
    else
      var n := |names| - 1;
      LoadedNames(names[..n], loads[..n]) + (if loads[n] then [names[n]] else [])
  }

  /** A name is loaded exactly when it stands in the list at a position whose image loaded. */
  lemma {:induction false} LoadedMember(names: seq<Name>, loads: seq<bool>, x: Name)
    requires |loads| == |names|
    ensures x in LoadedNames(names, loads) <==> exists k :: 0 <= k < |names| && loads[k] && names[k] == x
    decreases |names|
  {
    if |names| > 0 {
      var n := |names| - 1;
      LoadedMember(names[..n], loads[..n], x);
      assert forall k :: 0 <= k < n ==> names[..n][k] == names[k] && loads[..n][k] == loads[k];
    }
  }

  /** When every image loads, the loaded names are the whole vocabulary. */
  lemma {:induction false} AllLoaded(names: seq<Name>, loads: seq<bool>)
    requires |loads| == |names|
    requires forall k :: 0 <= k < |loads| ==> loads[k]
    ensures LoadedNames(names, loads) == names
    decreases |names|
  {
    if |names| > 0 {
      var n := |names| - 1;
      AllLoaded(names[..n], loads[..n]);
      assert names[..n] + [names[n]] == names;
    }
  }

  /** Dropping the names that failed to load keeps a distinct list distinct. */
  lemma {:induction false} LoadedDistinct(names: seq<Name>, loads: seq<bool>)
    requires |loads| == |names| && Distinct(names)
    ensures Distinct(LoadedNames(names, loads))
    decreases |names|
  {
    if |names| > 0 {
      var n := |names| - 1;
      LoadedDistinct(names[..n], loads[..n]);
      var front := LoadedNames(names[..n], loads[..n]);
      if loads[n] {
        assert forall k :: 0 <= k < n ==> names[..n][k] != names[n];
        LoadedMember(names[..n], loads[..n], names[n]);
        assert names[n] !in front;
        var r := front + [names[n]];
        assert forall i :: 0 <= i < |front| ==> r[i] == front[i] && front[i] in front;
      }
    }
  }

  /**
   * The deck-building loop: every name whose image loaded is added in turn,
   * then the whole list is appended to itself so that each card has a twin.
   */
  method SetupCards(names: seq<Name>, loads: seq<bool>) returns (cardSet: seq<Name>)
    requires |loads| == |names|
    ensures cardSet == LoadedNames(names, loads) + LoadedNames(names, loads)
  {
    cardSet := [];
    var k := 0;
    while k < |names|
      invariant 0 <= k <= |names|
      invariant cardSet == LoadedNames(names[..k], loads[..k])
    {
      assert names[..k + 1][..k] == names[..k] && loads[..k + 1][..k] == loads[..k];
      if loads[k] {
        cardSet := cardSet + [names[k]];
      }
      k := k + 1;
    }
    assert names[..k] == names && loads[..k] == loads;
    cardSet := cardSet + cardSet;
  }

  /** In a list without repetitions every name occurs once or not at all. */
  lemma {:induction false} OccursOnce(s: seq<Name>, x: Name)
    requires Distinct(s)
    ensures multiset(s)[x] == if x in s then 1 else 0
    decreases |s|
  {
    if |s| > 0 {
      var n := |s| - 1;
      assert s == s[..n] + [s[n]];
      OccursOnce(s[..n], x);
      assert s[n] !in s[..n];
    }
  }

  /**
   * A list of distinct names followed by itself holds each of its names
   * exactly twice, and nothing else.
   */
  lemma PairedTwice(s: seq<Name>, x: Name)
    requires Distinct(s)
    ensures multiset(s + s)[x] == if x in s then 2 else 0
  {
    OccursOnce(s, x);
  }

  /** Building the deck from the fixed vocabulary, with every image loaded, fills the board. */
  lemma FullDeckFillsBoard(loads: seq<bool>)
    requires |loads| == |CardList| && forall k :: 0 <= k < |loads| ==> loads[k]
    ensures 2 * |LoadedNames(CardList, loads)| == BoardSize
  {
    AllLoaded(CardList, loads);
  }

  // ---------------------------------------------------------------------------
  // Shuffling
  // ---------------------------------------------------------------------------

  /** Indices usable as the random choices of a swap pass over `n` cards. */
  predicate InRange(js: seq<nat>, n: nat) {
    |js| == n && forall k :: 0 <= k < |js| ==> js[k] < n
  }

  /** `s` with the cards at positions `i` and `j` exchanged. */
  function Swap(s: seq<Name>, i: nat, j: nat): (r: seq<Name>)
    requires i < |s| && j < |s|
    ensures |r| == |s| && r[i] == s[j] && r[j] == s[i]
    ensures forall k :: 0 <= k < |s| && k != i && k != j ==> r[k] == s[k]
  {
    s[i := s[j]][j := s[i]]
  }

  /**
   * The rest of the shuffle from position `i` on: position `i` is swapped
   * with position `js[i]`, then the pass moves one step right.
   */
  function SwapPass(s: seq<Name>, js: seq<nat>, i: nat): (r: seq<Name>)
    requires InRange(js, |s|) && i <= |s|
    ensures |r| == |s|
    decreases |s| - i
  {
    if i == |s| then s else SwapPass(Swap(s, i, js[i]), js, i + 1)
  }

  /** The swap pass only reorders the deck: every name keeps its number of copies. */
  lemma {:induction false} SwapPassPermutes(s: seq<Name>, js: seq<nat>, i: nat)
    requires InRange(js, |s|) && i <= |s|
    ensures multiset(SwapPass(s, js, i)) == multiset(s)
    decreases |s| - i
  {
    if i < |s| {
      var t := Swap(s, i, js[i]);
      assert t == s[i := s[js[i]]][js[i] := s[i]];
      SwapPassPermutes(t, js, i + 1);
    }
  }

  /** Exchanging positions `i` and `js[i]` advances the swap pass by one position. */
  lemma SwapStep(s: seq<Name>, js: seq<nat>, i: nat)
    requires InRange(js, |s|) && i < |s|
    ensures SwapPass(s, js, i) == SwapPass(s[i := s[js[i]]][js[i] := s[i]], js, i + 1)
  {
    assert s[i := s[js[i]]][js[i] := s[i]] == Swap(s, i, js[i]);
  }

  /** Choosing every position itself leaves the deck as it was. */
  lemma {:induction false} SwapPassIdentity(s: seq<Name>, js: seq<nat>, i: nat)
    requires InRange(js, |s|) && i <= |s|
    requires forall k :: i <= k < |js| ==> js[k] == k
    ensures SwapPass(s, js, i) == s
    decreases |s| - i
  {
    if i < |s| {
      assert Swap(s, i, i) == s;
      SwapPassIdentity(s, js, i + 1);
    }
  }

  /** After a shuffle, each name of a distinct loaded list still occurs exactly twice. */
  lemma ShuffledDeckPairs(names: seq<Name>, loads: seq<bool>, js: seq<nat>, x: Name)
    requires |loads| == |names| && Distinct(names)
    requires InRange(js, 2 * |LoadedNames(names, loads)|)
    ensures var deck := LoadedNames(names, loads) + LoadedNames(names, loads);
            multiset(SwapPass(deck, js, 0))[x] == if x in LoadedNames(names, loads) then 2 else 0
  {
    LoadedDistinct(names, loads);
    PairedTwice(LoadedNames(names, loads), x);
    SwapPassPermutes(LoadedNames(names, loads) + LoadedNames(names, loads), js, 0);
  }
}
