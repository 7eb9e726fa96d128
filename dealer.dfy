/** Positional dealing by player count (frontend/src/utils/gameLogic.ts, dealCards). */
module Dealer {
  import opened GameTypes

  /** `Array.prototype.slice(from, to)` for non-negative bounds: both ends are clamped to the length. */
  function JsSlice<T>(s: seq<T>, from: nat, to: nat): (r: seq<T>)
    ensures from <= to <= |s| ==> r == s[from..to]
    ensures |r| <= |s|
  {
    var lo := if from < |s| then from else |s|;
    var hi := if to < lo then lo else if to < |s| then to else |s|;
    s[lo..hi]
  }

  /** Cards each player receives, by player count; other counts share the deck evenly. */
  function CardsPerPlayer(playerCount: nat, deckLength: nat): nat
  {
    match playerCount
    case 2 => 14
    case 3 => 12
    case 4 => 9
    case 5 => 7
    case 6 => 6
    case _ => if playerCount == 0 then 0 else deckLength / playerCount
  }

  /** The part of the deck that is dealt: 28 cards for two players, 35 for five, else all of it. */
  function UsedDeck(deck: seq<Card>, playerCount: nat): seq<Card>
  {
    if playerCount == 2 then JsSlice(deck, 0, 28)
    else if playerCount == 5 then JsSlice(deck, 0, 35)
    else deck
  }

  /**
   * The card left for the board: `deck[35]` for five players. On a deck shorter than 36
   * that element is `undefined`, which every caller treats like null.
   */
  function Leftover(deck: seq<Card>, playerCount: nat): Option<Card>
  {
    if playerCount == 5 && |deck| > 35 then Some(deck[35]) else None
  }

  /** Where block i of k cards starts: `i * k`, written as i additions of k. */
  function BlockStart(i: nat, k: nat): nat
  {
    if i == 0 then 0 else BlockStart(i - 1, k) + k
  }

  /** BlockStart is the product the source computes. */
  lemma {:induction false} BlockStartIsProduct(i: nat, k: nat)
    ensures BlockStart(i, k) == i * k
  {
    if i > 0 {
      BlockStartIsProduct(i - 1, k);
      assert (i - 1) * k + k == i * k;
    }
  }

  /** The hand of player i: the i-th block of the used deck. */
  function Hand(deck: seq<Card>, playerCount: nat, i: nat): seq<Card>
  {
    var k := CardsPerPlayer(playerCount, |deck|);
    JsSlice(UsedDeck(deck, playerCount), BlockStart(i, k), BlockStart(i, k) + k)
  }

  /**
   * dealCards: walk the players in order, giving each the next block of the used deck.
   * Every other field of a player is kept.
   */
  method DealCards(players: seq<Player>, deck: seq<Card>) returns (dealt: seq<Player>, remainingCard: Option<Card>)
    ensures |dealt| == |players|
    ensures forall i :: 0 <= i < |players| ==> dealt[i] == players[i].(cards := Hand(deck, |players|, i))
    ensures remainingCard == Leftover(deck, |players|)
  {
    var playerCount := |players|;
    var cardsPerPlayer := CardsPerPlayer(playerCount, |deck|);
    var usedDeck := UsedDeck(deck, playerCount);
    remainingCard := Leftover(deck, playerCount);
    dealt := [];
    var cardIndex := 0;
    while |dealt| < playerCount
      invariant |dealt| <= playerCount
      invariant cardIndex == BlockStart(|dealt|, cardsPerPlayer)
      invariant forall i :: 0 <= i < |dealt| ==> dealt[i] == players[i].(cards := Hand(deck, playerCount, i))
    {
      var player := players[|dealt|];
      var hand := JsSlice(usedDeck, cardIndex, cardIndex + cardsPerPlayer);
      assert hand == Hand(deck, playerCount, |dealt|);
      dealt := dealt + [player.(cards := hand)];
      cardIndex := cardIndex + cardsPerPlayer;
    }
  }

  /** Hands laid end to end. */
  function Concat(hands: seq<seq<Card>>): seq<Card>
  {
    if hands == [] then [] else Concat(hands[..|hands| - 1]) + hands[|hands| - 1]
  }

  /** The first n blocks of k cards of s. */
  function Blocks(s: seq<Card>, k: nat, n: nat): (bs: seq<seq<Card>>)
    ensures |bs| == n
    ensures forall i :: 0 <= i < n ==> bs[i] == JsSlice(s, BlockStart(i, k), BlockStart(i, k) + k)
  {
    if n == 0 then [] else Blocks(s, k, n - 1) + [JsSlice(s, BlockStart(n - 1, k), BlockStart(n - 1, k) + k)]
  }

  /** The hands of the first n players. */
  function Hands(deck: seq<Card>, playerCount: nat, n: nat): (hs: seq<seq<Card>>)
    ensures |hs| == n
    ensures forall i :: 0 <= i < n ==> hs[i] == Hand(deck, playerCount, i)
  {
    Blocks(UsedDeck(deck, playerCount), CardsPerPlayer(playerCount, |deck|), n)
  }

  /** Block i of n ends no later than all n blocks do. */
  lemma {:induction false} BlockInRange(i: nat, n: nat, k: nat)
    requires i < n
    ensures BlockStart(i, k) + k <= BlockStart(n, k)
    decreases n
  {
    if i < n - 1 {
      BlockInRange(i, n - 1, k);
    }
  }

  /** Two adjacent slices from the front make one. */
  lemma SliceJoin<T>(s: seq<T>, a: nat, b: nat)
    requires a <= b <= |s|
    ensures s[..a] + s[a..b] == s[..b]
  {
  }

  /** When n blocks of k cards fit in s, the blocks laid end to end are its first n*k cards. */
  lemma {:induction false} BlocksTile(s: seq<Card>, k: nat, n: nat)
    requires BlockStart(n, k) <= |s|
    ensures Concat(Blocks(s, k, n)) == s[..BlockStart(n, k)]
  {
    if n == 0 {
      assert Blocks(s, k, n) == [];
    } else {
      var a, b := BlockStart(n - 1, k), BlockStart(n, k);
      BlocksTile(s, k, n - 1);
      var bs := Blocks(s, k, n);
      assert bs[..n - 1] == Blocks(s, k, n - 1);
      assert bs[n - 1] == s[a..b];
      SliceJoin(s, a, b);
    }
  }

  /** With the full 36-card deck and two to six players, the table of cards per player holds. */
  lemma StandardDealSizes(deck: seq<Card>, playerCount: nat)
    requires |deck| == 36 && 2 <= playerCount <= 6
    ensures CardsPerPlayer(playerCount, 36) == [14, 12, 9, 7, 6][playerCount - 2]
    ensures |UsedDeck(deck, playerCount)| == BlockStart(playerCount, CardsPerPlayer(playerCount, 36))
    ensures playerCount == 2 ==> UsedDeck(deck, playerCount) == deck[..28]
    ensures playerCount == 5 ==> UsedDeck(deck, playerCount) == deck[..35]
    ensures playerCount != 2 && playerCount != 5 ==> UsedDeck(deck, playerCount) == deck
    ensures Leftover(deck, playerCount) == if playerCount == 5 then Some(deck[35]) else None
  {
    assert BlockStart(2, 14) == 28 && BlockStart(3, 12) == 36 && BlockStart(4, 9) == 36;
    assert BlockStart(5, 7) == 35 && BlockStart(6, 6) == 36;
  }

  /** With the full deck, player i holds exactly the block `usedDeck[i*k .. i*k+k)`, of the table's size. */
  lemma StandardHand(deck: seq<Card>, playerCount: nat, i: nat)
    requires |deck| == 36 && 2 <= playerCount <= 6 && i < playerCount
    ensures var k, start := CardsPerPlayer(playerCount, 36), BlockStart(i, CardsPerPlayer(playerCount, 36));
      && start == i * k
      && start + k <= |UsedDeck(deck, playerCount)|
      && Hand(deck, playerCount, i) == UsedDeck(deck, playerCount)[start .. start + k]
      && |Hand(deck, playerCount, i)| == k
  {
    StandardDealSizes(deck, playerCount);
    var k := CardsPerPlayer(playerCount, 36);
    var start, used := BlockStart(i, k), UsedDeck(deck, playerCount);
    BlockInRange(i, playerCount, k);
    BlockStartIsProduct(i, k);
    assert Hand(deck, playerCount, i) == JsSlice(used, start, start + k);
  }

  /** A full-deck deal uses every card of the deck exactly once, counting the leftover, except the 8 a two-player game sets aside. */
  lemma StandardDealAccountsForDeck(deck: seq<Card>, playerCount: nat)
    requires |deck| == 36 && 2 <= playerCount <= 6
    ensures var dealt := Concat(Hands(deck, playerCount, playerCount));
      match Leftover(deck, playerCount)
      case Some(c) => dealt + [c] == deck
      case None => (playerCount == 2 ==> dealt == deck[..28]) && (playerCount != 2 ==> dealt == deck)
  {
    StandardHandsTile(deck, playerCount);
    StandardDealSizes(deck, playerCount);
    if playerCount == 5 {
      assert deck[..35] + [deck[35]] == deck;
    }
  }

  /** With the full deck the hands laid end to end are the used part of the deck. */
  lemma StandardHandsTile(deck: seq<Card>, playerCount: nat)
    requires |deck| == 36 && 2 <= playerCount <= 6
    ensures Concat(Hands(deck, playerCount, playerCount)) == UsedDeck(deck, playerCount)
  {
    StandardDealSizes(deck, playerCount);
    var used, k := UsedDeck(deck, playerCount), CardsPerPlayer(playerCount, 36);
    assert Hands(deck, playerCount, playerCount) == Blocks(used, k, playerCount);
    BlocksTile(used, k, playerCount);
    assert used[..|used|] == used;
  }
}
