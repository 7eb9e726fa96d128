/** Deck construction and the Fisher–Yates shuffle (frontend/src/utils/gameLogic.ts, createDeck and shuffleDeck). */
module Deck {
  import opened GameTypes
  import opened Randomness

  /** `len` consecutive cards of one colour whose ids start at `start`. */
  function Block(c: CardColor, start: nat, len: nat): (b: seq<Card>)
    ensures |b| == len
    ensures forall j :: 0 <= j < len ==> b[j] == Card(start + j, c)
  {
    seq(len, j requires 0 <= j < len => Card(start + j, c))
  }

  /** The cards built for the first k colours of `Colors`, numbered from 0. */
  function DeckUpTo(k: nat): seq<Card>
    requires k <= |Colors|
  {
    if k == 0 then []
    else DeckUpTo(k - 1) + Block(Colors[k - 1], CountsBefore(k - 1), CardCount(Colors[k - 1]))
  }

  /** The deck as built, before shuffling. */
  function StandardDeck(): seq<Card>
  {
    DeckUpTo(|Colors|)
  }

  /** Number of cards of colour c in s. */
  function CountColor(s: seq<Card>, c: CardColor): (n: nat)
    ensures n <= |s|
  {
    if s == [] then 0
    else CountColor(s[..|s| - 1], c) + (if s[|s| - 1].color == c then 1 else 0)
  }

  lemma {:induction false} CountColorAppend(s: seq<Card>, t: seq<Card>, c: CardColor)
    ensures CountColor(s + t, c) == CountColor(s, c) + CountColor(t, c)
    decreases |t|
  {
    if t == [] {
      assert s + t == s;
    } else {
      assert (s + t)[..|s + t| - 1] == s + t[..|t| - 1];
      CountColorAppend(s, t[..|t| - 1], c);
    }
  }

  lemma {:induction false} CountColorBlock(b: CardColor, start: nat, len: nat, c: CardColor)
    ensures CountColor(Block(b, start, len), c) == if b == c then len else 0
    decreases len
  {
    if len > 0 {
      assert Block(b, start, len)[..len - 1] == Block(b, start, len - 1);
      CountColorBlock(b, start, len - 1, c);
    }
  }

  /** The first k colours' cards: their number, their ids, and how many of each colour. */
  lemma {:induction false} DeckUpToFacts(k: nat)
    requires k <= |Colors|
    ensures |DeckUpTo(k)| == CountsBefore(k)
    ensures forall j :: 0 <= j < |DeckUpTo(k)| ==> DeckUpTo(k)[j].id == j
    ensures forall c :: CountColor(DeckUpTo(k), c) == if ColorIndex(c) < k then CardCount(c) else 0
  {
    if k > 0 {
      DeckUpToFacts(k - 1);
      var prev, b := DeckUpTo(k - 1), Block(Colors[k - 1], CountsBefore(k - 1), CardCount(Colors[k - 1]));
      assert DeckUpTo(k) == prev + b;
      forall j | 0 <= j < |DeckUpTo(k)| ensures DeckUpTo(k)[j].id == j {
        if j >= |prev| {
          assert DeckUpTo(k)[j] == b[j - |prev|];
        }
      }
      forall c ensures CountColor(DeckUpTo(k), c) == if ColorIndex(c) < k then CardCount(c) else 0 {
        CountColorAppend(DeckUpTo(k - 1), b, c);
        CountColorBlock(Colors[k - 1], CountsBefore(k - 1), CardCount(Colors[k - 1]), c);
        ColorsEnumerateAll(c);
      }
    }
  }

  /** A fresh deck holds 36 cards numbered 0..35: 8 green and 7 of every other colour. */
  lemma StandardDeckFacts()
    ensures |StandardDeck()| == 36
    ensures forall j :: 0 <= j < 36 ==> StandardDeck()[j].id == j
    ensures CountColor(StandardDeck(), Green) == 8
    ensures forall c :: c != Green ==> CountColor(StandardDeck(), c) == 7
  {
    DeckUpToFacts(|Colors|);
    CardCountsTotal();
  }

  /** createDeck: for each colour in order, push CARD_COUNTS[colour] cards with a running id. */
  method CreateDeck() returns (deck: seq<Card>)
    ensures deck == StandardDeck()
  {
    deck := [];
    var cardId := 0;
    var k := 0;
    while k < |Colors|
      invariant 0 <= k <= |Colors|
      invariant deck == DeckUpTo(k) && cardId == CountsBefore(k)
    {
      var color := Colors[k];
      var i := 0;
      while i < CardCount(color)
        invariant 0 <= i <= CardCount(color)
        invariant cardId == CountsBefore(k) + i
        invariant deck == DeckUpTo(k) + Block(color, CountsBefore(k), i)
      {
        deck := deck + [Card(cardId, color)];
        cardId := cardId + 1;
        i := i + 1;
      }
      k := k + 1;
    }
  }

  /**
   * shuffleDeck: Fisher–Yates on a copy of the deck. The i-th swap step (counting from 0)
   * uses draws[i] as its `Math.random()`; the argument itself is never changed.
   */
  method ShuffleDeck(deck: seq<Card>, draws: seq<real>) returns (shuffled: seq<Card>)
    requires |deck| <= |draws| + 1
    requires forall k :: 0 <= k < |draws| ==> IsDraw(draws[k])
    ensures |shuffled| == |deck|
    ensures multiset(shuffled) == multiset(deck)
  {
    var a := new Card[|deck|](j requires 0 <= j < |deck| => deck[j]);
    assert a[..] == deck;
    var i := a.Length - 1;
    while i > 0
      invariant -1 <= i < a.Length
      invariant i == -1 ==> a.Length == 0
      invariant multiset(a[..]) == multiset(deck)
    {
      var j := RandomIndex(draws[a.Length - 1 - i], i + 1);
      ghost var before := a[..];
      a[i], a[j] := a[j], a[i];
      assert a[..] == before[i := before[j]][j := before[i]];
      SwapKeepsMultiset(before, i, j);
      i := i - 1;
    }
    shuffled := a[..];
  }

  /** Exchanging two entries keeps the multiset of a sequence. */
  lemma SwapKeepsMultiset(s: seq<Card>, i: nat, j: nat)
    requires i < |s| && j < |s|
    ensures multiset(s[i := s[j]][j := s[i]]) == multiset(s)
  {
  }
}
