/** The computer player's move choice (frontend/src/utils/gameLogic.ts, getAIMove). */
module Advisor {
  import opened GameTypes
  import opened Randomness
  import opened Pyramid
  import opened Turns

  /** A candidate move; its score is the number of legal cells its card has (fewer is better). */
  datatype ScoredMove = ScoredMove(card: Card, position: Position, score: nat)

  /** The move getAIMove returns. */
  datatype Move = Move(card: Card, position: Position)

  /** Candidate moves of one card: one per legal cell, in the order getValidPositions lists them. */
  function MovesForCard(p: Board, card: Card): (ms: seq<ScoredMove>)
    ensures |ms| == |ValidPositions(p, card)|
    ensures forall i :: 0 <= i < |ms| ==>
      ms[i] == ScoredMove(card, ValidPositions(p, card)[i], |ValidPositions(p, card)|)
  {
    var positions := ValidPositions(p, card);
    seq(|positions|, i requires 0 <= i < |positions| => ScoredMove(card, positions[i], |positions|))
  }

  /**
   * The candidate list of getAIMove (the flatMap over the hand): a move is a candidate iff
   * its card is in the hand, its cell is legal for that card, and its score is that card's
   * number of legal cells.
   */
  function CandidateMoves(hand: seq<Card>, p: Board): (ms: seq<ScoredMove>)
    ensures forall m :: m in ms <==>
      m.card in hand && m.position in ValidPositions(p, m.card) && m.score == |ValidPositions(p, m.card)|
  {
    if hand == [] then []
    else
      var front := CandidateMoves(hand[..|hand| - 1], p);
      var last := MovesForCard(p, hand[|hand| - 1]);
      assert forall m :: m in last <==>
        m.card == hand[|hand| - 1] && m.position in ValidPositions(p, m.card) && m.score == |ValidPositions(p, m.card)|
      by {
        forall m: ScoredMove | m.card == hand[|hand| - 1] && m.position in ValidPositions(p, m.card) && m.score == |ValidPositions(p, m.card)|
          ensures m in last
        {
          var i :| 0 <= i < |ValidPositions(p, m.card)| && ValidPositions(p, m.card)[i] == m.position;
          assert last[i] == m;
        }
      }
      assert forall c :: c in hand <==> c in hand[..|hand| - 1] || c == hand[|hand| - 1] by {
        assert hand == hand[..|hand| - 1] + [hand[|hand| - 1]];
      }
      front + last
  }

  /**
   * The flatMap keeps the hand's order: the candidates of a + b are those of a followed by
   * those of b.
   */
  lemma {:induction false} CandidateMovesAppend(a: seq<Card>, b: seq<Card>, p: Board)
    ensures CandidateMoves(a + b, p) == CandidateMoves(a, p) + CandidateMoves(b, p)
    decreases |b|
  {
    if b == [] {
      assert a + b == a;
    } else {
      var front, last := b[..|b| - 1], b[|b| - 1];
      assert b == front + [last];
      assert a + b == (a + front) + [last];
      CandidateMovesSnoc(front, last, p);
      CandidateMovesSnoc(a + front, last, p);
      CandidateMovesAppend(a, front, p);
      ConcatAssoc(CandidateMoves(a, p), CandidateMoves(front, p), MovesForCard(p, last));
    }
  }

  /** A hand with one more card at the end gains that card's candidates at the end. */
  lemma CandidateMovesSnoc(s: seq<Card>, c: Card, p: Board)
    ensures CandidateMoves(s + [c], p) == CandidateMoves(s, p) + MovesForCard(p, c)
  {
    assert (s + [c])[..|s|] == s;
  }

  /** One card's candidates are its legal cells in the order getValidPositions lists them. */
  lemma CandidateMovesSingle(c: Card, p: Board)
    ensures CandidateMoves([c], p) == MovesForCard(p, c)
  {
    CandidateMovesSnoc([], c, p);
  }

  /** There is some candidate move iff the player can play. */
  lemma CandidatesIffCanPlay(player: Player, p: Board)
    ensures CandidateMoves(player.cards, p) == [] <==> !CanPlayerPlay(player, p)
  {
    var ms := CandidateMoves(player.cards, p);
    if CanPlayerPlay(player, p) {
      var card :| card in player.cards && |ValidPositions(p, card)| > 0;
      var m := ScoredMove(card, ValidPositions(p, card)[0], |ValidPositions(p, card)|);
      assert m in ms;
    }
    if ms != [] {
      assert ms[0] in ms;
      assert ms[0].position in ValidPositions(p, ms[0].card);
    }
  }

  /** Scores never decrease along s. */
  predicate SortedByScore(s: seq<ScoredMove>)
  {
    forall i, j :: 0 <= i < j < |s| ==> s[i].score <= s[j].score
  }

  /** The moves of s that score v, in the order s lists them. */
  function OfScore(s: seq<ScoredMove>, v: nat): seq<ScoredMove>
  {
    if s == [] then []
    else OfScore(s[..|s| - 1], v) + (if s[|s| - 1].score == v then [s[|s| - 1]] else [])
  }

  /**
   * Stable insertion of m into a sorted list: m goes after every element whose score is not
   * larger, as a stable sort places a later element.
   */
  function InsertByScore(s: seq<ScoredMove>, m: ScoredMove): (r: seq<ScoredMove>)
    requires SortedByScore(s)
    ensures SortedByScore(r)
    ensures multiset(r) == multiset(s) + multiset{m}
    ensures |r| == |s| + 1
    ensures r[|r| - 1].score == if s != [] && m.score < s[|s| - 1].score then s[|s| - 1].score else m.score
  {
    if s == [] then [m]
    else if s[|s| - 1].score <= m.score then
      SortedSnoc(s, m);
      s + [m]
    else
      var front, last := s[..|s| - 1], s[|s| - 1];
      assert s == front + [last];
      SortedPrefix(s, |s| - 1);
      var r := InsertByScore(front, m);
      assert r[|r| - 1].score <= last.score;
      SortedSnoc(r, last);
      assert multiset(r + [last]) == multiset(r) + multiset{last};
      r + [last]
  }

  /**
   * The insertion is stable: among the moves of any one score, m comes after those already
   * in the list, whose order is kept.
   */
  lemma {:induction false} InsertKeepsTies(s: seq<ScoredMove>, m: ScoredMove, v: nat)
    requires SortedByScore(s)
    ensures OfScore(InsertByScore(s, m), v) == OfScore(s, v) + (if m.score == v then [m] else [])
    decreases |s|
  {
    if s == [] {
      OfScoreSnoc([], m, v);
    } else if s[|s| - 1].score <= m.score {
      OfScoreSnoc(s, m, v);
    } else {
      var front, last := s[..|s| - 1], s[|s| - 1];
      assert s == front + [last];
      InsertBeforeLast(s, m);
      var r := InsertByScore(front, m);
      InsertKeepsTies(front, m, v);
      OfScoreSnoc(r, last, v);
      OfScoreSnoc(front, last, v);
      var ties := OfScore(front, v);
      if m.score == v {
        assert OfScore(r + [last], v) == ties + [m];
        assert OfScore(s, v) == ties;
      } else {
        assert OfScore(r + [last], v) == OfScore(s, v);
      }
    }
  }

  /** Appending x adds x to the moves of its own score and changes no other score's moves. */
  lemma OfScoreSnoc(s: seq<ScoredMove>, x: ScoredMove, v: nat)
    ensures OfScore(s + [x], v) == OfScore(s, v) + (if x.score == v then [x] else [])
  {
    assert (s + [x])[..|s|] == s;
  }

  /** Appending a move that scores at least the last one keeps a list sorted. */
  lemma SortedSnoc(s: seq<ScoredMove>, m: ScoredMove)
    requires SortedByScore(s) && (s != [] ==> s[|s| - 1].score <= m.score)
    ensures SortedByScore(s + [m])
  {
    var t := s + [m];
    forall i, j | 0 <= i < j < |t| ensures t[i].score <= t[j].score {
      if j == |s| && i < |s| - 1 {
        assert s[i].score <= s[|s| - 1].score;
      }
    }
  }

  /**
   * `moves.sort((a, b) => a.score - b.score)`: a stable sort by score (ECMAScript requires
   * Array.prototype.sort to be stable), here an insertion sort over the list.
   */
  function SortByScore(s: seq<ScoredMove>): (r: seq<ScoredMove>)
    ensures SortedByScore(r)
    ensures multiset(r) == multiset(s)
    ensures |r| == |s|
    ensures forall v :: OfScore(r, v) == OfScore(s, v)
  {
    if s == [] then []
    else
      assert s == s[..|s| - 1] + [s[|s| - 1]];
      assert forall v :: OfScore(InsertByScore(SortByScore(s[..|s| - 1]), s[|s| - 1]), v) == OfScore(s, v) by {
        forall v ensures OfScore(InsertByScore(SortByScore(s[..|s| - 1]), s[|s| - 1]), v) == OfScore(s, v) {
          InsertKeepsTies(SortByScore(s[..|s| - 1]), s[|s| - 1], v);
          OfScoreSnoc(s[..|s| - 1], s[|s| - 1], v);
        }
      }
      InsertByScore(SortByScore(s[..|s| - 1]), s[|s| - 1])
  }

  /** Number of moves in s whose score is strictly below v. */
  function CountBelow(s: seq<ScoredMove>, v: nat): (n: nat)
    ensures n <= |s|
  {
    if s == [] then 0
    else CountBelow(s[..|s| - 1], v) + (if s[|s| - 1].score < v then 1 else 0)
  }

  lemma {:induction false} CountBelowAppend(s: seq<ScoredMove>, t: seq<ScoredMove>, v: nat)
    ensures CountBelow(s + t, v) == CountBelow(s, v) + CountBelow(t, v)
    decreases |t|
  {
    if t == [] {
      assert s + t == s;
    } else {
      assert (s + t)[..|s + t| - 1] == s + t[..|t| - 1];
      CountBelowAppend(s, t[..|t| - 1], v);
    }
  }

  /** A prefix of a sorted list is sorted. */
  lemma SortedPrefix(s: seq<ScoredMove>, k: nat)
    requires SortedByScore(s) && k <= |s|
    ensures SortedByScore(s[..k])
  {
  }

  /** Inserting below the last element keeps that element last. */
  lemma InsertBeforeLast(s: seq<ScoredMove>, m: ScoredMove)
    requires SortedByScore(s) && s != [] && m.score < s[|s| - 1].score
    ensures SortedByScore(s[..|s| - 1])
    ensures InsertByScore(s, m) == InsertByScore(s[..|s| - 1], m) + [s[|s| - 1]]
  {
    SortedPrefix(s, |s| - 1);
  }

  /** Inserting m adds one to the count iff m's score is below v. */
  lemma {:induction false} CountBelowInsert(s: seq<ScoredMove>, m: ScoredMove, v: nat)
    requires SortedByScore(s)
    ensures CountBelow(InsertByScore(s, m), v) == CountBelow(s, v) + CountBelow([m], v)
    decreases |s|
  {
    if s == [] {
    } else if s[|s| - 1].score <= m.score {
      CountBelowAppend(s, [m], v);
    } else {
      var front, last := s[..|s| - 1], s[|s| - 1];
      InsertBeforeLast(s, m);
      CountBelowInsert(front, m, v);
      CountBelowAppend(InsertByScore(front, m), [last], v);
      assert CountBelow(s, v) == CountBelow(front, v) + CountBelow([last], v);
    }
  }

  /** Sorting does not change how many moves score below v. */
  lemma {:induction false} CountBelowSort(s: seq<ScoredMove>, v: nat)
    ensures CountBelow(SortByScore(s), v) == CountBelow(s, v)
    decreases |s|
  {
    if s != [] {
      var front, last := s[..|s| - 1], s[|s| - 1];
      CountBelowSort(front, v);
      assert SortByScore(s) == InsertByScore(SortByScore(front), last);
      CountBelowInsert(SortByScore(front), last, v);
      assert [last][..0] == [];
      assert CountBelow(s, v) == CountBelow(front, v) + CountBelow([last], v);
    }
  }

  /** In a sorted list, fewer than j + 1 moves score below the move at index j. */
  lemma {:induction false} CountBelowSorted(s: seq<ScoredMove>, j: nat)
    requires SortedByScore(s) && j < |s|
    ensures CountBelow(s, s[j].score) <= j
    decreases |s|
  {
    var front := s[..|s| - 1];
    assert SortedByScore(front);
    if j < |s| - 1 {
      assert front[j] == s[j];
      CountBelowSorted(front, j);
    }
  }

  /** How many of the best-ranked moves getAIMove chooses among: three, or all when fewer. */
  function TopCount(n: nat): (k: nat)
    ensures k <= 3 && k <= n && (k == 3 || k == n)
  {
    if 3 < n then 3 else n
  }

  /**
   * Any of the first three moves after sorting is a legal move of a card in the hand, and
   * fewer than three candidates rank strictly better.
   */
  lemma TopMoveIsLegal(hand: seq<Card>, p: Board, j: nat)
    requires j < TopCount(|CandidateMoves(hand, p)|)
    ensures var m := SortByScore(CandidateMoves(hand, p))[j];
      && m.card in hand
      && IsValidPlacement(p, m.position, m.card)
      && CountBelow(CandidateMoves(hand, p), |ValidPositions(p, m.card)|) < 3
  {
    var moves := CandidateMoves(hand, p);
    var sorted := SortByScore(moves);
    var m := sorted[j];
    assert m in multiset(moves);
    assert m in moves;
    ValidPositionsExact(p, m.card);
    CountBelowSorted(sorted, j);
    CountBelowSort(moves, m.score);
  }

  /**
   * getAIMove: list every legal move scored by its card's number of legal cells, sort by
   * score, and pick one of the first (at most) three with the draw standing for Math.random().
   * The result is null iff the player has no legal move.
   */
  function GetAIMove(player: Player, p: Board, draw: real): (move: Option<Move>)
    requires IsDraw(draw)
    ensures move.None? <==> !CanPlayerPlay(player, p)
    ensures move.Some? ==> move.value.card in player.cards
    ensures move.Some? ==> IsValidPlacement(p, move.value.position, move.value.card)
    ensures move.Some? ==>
      CountBelow(CandidateMoves(player.cards, p), |ValidPositions(p, move.value.card)|) < 3
    ensures var sorted := SortByScore(CandidateMoves(player.cards, p));
      move.Some? ==>
        exists j :: 0 <= j < TopCount(|sorted|) && move.value == Move(sorted[j].card, sorted[j].position)
  {
    var movesWithScores := CandidateMoves(player.cards, p);
    CandidatesIffCanPlay(player, p);
    if |movesWithScores| == 0 then None
    else
      var sorted := SortByScore(movesWithScores);
      var topMoves := sorted[..TopCount(|sorted|)];
      var j := RandomIndex(draw, |topMoves|);
      var selectedMove := topMoves[j];
      TopMoveIsLegal(player.cards, p, j);
      Some(Move(selectedMove.card, selectedMove.position))
  }
}
