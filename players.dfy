/** The deck and turn logic of player.py: Player draws from the end of its
    18-card deck, Game hands the turn round-robin. */
module Players {
  import opened Wrappers
  import Boards
  import Selectability

  /** len(PLAYER_COLORS): Player(p) looks up PLAYER_COLORS[p]. */
  const COLOR_COUNT: int := 4

  /** list(range(lo, hi)) */
  function Range(lo: int, hi: int): (r: seq<int>)
    ensures |r| == if lo < hi then hi - lo else 0
    ensures forall i :: 0 <= i < |r| ==> r[i] == lo + i
    decreases hi - lo
  {
    if lo < hi then [lo] + Range(lo + 1, hi) else []
  }

  /** list(range(1, 10)) + list(range(1, 10)), before the shuffle: 1..9 in
      order, twice. */
  function FullDeck(): (d: seq<int>)
    ensures |d| == 18
    ensures forall i :: 0 <= i < 18 ==> d[i] == i % 9 + 1
  {
    Range(1, 10) + Range(1, 10)
  }

  /** range(lo, hi) holds each of its values once. */
  lemma {:induction false} RangeCount(lo: int, hi: int, v: int)
    ensures multiset(Range(lo, hi))[v] == if lo <= v < hi then 1 else 0
    decreases hi - lo
  {
    if lo < hi {
      RangeCount(lo + 1, hi, v);
      assert Range(lo, hi) == [lo] + Range(lo + 1, hi);
    }
  }

  /** How many copies of card v a full deck holds. */
  function Copies(v: int): nat {
    if 1 <= v <= 9 then 2 else 0
  }

  /** A permutation of the full deck: what random.shuffle leaves. */
  ghost predicate IsFullDeck(d: seq<int>) {
    forall v :: multiset(d)[v] == Copies(v)
  }

  /** What is left of a full deck after some draws. */
  ghost predicate IsPartDeck(d: seq<int>) {
    forall v :: multiset(d)[v] <= Copies(v)
  }

  /** A fresh deck is 18 cards: each of 1..9 twice, nothing else. */
  lemma FullDeckCounts()
    ensures |FullDeck()| == 18 && IsFullDeck(FullDeck())
  {
    forall v ensures multiset(FullDeck())[v] == Copies(v) {
      RangeCount(1, 10, v);
    }
  }

  /** Every permutation of the full deck has 18 cards. */
  lemma FullDeckSize(d: seq<int>)
    requires IsFullDeck(d)
    ensures |d| == 18
  {
    FullDeckCounts();
    SameCountsSameLength(d, FullDeck());
  }

  lemma SameCountsSameLength(a: seq<int>, b: seq<int>)
    requires forall v :: multiset(a)[v] == multiset(b)[v]
    ensures |a| == |b|
  {
    forall v ensures multiset(a)[v] == multiset(b)[v] {
    }
    assert multiset(a) == multiset(b);
    assert |a| == |multiset(a)| == |multiset(b)| == |b|;
  }

  /** What is left of a deck holds only cards 1..9. */
  lemma DeckCardsAreCards(deck: seq<int>, i: int)
    requires IsPartDeck(deck) && 0 <= i < |deck|
    ensures 1 <= deck[i] <= 9
  {
    assert deck[i] in multiset(deck);
  }

  class Player {
    const p: int
    var deck: seq<int>
    var playing: bool
    var currentCard: Option<int>

    /** The deck only ever loses cards. */
    ghost predicate Valid()
      reads this
    {
      -COLOR_COUNT <= p < COLOR_COUNT && IsPartDeck(deck)
    }

    /** Player(p) with random.shuffle's result passed in as `shuffled`. */
    constructor(p: int, shuffled: seq<int>)
      requires -COLOR_COUNT <= p < COLOR_COUNT
      requires IsFullDeck(shuffled)
      ensures Valid()
      ensures this.p == p && deck == shuffled && !playing && currentCard == None
    {
      this.p := p;
      deck := shuffled;
      playing := false;
      currentCard := None;
    }

    /** draw_card(): pops the last card and makes it the current card; on an
        empty deck pop() raises and nothing changes (None here). */
    method DrawCard() returns (card: Option<int>)
      requires Valid()
      modifies this`deck, this`currentCard
      ensures Valid()
      ensures old(deck) == [] ==> card == None && deck == old(deck) && currentCard == old(currentCard)
      ensures old(deck) != [] ==>
        card == Some(old(deck)[|old(deck)| - 1]) && old(deck) == deck + [card.value]
        && currentCard == card && 1 <= card.value <= 9
    {
      if deck == [] {
        return None;
      }
      DeckCardsAreCards(deck, |deck| - 1);
      var last := deck[|deck| - 1];
      assert deck == deck[..|deck| - 1] + [last];
      deck := deck[..|deck| - 1];
      currentCard := Some(last);
      card := currentCard;
    }
  }

  /** The shuffled decks handed to Game(n): one permutation of the full deck
      per player. */
  ghost predicate Shuffles(n: int, shuffles: seq<seq<int>>) {
    |shuffles| == n && forall i :: 0 <= i < n ==> IsFullDeck(shuffles[i])
  }

  class Game {
    const nPlayer: int
    const board: Boards.Board
    var players: seq<Player>
    var current: Player

    /** Players are numbered by their place; the current one is the only one
        playing. */
    ghost predicate Valid()
      reads this, players
    {
      && 1 <= nPlayer <= COLOR_COUNT && |players| == nPlayer
      && (forall i :: 0 <= i < nPlayer ==> players[i].p == i)
      && 0 <= current.p < nPlayer && current == players[current.p]
      && (forall i :: 0 <= i < nPlayer ==> (players[i].playing <==> i == current.p))
      && (forall i :: 0 <= i < nPlayer ==> players[i].Valid())
    }

    /** Game(n): a new board, players 0..n-1, player 0 current; start_game
        then lets player 0 play and draw. */
    constructor(nPlayer: int, shuffles: seq<seq<int>>)
      requires 1 <= nPlayer <= COLOR_COUNT && Shuffles(nPlayer, shuffles)
      ensures Valid() && this.nPlayer == nPlayer && fresh(board) && fresh(players)
      ensures board.Valid() && board.gameStart && board.round == 0
      ensures forall p :: p in board.grid ==>
        board.grid[p] == if p == Selectability.Centre then Selectability.SelectableCell else Selectability.EmptyCell
      ensures current == players[0]
      ensures players[0].currentCard.Some? && players[0].deck + [players[0].currentCard.value] == shuffles[0]
      ensures forall i :: 1 <= i < nPlayer ==> players[i].deck == shuffles[i] && players[i].currentCard == None
    {
      this.nPlayer := nPlayer;
      board := new Boards.Board();
      var ps := NewPlayers(nPlayer, shuffles);
      players := ps;
      current := ps[0];
      new;
      FullDeckSize(shuffles[0]);
      var _ := StartGame();
    }

    /** [Player(i) for i in range(n)], player i getting shuffles[i]. */
    static method NewPlayers(n: int, shuffles: seq<seq<int>>) returns (ps: seq<Player>)
      requires 0 <= n <= COLOR_COUNT && Shuffles(n, shuffles)
      ensures |ps| == n && fresh(ps)
      ensures forall j :: 0 <= j < n ==> ps[j].p == j && ps[j].Valid() && !ps[j].playing
      ensures forall j :: 0 <= j < n ==> ps[j].deck == shuffles[j] && ps[j].currentCard == None
    {
      ps := [];
      for i := 0 to n
        invariant |ps| == i && fresh(ps)
        invariant forall j :: 0 <= j < i ==> ps[j].p == j && ps[j].Valid() && !ps[j].playing
        invariant forall j :: 0 <= j < i ==> ps[j].deck == shuffles[j] && ps[j].currentCard == None
      {
        var pl := new Player(i, shuffles[i]);
        ps := ps + [pl];
      }
    }

    /** start_game(): the current player plays and draws. */
    method StartGame() returns (card: Option<int>)
      requires current in players && current.Valid() && !current.playing
      requires forall i :: 0 <= i < |players| ==> players[i] != current ==> !players[i].playing
      modifies current`playing, current`deck, current`currentCard
      ensures current.playing && current.Valid()
      ensures old(current.deck) != [] ==>
        card == Some(old(current.deck)[|old(current.deck)| - 1])
        && old(current.deck) == current.deck + [card.value] && current.currentCard == card
    {
      current.playing := true;
      card := current.DrawCard();
    }

    /** next_player(): the current player stops, players[(p + 1) % n] becomes
        current, plays and draws; no other player is touched. The draw fails
        (None) on an empty deck, after the turn has passed. */
    method NextPlayer() returns (card: Option<int>)
      requires Valid()
      modifies set i | 0 <= i < |players| :: players[i], this`current
      ensures Valid() && players == old(players)
      ensures current == players[(old(current.p) + 1) % nPlayer]
      ensures var c := current;
        old(c.deck) == [] ==> card == None && c.deck == [] && c.currentCard == old(c.currentCard)
      ensures var c := current;
        old(c.deck) != [] ==>
          card == Some(old(c.deck)[|old(c.deck)| - 1])
          && old(c.deck) == c.deck + [card.value] && c.currentCard == card
      ensures forall i :: 0 <= i < nPlayer && players[i] != current ==>
        players[i].deck == old(players[i].deck) && players[i].currentCard == old(players[i].currentCard)
    {
      var next := (current.p + 1) % nPlayer;
      current.playing := false;
      current := players[next];
      current.playing := true;
      card := current.DrawCard();
    }
  }
}
