/** The move relay of server.py without sockets and threads: the MOVES slot
    list, the PLAYERS list, the id counter of the accept loop, and one pass
    of the message loop of threaded_client, one message at a time. */
module Relay {
  import opened Wrappers
  import Players

  /** len(MOVES) */
  const SLOTS: nat := 4

  /** What a Move submission does to the slots: every slot but the sender's
      gets the move. */
  function Fanout<M>(slots: seq<Option<M>>, sender: int, m: M): (r: seq<Option<M>>)
    ensures |r| == |slots|
  {
    seq(|slots|, i requires 0 <= i < |slots| => if i == sender then slots[i] else Some(m))
  }

  /** What get_move answers and what it leaves in the slots. */
  datatype Polled<M> = Polled(move: Option<M>, slots: seq<Option<M>>)

  /** get_move for `id`: the caller's slot, cleared if it held a move. */
  function Take<M>(slots: seq<Option<M>>, id: int): (r: Polled<M>)
    requires 0 <= id < |slots|
    ensures |r.slots| == |slots|
  {
    if slots[id].Some? then Polled(slots[id], slots[id := None]) else Polled(None, slots)
  }

  /** A submitted move reaches every other slot, and the sender's own slot is
      left as it was. */
  lemma FanoutReachesPeers<M>(slots: seq<Option<M>>, sender: int, m: M, i: int)
    requires 0 <= i < |slots|
    ensures Fanout(slots, sender, m)[i] == if i == sender then slots[i] else Some(m)
  {
  }

  /** A peer that polls after a submission receives that move, and its slot
      is emptied. */
  lemma PeerReceivesMove<M>(slots: seq<Option<M>>, sender: int, m: M, id: int)
    requires 0 <= id < |slots| && id != sender
    ensures Take(Fanout(slots, sender, m), id) == Polled(Some(m), Fanout(slots, sender, m)[id := None])
  {
  }

  /** A second submission before a peer polls overwrites the first: the
      peer only ever sees the latest move. */
  lemma LatestMoveWins<M>(slots: seq<Option<M>>, s1: int, m1: M, s2: int, m2: M, id: int)
    requires 0 <= id < |slots| && id != s2
    ensures Take(Fanout(Fanout(slots, s1, m1), s2, m2), id).move == Some(m2)
  {
  }

  /** A sender is never handed its own move back. */
  lemma SenderSkipsOwnMove<M>(slots: seq<Option<M>>, sender: int, m: M)
    requires 0 <= sender < |slots|
    ensures Take(Fanout(slots, sender, m), sender).move == Take(slots, sender).move
  {
  }

  /** Polling twice in a row: the second answer is None and changes nothing. */
  lemma SecondTakeIsNone<M>(slots: seq<Option<M>>, id: int)
    requires 0 <= id < |slots|
    ensures var first := Take(slots, id);
      Take(first.slots, id) == Polled(None, first.slots)
  {
  }

  /** get_move touches no slot but the caller's. */
  lemma TakeKeepsOtherSlots<M>(slots: seq<Option<M>>, id: int, j: int)
    requires 0 <= id < |slots| && 0 <= j < |slots| && j != id
    ensures Take(slots, id).slots[j] == slots[j]
  {
  }

  /** A sender with an id past the slots (4 or more) has no slot of its own,
      so its move lands in all of them. */
  lemma OutsiderFillsEverySlot<M>(slots: seq<Option<M>>, sender: int, m: M, i: int)
    requires sender >= |slots| && 0 <= i < |slots|
    ensures Fanout(slots, sender, m)[i] == Some(m)
  {
  }

  /** A received message: falsy data, one of the three strings, a Move, any
      other value, or something that fails to arrive or unpickle. */
  datatype Request<M> = Falsy | NConnected | GetPlayers | Submit(move: M) | GetMove | Unrecognised | Unreadable

  /** What the server sends back. */
  datatype Reply<M> = ConnectedCount(n: nat) | PlayerList(players: seq<Players.Player>) | MoveSent | MoveReply(move: Option<M>)

  class RelayState<M> {
    /** MOVES */
    const moves: array<Option<M>>
    /** PLAYERS */
    var players: seq<Players.Player>
    /** current_player of the accept loop: the id the next connection gets. */
    var nextId: nat

    ghost predicate Valid()
      reads this
    {
      moves.Length == SLOTS
    }

    /** PLAYERS = [], MOVES = [None, None, None, None], current_player = 0. */
    constructor()
      ensures Valid() && fresh(moves)
      ensures moves[..] == [None, None, None, None] && players == [] && nextId == 0
    {
      moves := new Option<M>[SLOTS](_ => None);
      players := [];
      nextId := 0;
    }

    /** One round of the accept loop and the start of its handler: the
        connection gets id current_player, which then goes up by one. The
        handler appends Player(id), with `shuffled` as its deck, and sends the
        id. Player(id) fails for id >= 4 (there are 4 colours), which ends the
        handler there: nothing is appended and no session opens. */
    method Accept(shuffled: seq<int>) returns (id: nat, session: bool)
      requires Players.IsFullDeck(shuffled)
      modifies this`players, this`nextId
      ensures id == old(nextId) && nextId == id + 1
      ensures session <==> id < Players.COLOR_COUNT
      ensures session ==>
        && |players| == |old(players)| + 1 && players[..|old(players)|] == old(players)
        && fresh(players[|old(players)|]) && players[|old(players)|].p == id
        && players[|old(players)|].deck == shuffled
        && !players[|old(players)|].playing && players[|old(players)|].currentCard == None
      ensures !session ==> players == old(players)
    {
      id := nextId;
      nextId := nextId + 1;
      session := id < Players.COLOR_COUNT;
      if session {
        var pl := new Players.Player(id, shuffled);
        players := players + [pl];
      }
    }

    /** n_connected: len(PLAYERS). */
    method Count() returns (n: nat)
      ensures n == |players|
    {
      n := |players|;
    }

    /** A Move from `sender`: for i in range(len(MOVES)), every slot but
        MOVES[sender] is set to the move. */
    method Submit(sender: nat, m: M)
      requires Valid()
      modifies moves
      ensures moves[..] == Fanout(old(moves[..]), sender, m)
    {
      for i := 0 to moves.Length
        invariant forall j :: 0 <= j < i ==> moves[j] == if j == sender then old(moves[j]) else Some(m)
        invariant forall j :: i <= j < moves.Length ==> moves[j] == old(moves[j])
      {
        if i == sender {
          continue;
        }
        moves[i] := Some(m);
      }
    }

    /** get_move from `id`: MOVES[id], cleared if it held a move. For
        id >= 4 the lookup raises, reported here as inRange == false. */
    method GetMove(id: nat) returns (inRange: bool, move: Option<M>)
      requires Valid()
      modifies moves
      ensures inRange <==> id < SLOTS
      ensures inRange ==> Polled(move, moves[..]) == Take(old(moves[..]), id)
      ensures !inRange ==> move == None && moves[..] == old(moves[..])
    {
      if id >= moves.Length {
        return false, None;
      }
      inRange := true;
      move := moves[id];
      if move.Some? {
        moves[id] := None;
      }
    }

    /** One pass of the message loop of the handler for client `id`. None
        means the loop breaks and the session ends: falsy data, an
        unrecognised message, a failed receive or unpickle, or get_move from
        an id with no slot. */
    method Handle(id: nat, req: Request<M>) returns (reply: Option<Reply<M>>)
      requires Valid()
      modifies moves
      ensures req.Falsy? || req.Unrecognised? || req.Unreadable? ==> reply == None && moves[..] == old(moves[..])
      ensures req.NConnected? ==> reply == Some(ConnectedCount(|players|)) && moves[..] == old(moves[..])
      ensures req.GetPlayers? ==> reply == Some(PlayerList(players)) && moves[..] == old(moves[..])
      ensures req.Submit? ==> reply == Some(MoveSent) && moves[..] == Fanout(old(moves[..]), id, req.move)
      ensures req.GetMove? && id < SLOTS ==>
        var p := Take(old(moves[..]), id);
        reply == Some(MoveReply(p.move)) && moves[..] == p.slots
      ensures req.GetMove? && id >= SLOTS ==> reply == None && moves[..] == old(moves[..])
    {
      match req {
        case Falsy =>
          reply := None;
        case NConnected =>
          var n := Count();
          reply := Some(ConnectedCount(n));
        case GetPlayers =>
          reply := Some(PlayerList(players));
        case Submit(m) =>
          Submit(id, m);
          reply := Some(MoveSent);
        case GetMove =>
          var inRange, move := GetMove(id);
          reply := if inRange then Some(MoveReply(move)) else None;
        case Unrecognised =>
          reply := None;
        case Unreadable =>
          reply := None;
      }
    }
  }
}
