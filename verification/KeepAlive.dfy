/** Keepalive counting and eviction of client connections (src/net/TcpClient.cpp). */
module KeepAlives {
  const MAX_MISSES: int := 3

  /** What happens to a connection after it was made: a heartbeat's reply arrives, or a keepalive round
      ends. */
  datatype Mark = Reply | RoundEnd

  /** Round ends behind the last reply. */
  function RoundsSinceReply(h: seq<Mark>): nat {
    if h == [] || h[|h| - 1] == Reply then 0 else 1 + RoundsSinceReply(h[..|h| - 1])
  }

  /** Round ends without a reply in their round, counted back to the last round that had one; -1 while a
      reply has arrived in the round that is still going on. */
  function Misses(h: seq<Mark>): int {
    RoundsSinceReply(h) - if Reply in h then 1 else 0
  }

  /** What that count says: the last `k` marks are all round ends, and what comes before them is nothing,
      or ends with a reply and the end of its round. */
  ghost predicate QuietRounds(h: seq<Mark>, k: nat) {
    && k <= |h| && (forall i :: |h| - k <= i < |h| ==> h[i] == RoundEnd)
    && (k == |h| || (k + 2 <= |h| && h[|h| - k - 1] == RoundEnd && h[|h| - k - 2] == Reply))
  }

  lemma {:induction false} MissesAreQuietRounds(h: seq<Mark>, k: nat)
    ensures Misses(h) == k <==> QuietRounds(h, k)
    ensures Misses(h) == -1 <==> h != [] && h[|h| - 1] == Reply
    decreases |h|
  {
    if h != [] {
      var n := |h| - 1;
      assert h == h[..n] + [h[n]];
      MissesAreQuietRounds(h[..n], if k > 0 then k - 1 else 0);
      if h[n] == RoundEnd {
        assert Misses(h) == Misses(h[..n]) + 1;
        assert k > 0 ==> (QuietRounds(h, k) <==> QuietRounds(h[..n], k - 1));
      }
    }
  }

  /** A node of the map of connections. Nodes are numbered as they are made; the callbacks of a heartbeat
      refer to one of them. */
  datatype Node<C> = Node(number: nat, conn: C)

  class TcpClient<C> {
    var serverConns: map<string, Node<C>>
    var made: nat
    var keepaliveCount: map<string, int>
    ghost var history: map<string, seq<Mark>>

    /** The counter of every connected server is its number of misses and lies in -1..2. */
    ghost predicate Valid()
      reads this
    {
      && history.Keys == serverConns.Keys && (forall s :: s in serverConns ==> serverConns[s].number < made)
      && (forall s :: s in serverConns ==>
           && s in keepaliveCount && keepaliveCount[s] == Misses(history[s])
           && -1 <= keepaliveCount[s] < MAX_MISSES)
    }

    constructor ()
      ensures Valid() && serverConns == map[]
    {
      serverConns, keepaliveCount, history, made := map[], map[], map[], 0;
    }

    lemma SameKeys()
      requires Valid()
      ensures history.Keys == serverConns.Keys
    {
    }

    /** The lookup that precedes connecting. A server that is connected never fails the test on its
        counter. */
    method Lookup(server: string) returns (found: bool)
      requires Valid()
      ensures found <==> server in serverConns
    {
      found := server in serverConns && keepaliveCount[server] < MAX_MISSES;
    }

    /** A new connection; only a server that is not in the map gets a new node. */
    method Connected(server: string, conn: C)
      requires Valid()
      modifies this
      ensures Valid() && history == old(history)[server := []]
      ensures if server in old(serverConns)
              then serverConns == old(serverConns)[server := Node(old(serverConns)[server].number, conn)]
                   && made == old(made)
              else serverConns == old(serverConns)[server := Node(old(made), conn)] && made == old(made) + 1
    {
      if server in serverConns {
        serverConns := serverConns[server := serverConns[server].(conn := conn)];
      } else {
        serverConns := serverConns[server := Node(made, conn)];
        made := made + 1;
      }
      keepaliveCount := keepaliveCount[server := 0];
      history := history[server := []];
    }

    /** A reply to a heartbeat that was sent while node `number` held `server`. If that node has been erased
        meanwhile, the callback's reference to it dangles, even if the server has connected again. */
    method HeartbeatReply(server: string, number: nat) returns (dangling: bool)
      requires Valid()
      modifies this`keepaliveCount, this`history
      ensures Valid() && (dangling <==> !(server in serverConns && serverConns[server].number == number))
      ensures history == if dangling then old(history) else old(history)[server := old(history)[server] + [Reply]]
    {
      dangling := !(server in serverConns && serverConns[server].number == number);
      if dangling {
        return;
      }
      keepaliveCount := keepaliveCount[server := -1];
      history := history[server := history[server] + [Reply]];
    }

    /** The end of a round for one connection: its counter goes up, and at three it is erased and the
        counter starts over. */
    method EndRoundFor(server: string) returns (gone: bool)
      requires Valid() && server in serverConns
      modifies this`serverConns, this`keepaliveCount, this`history
      ensures Valid()
      ensures gone <==> QuietRounds(old(history)[server] + [RoundEnd], 3)
      ensures serverConns == if gone then old(serverConns) - {server} else old(serverConns)
      ensures history == if gone then old(history) - {server}
                         else old(history)[server := old(history)[server] + [RoundEnd]]
    {
      OneMoreRound(history[server]);
      MissesAreQuietRounds(history[server] + [RoundEnd], 3);
      hide Misses, QuietRounds;
      keepaliveCount := keepaliveCount[server := keepaliveCount[server] + 1];
      gone := keepaliveCount[server] >= MAX_MISSES;
      if gone {
        keepaliveCount := keepaliveCount[server := 0];
        serverConns := serverConns - {server};
        history := history - {server};
      } else {
        history := history[server := history[server] + [RoundEnd]];
      }
    }

    /** The end of a keepalive round: evicted is exactly whoever reaches three misses with it. `order` is
        the order in which the map is walked. */
    method EndRound(order: seq<string>) returns (evicted: set<string>)
      requires Valid()
      requires forall s :: s in order <==> s in serverConns
      requires forall i, j :: 0 <= i < j < |order| ==> order[i] != order[j]
      modifies this`serverConns, this`keepaliveCount, this`history
      ensures Valid()
      ensures evicted == set s | s in old(serverConns) && QuietRounds(old(history)[s] + [RoundEnd], 3)
      ensures serverConns == old(serverConns) - evicted
      ensures history == map s | s in serverConns :: old(history)[s] + [RoundEnd]
    {
      ghost var before := history;
      hide Misses, QuietRounds, Evicted, PartOfRound, Valid;
      SameKeys();
      evicted := {};
      RoundBegins(before, order[..0]);
      for i := 0 to |order|
        invariant Valid()
        invariant evicted == Evicted(before, order[..i])
        invariant serverConns == old(serverConns) - evicted
        invariant history == PartOfRound(before, order[..i])
      {
        var s := order[i];
        assert s in order && s !in order[..i];
        assert order[..i + 1] == order[..i] + [s];
        StepOfRound(before, order[..i], s);
        assert s in serverConns by { SameKeys(); }
        var gone := EndRoundFor(s);
        if gone {
          evicted := evicted + {s};
        }
      }
      assert order[..|order|] == order;
      RoundIsOver(before, order);
    }
  }

  /** Who of `done` is evicted at the end of the round. */
  ghost function Evicted(history: map<string, seq<Mark>>, done: seq<string>): set<string> {
    set s | s in done && s in history && QuietRounds(history[s] + [RoundEnd], 3)
  }

  /** The histories when the round has ended for `done`. */
  ghost function PartOfRound(history: map<string, seq<Mark>>, done: seq<string>): map<string, seq<Mark>> {
    map s | s in history && s !in Evicted(history, done) :: if s in done then history[s] + [RoundEnd] else history[s]
  }

  lemma RoundBegins(history: map<string, seq<Mark>>, done: seq<string>)
    requires done == []
    ensures PartOfRound(history, done) == history && Evicted(history, done) == {}
  {
  }

  lemma RoundIsOver(history: map<string, seq<Mark>>, done: seq<string>)
    requires forall s :: s in history ==> s in done
    ensures Evicted(history, done) == set s | s in history && QuietRounds(history[s] + [RoundEnd], 3)
    ensures PartOfRound(history, done) == map s | s in history.Keys - Evicted(history, done) :: history[s] + [RoundEnd]
  {
    hide QuietRounds;
  }

  lemma StepOfRound(history: map<string, seq<Mark>>, done: seq<string>, s: string)
    requires s in history && s !in done
    ensures var h := PartOfRound(history, done);
      var gone := QuietRounds(history[s] + [RoundEnd], 3);
      && s in h && h[s] == history[s]
      && PartOfRound(history, done + [s]) == (if gone then h - {s} else h[s := h[s] + [RoundEnd]])
      && Evicted(history, done + [s]) == Evicted(history, done) + if gone then {s} else {}
  {
    hide QuietRounds;
    assert forall t :: t in done + [s] <==> t in done || t == s;
  }

  lemma OneMoreRound(h: seq<Mark>)
    ensures Misses(h + [RoundEnd]) == Misses(h) + 1
  {
    assert (h + [RoundEnd])[..|h|] == h;
  }
}
