/**
  The per-client query limit: clientLimiter in internal/api/client_limit.go.  Every method below is one indivisible
  step of acquire, release or leave; any number of goroutines take such steps in any order.
 */
module ClientLimit {

  const MAX_QUERIES: nat := 2
  const MAX_WAITING: nat := 8

  /** The tokens in a client's channel, and how many goroutines use the slots. */
  class ClientSlots {
    var running: nat
    var users: nat

    constructor ()
      ensures running == 0 && users == 0
    {
      running, users := 0, 0;
    }
  }

  /** Where a goroutine stands between two steps, with its local variables. */
  datatype Phase =
    | Waiting(client: string, slots: ClientSlots)   // in acquire, before the select
    | GivingUp(client: string, slots: ClientSlots)  // the context or the timer has ended the wait
    | Holding(client: string, slots: ClientSlots)   // acquire has returned true
    | Releasing(client: string, slots: ClientSlots) // release has looked the slots up
    | Leaving(client: string, slots: ClientSlots)   // release has taken its token back

  type Goroutines = map<nat, Phase>

  ghost function Users(threads: Goroutines, client: string): set<nat> {
    set t | t in threads && threads[t].client == client
  }

  ghost predicate Holds(p: Phase) {
    p.Holding? || p.Releasing?
  }

  ghost function Holders(threads: Goroutines, client: string): set<nat> {
    set t | t in threads && threads[t].client == client && Holds(threads[t])
  }

  /** One more goroutine, which holds no token. */
  lemma UsersAdd(threads: Goroutines, t: nat, p: Phase, client: string)
    requires t !in threads && !Holds(p)
    ensures |Users(threads[t := p], client)| == |Users(threads, client)| + if p.client == client then 1 else 0
    ensures Holders(threads[t := p], client) == Holders(threads, client)
  {
    hide Holds;
    var more := threads[t := p];
    if p.client == client {
      assert Users(more, client) == Users(threads, client) + {t};
    } else {
      assert Users(more, client) == Users(threads, client);
    }
  }

  lemma UsersRemove(threads: Goroutines, t: nat, client: string)
    requires t in threads && !Holds(threads[t])
    ensures |Users(threads - {t}, client)| == |Users(threads, client)| - if threads[t].client == client then 1 else 0
    ensures Holders(threads - {t}, client) == Holders(threads, client)
  {
    hide Holds;
    var fewer := threads - {t};
    if threads[t].client == client {
      assert Users(threads, client) == Users(fewer, client) + {t};
    } else {
      assert Users(threads, client) == Users(fewer, client);
    }
  }

  lemma PhaseChange(threads: Goroutines, t: nat, p: Phase, client: string)
    requires t in threads && p.client == threads[t].client
    ensures Users(threads[t := p], client) == Users(threads, client)
    ensures |Holders(threads[t := p], client)| ==
            |Holders(threads, client)| +
            if p.client != client || Holds(p) == Holds(threads[t]) then 0 else if Holds(p) then 1 else -1
  {
    hide Holds;
    var next := threads[t := p];
    if p.client != client || Holds(p) == Holds(threads[t]) {
      assert Holders(next, client) == Holders(threads, client);
    } else if Holds(p) {
      assert Holders(next, client) == Holders(threads, client) + {t};
    } else {
      assert Holders(threads, client) == Holders(next, client) + {t};
    }
  }

  // ----- The invariant, on values ------------------------------------------------------------------

  type Clients = map<string, ClientSlots>

  /** No two clients share slots, and every goroutine works on the slots that its client has now. */
  ghost predicate Linked(clients: Clients, threads: Goroutines) {
    (forall c, d :: c in clients && d in clients && clients[c] == clients[d] ==> c == d) &&
    forall t :: t in threads ==> threads[t].client in clients && clients[threads[t].client] == threads[t].slots
  }

  /** A client is listed while goroutines use its slots; the counters count them. */
  ghost predicate Counted(clients: Clients, threads: Goroutines, users: map<string, nat>, running: map<string, nat>) {
    users.Keys == clients.Keys == running.Keys &&
    forall c :: c in clients ==> CountedFor(threads, c, users[c], running[c])
  }

  ghost predicate CountedFor(threads: Goroutines, c: string, users: nat, running: nat) {
    users == |Users(threads, c)| && running == |Holders(threads, c)| &&
    0 < users <= MAX_QUERIES + MAX_WAITING && running <= MAX_QUERIES
  }

  lemma NoUsers(clients: Clients, threads: Goroutines, c: string)
    requires Linked(clients, threads) && c !in clients
    ensures Users(threads, c) == {} && Holders(threads, c) == {}
  {}

  lemma EnterLinks(clients: Clients, threads: Goroutines, t: nat, client: string, slots: ClientSlots)
    requires Linked(clients, threads) && t !in threads
    requires if client in clients then slots == clients[client] else forall c :: c in clients ==> clients[c] != slots
    ensures Linked(clients[client := slots], threads[t := Waiting(client, slots)])
  {}

  lemma EnterKeeps(clients: Clients, threads: Goroutines, users: map<string, nat>, running: map<string, nat>,
                   t: nat, client: string, slots: ClientSlots, n: nat, r: nat)
    requires Linked(clients, threads) && Counted(clients, threads, users, running) && t !in threads
    requires if client in clients then slots == clients[client] && n == users[client] && r == running[client]
             else n == 0 && r == 0 && forall c :: c in clients ==> clients[c] != slots
    requires n < MAX_QUERIES + MAX_WAITING
    ensures Linked(clients[client := slots], threads[t := Waiting(client, slots)])
    ensures Counted(clients[client := slots], threads[t := Waiting(client, slots)], users[client := n + 1],
              running[client := r])
  {
    EnterLinks(clients, threads, t, client, slots);
    if client !in clients {
      NoUsers(clients, threads, client);
    }
    hide Linked, Users, Holders, CountedFor;
    ClientCounts(clients, threads, users, running, client, n, r);
    var p := Waiting(client, slots);
    EnterCounts(threads, t, p, client, n, r);
    forall c | c in clients && c != client
      ensures CountedFor(threads[t := p], c, users[c], running[c])
    {
      ClientCounts(clients, threads, users, running, c, users[c], running[c]);
      EnterCounts(threads, t, p, c, users[c], running[c]);
    }
  }

  lemma ClientCounts(clients: Clients, threads: Goroutines, users: map<string, nat>, running: map<string, nat>,
                     c: string, n: nat, r: nat)
    requires Counted(clients, threads, users, running)
    requires if c in clients then n == users[c] && r == running[c]
               else n == 0 && r == 0 && Users(threads, c) == Holders(threads, c) == {}
    ensures n == |Users(threads, c)| && r == |Holders(threads, c)| && n <= MAX_QUERIES + MAX_WAITING && r <= MAX_QUERIES
    ensures c in clients ==> n > 0
  {
    assert c in clients ==> CountedFor(threads, c, users[c], running[c]);
  }

  lemma EnterCounts(threads: Goroutines, t: nat, p: Phase, c: string, n: nat, r: nat)
    requires t !in threads && !Holds(p) && n == |Users(threads, c)| && r == |Holders(threads, c)|
    requires if p.client == c then n < MAX_QUERIES + MAX_WAITING else 0 < n <= MAX_QUERIES + MAX_WAITING
    requires r <= MAX_QUERIES
    ensures CountedFor(threads[t := p], c, if p.client == c then n + 1 else n, r)
  {
    hide Users, Holders;
    UsersAdd(threads, t, p, c);
  }

  lemma LeaveKeeps(clients: Clients, threads: Goroutines, users: map<string, nat>, running: map<string, nat>, t: nat,
                   c: string)
    requires Linked(clients, threads) && Counted(clients, threads, users, running) && t in threads && !Holds(threads[t])
    requires c == threads[t].client
    ensures c in clients && users[c] > 0
    ensures users[c] > 1 ==>
              Linked(clients, threads - {t}) && Counted(clients, threads - {t}, users[c := users[c] - 1], running)
    ensures users[c] == 1 ==>
              Linked(clients - {c}, threads - {t}) && Counted(clients - {c}, threads - {t}, users - {c}, running - {c})
  {
    var fewer := threads - {t};
    assert CountedFor(threads, c, users[c], running[c]);
    UsersRemove(threads, t, c);
    forall d | d in clients && d != c
      ensures CountedFor(fewer, d, users[d], running[d])
    {
      UsersRemove(threads, t, d);
      assert CountedFor(threads, d, users[d], running[d]);
    }
    if users[c] == 1 {
      assert Users(fewer, c) == {};
      forall u | u in fewer
        ensures fewer[u].client != c
      {
        assert u !in Users(fewer, c);
      }
    } else {
      HoldersAreUsers(fewer, c);
    }
  }

  lemma HoldersAreUsers(threads: Goroutines, c: string)
    ensures Holders(threads, c) <= Users(threads, c)
  {}

  /** A goroutine moves on; the tokens follow its phase. */
  lemma MoveKeeps(clients: Clients, threads: Goroutines, users: map<string, nat>, running: map<string, nat>, t: nat,
                  p: Phase)
    requires Linked(clients, threads) && Counted(clients, threads, users, running) && t in threads
    requires p.client == threads[t].client && p.slots == threads[t].slots
    ensures p.client in clients
    ensures Holds(p) == Holds(threads[t]) ==>
              Linked(clients, threads[t := p]) && Counted(clients, threads[t := p], users, running)
    ensures Holds(p) && !Holds(threads[t]) && running[p.client] < MAX_QUERIES ==>
              Linked(clients, threads[t := p]) && Counted(clients, threads[t := p], users,
                  running[p.client := running[p.client] + 1])
    ensures !Holds(p) && Holds(threads[t]) ==>
              running[p.client] > 0 && Linked(clients, threads[t := p]) &&
              Counted(clients, threads[t := p], users, running[p.client := running[p.client] - 1])
  {
    var next, c := threads[t := p], p.client;
    assert Linked(clients, next);
    assert CountedFor(threads, c, users[c], running[c]);
    if Holds(threads[t]) {
      assert t in Holders(threads, c);
    }
    hide Holds, Linked;
    forall d | d in clients
      ensures |Users(next, d)| == users[d] && (d != c ==> CountedFor(next, d, users[d], running[d]))
    {
      PhaseChange(threads, t, p, d);
      assert CountedFor(threads, d, users[d], running[d]);
    }
    PhaseChange(threads, t, p, c);
  }

  // ----- The limiter ------------------------------------------------------------------------------

  class ClientLimiter {
    var clients: Clients
    /** The goroutines inside acquire or release, or between the two. */
    var threads: Goroutines

    ghost function UserCounts(): map<string, nat>
      reads this, clients.Values
    {
      map c | c in clients :: clients[c].users
    }

    ghost function TokenCounts(): map<string, nat>
      reads this, clients.Values
    {
      map c | c in clients :: clients[c].running
    }

    /** What holds between any two steps. */
    ghost predicate Valid()
      reads this, clients.Values
    {
      Linked(clients, threads) && Counted(clients, threads, UserCounts(), TokenCounts())
    }

    constructor ()
      ensures Valid() && clients == map[] && threads == map[]
    {
      clients, threads := map[], map[];
    }

    /** acquire up to its select: the client's slots, made when there are none, unless too many goroutines use them. */
    method Enter(t: nat, client: string) returns (ok: bool)
      requires Valid() && t !in threads
      modifies this, clients.Values
      ensures Valid()
      ensures ok <==> |Users(old(threads), client)| < 10
      ensures ok ==> client in clients && threads == old(threads)[t := Waiting(client, clients[client])]
      ensures ok ==> clients == old(clients)[client := clients[client]]
      ensures ok ==> if client in old(clients) then clients == old(clients) else fresh(clients[client])
      ensures !ok ==> threads == old(threads) && clients == old(clients)
    {
      hide Linked, Counted, Users, Holders;
      ghost var users, running := UserCounts(), TokenCounts();
      var slots;
      if client in clients {
        slots := clients[client];
        CountersAre(clients, threads, users, running, client);
        if slots.users >= MAX_QUERIES + MAX_WAITING {
          return false;
        }
      } else {
        slots := new ClientSlots();
        NoUsers(clients, threads, client);
      }
      EnterKeeps(clients, threads, users, running, t, client, slots, slots.users, slots.running);
      OwnSlots(clients, threads);
      ghost var before := clients;
      clients := clients[client := slots];
      slots.users := slots.users + 1;
      threads := threads[t := Waiting(client, slots)];
      CountsUpdated(this, before, users, running, client, slots);
      ok := true;
    }

    /** The select of acquire takes a token if the channel has room. */
    method Take(t: nat, client: string, slots: ClientSlots) returns (ok: bool)
      requires Valid() && t in threads && threads[t] == Waiting(client, slots)
      modifies this, clients.Values
      ensures Valid() && clients == old(clients)
      ensures ok <==> |Holders(old(threads), client)| < 2
      ensures threads == if ok then old(threads)[t := Holding(client, slots)] else old(threads)
    {
      hide Linked, Counted, Users, Holders;
      ghost var users, running := UserCounts(), TokenCounts();
      SlotsAre(clients, threads, t);
      CountersAre(clients, threads, users, running, client);
      if slots.running >= MAX_QUERIES {
        return false;
      }
      MoveKeeps(clients, threads, users, running, t, Holding(client, slots));
      OwnSlots(clients, threads);
      slots.running := slots.running + 1;
      threads := threads[t := Holding(client, slots)];
      assert UserCounts() == users;
      assert TokenCounts() == running[client := running[client] + 1];
      ok := true;
    }

    /** The context ends or the timer fires, at any time. */
    method GiveUp(t: nat, client: string, slots: ClientSlots)
      requires Valid() && t in threads && threads[t] == Waiting(client, slots)
      modifies `threads
      ensures Valid() && threads == old(threads)[t := GivingUp(client, slots)]
    {
      hide Linked, Counted, Users, Holders;
      ghost var users, running := UserCounts(), TokenCounts();
      MoveKeeps(clients, threads, users, running, t, GivingUp(client, slots));
      threads := threads[t := GivingUp(client, slots)];
      assert UserCounts() == users && TokenCounts() == running;
    }

    /** release finds the client listed, with the very slots whose token this goroutine holds. */
    method Lookup(t: nat, client: string, ghost held: ClientSlots) returns (slots: ClientSlots)
      requires Valid() && t in threads && threads[t] == Holding(client, held)
      modifies `threads
      ensures Valid() && slots == held && threads == old(threads)[t := Releasing(client, slots)]
    {
      hide Linked, Counted, Users, Holders;
      ghost var users, running := UserCounts(), TokenCounts();
      SlotsAre(clients, threads, t);
      slots := clients[client];
      MoveKeeps(clients, threads, users, running, t, Releasing(client, slots));
      threads := threads[t := Releasing(client, slots)];
      assert UserCounts() == users && TokenCounts() == running;
    }

    /** The receive of release: there is a token, so that it does not block. */
    method Receive(t: nat, client: string, slots: ClientSlots)
      requires Valid() && t in threads && threads[t] == Releasing(client, slots)
      modifies this, clients.Values
      ensures Valid() && clients == old(clients) && old(slots.running) > 0 && slots.running == old(slots.running) - 1
      ensures threads == old(threads)[t := Leaving(client, slots)]
    {
      hide Linked, Counted, Users, Holders;
      ghost var users, running := UserCounts(), TokenCounts();
      SlotsAre(clients, threads, t);
      MoveKeeps(clients, threads, users, running, t, Leaving(client, slots));
      OwnSlots(clients, threads);
      slots.running := slots.running - 1;
      threads := threads[t := Leaving(client, slots)];
      assert UserCounts() == users;
      assert TokenCounts() == running[client := running[client] - 1];
    }

    /** The last goroutine to leave takes the client off the list. */
    method Leave(t: nat, client: string, slots: ClientSlots)
      requires Valid() && t in threads && threads[t] in {GivingUp(client, slots), Leaving(client, slots)}
      modifies this, clients.Values
      ensures Valid() && threads == old(threads) - {t}
      ensures client in old(clients) && old(clients)[client] == slots
      ensures clients == if Users(threads, client) == {} then old(clients) - {client} else old(clients)
    {
      hide Linked, Counted, CountedFor, Users, Holders;
      ghost var users, running := UserCounts(), TokenCounts();
      LeaveKeeps(clients, threads, users, running, t, client);
      UsersRemove(threads, t, client);
      SlotsAre(clients, threads, t);
      CountersAre(clients, threads, users, running, client);
      OwnSlots(clients, threads);
      slots.users := slots.users - 1;
      threads := threads - {t};
      if slots.users == 0 {
        clients := clients - {client};
        CountsRemoved(this, old(clients), users, running, client);
      } else {
        assert old(clients)[client := slots] == clients;
        CountsUpdated(this, old(clients), users, running, client, slots);
        assert running[client := slots.running] == running;
      }
    }
  }

  lemma CountsUpdated(limiter: ClientLimiter, before: Clients, users: map<string, nat>, running: map<string, nat>,
                      client: string, slots: ClientSlots)
    requires limiter.clients == before[client := slots] && users.Keys == running.Keys == before.Keys
    requires forall c :: c in before && c != client ==> before[c].users == users[c] && before[c].running == running[c]
    ensures limiter.UserCounts() == users[client := slots.users] &&
              limiter.TokenCounts() == running[client := slots.running]
  {}

  lemma CountsRemoved(limiter: ClientLimiter, before: Clients, users: map<string, nat>, running: map<string, nat>,
                      client: string)
    requires limiter.clients == before - {client} && users.Keys == running.Keys == before.Keys
    requires forall c :: c in before && c != client ==> before[c].users == users[c] && before[c].running == running[c]
    ensures limiter.UserCounts() == users - {client} && limiter.TokenCounts() == running - {client}
  {}

  lemma CountersAre(clients: Clients, threads: Goroutines, users: map<string, nat>, running: map<string, nat>,
                    c: string)
    requires Counted(clients, threads, users, running) && c in clients
    ensures c in users && users[c] == |Users(threads, c)| && c in running && running[c] == |Holders(threads, c)|
    ensures 0 < users[c] <= MAX_QUERIES + MAX_WAITING && running[c] <= MAX_QUERIES
  {
    assert CountedFor(threads, c, users[c], running[c]);
  }

  lemma SlotsAre(clients: Clients, threads: Goroutines, t: nat)
    requires Linked(clients, threads) && t in threads
    ensures threads[t].client in clients && clients[threads[t].client] == threads[t].slots
  {}

  lemma OwnSlots(clients: Clients, threads: Goroutines)
    requires Linked(clients, threads)
    ensures forall c, d :: c in clients && d in clients && clients[c] == clients[d] ==> c == d
  {}

  // ----- Runs ---------------------------------------------------------------------------------------

  /** What a scheduler may choose: a goroutine and its next step. */
  datatype Choice = Arrive(t: nat, client: string) | Proceed(t: nat) | Abandon(t: nat)

  /** Any goroutines, in any order: the bounds hold after every step, and only waiting in acquire can block. */
  method Run(limiter: ClientLimiter, schedule: seq<Choice>)
    requires limiter.Valid()
    modifies limiter, limiter.clients.Values
    ensures limiter.Valid()
  {
    var i := 0;
    while i < |schedule|
      invariant limiter.Valid()
      invariant forall o :: o in limiter.clients.Values ==> o in old(limiter.clients.Values) || fresh(o)
    {
      Step(limiter, schedule[i]);
      i := i + 1;
    }
  }

  method Step(limiter: ClientLimiter, choice: Choice)
    requires limiter.Valid()
    modifies limiter, limiter.clients.Values
    ensures limiter.Valid()
    ensures forall o :: o in limiter.clients.Values ==> o in old(limiter.clients.Values) || fresh(o)
  {
    hide Linked, Counted, Users, Holders;
    var t := choice.t;
    if choice.Arrive? {
      if t !in limiter.threads {
        var ok := limiter.Enter(t, choice.client);
      }
    } else if t in limiter.threads {
      var phase := limiter.threads[t];
      match phase {
        case Waiting(client, slots) =>
          if choice.Abandon? {
            limiter.GiveUp(t, client, slots);
          } else {
            var ok := limiter.Take(t, client, slots);
          }
        case Holding(client, slots) => var found := limiter.Lookup(t, client, slots);
        case Releasing(client, slots) => limiter.Receive(t, client, slots);
        case _ => limiter.Leave(t, phase.client, phase.slots);
      }
    }
  }

  /**
    At most two goroutines of a client hold a token and at most ten use its slots; a client is listed while some
    do.
   */
  lemma Bounds(limiter: ClientLimiter, client: string)
    requires limiter.Valid()
    ensures |Holders(limiter.threads, client)| <= 2 && |Users(limiter.threads, client)| <= 10
    ensures client in limiter.clients <==> Users(limiter.threads, client) != {}
  {
    if client in limiter.clients {
      CountersAre(limiter.clients, limiter.threads, limiter.UserCounts(), limiter.TokenCounts(), client);
    } else {
      NoUsers(limiter.clients, limiter.threads, client);
    }
  }
}
