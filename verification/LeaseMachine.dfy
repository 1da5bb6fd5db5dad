/** The lease protocol: many clients, one remote object, conditional requests (sections 13.1.1 and
    13.1.2 of RFC 9110), and a network that delays, loses and repeats messages. */
module LeaseMachine {
  import opened Ltx

  type Client = nat
  type ETag = nat

  /** What the remote object says. */
  datatype Lease = Lease(generation: int, expiresAt: int, owner: Client) {
    predicate IsExpired(now: int) {
      now > expiresAt
    }
  }

  datatype Stored = Stored(lease: Lease, etag: ETag)

  /** A conditional request: If-None-Match: * where there is no etag, If-Match otherwise. */
  datatype Message =
    | Put(lease: Lease, ifMatch: Option<ETag>, renewal: bool)
    | Delete(etag: ETag)

  /** All clients share a clock. Every write gets a new etag, `next`; `issued` records what was ever stored under an etag; an etag is
      answered once its owner has received the response that carries it, and released once its owner
      has called release with it. `held` is the lease a client believes to hold, `views` what a client
      that is acquiring has read. Messages stay in flight forever: they may arrive late, or twice. */
  datatype State = State(now: int, ttl: nat, remote: Option<Stored>, next: ETag, issued: map<ETag, Lease>, answered: set<ETag>,
                         released: set<ETag>, inFlight: set<Message>, held: map<Client, ETag>, views: map<Client, Option<Stored>>)
  {
    predicate Knows(c: Client, e: ETag) {
      e in answered && e in issued && issued[e].owner == c
    }
  }

  datatype Event =
    | Tick(d: nat)
    | Get(c: Client)
    | Acquire(c: Client)
    | Renew(c: Client, e: ETag)
    | Release(c: Client, e: ETag)
    | Arrive(m: Message)
    | Answer(e: ETag)

  /** The condition of a request holds of the remote object. */
  predicate Matches(remote: Option<Stored>, m: Message) {
    match m
    case Put(_, None, _) => remote.None?
    case Put(_, Some(e), _) => remote.Some? && remote.value.etag == e
    case Delete(e) => remote.Some? && remote.value.etag == e
  }

  predicate Enabled(s: State, ev: Event) {
    match ev
    case Tick(_) => true
    case Get(_) => true
    case Acquire(c) => c in s.views && (s.views[c].Some? ==> s.views[c].value.lease.IsExpired(s.now))
    case Renew(c, e) => s.Knows(c, e)
    case Release(c, e) => s.Knows(c, e)
    case Arrive(m) => m in s.inFlight && Matches(s.remote, m)
    case Answer(e) => e in s.issued && e !in s.answered
  }

  /** The request an acquiring client sends: a new lease, generation 1 or one more than the last. */
  function AcquireRequest(c: Client, view: Option<Stored>, expiresAt: int): Message {
    match view
    case None => Put(Lease(1, expiresAt, c), None, false)
    case Some(x) => Put(Lease(x.lease.generation + 1, expiresAt, c), Some(x.etag), false)
  }

  function Sent(s: State, m: Message): State {
    s.(inFlight := s.inFlight + {m})
  }

  /** The client sends the deletion, and stops holding the lease. */
  function GivenUp(s: State, c: Client, e: ETag): State {
    Sent(s, Delete(e)).(released := s.released + {e}, held := if c in s.held && s.held[c] == e then s.held - {c} else s.held)
  }

  function Apply(s: State, ev: Event): State
    requires Enabled(s, ev)
  {
    match ev
    case Tick(d) => s.(now := s.now + d)
    case Get(c) => s.(views := s.views[c := s.remote])
    case Acquire(c) =>
      s.(inFlight := s.inFlight + {AcquireRequest(c, s.views[c], s.now + s.ttl)}, views := s.views - {c})
    case Renew(c, e) => Sent(s, Put(Lease(s.issued[e].generation, s.now + s.ttl, c), Some(e), true))
    case Release(c, e) => GivenUp(s, c, e)
    case Arrive(Put(lease, _, _)) =>
      s.(remote := Some(Stored(lease, s.next)), issued := s.issued[s.next := lease], next := s.next + 1)
    case Arrive(Delete(_)) => s.(remote := None)
    case Answer(e) => s.(answered := s.answered + {e}, held := s.held[s.issued[e].owner := e])
  }

  ghost predicate Initial(s: State) {
    && s.remote.None? && s.issued == map[] && s.answered == {} && s.released == {} && s.inFlight == {}
    && s.held == map[] && s.views == map[]
  }

  ghost predicate Runs(s: State, events: seq<Event>, t: State) {
    if events == [] then t == s
    else
      var n := |events| - 1;
      exists m :: Runs(s, events[..n], m) && Enabled(m, events[n]) && t == Apply(m, events[n])
  }

  ghost predicate Reaches(s: State, t: State) {
    exists events :: Runs(s, events, t)
  }

  // ---------------------------------------------------------------------------------------
  // The invariant

  /** A lease that its owner has not heard of yet, and that has not expired, is still in place: nobody
      knows its etag, so nobody could renew or delete it. */
  ghost predicate UnansweredInPlace(s: State) {
    forall e :: e in s.issued && e !in s.answered && !s.issued[e].IsExpired(s.now)
                ==> s.remote == Some(Stored(s.issued[e], e))
  }

  /** An unexpired lease that a client holds is in place, or the client itself has renewed it and has
      not heard of that yet. */
  ghost predicate HeldInPlace(s: State) {
    forall c :: c in s.held ==> HeldLease(s, c, s.held[c])
  }

  ghost predicate HeldLease(s: State, c: Client, e: ETag) {
    && s.Knows(c, e) && e !in s.released
    && (!s.issued[e].IsExpired(s.now) ==>
          && s.remote.Some? && s.remote.value.lease.owner == c && s.remote.value.lease.expiresAt >= s.issued[e].expiresAt
          && (s.remote.value.etag == e || s.remote.value.etag !in s.answered))
  }

  /** What a message in flight can do: take over only a lease that has expired, renew or delete only
      one that its sender knows. */
  ghost predicate MessagesHarmless(s: State) {
    forall m :: m in s.inFlight ==> Harmless(s, m)
  }

  ghost predicate Harmless(s: State, m: Message) {
    match m
    case Put(lease, ifMatch, renewal) =>
      && lease.expiresAt <= s.now + s.ttl
      && (renewal ==> ifMatch.Some? && s.Knows(lease.owner, ifMatch.value) && lease.expiresAt >= s.issued[ifMatch.value].expiresAt)
      && (!renewal && ifMatch.Some? ==> ifMatch.value in s.issued && s.issued[ifMatch.value].IsExpired(s.now))
    case Delete(e) => e in s.answered && e in s.released
  }

  /** The remote object and all that was read of it is among what was issued. */
  ghost predicate Recorded(s: State) {
    && (s.remote.Some? ==> Issued(s, s.remote.value))
    && (forall c :: c in s.views && s.views[c].Some? ==> Issued(s, s.views[c].value))
    && (forall e :: e in s.issued ==> s.issued[e].expiresAt <= s.now + s.ttl)
    && s.released <= s.answered && Numbered(s)
  }

  /** Etags are given out in order. */
  ghost predicate Numbered(s: State) {
    (forall e :: e in s.issued ==> e < s.next) && s.answered <= s.issued.Keys
  }

  predicate Issued(s: State, x: Stored) {
    x.etag in s.issued && s.issued[x.etag] == x.lease
  }

  ghost predicate Inv(s: State) {
    UnansweredInPlace(s) && HeldInPlace(s) && MessagesHarmless(s) && Recorded(s)
  }

  lemma ArriveStep(s: State, m: Message)
    requires Inv(s) && Enabled(s, Arrive(m))
    ensures Inv(Apply(s, Arrive(m)))
  {
    var t := Apply(s, Arrive(m));
    assert Harmless(s, m);
    forall c | c in t.held
      ensures HeldLease(t, c, t.held[c])
    {
      assert HeldLease(s, c, s.held[c]);
    }
    forall x | x in t.inFlight
      ensures Harmless(t, x)
    {
      assert Harmless(s, x);
    }
  }

  lemma InvStep(s: State, ev: Event)
    requires Inv(s) && Enabled(s, ev)
    ensures Inv(Apply(s, ev))
  {
    if ev.Arrive? {
      ArriveStep(s, ev.m);
      return;
    }
    var t := Apply(s, ev);
    forall c | c in t.held
      ensures HeldLease(t, c, t.held[c])
    {
      if c in s.held {
        assert HeldLease(s, c, s.held[c]);
      }
    }
    forall x | x in t.inFlight
      ensures Harmless(t, x)
    {
      if x in s.inFlight {
        assert Harmless(s, x);
      }
    }
  }

  lemma {:induction false} InvRun(s: State, events: seq<Event>, t: State)
    requires Inv(s) && Runs(s, events, t)
    ensures Inv(t)
    decreases |events|
  {
    if events != [] {
      var n := |events| - 1;
      var m :| Runs(s, events[..n], m) && Enabled(m, events[n]) && t == Apply(m, events[n]);
      InvRun(s, events[..n], m);
      InvStep(m, events[n]);
    }
  }

  /** A lease lasts up to its expiry by the clock, that moment included. */
  ghost predicate Lasts(s: State, c: Client) {
    c in s.held && s.held[c] in s.issued && s.now <= s.issued[s.held[c]].expiresAt
  }

  /** In every reachable state at most one client has a lease that lasts and that it has not released. */
  lemma MutualExclusion(s: State, t: State, c: Client, d: Client)
    requires Initial(s) && Reaches(s, t) && Lasts(t, c) && Lasts(t, d)
    ensures c == d
  {
    var events :| Runs(s, events, t);
    InvRun(s, events, t);
    assert HeldLease(t, c, t.held[c]) && HeldLease(t, d, t.held[d]);
  }

  /** The holder of an unexpired lease can renew it: whenever such a request arrives, its condition
      holds, unless an earlier renewal by the same client has arrived and was not answered yet. */
  lemma HolderCanRenew(s: State, t: State, c: Client, lease: Lease)
    requires Initial(s) && Reaches(s, t) && Lasts(t, c)
    ensures t.remote.Some? && t.remote.value.lease.owner == c
    ensures Matches(t.remote, Put(lease, Some(t.held[c]), true)) <==> t.remote.value.etag in t.answered
  {
    var events :| Runs(s, events, t);
    InvRun(s, events, t);
    assert HeldLease(t, c, t.held[c]);
  }

  predicate InPlace(s: State, e: ETag) {
    s.remote.Some? && s.remote.value.etag == e
  }

  lemma GoneStep(s: State, ev: Event, e: ETag)
    requires Numbered(s) && Enabled(s, ev) && e in s.issued && !InPlace(s, e)
    ensures Numbered(Apply(s, ev)) && e in Apply(s, ev).issued && !InPlace(Apply(s, ev), e)
  {
  }

  /** A lease that was replaced or deleted never comes back: no later request with its etag succeeds. */
  lemma {:induction false} GoneForGood(s: State, events: seq<Event>, t: State, e: ETag)
    requires Numbered(s) && Runs(s, events, t) && e in s.issued && !InPlace(s, e)
    ensures Numbered(t) && e in t.issued && !InPlace(t, e)
    decreases |events|
  {
    if events != [] {
      var n := |events| - 1;
      var m :| Runs(s, events[..n], m) && Enabled(m, events[n]) && t == Apply(m, events[n]);
      GoneForGood(s, events[..n], m, e);
      GoneStep(m, events[n], e);
    }
  }

  // ---------------------------------------------------------------------------------------
  // Runs

  lemma ReachesSelf(s: State)
    ensures Reaches(s, s)
  {
    assert Runs(s, [], s);
  }

  lemma ReachesThen(s: State, t: State, ev: Event)
    requires Reaches(s, t) && Enabled(t, ev)
    ensures Reaches(s, Apply(t, ev))
  {
    var events :| Runs(s, events, t);
    assert (events + [ev])[..|events|] == events;
    assert Runs(s, events + [ev], Apply(t, ev));
  }

  lemma {:induction false} ReachesRun(r: State, s: State, after: seq<Event>, t: State)
    requires Reaches(r, s) && Runs(s, after, t)
    ensures Reaches(r, t)
    decreases |after|
  {
    if after != [] {
      var n := |after| - 1;
      var m :| Runs(s, after[..n], m) && Enabled(m, after[n]) && t == Apply(m, after[n]);
      ReachesRun(r, s, after[..n], m);
      ReachesThen(r, m, after[n]);
    }
  }

  lemma ReachesTransitive(r: State, s: State, t: State)
    requires Reaches(r, s) && Reaches(s, t)
    ensures Reaches(r, t)
  {
    var after :| Runs(s, after, t);
    ReachesRun(r, s, after, t);
  }

  /** The lease changes hands: undisturbed a client acquires it, and once it has expired another one does, with
      the next generation. */
  lemma ChangesHands(s: State, c: Client, d: Client) returns (r: State, t: State)
    requires Initial(s) && c != d
    ensures Reaches(s, r) && Lasts(r, c) && r.remote == Some(Stored(Lease(1, s.now + s.ttl, c), s.next))
    ensures Reaches(s, t) && Lasts(t, d) && !Lasts(t, c) && t.now == s.now + s.ttl + 1
    ensures t.remote == Some(Stored(Lease(2, t.now + s.ttl, d), s.next + 1))
  {
    ReachesSelf(s);
    r := Acquires(s, s, c);
    var late := Apply(r, Tick(s.ttl + 1));
    ReachesThen(s, r, Tick(s.ttl + 1));
    t := Acquires(s, late, d);
  }

  /** A client reads the lease, requests it, and hears that it has it. */
  lemma Acquires(from: State, s: State, c: Client) returns (t: State)
    requires Reaches(from, s) && s.next !in s.answered && (s.remote.Some? ==> s.remote.value.lease.expiresAt < s.now)
    ensures Reaches(from, t) && t.next == s.next + 1 && t.now == s.now && t.ttl == s.ttl
    ensures t.remote == Some(Stored(Lease(if s.remote.None? then 1 else s.remote.value.lease.generation + 1, s.now + s.ttl, c), s.next))
    ensures t.issued == s.issued[s.next := t.remote.value.lease] && t.answered == s.answered + {s.next} && t.held == s.held[c := s.next]
  {
    var m := AcquireRequest(c, s.remote, s.now + s.ttl);
    t := Apply(s, Get(c));
    ReachesThen(from, s, Get(c));
    var u := Apply(t, Acquire(c));
    ReachesThen(from, t, Acquire(c));
    t := Apply(u, Arrive(m));
    ReachesThen(from, u, Arrive(m));
    u := Apply(t, Answer(s.next));
    ReachesThen(from, t, Answer(s.next));
    t := u;
  }
}
