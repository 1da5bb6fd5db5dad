/** The S3 leaser: acquiring, renewing and releasing a lease through one remote object, while others
    act on it between any two of its requests. */
module Leaser {
  import opened Ltx
  import opened LeaseMachine

  /** What happens to a request: what others do before it arrives, whether it arrives, what they do
      before the response does, and whether the response does. */
  datatype Delivery = Delivery(before: seq<Event>, arrives: bool, after: seq<Event>, answered: bool)

  datatype PutResult = PutOk(etag: ETag) | PutPreconditionFailed | PutNoAnswer

  datatype AcquireResult = Acquired(lease: Lease, etag: ETag) | LeaseExists(current: Option<Lease>) | AcquireNoAnswer

  datatype RenewResult = Renewed(lease: Lease, etag: ETag) | RenewLeaseRequired | RenewETagRequired | RenewNotHeld | RenewNoAnswer

  datatype ReleaseResult = Released | ReleaseLeaseRequired | ReleaseETagRequired | AlreadyReleased | ReleaseNotHeld | ReleaseNoAnswer

  /** A lease as its holder passes it around; an etag may be missing. */
  datatype Held = Held(lease: Lease, etag: Option<ETag>)

  /** The client that takes a step; messages and the clock move on their own. */
  function Actor(s: State, ev: Event): Option<Client> {
    match ev
    case Get(c) => Some(c)
    case Acquire(c) => Some(c)
    case Renew(c, _) => Some(c)
    case Release(c, _) => Some(c)
    case Answer(e) => if e in s.issued then Some(s.issued[e].owner) else None
    case _ => None
  }

  /** The remote object and everyone who uses it. */
  class Cloud {
    var s: State

    constructor (now: int, ttl: nat)
      ensures Initial(s) && s.now == now && s.ttl == ttl
    {
      s := State(now, ttl, None, 0, map[], {}, {}, {}, map[], map[]);
    }

    method Step(ev: Event)
      requires Enabled(s, ev)
      modifies this
      ensures s == Apply(old(s), ev) && Reaches(old(s), s)
    {
      ReachesSelf(s);
      ReachesThen(s, s, ev);
      s := Apply(s, ev);
    }

    /** A request goes out, whether or not its sender has the lease it speaks of. */
    method Send(m: Message)
      modifies this
      ensures s == Sent(old(s), m)
    {
      s := Sent(s, m);
    }

    method GiveUp(c: Client, e: ETag)
      modifies this
      ensures s == GivenUp(old(s), c, e)
    {
      s := GivenUp(s, c, e);
    }

    /** Everything that can happen happens, except for steps of client c. */
    method Interfere(c: Client, events: seq<Event>)
      requires Numbered(s)
      modifies this
      ensures Reaches(old(s), s) && Untouched(c, old(s), s) && Numbered(s)
      ensures events == [] ==> s == old(s)
    {
      ReachesSelf(s);
      for i := 0 to |events|
        invariant Reaches(old(s), s) && Untouched(c, old(s), s) && Numbered(s)
        invariant i == 0 ==> s == old(s)
      {
        if Enabled(s, events[i]) && Actor(s, events[i]) != Some(c) {
          OthersStep(c, s, events[i]);
          UntouchedTransitive(c, old(s), s, Apply(s, events[i]));
          ReachesThen(old(s), s, events[i]);
          s := Apply(s, events[i]);
        }
      }
    }
  }

  /** What others leave alone: what a client has read and what it knows. Messages do not disappear. */
  ghost predicate Untouched(c: Client, s: State, t: State) {
    && s.ttl == t.ttl && s.now <= t.now && s.inFlight <= t.inFlight
    && Same(s.views, t.views, c) && Same(s.held, t.held, c)
    && forall e :: e in s.issued ==> KnownAsBefore(c, s, t, e)
  }

  predicate Same<T(==)>(x: map<Client, T>, y: map<Client, T>, c: Client) {
    (c in x <==> c in y) && (c in x ==> x[c] == y[c])
  }

  predicate KnownAsBefore(c: Client, s: State, t: State, e: ETag)
    requires e in s.issued
  {
    e in t.issued && t.issued[e] == s.issued[e] && (s.issued[e].owner == c ==> (e in s.answered <==> e in t.answered))
  }

  lemma OthersStep(c: Client, s: State, ev: Event)
    requires Enabled(s, ev) && Actor(s, ev) != Some(c) && Numbered(s)
    ensures Untouched(c, s, Apply(s, ev)) && Numbered(Apply(s, ev))
  {
  }

  lemma UntouchedTransitive(c: Client, r: State, s: State, t: State)
    requires Untouched(c, r, s) && Untouched(c, s, t)
    ensures Untouched(c, r, t)
  {
  }

  class Leaser {
    const owner: Client
    const cloud: Cloud

    constructor (owner: Client, cloud: Cloud)
      ensures this.owner == owner && this.cloud == cloud
    {
      this.owner := owner;
      this.cloud := cloud;
    }

    /** Waits for the fate of a request in flight. `at` is the state in which it arrives. */
    method PutObject(m: Message, d: Delivery) returns (r: PutResult, ghost at: State)
      requires m.Put? && m.lease.owner == owner && m in cloud.s.inFlight && Numbered(cloud.s)
      modifies cloud
      ensures Reaches(old(cloud.s), at) && Reaches(at, cloud.s) && Numbered(cloud.s) && cloud.s.ttl == old(cloud.s.ttl)
      ensures d.before == [] ==> at == old(cloud.s)
      ensures r == PutOutcome(at, m, d)
      ensures r == PutNoAnswer <==> !d.arrives || !d.answered
      ensures r.PutOk? ==> Obtained(cloud.s, owner, m.lease, r.etag)
    {
      cloud.Interfere(owner, d.before);
      at := cloud.s;
      ReachesSelf(at);
      if !d.arrives {
        return PutNoAnswer, at;
      }
      var matches, etag := Matches(cloud.s.remote, m), cloud.s.next;
      if matches {
        cloud.Step(Arrive(m));
      }
      ghost var mid := cloud.s;
      cloud.Interfere(owner, d.after);
      ReachesTransitive(at, mid, cloud.s);
      if !d.answered {
        return PutNoAnswer, at;
      }
      if !matches {
        return PutPreconditionFailed, at;
      }
      ghost var end := cloud.s;
      assert KnownAsBefore(owner, mid, end, etag);
      cloud.Step(Answer(etag));
      ReachesTransitive(at, end, cloud.s);
      r := PutOk(etag);
    }

    /** Reads the lease, and writes a new one if there is none or it has expired. `seen` is what was
        read, `now` the time at which the new lease was made, `at` the state its request arrived in. */
    method AcquireLease(readFails: bool, between: seq<Event>, d: Delivery, rereadFails: bool)
      returns (r: AcquireResult, ghost seen: Option<Stored>, ghost now: int, ghost at: State)
      requires Numbered(cloud.s)
      modifies cloud
      ensures Reaches(old(cloud.s), cloud.s) && Numbered(cloud.s)
      ensures if readFails then r == AcquireNoAnswer else AcquireOutcome(owner, seen, now, old(cloud.s.ttl), at, d, r)
      ensures !readFails && seen.Some? && now <= seen.value.lease.expiresAt ==> r == LeaseExists(Some(seen.value.lease))
      ensures r.Acquired? ==>
                && (seen.Some? ==> seen.value.lease.expiresAt < now)
                && r.lease == Lease(if seen.Some? then seen.value.lease.generation + 1 else 1, now + old(cloud.s.ttl), owner)
      ensures seen == old(cloud.s.remote)
      ensures between == [] ==> now == old(cloud.s.now)
      ensures between == [] && d.before == [] ==> at.remote == old(cloud.s.remote)
      ensures r.Acquired? ==> Obtained(cloud.s, owner, r.lease, r.etag)
    {
      ghost var start := cloud.s;
      seen, now, at := cloud.s.remote, cloud.s.now, cloud.s;
      ReachesSelf(start);
      if readFails {
        return AcquireNoAnswer, seen, now, at;
      }
      cloud.Step(Get(owner));
      var view := cloud.s.views[owner];
      ghost var read := cloud.s;
      cloud.Interfere(owner, between);
      ReachesTransitive(start, read, cloud.s);
      now := cloud.s.now;
      if view.Some? && !view.value.lease.IsExpired(cloud.s.now) {
        return LeaseExists(Some(view.value.lease)), seen, now, at;
      }
      var m := AcquireRequest(owner, view, cloud.s.now + cloud.s.ttl);
      ghost var checked := cloud.s;
      cloud.Step(Acquire(owner));
      ReachesTransitive(start, checked, cloud.s);
      r, at := Send(m, d, rereadFails, start);
    }

    /** Sends the request of AcquireLease. */
    method Send(m: Message, d: Delivery, rereadFails: bool, ghost start: State) returns (r: AcquireResult, ghost at: State)
      requires m.Put? && m.lease.owner == owner && m in cloud.s.inFlight && Numbered(cloud.s) && Reaches(start, cloud.s)
      modifies cloud
      ensures Reaches(start, cloud.s) && Numbered(cloud.s)
      ensures d.before == [] ==> at == old(cloud.s)
      ensures cloud.s.ttl == old(cloud.s.ttl)
      ensures RequestOutcome(m, at, d, r)
      ensures r.Acquired? ==> Obtained(cloud.s, owner, r.lease, r.etag)
    {
      ghost var sent := cloud.s;
      var put;
      put, at := PutObject(m, d);
      ReachesTransitive(start, sent, at);
      ReachesTransitive(start, at, cloud.s);
      match put
      case PutOk(etag) => r := Acquired(m.lease, etag);
      case PutPreconditionFailed =>
        r := LeaseExists(if rereadFails || cloud.s.remote.None? then None else Some(cloud.s.remote.value.lease));
      case PutNoAnswer => r := AcquireNoAnswer;
    }

    /** Writes the lease again with a later expiry, if it is still in place. For a lease that this client
        was given that is a step of the protocol. */
    method RenewLease(lease: Option<Held>, d: Delivery) returns (r: RenewResult, ghost at: State)
      requires Numbered(cloud.s)
      modifies cloud
      ensures old(Given(cloud.s, owner, lease)) ==> Reaches(old(cloud.s), cloud.s)
      ensures Numbered(cloud.s)
      ensures RenewOutcome(owner, lease, old(cloud.s.now) + old(cloud.s.ttl), at, d, r)
      ensures r == RenewLeaseRequired <==> lease.None?
      ensures r == RenewETagRequired <==> lease.Some? && lease.value.etag.None?
      ensures r == RenewNoAnswer <==> lease.Some? && lease.value.etag.Some? && (!d.arrives || !d.answered)
      ensures d.before == [] ==> at.remote == old(cloud.s.remote)
      ensures r.Renewed? ==> Obtained(cloud.s, owner, r.lease, r.etag)
    {
      at := cloud.s;
      ReachesSelf(at);
      if lease.None? {
        return RenewLeaseRequired, at;
      }
      if lease.value.etag.None? {
        return RenewETagRequired, at;
      }
      ghost var start := cloud.s;
      var m := RenewRequest(owner, lease.value, cloud.s.now + cloud.s.ttl);
      cloud.Send(m);
      ghost var sent := cloud.s;
      var put;
      put, at := PutObject(m, d);
      ReachesTransitive(sent, at, cloud.s);
      RenewIsStep(start, owner, lease.value, sent, cloud.s);
      match put
      case PutOk(etag) => r := Renewed(m.lease, etag);
      case PutPreconditionFailed => r := RenewNotHeld;
      case PutNoAnswer => r := RenewNoAnswer;
    }

    /** Gives the lease up and deletes it, if it is still in place. */
    method ReleaseLease(lease: Option<Held>, d: Delivery) returns (r: ReleaseResult, ghost at: State)
      requires Numbered(cloud.s)
      modifies cloud
      ensures old(Given(cloud.s, owner, lease)) ==> Reaches(old(cloud.s), cloud.s)
      ensures Numbered(cloud.s)
      ensures ReleaseOutcome(lease, at, d, r)
      ensures r == ReleaseLeaseRequired <==> lease.None?
      ensures r == ReleaseETagRequired <==> lease.Some? && lease.value.etag.None?
      ensures r == ReleaseNoAnswer <==> lease.Some? && lease.value.etag.Some? && (!d.arrives || !d.answered)
      ensures r == Released ==> InPlace(at, lease.value.etag.value)
      ensures r == AlreadyReleased ==> at.remote.None?
      ensures r == ReleaseNotHeld ==> at.remote.Some? && at.remote.value.etag != lease.value.etag.value
      ensures d.before == [] ==> at.remote == old(cloud.s.remote)
      ensures lease.Some? && lease.value.etag.Some? ==> !(owner in cloud.s.held && cloud.s.held[owner] == lease.value.etag.value)
      ensures lease.Some? && lease.value.etag.Some? && lease.value.etag.value in old(cloud.s.issued) && d.arrives ==>
                !InPlace(cloud.s, lease.value.etag.value)
    {
      at := cloud.s;
      ReachesSelf(at);
      if lease.None? {
        return ReleaseLeaseRequired, at;
      }
      if lease.value.etag.None? {
        return ReleaseETagRequired, at;
      }
      var e := lease.value.etag.value;
      ghost var start := cloud.s;
      cloud.GiveUp(owner, e);
      ghost var sent := cloud.s;
      cloud.Interfere(owner, d.before);
      at := cloud.s;
      ReachesSelf(at);
      r := ReleaseNoAnswer;
      if d.arrives {
        if InPlace(cloud.s, e) {
          r := Released;
          cloud.Step(Arrive(Delete(e)));
        } else if cloud.s.remote.None? {
          r := AlreadyReleased;
        } else {
          r := ReleaseNotHeld;
        }
        ghost var mid := cloud.s;
        cloud.Interfere(owner, d.after);
        ReachesTransitive(at, mid, cloud.s);
        if e in start.issued {
          assert KnownAsBefore(owner, sent, at, e);
          StaysGone(mid, cloud.s, e);
        }
        if !d.answered {
          r := ReleaseNoAnswer;
        }
      }
      ReachesTransitive(sent, at, cloud.s);
      ReleaseIsStep(start, owner, e, sent, cloud.s);
    }
  }

  lemma RenewIsStep(s: State, c: Client, lease: Held, sent: State, t: State)
    requires lease.etag.Some? && sent == Sent(s, RenewRequest(c, lease, s.now + s.ttl)) && Reaches(sent, t)
    ensures Given(s, c, Some(lease)) ==> Reaches(s, t)
  {
    if Given(s, c, Some(lease)) {
      StepThen(s, Renew(c, lease.etag.value), sent, t);
    }
  }

  lemma ReleaseIsStep(s: State, c: Client, e: ETag, sent: State, t: State)
    requires sent == GivenUp(s, c, e) && Reaches(sent, t)
    ensures s.Knows(c, e) ==> Reaches(s, t)
  {
    if s.Knows(c, e) {
      StepThen(s, Release(c, e), sent, t);
    }
  }

  lemma StepThen(s: State, ev: Event, s': State, t: State)
    requires Enabled(s, ev) && s' == Apply(s, ev) && Reaches(s', t)
    ensures Reaches(s, t)
  {
    ReachesSelf(s);
    ReachesThen(s, s, ev);
    ReachesTransitive(s, s', t);
  }

  /** A lease that its owner was given: by this client, with this content. */
  predicate Given(s: State, c: Client, lease: Option<Held>) {
    lease.Some? && lease.value.etag.Some? ==>
      s.Knows(c, lease.value.etag.value) && s.issued[lease.value.etag.value] == lease.value.lease
  }

  function RenewRequest(c: Client, lease: Held, expiresAt: int): Message {
    Put(Lease(lease.lease.generation, expiresAt, c), lease.etag, true)
  }

  /** An unexpired lease is refused at once. Otherwise the request decides. */
  predicate AcquireOutcome(c: Client, seen: Option<Stored>, now: int, ttl: nat, at: State, d: Delivery, r: AcquireResult) {
    if seen.Some? && !seen.value.lease.IsExpired(now) then r == LeaseExists(Some(seen.value.lease))
    else RequestOutcome(AcquireRequest(c, seen, now + ttl), at, d, r)
  }

  predicate RequestOutcome(m: Message, at: State, d: Delivery, r: AcquireResult)
    requires m.Put?
  {
    match PutOutcome(at, m, d)
    case PutOk(etag) => r == Acquired(m.lease, etag)
    case PutPreconditionFailed => r.LeaseExists?
    case PutNoAnswer => r == AcquireNoAnswer
  }

  predicate RenewOutcome(c: Client, lease: Option<Held>, expiresAt: int, at: State, d: Delivery, r: RenewResult) {
    if lease.None? then r == RenewLeaseRequired
    else if lease.value.etag.None? then r == RenewETagRequired
    else
      match PutOutcome(at, RenewRequest(c, lease.value, expiresAt), d)
      case PutOk(etag) => r == Renewed(Lease(lease.value.lease.generation, expiresAt, c), etag)
      case PutPreconditionFailed => r == RenewNotHeld
      case PutNoAnswer => r == RenewNoAnswer
  }

  predicate ReleaseOutcome(lease: Option<Held>, at: State, d: Delivery, r: ReleaseResult) {
    if lease.None? then r == ReleaseLeaseRequired
    else if lease.value.etag.None? then r == ReleaseETagRequired
    else if !d.arrives || !d.answered then r == ReleaseNoAnswer
    else if at.remote.None? then r == AlreadyReleased
    else if at.remote.value.etag == lease.value.etag.value then r == Released
    else r == ReleaseNotHeld
  }

  lemma StaysGone(s: State, t: State, e: ETag)
    requires Numbered(s) && Reaches(s, t) && e in s.issued && !InPlace(s, e)
    ensures !InPlace(t, e)
  {
    var events :| Runs(s, events, t);
    GoneForGood(s, events, t, e);
  }

  /** Undisturbed and with both messages delivered, a lease is acquired exactly if there is none or the
      one there has expired. */
  lemma AcquireSucceeds(c: Client, seen: Option<Stored>, now: int, ttl: nat, at: State, d: Delivery, r: AcquireResult)
    requires AcquireOutcome(c, seen, now, ttl, at, d, r) && at.remote == seen && d.arrives && d.answered
    ensures r.Acquired? <==> (seen.Some? ==> seen.value.lease.expiresAt < now)
    ensures r.Acquired? ==> r.lease == Lease(if seen.Some? then seen.value.lease.generation + 1 else 1, now + ttl, c)
  {
  }

  /** With both messages delivered, a renewal succeeds exactly if the lease it names is in place when the
      request arrives, whether or not it has expired. */
  lemma RenewSucceeds(c: Client, lease: Held, expiresAt: int, at: State, d: Delivery, r: RenewResult)
    requires RenewOutcome(c, Some(lease), expiresAt, at, d, r) && lease.etag.Some? && d.arrives && d.answered
    ensures r.Renewed? <==> at.remote.Some? && at.remote.value.etag == lease.etag.value
    ensures r.Renewed? ==> r.lease == Lease(lease.lease.generation, expiresAt, c)
    ensures !r.Renewed? ==> r == RenewNotHeld
  {
  }

  /** After a successful acquire or renewal no other client holds a lease, as long as it lasts. */
  lemma ObtainedIsExclusive(s: State, t: State, c: Client, lease: Lease, etag: ETag, other: Client)
    requires Initial(s) && Reaches(s, t) && Obtained(t, c, lease, etag) && t.now <= lease.expiresAt && other != c
    ensures Lasts(t, c) && !Lasts(t, other)
  {
    if Lasts(t, other) {
      MutualExclusion(s, t, c, other);
    }
  }

  /** A request succeeds if its condition holds when it arrives. */
  function PutOutcome(at: State, m: Message, d: Delivery): PutResult {
    if !d.arrives || !d.answered then PutNoAnswer
    else if Matches(at.remote, m) then PutOk(at.next)
    else PutPreconditionFailed
  }

  /** The client now holds this lease under this etag. */
  predicate Obtained(s: State, c: Client, lease: Lease, etag: ETag) {
    && etag in s.issued && s.issued[etag] == lease && lease.owner == c
    && s.Knows(c, etag) && c in s.held && s.held[c] == etag
  }
}
