// Runs of two replicas of one node that are kept together by forwarding (client/sync.go).
//
// Every point that arrives at a side is published there, on the connection of its sender, and
// delivered to the subscription of the sync client at that side, which forwards it to the other
// side.  The sync client forwards on the connections that it subscribes with, and these do not
// echo: they are not delivered what was sent on them.  What syncNode sends to the local side goes
// out on another connection (client/sync.go:708).  Messages are lost while there is no connection.
module SyncRuns {
  import opened Wrappers
  import opened Points
  import opened SyncPoints

  // Who sends: a client, the sync client on the connection it was started with, or on one of its
  // connections that forward.
  datatype Conn = Client | Service | Forwarder

  // A publication, and the publication that was forwarded as this one.
  datatype Publication = Publication(from: Conn, cause: Option<nat>)

  // A message that waits to be forwarded, with the number of its publication.
  datatype Message = Message(n: nat, p: Point)

  datatype State = State(
    noEcho: bool,             // the option of the connections that forward
    local: Table,
    remote: Table,
    toRemote: seq<Message>,   // what was delivered to the subscription at the local side
    toLocal: seq<Message>,    // and at the remote side
    written: set<Point>,      // every point that was ever written by someone
    pubs: seq<Publication>,   // every publication, at either side
    forwarded: seq<nat>,      // the publications that were forwarded, in order
    lost: bool)               // was any message lost since the sides last were compared?

  datatype Step =
    | WriteLocal(p: Point)
    | WriteRemote(p: Point)
    | ForwardUp
    | ForwardDown
    | LoseUp
    | LoseDown
    | SyncNode(toLocal: seq<Point>, toRemote: seq<Point>)

  function Init(t: Table, noEcho: bool): State {
    State(noEcho, t, t, [], [], t.Values, [], [], false)
  }

  // A subscription takes everything but, without echo, what was sent on its own connection.
  predicate Delivered(noEcho: bool, from: Conn) { !(noEcho && from == Forwarder) }

  // Points published at one side, one after the other.
  function AtLocal(s: State, from: Conn, cause: Option<nat>, ps: seq<Point>): State {
    s.(local := PutAll(s.local, ps),
       toRemote := if Delivered(s.noEcho, from) then s.toRemote + Messages(|s.pubs|, ps) else s.toRemote,
       pubs := s.pubs + Same(Publication(from, cause), |ps|))
  }

  function AtRemote(s: State, from: Conn, cause: Option<nat>, ps: seq<Point>): State {
    s.(remote := PutAll(s.remote, ps),
       toLocal := if Delivered(s.noEcho, from) then s.toLocal + Messages(|s.pubs|, ps) else s.toLocal,
       pubs := s.pubs + Same(Publication(from, cause), |ps|))
  }

  function Messages(n: nat, ps: seq<Point>): (r: seq<Message>)
    ensures |r| == |ps|
    ensures forall i :: 0 <= i < |r| ==> r[i] == Message(n + i, ps[i])
  {
    seq(|ps|, i requires 0 <= i < |ps| => Message(n + i, ps[i]))
  }

  function Same(x: Publication, n: nat): (r: seq<Publication>)
    ensures |r| == n && forall i :: 0 <= i < n ==> r[i] == x
  {
    seq(n, i => x)
  }

  // What the comparison of syncNode sends to a side with table t that the other has in u.
  ghost predicate SentFor(t: Table, u: Table, sent: seq<Point>) {
    forall p :: p in sent <==> IdOf(p) in u && u[IdOf(p)] == p && Wanted(p, t)
  }

  ghost predicate Enabled(s: State, step: Step) {
    match step
    case ForwardUp => s.toRemote != []
    case LoseUp => s.toRemote != []
    case ForwardDown => s.toLocal != []
    case LoseDown => s.toLocal != []
    case SyncNode(l, r) => SentFor(s.local, s.remote, l) && SentFor(s.remote, s.local, r)
    case _ => true
  }

  ghost function Next(s: State, step: Step): State
    requires Enabled(s, step)
  {
    match step
    case WriteLocal(p) => AtLocal(s, Client, None, [p]).(written := s.written + {p})
    case WriteRemote(p) => AtRemote(s, Client, None, [p]).(written := s.written + {p})
    case ForwardUp =>
      var m := s.toRemote[0];
      AtRemote(s.(toRemote := s.toRemote[1..], forwarded := s.forwarded + [m.n]), Forwarder, Some(m.n), [m.p])
    case ForwardDown =>
      var m := s.toLocal[0];
      AtLocal(s.(toLocal := s.toLocal[1..], forwarded := s.forwarded + [m.n]), Forwarder, Some(m.n), [m.p])
    case LoseUp => s.(toRemote := s.toRemote[1..], lost := true)
    case LoseDown => s.(toLocal := s.toLocal[1..], lost := true)
    case SyncNode(l, r) => AtRemote(AtLocal(s, Service, None, l), Forwarder, None, r).(lost := false)
  }

  // The state after the steps from an initial table, if they are all possible.
  ghost function Run(t: Table, noEcho: bool, steps: seq<Step>): Option<State> {
    if steps == [] then Some(Init(t, noEcho))
    else
      var n := |steps| - 1;
      match Run(t, noEcho, steps[..n])
      case None => None
      case Some(s) => if Enabled(s, steps[n]) then Some(Next(s, steps[n])) else None
  }

  // ----- what every step keeps -----

  // A side has the point, or a point of the same identity that is as new.
  predicate Knows(t: Table, p: Point) {
    IdOf(p) in t && p.time <= t[IdOf(p)].time
  }

  ghost predicate Waiting(q: seq<Message>, p: Point) {
    exists i :: 0 <= i < |q| && q[i].p == p
  }

  // No stored point was invented.
  ghost predicate NothingInvented(s: State) {
    && Stored(s.local, s.written) && Stored(s.remote, s.written)
    && Queued(s.toRemote, s.written) && Queued(s.toLocal, s.written)
  }

  // A point written is known to one side at least; while nothing is lost, to each side that it
  // is not on the way to.
  ghost predicate NothingForgotten(s: State) {
    forall p :: p in s.written ==>
      && (Knows(s.local, p) || Knows(s.remote, p))
      && (!s.lost ==> Knows(s.local, p) || Waiting(s.toLocal, p))
      && (!s.lost ==> Knows(s.remote, p) || Waiting(s.toRemote, p))
  }

  // Every publication is forwarded at most once, and not while it still waits.
  ghost predicate ForwardedOnce(s: State) {
    Once(s.toRemote, s.toLocal, |s.pubs|, s.forwarded)
  }

  // Only what was delivered waits or was forwarded; what was published by forwarding was sent on
  // a connection that forwards, and stems from a publication that was forwarded.
  ghost predicate OnlyDelivered(s: State) {
    Sound(s.noEcho, s.pubs, s.toRemote, s.toLocal, s.forwarded)
  }

  ghost predicate Sound(noEcho: bool, pubs: seq<Publication>, up: seq<Message>, down: seq<Message>, forwarded: seq<nat>) {
    && (forall i :: 0 <= i < |up| ==> Taken(noEcho, pubs, up[i].n))
    && (forall i :: 0 <= i < |down| ==> Taken(noEcho, pubs, down[i].n))
    && (forall i :: 0 <= i < |forwarded| ==> Taken(noEcho, pubs, forwarded[i]))
    && (forall n :: 0 <= n < |pubs| && pubs[n].cause.Some? ==> pubs[n].from == Forwarder && pubs[n].cause.value in forwarded)
  }

  predicate Taken(noEcho: bool, pubs: seq<Publication>, n: nat) {
    n < |pubs| && Delivered(noEcho, pubs[n].from)
  }

  // A publication that is a forwarded one is not forwarded back, and does not wait to be.
  ghost predicate NeverBack(s: State) {
    && (forall i :: 0 <= i < |s.forwarded| ==> s.forwarded[i] < |s.pubs| && s.pubs[s.forwarded[i]].cause.None?)
    && (forall i :: 0 <= i < |s.toRemote| ==> s.toRemote[i].n < |s.pubs| && s.pubs[s.toRemote[i].n].cause.None?)
    && (forall i :: 0 <= i < |s.toLocal| ==> s.toLocal[i].n < |s.pubs| && s.pubs[s.toLocal[i].n].cause.None?)
  }

  lemma {:induction false} PutGrows(t: Table, p: Point)
    ensures Knows(Put(t, p), p)
    ensures forall q :: Knows(t, q) ==> Knows(Put(t, p), q)
    ensures forall k :: k in Put(t, p) ==> Put(t, p)[k] == p || (k in t && Put(t, p)[k] == t[k])
  {
  }

  lemma {:induction false} PutAllGrows(t: Table, ps: seq<Point>)
    ensures forall p :: p in ps ==> Knows(PutAll(t, ps), p)
    ensures forall q :: Knows(t, q) ==> Knows(PutAll(t, ps), q)
    ensures forall k :: k in PutAll(t, ps) ==> PutAll(t, ps)[k] in ps || (k in t && PutAll(t, ps)[k] == t[k])
  {
    hide Knows, Put, IdOf;
    if ps != [] {
      var n := |ps| - 1;
      assert ps == ps[..n] + [ps[n]];
      PutAllGrows(t, ps[..n]);
      PutGrows(PutAll(t, ps[..n]), ps[n]);
    }
  }

  lemma {:induction false} PutOne(t: Table, p: Point)
    ensures PutAll(t, [p]) == Put(t, p)
  {
    assert [p][..0] == [];
  }

  // Stored times never go back.
  lemma {:induction false} TimesNeverFall(s: State, step: Step, k: Id)
    requires Enabled(s, step)
    ensures k in s.local ==> k in Next(s, step).local && s.local[k].time <= Next(s, step).local[k].time
    ensures k in s.remote ==> k in Next(s, step).remote && s.remote[k].time <= Next(s, step).remote[k].time
  {
    hide PutAll, Messages, Same, Wanted, Next;
    var (l, r) := Arriving(s, step);
    PutAllGrows(s.local, l);
    PutAllGrows(s.remote, r);
    TablesAfter(s, step);
    assert k in s.local ==> Knows(s.local, s.local[k]);
    assert k in s.remote ==> Knows(s.remote, s.remote[k]);
  }

  lemma {:induction false} TablesAfter(s: State, step: Step)
    requires Enabled(s, step)
    ensures
      var (l, r) := Arriving(s, step);
      Next(s, step).local == PutAll(s.local, l) && Next(s, step).remote == PutAll(s.remote, r)
  {
    hide PutAll, Messages, Same, Wanted, SentFor;
    NothingArrives(s.local);
    NothingArrives(s.remote);
  }

  lemma {:induction false} NothingArrives(t: Table)
    ensures PutAll(t, []) == t
  {
  }

  // The points that a step publishes at the two sides.
  ghost function Arriving(s: State, step: Step): (seq<Point>, seq<Point>)
    requires Enabled(s, step)
  {
    match step
    case WriteLocal(p) => ([p], [])
    case WriteRemote(p) => ([], [p])
    case ForwardUp => ([], [s.toRemote[0].p])
    case ForwardDown => ([s.toLocal[0].p], [])
    case LoseUp => ([], [])
    case LoseDown => ([], [])
    case SyncNode(l, r) => (l, r)
  }

  ghost predicate Stored(t: Table, written: set<Point>) { forall k :: k in t ==> t[k] in written }

  ghost predicate Queued(q: seq<Message>, written: set<Point>) { forall i :: 0 <= i < |q| ==> q[i].p in written }

  lemma {:induction false} StoredWith(t: Table, written: set<Point>, ps: seq<Point>, more: set<Point>)
    requires Stored(t, written) && written <= more && forall p :: p in ps ==> p in more
    ensures Stored(PutAll(t, ps), more)
  {
    hide PutAll, Knows;
    PutAllGrows(t, ps);
  }

  lemma {:induction false} QueuedWith(q: seq<Message>, written: set<Point>, n: nat, ps: seq<Point>, more: set<Point>)
    requires Queued(q, written) && written <= more && forall p :: p in ps ==> p in more
    ensures Queued(q, more) && Queued(q + Messages(n, ps), more)
    ensures q != [] ==> Queued(q[1..], more) && Queued(q[1..] + Messages(n, ps), more)
  {
  }

  lemma {:induction false} SentIsWritten(t: Table, u: Table, sent: seq<Point>, written: set<Point>)
    requires SentFor(t, u, sent) && Stored(u, written)
    ensures forall p :: p in sent ==> p in written
  {
    hide Wanted;
  }

  lemma {:induction false} StepInventsNothing(s: State, step: Step)
    requires Enabled(s, step) && NothingInvented(s)
    ensures NothingInvented(Next(s, step))
  {
    hide PutAll, Messages, Same, SentFor, Stored, Queued;
    var (l, r) := Arriving(s, step);
    var w := Next(s, step).written;
    if step.SyncNode? {
      SentIsWritten(s.local, s.remote, l, s.written);
      SentIsWritten(s.remote, s.local, r, s.written);
    }
    assert step.ForwardUp? ==> s.toRemote[0].p in w by { HeadQueued(s.toRemote, s.written); }
    assert step.ForwardDown? ==> s.toLocal[0].p in w by { HeadQueued(s.toLocal, s.written); }
    assert (forall p :: p in l ==> p in w) && forall p :: p in r ==> p in w;
    StoredWith(s.local, s.written, l, w);
    StoredWith(s.remote, s.written, r, w);
    NothingArrives(s.local);
    NothingArrives(s.remote);
    QueuedWith(s.toRemote, s.written, |s.pubs|, l, w);
    QueuedWith(s.toLocal, s.written, |s.pubs|, r, w);
    QueuedWith(s.toLocal, s.written, |s.pubs| + |l|, r, w);
  }

  lemma {:induction false} HeadQueued(q: seq<Message>, written: set<Point>)
    requires Queued(q, written)
    ensures q != [] ==> q[0].p in written
  {
  }

  // What forwarding depends on: the queues, the count of publications and what was forwarded.
  ghost predicate Once(up: seq<Message>, down: seq<Message>, published: nat, forwarded: seq<nat>) {
    && (forall i :: 0 <= i < |forwarded| ==> forwarded[i] < published)
    && (forall i, j :: 0 <= i < j < |forwarded| ==> forwarded[i] != forwarded[j])
    && Fresh(up, published, forwarded) && Fresh(down, published, forwarded)
    && forall i, j :: 0 <= i < |up| && 0 <= j < |down| ==> up[i].n != down[j].n
  }

  ghost predicate Fresh(q: seq<Message>, published: nat, forwarded: seq<nat>) {
    && (forall i :: 0 <= i < |q| ==> q[i].n < published && q[i].n !in forwarded)
    && forall i, j :: 0 <= i < j < |q| ==> q[i].n != q[j].n
  }

  lemma {:induction false} PublishedOnce(up: seq<Message>, down: seq<Message>, published: nat, forwarded: seq<nat>,
          ps: seq<Point>)
    requires Once(up, down, published, forwarded)
    ensures Once(up + Messages(published, ps), down, published + |ps|, forwarded)
    ensures Once(up, down + Messages(published, ps), published + |ps|, forwarded)
  {
  }

  lemma {:induction false} MorePublished(up: seq<Message>, down: seq<Message>, published: nat, forwarded: seq<nat>, n: nat)
    requires Once(up, down, published, forwarded)
    ensures Once(up, down, published + n, forwarded)
  {
  }

  lemma {:induction false} PublishOnce(s: State, from: Conn, cause: Option<nat>, ps: seq<Point>)
    requires ForwardedOnce(s)
    ensures ForwardedOnce(AtLocal(s, from, cause, ps)) && ForwardedOnce(AtRemote(s, from, cause, ps))
  {
    hide Once, PutAll, Messages, Same;
    PublishedOnce(s.toRemote, s.toLocal, |s.pubs|, s.forwarded, ps);
    MorePublished(s.toRemote, s.toLocal, |s.pubs|, s.forwarded, |ps|);
  }

  lemma {:induction false} TakenOnce(up: seq<Message>, down: seq<Message>, published: nat, forwarded: seq<nat>)
    requires Once(up, down, published, forwarded)
    ensures up != [] ==> Once(up[1..], down, published, forwarded)
    ensures up != [] ==> Once(up[1..], down, published, forwarded + [up[0].n])
    ensures down != [] ==> Once(up, down[1..], published, forwarded)
    ensures down != [] ==> Once(up, down[1..], published, forwarded + [down[0].n])
  {
  }

  lemma {:induction false} StepForwardsOnce(s: State, step: Step)
    requires Enabled(s, step) && ForwardedOnce(s)
    ensures ForwardedOnce(Next(s, step))
  {
    hide Wanted, Once, AtLocal, AtRemote, SentFor;
    TakenOnce(s.toRemote, s.toLocal, |s.pubs|, s.forwarded);
    match step
    case WriteLocal(p) => PublishOnce(s, Client, None, [p]);
    case WriteRemote(p) => PublishOnce(s, Client, None, [p]);
    case ForwardUp =>
      var m := s.toRemote[0];
      PublishOnce(s.(toRemote := s.toRemote[1..], forwarded := s.forwarded + [m.n]), Forwarder, Some(m.n), [m.p]);
    case ForwardDown =>
      var m := s.toLocal[0];
      PublishOnce(s.(toLocal := s.toLocal[1..], forwarded := s.forwarded + [m.n]), Forwarder, Some(m.n), [m.p]);
    case LoseUp =>
    case LoseDown =>
    case SyncNode(l, r) =>
      PublishOnce(s, Service, None, l);
      PublishOnce(AtLocal(s, Service, None, l), Forwarder, None, r);
  }

  // ----- echo -----

  lemma {:induction false} PublishedSound(noEcho: bool, pubs: seq<Publication>, up: seq<Message>, down: seq<Message>,
          forwarded: seq<nat>, from: Conn, cause: Option<nat>, ps: seq<Point>)
    requires Sound(noEcho, pubs, up, down, forwarded)
    requires cause.Some? ==> from == Forwarder && cause.value in forwarded
    ensures
      var pubs' := pubs + Same(Publication(from, cause), |ps|);
      var ms := if Delivered(noEcho, from) then Messages(|pubs|, ps) else [];
      Sound(noEcho, pubs', up + ms, down, forwarded) && Sound(noEcho, pubs', up, down + ms, forwarded)
  {
  }

  lemma {:induction false} TakenSound(noEcho: bool, pubs: seq<Publication>, up: seq<Message>, down: seq<Message>,
          forwarded: seq<nat>)
    requires Sound(noEcho, pubs, up, down, forwarded)
    ensures up != [] ==> Sound(noEcho, pubs, up[1..], down, forwarded)
    ensures up != [] ==> Sound(noEcho, pubs, up[1..], down, forwarded + [up[0].n])
    ensures down != [] ==> Sound(noEcho, pubs, up, down[1..], forwarded)
    ensures down != [] ==> Sound(noEcho, pubs, up, down[1..], forwarded + [down[0].n])
  {
  }

  lemma {:induction false} StepOnlyDelivered(s: State, step: Step)
    requires Enabled(s, step) && OnlyDelivered(s)
    ensures OnlyDelivered(Next(s, step))
  {
    hide Sound, PutAll, SentFor, Messages, Same, Wanted;
    var e, pubs, up, down, done := s.noEcho, s.pubs, s.toRemote, s.toLocal, s.forwarded;
    TakenSound(e, pubs, up, down, done);
    NoMore(up);
    NoMore(down);
    match step
    case WriteLocal(p) => PublishedSound(e, pubs, up, down, done, Client, None, [p]);
    case WriteRemote(p) => PublishedSound(e, pubs, up, down, done, Client, None, [p]);
    case ForwardUp => PublishedSound(e, pubs, up[1..], down, done + [up[0].n], Forwarder, Some(up[0].n), [up[0].p]);
    case ForwardDown => PublishedSound(e, pubs, up, down[1..], done + [down[0].n], Forwarder, Some(down[0].n), [down[0].p]);
    case LoseUp =>
    case LoseDown =>
    case SyncNode(l, r) =>
      PublishedSound(e, pubs, up, down, done, Service, None, l);
      PublishedSound(e, pubs + Same(Publication(Service, None), |l|), up + Messages(|pubs|, l), down, done, Forwarder, None, r);
  }

  lemma {:induction false} NoMore(q: seq<Message>)
    ensures q + [] == q
  {
  }

  // Without echo, what was published by forwarding neither waits nor was forwarded.
  lemma {:induction false} NoneGoesBack(s: State)
    requires OnlyDelivered(s) && s.noEcho
    ensures NeverBack(s)
  {
  }

  function Pending(s: State): nat { |s.toRemote| + |s.toLocal| }

  // A forward takes a message off the queues for good exactly if the connections do not echo;
  // else the publication that it makes waits to be forwarded back.
  lemma {:induction false} ForwardEnds(s: State, step: Step)
    requires Enabled(s, step) && (step.ForwardUp? || step.ForwardDown?) && ForwardedOnce(s)
    ensures Pending(Next(s, step)) == if s.noEcho then Pending(s) - 1 else Pending(s)
    ensures Next(s, step).pubs[|s.pubs|].cause.Some?
    ensures WaitingNumber(Next(s, step), |s.pubs|) <==> !s.noEcho
  {
    hide PutAll;
    var s', n := Next(s, step), |s.pubs|;
    if !s.noEcho {
      if step.ForwardUp? {
        assert s'.toLocal[|s.toLocal|].n == n;
      } else {
        assert s'.toRemote[|s.toRemote|].n == n;
      }
    }
  }

  ghost predicate WaitingNumber(s: State, n: nat) {
    (exists i :: 0 <= i < |s.toRemote| && s.toRemote[i].n == n) || exists i :: 0 <= i < |s.toLocal| && s.toLocal[i].n == n
  }

  lemma {:induction false} AfterHead(q: seq<Message>, p: Point)
    requires q != []
    ensures Waiting(q, p) ==> q[0].p == p || Waiting(q[1..], p)
  {
    if Waiting(q, p) {
      var i :| 0 <= i < |q| && q[i].p == p;
      if i > 0 {
        assert q[1..][i - 1].p == p;
      }
    }
  }

  lemma {:induction false} MoreMessages(q: seq<Message>, n: nat, ps: seq<Point>, p: Point)
    ensures Waiting(q + Messages(n, ps), p) <==> Waiting(q, p) || p in ps
  {
    var ms := Messages(n, ps);
    if Waiting(q, p) {
      var i :| 0 <= i < |q| && q[i].p == p;
      assert (q + ms)[i].p == p;
    }
    if p in ps {
      var i :| 0 <= i < |ps| && ps[i] == p;
      assert (q + ms)[|q| + i].p == p;
    }
    if Waiting(q + ms, p) {
      var i :| 0 <= i < |q + ms| && (q + ms)[i].p == p;
      if i < |q| {
        assert q[i].p == p;
      } else {
        assert ps[i - |q|] == p;
      }
    }
  }

  // After the comparison both sides know what either knew.
  lemma {:induction false} ComparedKnows(t: Table, u: Table, sent: seq<Point>, p: Point)
    requires SentFor(t, u, sent) && (Knows(t, p) || Knows(u, p))
    ensures Knows(PutAll(t, sent), p)
  {
    SentIsTaken(t, u, sent);
  }

  lemma {:induction false} StepForgetsNothing(s: State, step: Step)
    requires Enabled(s, step) && NothingForgotten(s)
    ensures NothingForgotten(Next(s, step))
  {
    hide PutAll, Waiting, IdOf, Knows, Wanted, Messages, Same, SentFor;
    var (l, r) := Arriving(s, step);
    var s' := Next(s, step);
    NothingArrives(s.local);
    NothingArrives(s.remote);
    PutAllGrows(s.local, l);
    PutAllGrows(s.remote, r);
    forall p | p in s'.written
      ensures Knows(s'.local, p) || Knows(s'.remote, p)
      ensures !s'.lost ==> Knows(s'.local, p) || Waiting(s'.toLocal, p)
      ensures !s'.lost ==> Knows(s'.remote, p) || Waiting(s'.toRemote, p)
    {
      match step
      case WriteLocal(w) => MoreMessages(s.toRemote, |s.pubs|, [w], p);
      case WriteRemote(w) => MoreMessages(s.toLocal, |s.pubs|, [w], p);
      case ForwardUp =>
        AfterHead(s.toRemote, p);
        MoreMessages(s.toLocal, |s.pubs|, r, p);
      case ForwardDown =>
        AfterHead(s.toLocal, p);
        MoreMessages(s.toRemote, |s.pubs|, l, p);
      case LoseUp =>
      case LoseDown =>
      case SyncNode(_, _) =>
        ComparedKnows(s.local, s.remote, l, p);
        ComparedKnows(s.remote, s.local, r, p);
    }
  }

  // ----- whole runs -----

  // Whatever the interleaving of writes, forwards, losses and comparisons.
  lemma {:induction false} RunsKeep(t: Table, noEcho: bool, steps: seq<Step>)
    requires Run(t, noEcho, steps).Some?
    ensures
      var s := Run(t, noEcho, steps).value;
      && NothingInvented(s) && NothingForgotten(s) && ForwardedOnce(s)
      && s.noEcho == noEcho && (noEcho ==> NeverBack(s))
  {
    RunsSound(t, noEcho, steps);
    hide OnlyDelivered, NeverBack;
    if noEcho {
      NoneGoesBack(Run(t, noEcho, steps).value);
    }
  }

  lemma {:induction false} RunsSound(t: Table, noEcho: bool, steps: seq<Step>)
    requires Run(t, noEcho, steps).Some?
    ensures
      var s := Run(t, noEcho, steps).value;
      NothingInvented(s) && NothingForgotten(s) && ForwardedOnce(s) && OnlyDelivered(s) && s.noEcho == noEcho
  {
    hide NothingInvented, NothingForgotten, ForwardedOnce, OnlyDelivered;
    if steps == [] {
      InitKeeps(t, noEcho);
    } else {
      var n := |steps| - 1;
      RunsSound(t, noEcho, steps[..n]);
      var s := Run(t, noEcho, steps[..n]).value;
      StepInventsNothing(s, steps[n]);
      StepForgetsNothing(s, steps[n]);
      StepForwardsOnce(s, steps[n]);
      StepOnlyDelivered(s, steps[n]);
      SameOption(s, steps[n]);
    }
  }

  lemma {:induction false} SameOption(s: State, step: Step)
    requires Enabled(s, step)
    ensures Next(s, step).noEcho == s.noEcho
  {
  }

  lemma {:induction false} InitKeeps(t: Table, noEcho: bool)
    ensures
      var s := Init(t, noEcho);
      NothingInvented(s) && NothingForgotten(s) && ForwardedOnce(s) && OnlyDelivered(s)
  {
    forall p | p in t.Values ensures Knows(t, p) {
      var k :| k in t && t[k] == p;
      assert IdOf(t[k]) == k;
    }
  }

  // With an echo, a run without losses never becomes quiet after the first write: its message
  // goes back and forth for ever.
  lemma {:induction false} EchoNeverEnds(t: Table, steps: seq<Step>, w: nat)
    requires Run(t, false, steps).Some?
    requires w < |steps| && (steps[w].WriteLocal? || steps[w].WriteRemote?)
    requires forall i :: 0 <= i < |steps| ==> !steps[i].LoseUp? && !steps[i].LoseDown?
    ensures Pending(Run(t, false, steps).value) > 0
  {
    hide Enabled, Next, NothingInvented, NothingForgotten, ForwardedOnce, OnlyDelivered;
    var n := |steps| - 1;
    var s := Run(t, false, steps[..n]).value;
    RunsSound(t, false, steps[..n]);
    if w < n {
      EchoNeverEnds(t, steps[..n], w);
    }
    EchoKeepsPending(s, steps[n]);
  }

  lemma {:induction false} EchoKeepsPending(s: State, step: Step)
    requires Enabled(s, step) && !s.noEcho && !step.LoseUp? && !step.LoseDown?
    ensures Pending(Next(s, step)) >= Pending(s)
    ensures step.WriteLocal? || step.WriteRemote? ==> Pending(Next(s, step)) > 0
  {
    hide SentFor, PutAll, Wanted;
  }

  // Points with the same identity and time are the same point, among all that were written.
  ghost predicate TimesDiffer(written: set<Point>) {
    forall p, q :: p in written && q in written && IdOf(p) == IdOf(q) && p.time == q.time ==> p == q
  }

  // A side that holds, of everything ever written, the newest point for each identity.
  ghost predicate HasNewest(t: Table, written: set<Point>) {
    && (forall k :: k in t ==> t[k] in written)
    && forall p :: p in written ==> Knows(t, p)
  }

  lemma {:induction false} NewestIsUnique(t: Table, u: Table, written: set<Point>)
    requires HasNewest(t, written) && HasNewest(u, written) && TimesDiffer(written)
    ensures t == u
  {
    forall k ensures At(t, k) == At(u, k) {
      if k in t {
        assert Knows(u, t[k]) && IdOf(t[k]) == k;
      }
      if k in u {
        assert Knows(t, u[k]) && IdOf(u[k]) == k;
      }
    }
    SameTable(t, u);
  }

  // When nothing was lost and nothing is on the way, both sides hold the newest of all that
  // was ever written, and so are the same.
  lemma {:induction false} QuietRunsAgree(t: Table, noEcho: bool, steps: seq<Step>)
    requires Run(t, noEcho, steps).Some?
    requires var s := Run(t, noEcho, steps).value; !s.lost && s.toLocal == [] && s.toRemote == []
    ensures
      var s := Run(t, noEcho, steps).value;
      && HasNewest(s.local, s.written) && HasNewest(s.remote, s.written)
      && (TimesDiffer(s.written) ==> s.local == s.remote)
  {
    RunsKeep(t, noEcho, steps);
    var s := Run(t, noEcho, steps).value;
    forall p | p in s.written ensures Knows(s.local, p) && Knows(s.remote, p) {
      assert !Waiting(s.toLocal, p) && !Waiting(s.toRemote, p);
    }
    if TimesDiffer(s.written) {
      NewestIsUnique(s.local, s.remote, s.written);
    }
  }

  // Whatever was lost before, one comparison gives both sides the newest of all that was ever
  // written.
  lemma {:induction false} ComparisonRecovers(t: Table, noEcho: bool, steps: seq<Step>, toLocal: seq<Point>,
          toRemote: seq<Point>)
    requires Run(t, noEcho, steps).Some?
    requires Enabled(Run(t, noEcho, steps).value, SyncNode(toLocal, toRemote))
    ensures
      var s := Next(Run(t, noEcho, steps).value, SyncNode(toLocal, toRemote));
      && HasNewest(s.local, s.written) && HasNewest(s.remote, s.written)
      && (TimesDiffer(s.written) ==> s.local == s.remote)
  {
    RunsKeep(t, noEcho, steps);
    hide Run;
    StateRecovers(Run(t, noEcho, steps).value, toLocal, toRemote);
  }

  lemma {:induction false} StateRecovers(s: State, toLocal: seq<Point>, toRemote: seq<Point>)
    requires NothingInvented(s) && NothingForgotten(s) && Enabled(s, SyncNode(toLocal, toRemote))
    ensures
      var s' := Next(s, SyncNode(toLocal, toRemote));
      && HasNewest(s'.local, s'.written) && HasNewest(s'.remote, s'.written)
      && (TimesDiffer(s'.written) ==> s'.local == s'.remote)
  {
    hide PutAll, Knows, IdOf, Wanted, TimesDiffer;
    var s' := Next(s, SyncNode(toLocal, toRemote));
    StepInventsNothing(s, SyncNode(toLocal, toRemote));
    forall p | p in s.written ensures Knows(s'.local, p) && Knows(s'.remote, p) {
      ComparedKnows(s.local, s.remote, toLocal, p);
      ComparedKnows(s.remote, s.local, toRemote, p);
    }
    if TimesDiffer(s'.written) {
      NewestIsUnique(s'.local, s'.remote, s'.written);
    }
  }

  // What a comparison sends to the local side is delivered there like any other point, and waits to
  // be forwarded up; what it sends up goes out on a connection that forwards, and waits only with echo.
  lemma {:induction false} ComparisonIsForwarded(s: State, toLocal: seq<Point>, toRemote: seq<Point>)
    requires Enabled(s, Step.SyncNode(toLocal, toRemote))
    ensures
      var t := Next(s, Step.SyncNode(toLocal, toRemote));
      && t.toRemote == s.toRemote + Messages(|s.pubs|, toLocal)
      && t.toLocal == s.toLocal + if s.noEcho then [] else Messages(|s.pubs| + |toLocal|, toRemote)
  {
    hide PutAll, SentFor, Messages;
  }
}
