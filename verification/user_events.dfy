/** The event-sourced `User` of 2_idioms/2_5_exhaustivity/src/lib.rs: one
    `EventSourced<Ev>` impl per event, and the `ApplyEv` indirection through
    which a `&dyn ApplyEv<User>` is applied. `&mut self` becomes a returned
    `User`; `SystemTime` is a number. */
module UserEvents {
  import opened Base

  type Time = nat

  datatype User = User(
    id: nat,
    name: Option<string>,
    onlineSince: Option<Time>,
    createdAt: Time,
    lastActivityAt: Time,
    deletedAt: Option<Time>)

  datatype UserCreated = UserCreated(userId: nat, at: Time)
  datatype UserNameUpdated = UserNameUpdated(userId: nat, name: Option<string>, at: Time)
  datatype UserBecameOnline = UserBecameOnline(userId: nat, at: Time)
  datatype UserBecameOffline = UserBecameOffline(userId: nat, at: Time)
  datatype UserDeleted = UserDeleted(userId: nat, at: Time)

  /** `EventSourced<UserCreated>`: sets the id and the creation time, and the
      creation time is also the last activity. Nothing else changes. */
  function ApplyCreated(u: User, ev: UserCreated): (r: User)
    ensures r.id == ev.userId && r.createdAt == ev.at && r.lastActivityAt == ev.at
    ensures r.name == u.name && r.onlineSince == u.onlineSince && r.deletedAt == u.deletedAt
  {
    u.(id := ev.userId, createdAt := ev.at, lastActivityAt := ev.at)
  }

  /** `EventSourced<UserNameUpdated>`: sets the name only; the event's user id
      and time are not used. */
  function ApplyNameUpdated(u: User, ev: UserNameUpdated): (r: User)
    ensures r.name == ev.name
    ensures r.id == u.id && r.onlineSince == u.onlineSince && r.createdAt == u.createdAt
    ensures r.lastActivityAt == u.lastActivityAt && r.deletedAt == u.deletedAt
  {
    u.(name := ev.name)
  }

  /** `EventSourced<UserBecameOnline>`: records since when the user is online;
      the last activity is not touched. */
  function ApplyBecameOnline(u: User, ev: UserBecameOnline): (r: User)
    ensures r.onlineSince == Some(ev.at)
    ensures r.id == u.id && r.name == u.name && r.createdAt == u.createdAt
    ensures r.lastActivityAt == u.lastActivityAt && r.deletedAt == u.deletedAt
  {
    u.(onlineSince := Some(ev.at))
  }

  /** `EventSourced<UserBecameOffline>`: the user is no longer online and was
      last active at the event's time. */
  function ApplyBecameOffline(u: User, ev: UserBecameOffline): (r: User)
    ensures r.onlineSince == None && r.lastActivityAt == ev.at
    ensures r.id == u.id && r.name == u.name && r.createdAt == u.createdAt && r.deletedAt == u.deletedAt
  {
    u.(onlineSince := None, lastActivityAt := ev.at)
  }

  /** `EventSourced<UserDeleted>`: records the deletion time, which is also
      the last activity. */
  function ApplyDeleted(u: User, ev: UserDeleted): (r: User)
    ensures r.deletedAt == Some(ev.at) && r.lastActivityAt == ev.at
    ensures r.id == u.id && r.name == u.name && r.onlineSince == u.onlineSince && r.createdAt == u.createdAt
  {
    u.(deletedAt := Some(ev.at), lastActivityAt := ev.at)
  }

  /** The events a `User` consumes, as they reach it behind `&dyn ApplyEv<User>`. */
  datatype Event =
    | Created(created: UserCreated)
    | NameUpdated(nameUpdated: UserNameUpdated)
    | BecameOnline(online: UserBecameOnline)
    | BecameOffline(offline: UserBecameOffline)
    | Deleted(deleted: UserDeleted)

  /** `impl<T, Ev> ApplyEv<T> for Ev`: the event hands itself to the target's
      `EventSourced<Ev>` impl. */
  function ApplyEv(ev: Event, to: User): User
  {
    match ev
    case Created(e) => ApplyCreated(to, e)
    case NameUpdated(e) => ApplyNameUpdated(to, e)
    case BecameOnline(e) => ApplyBecameOnline(to, e)
    case BecameOffline(e) => ApplyBecameOffline(to, e)
    case Deleted(e) => ApplyDeleted(to, e)
  }

  /** `impl<T> EventSourced<&dyn ApplyEv<T>> for T`: applying a boxed event
      calls back into the event. */
  function ApplyDyn(u: User, ev: Event): User
  {
    ApplyEv(ev, u)
  }

  /** Applying a sequence of events in order. */
  function Replay(u: User, evs: seq<Event>): User
    decreases |evs|
  {
    if |evs| == 0 then u else Replay(ApplyDyn(u, evs[0]), evs[1..])
  }

  /** Going through `&dyn ApplyEv<User>` is the same as calling the event's own
      impl directly. */
  lemma DynamicEqualsDirect(u: User, ev: Event)
    ensures ev.Created? ==> ApplyDyn(u, ev) == ApplyCreated(u, ev.created)
    ensures ev.NameUpdated? ==> ApplyDyn(u, ev) == ApplyNameUpdated(u, ev.nameUpdated)
    ensures ev.BecameOnline? ==> ApplyDyn(u, ev) == ApplyBecameOnline(u, ev.online)
    ensures ev.BecameOffline? ==> ApplyDyn(u, ev) == ApplyBecameOffline(u, ev.offline)
    ensures ev.Deleted? ==> ApplyDyn(u, ev) == ApplyDeleted(u, ev.deleted)
  {
  }

  /** The user id an event carries. */
  function EventUserId(ev: Event): nat
  {
    match ev
    case Created(e) => e.userId
    case NameUpdated(e) => e.userId
    case BecameOnline(e) => e.userId
    case BecameOffline(e) => e.userId
    case Deleted(e) => e.userId
  }

  /** The same event addressed to another user id. */
  function Readdressed(ev: Event, userId: nat): (r: Event)
    ensures EventUserId(r) == userId
  {
    match ev
    case Created(e) => Created(e.(userId := userId))
    case NameUpdated(e) => NameUpdated(e.(userId := userId))
    case BecameOnline(e) => BecameOnline(e.(userId := userId))
    case BecameOffline(e) => BecameOffline(e.(userId := userId))
    case Deleted(e) => Deleted(e.(userId := userId))
  }

  /** No handler checks that the event is addressed to this user: apart from
      `UserCreated`, which copies the id into the user, the id an event
      carries makes no difference at all. */
  lemma UserIdIsNotChecked(u: User, ev: Event, userId: nat)
    requires !ev.Created?
    ensures ApplyDyn(u, Readdressed(ev, userId)) == ApplyDyn(u, ev)
  {
  }

  /** Every handler only overwrites fields, so applying the same event twice
      is the same as applying it once. */
  lemma ApplyIsIdempotent(u: User, ev: Event)
    ensures ApplyDyn(ApplyDyn(u, ev), ev) == ApplyDyn(u, ev)
  {
  }

  /** A name update touches only the name, which no other event touches, so
      it commutes with every other event. */
  lemma NameUpdateCommutes(u: User, n: UserNameUpdated, ev: Event)
    requires !ev.NameUpdated?
    ensures ApplyDyn(ApplyDyn(u, NameUpdated(n)), ev) == ApplyDyn(ApplyDyn(u, ev), NameUpdated(n))
  {
  }

  /** No event clears a deletion: once deleted, a user stays deleted whatever
      events follow. */
  lemma {:induction false} DeletionIsPermanent(u: User, evs: seq<Event>)
    requires u.deletedAt.Some?
    ensures Replay(u, evs).deletedAt.Some?
    decreases |evs|
  {
    if |evs| > 0 {
      DeletionIsPermanent(ApplyDyn(u, evs[0]), evs[1..]);
    }
  }

  /** The creation time changes only through `UserCreated`. */
  lemma {:induction false} CreationTimeNeedsCreated(u: User, evs: seq<Event>)
    requires forall k | 0 <= k < |evs| :: !evs[k].Created?
    ensures Replay(u, evs).createdAt == u.createdAt && Replay(u, evs).id == u.id
    decreases |evs|
  {
    if |evs| > 0 {
      CreationTimeNeedsCreated(ApplyDyn(u, evs[0]), evs[1..]);
    }
  }
}
