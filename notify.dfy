/** The observer topic of pkg/misc/notify: a set of observers keyed by identity and a
    suspended flag. Notifying a topic delivers the event once to every current observer,
    or to none while the topic is suspended; suspension drops events, it does not queue them.

    Observers are identity tokens. What an observer does with an event is outside this
    model: each delivery is recorded in the ghost log `delivered` instead. */
module Notify {
  import opened Wrappers

  /** The identity of an observer (the key of the observer map). */
  type Observer = nat

  /** An event; its contents are opaque to the topic. */
  datatype Event = Event(token: nat)

  /** One call of an observer's `Notify` with an event. */
  datatype Delivery = Delivery(observer: Observer, event: Event)

  /** `ds` delivers `e` exactly once to each observer of `obs`, and to no one else. */
  ghost predicate EachOnce(ds: seq<Delivery>, obs: set<Observer>, e: Event)
  {
    (forall i :: 0 <= i < |ds| ==> ds[i].event == e && ds[i].observer in obs) &&
    (forall i, j :: 0 <= i < j < |ds| ==> ds[i].observer != ds[j].observer) &&
    (forall o :: o in obs ==> exists i :: 0 <= i < |ds| && ds[i].observer == o)
  }

  /** `TopicImpl`. Its zero value is ready to use: no observers, not suspended. */
  class Topic {
    var observers: set<Observer>
    var suspended: bool
    ghost var delivered: seq<Delivery>

    constructor ()
      ensures observers == {} && !suspended && delivered == []
    {
      observers := {};
      suspended := false;
      delivered := [];
    }

    /** Adds `o`; observing twice leaves one membership. */
    method Observe(o: Observer)
      modifies this
      ensures observers == old(observers) + {o}
      ensures suspended == old(suspended) && delivered == old(delivered)
    {
      observers := observers + {o};
    }

    /** Removes `o` and no other observer. */
    method Unobserve(o: Observer)
      modifies this
      ensures observers == old(observers) - {o}
      ensures suspended == old(suspended) && delivered == old(delivered)
    {
      observers := observers - {o};
    }

    /** Delivers `e` to each current observer once (in no particular order), or does
        nothing while suspended. */
    method Notify(e: Event)
      modifies this
      ensures observers == old(observers) && suspended == old(suspended)
      ensures old(suspended) ==> delivered == old(delivered)
      ensures !old(suspended) ==>
        old(delivered) <= delivered && EachOnce(delivered[|old(delivered)|..], observers, e)
    {
      if suspended {
        return;
      }
      var pending := observers;
      while pending != {}
        invariant observers == old(observers) && suspended == old(suspended)
        invariant pending <= observers
        invariant old(delivered) <= delivered
        invariant EachOnce(delivered[|old(delivered)|..], observers - pending, e)
        decreases pending
      {
        var o :| o in pending;
        ghost var before := delivered[|old(delivered)|..];
        delivered := delivered + [Delivery(o, e)];
        ghost var after := delivered[|old(delivered)|..];
        assert after == before + [Delivery(o, e)];
        forall p | p in observers - (pending - {o})
          ensures exists i :: 0 <= i < |after| && after[i].observer == p
        {
          if p == o {
            assert after[|before|].observer == p;
          } else {
            assert p in observers - pending;
            var i :| 0 <= i < |before| && before[i].observer == p;
            assert after[i].observer == p;
          }
        }
        pending := pending - {o};
      }
      assert observers - pending == observers;
    }

    /** Sets the suspended flag; nothing else changes. */
    method Suspend()
      modifies this
      ensures suspended
      ensures observers == old(observers) && delivered == old(delivered)
    {
      suspended := true;
    }

    /** Clears the suspended flag; no event dropped while suspended is delivered. */
    method Resume()
      modifies this
      ensures !suspended
      ensures observers == old(observers) && delivered == old(delivered)
    {
      suspended := false;
    }
  }

  /** A topic found behind a value, and whether its dynamic type is also `Suspendable`.
      `topic` is always a `TopicImpl`, which is suspendable; `suspendable == false` stands
      for a topic of another type, and only in that `Suspend` and `Resume` leave it alone. */
  datatype Found = Found(topic: Topic, suspendable: bool)

  /** What the free functions are given: a value that may itself be a `Topic`, and may be
      `Notifiable`, that is have a `Topic()` method returning one. */
  datatype Subject = Subject(asTopic: Option<Found>, notifiable: Option<Found>)

  /** `findTopic`: the value itself when it is a topic, else the topic it provides, else none. */
  function FindTopic(v: Subject): (r: Option<Found>)
    ensures r.Some? <==> v.asTopic.Some? || v.notifiable.Some?
    ensures v.asTopic.Some? ==> r == v.asTopic
    ensures v.asTopic.None? ==> r == v.notifiable
  {
    match v.asTopic
    case Some(t) => Some(t)
    case None => v.notifiable
  }

  /** The topic (if any) that the free `Send`, `Observe` and `Unobserve` act on. */
  function TopicOf(v: Subject): set<Topic>
  {
    match FindTopic(v)
    case None => {}
    case Some(f) => {f.topic}
  }

  /** The topic (if any) that the free `Suspend` and `Resume` act on. */
  function SuspendableOf(v: Subject): set<Topic>
  {
    match FindTopic(v)
    case Some(f) => if f.suspendable then {f.topic} else {}
    case None => {}
  }

  /** Notifies the topic found behind `v`; no-op when there is none. */
  method Send(v: Subject, e: Event)
    modifies TopicOf(v)
    ensures FindTopic(v).Some? ==>
      var t := FindTopic(v).value.topic;
      t.observers == old(t.observers) && t.suspended == old(t.suspended) &&
      (old(t.suspended) ==> t.delivered == old(t.delivered)) &&
      (!old(t.suspended) ==> old(t.delivered) <= t.delivered && EachOnce(t.delivered[|old(t.delivered)|..], t.observers, e))
  {
    match FindTopic(v)
    case Some(f) => f.topic.Notify(e);
    case None =>
  }

  /** Adds `o` to the topic found behind `v`; no-op when there is none. */
  method Observe(v: Subject, o: Observer)
    modifies TopicOf(v)
    ensures FindTopic(v).Some? ==>
      var t := FindTopic(v).value.topic;
      t.observers == old(t.observers) + {o} && t.suspended == old(t.suspended) && t.delivered == old(t.delivered)
  {
    match FindTopic(v)
    case Some(f) => f.topic.Observe(o);
    case None =>
  }

  /** Removes `o` from the topic found behind `v`; no-op when there is none. */
  method Unobserve(v: Subject, o: Observer)
    modifies TopicOf(v)
    ensures FindTopic(v).Some? ==>
      var t := FindTopic(v).value.topic;
      t.observers == old(t.observers) - {o} && t.suspended == old(t.suspended) && t.delivered == old(t.delivered)
  {
    match FindTopic(v)
    case Some(f) => f.topic.Unobserve(o);
    case None =>
  }

  /** Suspends the topic found behind `v` when it is suspendable; no-op otherwise. */
  method Suspend(v: Subject)
    modifies SuspendableOf(v)
    ensures FindTopic(v).Some? && FindTopic(v).value.suspendable ==>
      var t := FindTopic(v).value.topic;
      t.suspended && t.observers == old(t.observers) && t.delivered == old(t.delivered)
  {
    match FindTopic(v)
    case Some(f) =>
      if f.suspendable {
        f.topic.Suspend();
      }
    case None =>
  }

  /** Resumes the topic found behind `v` when it is suspendable; no-op otherwise. */
  method Resume(v: Subject)
    modifies SuspendableOf(v)
    ensures FindTopic(v).Some? && FindTopic(v).value.suspendable ==>
      var t := FindTopic(v).value.topic;
      !t.suspended && t.observers == old(t.observers) && t.delivered == old(t.delivered)
  {
    match FindTopic(v)
    case Some(f) =>
      if f.suspendable {
        f.topic.Resume();
      }
    case None =>
  }

  /** An event sent while suspended is dropped for good: after resuming, a second event is
      delivered to every observer and the first to none. */
  method SuspendedEventIsNotReplayed(t: Topic, dropped: Event, later: Event)
    requires dropped != later
    modifies t
    ensures t.observers == old(t.observers) && !t.suspended
    ensures old(t.delivered) <= t.delivered
    ensures EachOnce(t.delivered[|old(t.delivered)|..], t.observers, later)
    ensures forall i :: |old(t.delivered)| <= i < |t.delivered| ==> t.delivered[i].event != dropped
  {
    t.Suspend();
    t.Notify(dropped);
    t.Resume();
    t.Notify(later);
  }
}
