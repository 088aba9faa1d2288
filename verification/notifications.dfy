/** The notification centre: a process-wide list of subscribers and a
    broadcast that hands each of them the event through the first method
    it has.  Subscribers are identified by value; what each can receive
    and whether handing it over raises are parameters. */
module Notifications {
  import opened Seqs

  /** How a subscriber takes events: `backend_event_notification(type, msg)`,
      only `add_notification(msg)`, or neither. */
  datatype Kind = BackendHook | AddOnly | Deaf

  /** One hand-over made by `notify`. */
  datatype Call = Backend(eventType: string, message: string) | Add(message: string)

  datatype Delivery<S> = Delivery(to: S, call: Call)

  /** `register`: append unless already present. */
  function Register<S(==)>(subs: seq<S>, s: S): (r: seq<S>)
    ensures s in r
    ensures s in subs ==> r == subs
    ensures s !in subs ==> r == subs + [s]
    ensures NoDup(subs) ==> NoDup(r)
  {
    if s in subs then subs else subs + [s]
  }

  /** `list.remove`: drop the first occurrence. */
  function RemoveFirst<S(==)>(subs: seq<S>, s: S): (r: seq<S>)
    ensures s !in subs ==> r == subs
    ensures s in subs ==> |r| == |subs| - 1
    ensures forall x :: x in r ==> x in subs
    ensures forall x :: x in subs && x != s ==> x in r
    ensures NoDup(subs) ==> NoDup(r) && s !in r
    decreases |subs|
  {
    if |subs| == 0 then []
    else if subs[0] == s then subs[1..]
    else
      var rest := RemoveFirst(subs[1..], s);
      assert NoDup(subs) ==> subs[0] !in subs[1..];
      [subs[0]] + rest
  }

  /** `unregister`: remove the subscriber when present, else nothing. */
  function Unregister<S(==)>(subs: seq<S>, s: S): (r: seq<S>)
    ensures s !in subs ==> r == subs
    ensures NoDup(subs) ==> NoDup(r) && s !in r && |r| == |subs| - (if s in subs then 1 else 0)
    ensures forall x :: x in r ==> x in subs
    ensures forall x :: x in subs && x != s ==> x in r
  {
    if s in subs then RemoveFirst(subs, s) else subs
  }

  /** Registering twice is registering once, and unregistering undoes
      the registration of a newcomer. */
  lemma RegisterIdempotent<S>(subs: seq<S>, s: S)
    ensures Register(Register(subs, s), s) == Register(subs, s)
    ensures NoDup(subs) ==> s !in Unregister(Register(subs, s), s)
    ensures NoDup(subs) && s !in subs ==> Unregister(Register(subs, s), s) == subs
  {
    if NoDup(subs) && s !in subs {
      UnregisterLast(subs, s);
    }
  }

  lemma {:induction false} UnregisterLast<S>(subs: seq<S>, s: S)
    requires s !in subs
    ensures RemoveFirst(subs + [s], s) == subs
    decreases |subs|
  {
    if |subs| > 0 {
      assert (subs + [s])[0] == subs[0];
      assert (subs + [s])[1..] == subs[1..] + [s];
      UnregisterLast(subs[1..], s);
      assert subs == [subs[0]] + subs[1..];
    }
  }

  /** What `notify` hands one subscriber: the backend hook when it has one
      (and never also the plain message), else the plain message, else
      nothing; a subscriber whose hand-over raises receives nothing. */
  function DeliverTo<S>(s: S, kind: S -> Kind, raises: S -> bool, eventType: string, message: string): (r: seq<Delivery<S>>)
    ensures |r| <= 1
    ensures |r| == 1 <==> !raises(s) && kind(s) != Deaf
    ensures |r| == 1 ==> r[0].to == s
    ensures |r| == 1 && kind(s) == BackendHook ==> r[0].call == Backend(eventType, message)
    ensures |r| == 1 && kind(s) == AddOnly ==> r[0].call == Add(message)
  {
    if raises(s) then []
    else match kind(s)
      case BackendHook => [Delivery(s, Backend(eventType, message))]
      case AddOnly => [Delivery(s, Add(message))]
      case Deaf => []
  }

  /** `notify`: over a snapshot of the subscriber list, in list order. */
  function Notify<S>(subs: seq<S>, kind: S -> Kind, raises: S -> bool, eventType: string, message: string): (r: seq<Delivery<S>>)
    ensures |r| <= |subs|
    ensures forall i :: 0 <= i < |r| ==> r[i].to in subs
    decreases |subs|
  {
    if |subs| == 0 then []
    else DeliverTo(subs[0], kind, raises, eventType, message) + Notify(subs[1..], kind, raises, eventType, message)
  }

  /** The hand-overs one subscriber receives from a broadcast. */
  function To<S(==)>(ds: seq<Delivery<S>>, s: S): seq<Delivery<S>> {
    Filter((d: Delivery<S>) => d.to == s, ds)
  }

  /** Isolation: in a duplicate-free subscriber list, each subscriber
      receives from a broadcast exactly what it would receive alone,
      whatever the other subscribers are or do; those not listed receive
      nothing. */
  lemma {:induction false} NotifyIsolated<S>(subs: seq<S>, kind: S -> Kind, raises: S -> bool,
                                                  eventType: string, message: string, s: S)
    requires NoDup(subs)
    ensures s in subs ==> To(Notify(subs, kind, raises, eventType, message), s)
                          == DeliverTo(s, kind, raises, eventType, message)
    ensures s !in subs ==> To(Notify(subs, kind, raises, eventType, message), s) == []
    decreases |subs|
  {
    if |subs| > 0 {
      var p := (d: Delivery<S>) => d.to == s;
      var head := DeliverTo(subs[0], kind, raises, eventType, message);
      var tail := Notify(subs[1..], kind, raises, eventType, message);
      FilterAppend(p, head, tail);
      assert NoDup(subs[1..]);
      NotifyIsolated(subs[1..], kind, raises, eventType, message, s);
      if subs[0] == s {
        assert s !in subs[1..];
        assert Filter(p, head) == head by {
          if |head| == 1 {
            assert head == [head[0]];
            assert head[1..] == [];
          }
        }
      } else {
        assert Filter(p, head) == [] by {
          if |head| == 1 {
            assert head[1..] == [];
          }
        }
      }
    }
  }

  lemma {:induction false} FilterAppend<T>(p: T -> bool, a: seq<T>, b: seq<T>)
    ensures Filter(p, a + b) == Filter(p, a) + Filter(p, b)
    decreases |a|
  {
    if |a| == 0 {
      assert a + b == b;
    } else {
      assert (a + b)[0] == a[0];
      assert (a + b)[1..] == a[1..] + b;
      FilterAppend(p, a[1..], b);
    }
  }
}
