/** Values shared by every part of the object store model. */
module Types {

  /** Optional value; `None` stands for the null pointer the store returns on failure. */
  datatype Option<T> = None | Some(value: T)

  /** The null pointer, written as an arena index. */
  const Null: int := -1

  /**
   * A domain object as the store sees it: its identity (0 while none has
   * been assigned) and its run-time type tag, the class name that
   * `typeid(*o).name()` yields and that a producer reports as `classname()`.
   */
  datatype Obj = Obj(id: int, tag: string)

  /** The three callbacks of an `object_observer`. */
  datatype EventKind = OnInsert | OnUpdate | OnDelete

  /** One delivered callback: which observer, which callback, which object (none for the null pointer). */
  datatype Event = Event(observer: nat, kind: EventKind, obj: Option<Obj>)

  /**
   * The callbacks delivered when the store runs `std::for_each` over its
   * observer list: one per registered observer, in registration order.
   */
  function FanOut(observers: seq<nat>, kind: EventKind, o: Option<Obj>): (evs: seq<Event>)
    ensures |evs| == |observers|
    ensures forall i :: 0 <= i < |evs| ==> evs[i] == Event(observers[i], kind, o)
  {
    if observers == [] then [] else [Event(observers[0], kind, o)] + FanOut(observers[1..], kind, o)
  }
}
