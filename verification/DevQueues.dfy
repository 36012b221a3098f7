/** The device queue module itself: the controller's ready list and its device queues as objects,
    each call proved to do what its function in DevQueueSpec says. The controller's mutex is held
    for the whole of every call. */
module DevQueues {
  import opened Common
  import Spec = DevQueueSpec

  /** A device queue. `fifo` is DEV_QUEUE_FIFO_INSERT; any other insert procedure chooses the
      position of the new element. */
  class Queue<E> {
    const clientData: int
    const fifo: bool
    const queueBit: bv32
    var elements: seq<E>

    constructor (clientData: int, fifo: bool, queueBit: bv32)
      ensures this.clientData == clientData && this.fifo == fifo && this.queueBit == queueBit
      ensures elements == []
    {
      this.clientData, this.fifo, this.queueBit := clientData, fifo, queueBit;
      elements := [];
    }
  }

  class CtrlQueues<E> {
    var readyList: seq<Queue<E>>
    ghost var state: Spec.State<Queue<E>, E>

    ghost predicate Valid()
      reads this, state.queues.Keys
    {
      readyList == state.ready && forall q :: q in state.queues ==> Matches(q, state.queues[q])
    }

    static ghost predicate Matches(q: Queue<E>, v: Spec.Queue<E>)
      reads q
    {
      q.elements == v.elements && q.queueBit == v.bit && q.fifo == v.fifo
    }

    /** Dev_CtrlQueuesCreate. */
    constructor ()
      ensures Valid() && state == Spec.State([], map[])
    {
      readyList := [];
      state := Spec.State([], map[]);
    }

    /** Dev_QueueCreate. */
    method QueueCreate(queueBit: bv32, fifo: bool, clientData: int) returns (q: Queue<E>)
      requires Valid()
      modifies this`state
      ensures Valid() && fresh(q) && q.clientData == clientData
      ensures state == Spec.Create(old(state), q, queueBit, fifo)
    {
      q := new Queue(clientData, fifo, queueBit);
      state := Spec.Create(state, q, queueBit, fifo);
    }

    /** Dev_QueueDestroy. */
    method QueueDestroy(q: Queue<E>) returns (destroyed: bool)
      requires Valid() && q in state.queues
      modifies this`state
      ensures Valid() && state == Spec.Destroy(old(state), q)
      ensures destroyed <==> !Spec.HasWork(old(state), q)
      ensures destroyed && Spec.Inv(old(state)) ==> q !in readyList
    {
      if q.elements != [] {
        return false;
      }
      state := Spec.Destroy(state, q);
      return true;
    }

    /** Dev_QueueInsert. The controller is offered the element only when the queue is empty;
        `taken` is its answer. */
    method QueueInsert(q: Queue<E>, e: E, taken: bool, position: nat)
      requires Valid() && q in state.queues
      modifies this, q`elements
      ensures Valid() && state == Spec.Insert(old(state), q, e, taken, position)
    {
      var wasEmpty := q.elements == [];
      if wasEmpty && taken {
        state := Spec.Insert(state, q, e, taken, position);
        return;
      }
      InsertElement(q, e, position);
      if wasEmpty && q.queueBit != 0 {
        readyList := readyList + [q];
      }
      state := Spec.Insert(state, q, e, taken, position);
    }

    /** Call the queue's insert procedure, or List_Insert at the rear. */
    static method InsertElement(q: Queue<E>, e: E, position: nat)
      modifies q`elements
      ensures q.elements == Spec.Placed(old(q.elements), q.fifo, e, position)
    {
      if q.fifo || position > |q.elements| {
        q.elements := q.elements + [e];
      } else {
        q.elements := q.elements[..position] + [e] + q.elements[position..];
      }
    }

    /** List_Remove on the ready list. */
    method RemoveReady(q: Queue<E>)
      requires q in readyList
      modifies this`readyList
      ensures readyList == Spec.Without(old(readyList), q)
    {
      var i := 0;
      while readyList[i] != q
        invariant i < |readyList| && forall j :: 0 <= j < i ==> readyList[j] != q
        invariant q in readyList[i..]
        decreases |readyList| - i
      {
        i := i + 1;
      }
      IndexIs(readyList, q, i);
      readyList := readyList[..i] + readyList[i + 1..];
    }

    /** Dev_QueueGetNext. */
    method QueueGetNext(q: Queue<E>) returns (e: Option<E>)
      requires Valid() && q in state.queues && Spec.Linked(state, q)
      modifies this, q`elements
      ensures Valid() && (e, state) == Spec.GetNext(old(state), q)
    {
      if q.elements == [] {
        return None;
      }
      state := Spec.GetNext(state, q).1;
      e := Some(q.elements[0]);
      q.elements := q.elements[1..];
      if q.queueBit != 0 {
        RemoveReady(q);
        if q.elements != [] {
          readyList := readyList + [q];
        }
      }
    }

    /** The scan of Dev_QueueGetNextFromSet. */
    method FindReady(queueMask: bv32) returns (i: nat)
      requires Valid() && forall j :: 0 <= j < |readyList| ==> readyList[j] in state.queues
      ensures i == Spec.Choose(state, queueMask, 0)
    {
      i := 0;
      while i < |readyList|
        invariant i <= |readyList|
        invariant forall j :: 0 <= j < i ==> !Spec.Admits(state, queueMask, readyList[j])
      {
        var q := readyList[i];
        assert Matches(q, state.queues[q]);
        if Spec.InSet(queueMask, q.queueBit) {
          break;
        }
        i := i + 1;
      }
      ChooseIs(state, queueMask, i);
    }

    /** Dev_QueueGetNextFromSet: the next element of the first ready queue in the set, and the
        client data of that queue. */
    method QueueGetNextFromSet(queueMask: bv32) returns (e: Option<E>, clientData: int)
      requires Valid()
      requires forall j :: 0 <= j < |readyList| ==> readyList[j] in state.queues && Spec.Linked(state, readyList[j])
      modifies this, readyList
      ensures Valid() && state == Spec.GetNextFromSet(old(state), queueMask).1
      ensures var from := Spec.GetNextFromSet(old(state), queueMask).0;
              && e == (if from == None then None else Some(from.value.1))
              && (from != None ==> clientData == from.value.0.clientData)
    {
      var i := FindReady(queueMask);
      if i == |readyList| {
        return None, 0;
      }
      clientData := readyList[i].clientData;
      e := QueueGetNext(readyList[i]);
    }

    /** Any call on queues that exist. From a state that satisfies the invariant it may be made, it
        does what the state machine does, and it leaves the invariant for the next call. */
    method Call(event: Spec.Event<Queue<E>, E>) returns (e: Option<E>)
      requires Valid() && Spec.Inv(state) && !event.DoCreate? && (!event.DoGetNextFromSet? ==> event.k in state.queues)
      modifies this, state.queues.Keys
      ensures Valid() && Spec.Inv(state) && state == Spec.Step(old(state), event)
      ensures e == Given(old(state), event)
    {
      InvLinks(state);
      Spec.StepInv(state, event);
      e := None;
      match event
      case DoDestroy(q) =>
        var destroyed := QueueDestroy(q);
      case DoInsert(q, x, taken, position) =>
        QueueInsert(q, x, taken, position);
      case DoGetNext(q) =>
        e := QueueGetNext(q);
      case DoGetNextFromSet(mask) =>
        var clientData;
        e, clientData := QueueGetNextFromSet(mask);
    }
  }

  /** The element that a call hands to the controller's driver. */
  ghost function Given<K, E>(s: Spec.State<K, E>, event: Spec.Event<K, E>): Option<E> {
    match event
    case DoGetNext(k) => if k in s.queues then Spec.GetNext(s, k).0 else None
    case DoGetNextFromSet(mask) =>
      var from := Spec.GetNextFromSet(s, mask).0;
      if from == None then None else Some(from.value.1)
    case _ => None
  }

  /** A queue that is taken off the ready list is on it. */
  lemma InvLinks<K, E>(s: Spec.State<K, E>)
    requires Spec.Inv(s)
    ensures forall k :: k in s.queues ==> Spec.Linked(s, k)
    ensures forall j :: 0 <= j < |s.ready| ==> s.ready[j] in s.queues && Spec.Linked(s, s.ready[j])
  {
  }

  lemma ChooseIs<K, E>(s: Spec.State<K, E>, mask: bv32, i: nat)
    requires i <= |s.ready| && (i < |s.ready| ==> Spec.Admits(s, mask, s.ready[i]))
    requires forall j :: 0 <= j < i ==> !Spec.Admits(s, mask, s.ready[j])
    ensures Spec.Choose(s, mask, 0) == i
  {
  }

  lemma {:induction false} IndexIs<K>(list: seq<K>, k: K, i: nat)
    requires i < |list| && list[i] == k && forall j :: 0 <= j < i ==> list[j] != k
    ensures Spec.IndexOf(list, k) == i
  {
    if i > 0 {
      IndexIs(list[1..], k, i - 1);
    }
  }
}
