/** Device queues: one queue per device, a ready list of the queues that have work and may be
    chosen from a set, and round robin over that list. K names queues, E is what they hold. */
module DevQueueSpec {
  import opened Common

  /** One queue. `inserted` and `left` record, in order, what was handed to Dev_QueueInsert and
      what has gone to the controller, directly or through the queue. */
  datatype Queue<E> = Queue(bit: bv32, fifo: bool, elements: seq<E>, inserted: seq<E>, left: seq<E>)

  datatype State<K(==), E> = State(ready: seq<K>, queues: map<K, Queue<E>>)

  predicate HasWork<K, E>(s: State<K, E>, k: K) {
    k in s.queues && s.queues[k].elements != []
  }

  /** A queue with work that may be in a set is on the ready list. */
  predicate Linked<K, E>(s: State<K, E>, k: K) {
    HasWork(s, k) && s.queues[k].bit != 0 ==> k in s.ready
  }

  predicate InSet(mask: bv32, bit: bv32) {
    mask & bit != 0
  }

  /** Bit k of x. */
  predicate Bit(x: bv32, k: bv32) {
    k < 32 && (x >> k) & 1 == 1
  }

  /** The two have a bit in common. */
  ghost predicate ShareBit(x: bv32, y: bv32) {
    exists k :: Bit(x, k) && Bit(y, k)
  }

  lemma SomeBit(x: bv32)
    requires x != 0
    ensures exists k :: Bit(x, k)
  {
    assert Bit(x, 0) || Bit(x, 1) || Bit(x, 2) || Bit(x, 3) || Bit(x, 4) || Bit(x, 5) || Bit(x, 6) || Bit(x, 7)
      || Bit(x, 8) || Bit(x, 9) || Bit(x, 10) || Bit(x, 11) || Bit(x, 12) || Bit(x, 13) || Bit(x, 14) || Bit(x, 15)
      || Bit(x, 16) || Bit(x, 17) || Bit(x, 18) || Bit(x, 19) || Bit(x, 20) || Bit(x, 21) || Bit(x, 22) || Bit(x, 23)
      || Bit(x, 24) || Bit(x, 25) || Bit(x, 26) || Bit(x, 27) || Bit(x, 28) || Bit(x, 29) || Bit(x, 30)
      || Bit(x, 31);
  }

  lemma BitOfBoth(x: bv32, y: bv32, k: bv32)
    ensures Bit(x & y, k) <==> Bit(x, k) && Bit(y, k)
  {
  }

  /** A mask admits a queue exactly when the two have a bit in common. */
  lemma InSetSharesBit(mask: bv32, bit: bv32)
    ensures InSet(mask, bit) <==> ShareBit(mask, bit)
  {
    if InSet(mask, bit) {
      SomeBit(mask & bit);
      var k :| Bit(mask & bit, k);
      BitOfBoth(mask, bit, k);
    } else if k :| Bit(mask, k) && Bit(bit, k) {
      BitOfBoth(mask, bit, k);
    }
  }

  /** The mask of every set admits every queue that has a bit. */
  lemma AnyQueueMask(bit: bv32)
    ensures ShareBit(0xffff_ffff, bit) <==> bit != 0
  {
    InSetSharesBit(0xffff_ffff, bit);
  }

  /** The queue belongs to one of the sets of the mask. */
  predicate Admits<K, E>(s: State<K, E>, mask: bv32, k: K) {
    k in s.queues && InSet(mask, s.queues[k].bit)
  }

  function IndexOf<K(==)>(list: seq<K>, k: K): (i: nat)
    ensures i <= |list| && (i < |list| ==> list[i] == k)
    ensures forall j :: 0 <= j < i ==> list[j] != k
    ensures i == |list| <==> k !in list
  {
    if list == [] || list[0] == k then 0 else 1 + IndexOf(list[1..], k)
  }

  /** List_Remove. */
  function Without<K(==)>(list: seq<K>, k: K): seq<K> {
    var i := IndexOf(list, k);
    if i < |list| then list[..i] + list[i + 1..] else list
  }

  /** Dev_QueueCreate. */
  function Create<K, E>(s: State<K, E>, k: K, bit: bv32, fifo: bool): State<K, E> {
    s.(queues := s.queues[k := Queue(bit, fifo, [], [], [])])
  }

  /** Dev_QueueDestroy. */
  function Destroy<K, E>(s: State<K, E>, k: K): State<K, E> {
    if HasWork(s, k) then s else s.(queues := s.queues - {k})
  }

  /** The queue's list after its insert procedure: the element goes to the rear, or wherever
      a procedure of the driver's own puts it. */
  function Placed<E>(elements: seq<E>, fifo: bool, e: E, position: nat): seq<E> {
    if fifo || position > |elements| then elements + [e]
    else elements[..position] + [e] + elements[position..]
  }

  lemma PlacedAt<E>(elements: seq<E>, fifo: bool, e: E, position: nat)
    ensures var placed := Placed(elements, fifo, e, position);
            var at := if fifo || position > |elements| then |elements| else position;
            |placed| == |elements| + 1 && placed[at] == e && placed[..at] + placed[at + 1..] == elements
  {
    var at := if fifo || position > |elements| then |elements| else position;
    var placed := Placed(elements, fifo, e, position);
    assert placed[..at] == elements[..at] && placed[at + 1..] == elements[at..];
  }

  /** Dev_QueueInsert. `taken` is the controller's answer when the queue was empty. */
  function Insert<K, E>(s: State<K, E>, k: K, e: E, taken: bool, position: nat): State<K, E>
    requires k in s.queues
  {
    var q := s.queues[k];
    if q.elements == [] && taken then
      s.(queues := s.queues[k := q.(inserted := q.inserted + [e], left := q.left + [e])])
    else
      var q' := q.(elements := Placed(q.elements, q.fifo, e, position), inserted := q.inserted + [e]);
      State(if q.elements == [] && q.bit != 0 then s.ready + [k] else s.ready, s.queues[k := q'])
  }

  /** Dev_QueueGetNext. */
  function GetNext<K, E>(s: State<K, E>, k: K): (r: (Option<E>, State<K, E>))
    requires k in s.queues
  {
    var q := s.queues[k];
    if q.elements == [] then (None, s)
    else
      var e := q.elements[0];
      var q' := q.(elements := q.elements[1..], left := q.left + [e]);
      var ready := if q.bit == 0 then s.ready
                   else if q'.elements == [] then Without(s.ready, k)
                   else Without(s.ready, k) + [k];
      (Some(e), State(ready, s.queues[k := q']))
  }

  /** The first queue of the ready list that the mask admits. */
  function Choose<K, E>(s: State<K, E>, mask: bv32, i: nat): (j: nat)
    requires i <= |s.ready|
    ensures i <= j <= |s.ready| && (j < |s.ready| ==> Admits(s, mask, s.ready[j]))
    ensures forall x :: i <= x < j ==> !Admits(s, mask, s.ready[x])
    decreases |s.ready| - i
  {
    if i == |s.ready| || Admits(s, mask, s.ready[i]) then i else Choose(s, mask, i + 1)
  }

  /** Dev_QueueGetNextFromSet: the element, and the queue it came from. */
  function GetNextFromSet<K, E>(s: State<K, E>, mask: bv32): (r: (Option<(K, E)>, State<K, E>))
  {
    var j := Choose(s, mask, 0);
    if j == |s.ready| then (None, s)
    else
      var (e, s') := GetNext(s, s.ready[j]);
      (if e == None then None else Some((s.ready[j], e.value)), s')
  }

  // ------------------------------------------------------------------ runs

  datatype Event<K, E> =
    | DoCreate(k: K, bit: bv32, fifo: bool)
    | DoDestroy(k: K)
    | DoInsert(k: K, e: E, taken: bool, position: nat)
    | DoGetNext(k: K)
    | DoGetNextFromSet(mask: bv32)

  /** One call; calls on queues that do not exist, and creating one that does, do not happen. */
  function Step<K, E>(s: State<K, E>, event: Event<K, E>): State<K, E> {
    match event
    case DoCreate(k, bit, fifo) => if k in s.queues then s else Create(s, k, bit, fifo)
    case DoDestroy(k) => Destroy(s, k)
    case DoInsert(k, e, taken, position) => if k in s.queues then Insert(s, k, e, taken, position) else s
    case DoGetNext(k) => if k in s.queues then GetNext(s, k).1 else s
    case DoGetNextFromSet(mask) => GetNextFromSet(s, mask).1
  }

  function Run<K, E>(s: State<K, E>, events: seq<Event<K, E>>): State<K, E>
    decreases |events|
  {
    if events == [] then s else Run(Step(s, events[0]), events[1..])
  }

  /** Making a queue adds one that is empty and has the set bit and the order it was made with; freeing
      one takes it away exactly when nothing waits in it. Every other queue stays as it is. */
  lemma MadeAndFreed<K, E>(s: State<K, E>, k: K, bit: bv32, fifo: bool)
    ensures var made := Step(s, DoCreate(k, bit, fifo));
            && k in made.queues && (k !in s.queues ==>
               var q := made.queues[k];
               q.bit == bit && q.fifo == fifo && q.elements == [] && q.inserted == [] && q.left == [])
            && made.ready == s.ready && made.queues - {k} == s.queues - {k}
    ensures var freed := Step(s, DoDestroy(k));
            && (k in freed.queues <==> k in s.queues && s.queues[k].elements != [])
            && (k in freed.queues ==> freed.queues[k] == s.queues[k])
            && freed.ready == s.ready && freed.queues - {k} == s.queues - {k}
  {
    assert Step(s, DoCreate(k, bit, fifo)).queues - {k} == s.queues - {k};
    assert Step(s, DoDestroy(k)).queues - {k} == s.queues - {k};
  }

  /** What an insertion does: the element goes to the controller, and nothing else changes, exactly when
      the queue was empty and the controller takes it. Otherwise it waits, at the rear or at the place
      of the driver's choice, with the others in their order. */
  lemma InsertWaitsOrLeaves<K, E>(s: State<K, E>, k: K, e: E, taken: bool, position: nat)
    requires k in s.queues
    ensures var s' := Step(s, DoInsert(k, e, taken, position));
            var q, q' := s.queues[k], s'.queues[k];
            && q'.inserted == q.inserted + [e] && q'.bit == q.bit && q'.fifo == q.fifo
            && s'.queues - {k} == s.queues - {k} && s'.queues.Keys == s.queues.Keys
            && (if q.elements == [] && taken then
                  q'.left == q.left + [e] && q'.elements == [] && s'.ready == s.ready
                else
                  && q'.left == q.left && |q'.elements| == |q.elements| + 1
                  && var at := if q.fifo || position > |q.elements| then |q.elements| else position;
                     q'.elements[at] == e && q'.elements[..at] + q'.elements[at + 1..] == q.elements)
  {
    var s', q := Step(s, DoInsert(k, e, taken, position)), s.queues[k];
    assert s'.queues - {k} == s.queues - {k};
    if q.elements != [] || !taken {
      PlacedAt(q.elements, q.fifo, e, position);
    }
  }

  // ------------------------------------------------------------------ the ready list

  ghost predicate Distinct<K>(list: seq<K>) {
    forall i, j :: 0 <= i < j < |list| ==> list[i] != list[j]
  }

  /** A queue is on the ready list once if it has work and may be in a set, else not at all;
      what has left a queue, and what waits in it, are what was inserted, in order when the
      queue is first-in first-out. */
  ghost predicate Inv<K, E>(s: State<K, E>) {
    ReadyInv(s) && Conserved(s)
  }

  ghost predicate ReadyInv<K, E>(s: State<K, E>) {
    && Distinct(s.ready)
    && (forall i :: 0 <= i < |s.ready| ==> s.ready[i] in s.queues)
    && (forall k :: k in s.queues ==> (k in s.ready <==> s.queues[k].bit != 0 && s.queues[k].elements != []))
  }

  ghost predicate Conserved<K, E>(s: State<K, E>) {
    forall k :: k in s.queues ==> Conserves(s.queues[k])
  }

  ghost predicate Conserves<E>(q: Queue<E>) {
    && multiset(q.inserted) == multiset(q.left) + multiset(q.elements)
    && (q.fifo ==> q.inserted == q.left + q.elements)
  }

  lemma IndexIsOnly<K>(list: seq<K>, j: nat)
    requires Distinct(list) && j < |list|
    ensures IndexOf(list, list[j]) == j
  {
  }

  /** Where the element at j lies once the element at i is gone. */
  lemma RemovedAt<K>(list: seq<K>, i: nat, j: nat)
    requires i < |list| && j < |list| && i != j
    ensures var j' := if i < j then j - 1 else j;
            j' < |list| - 1 && (list[..i] + list[i + 1..])[j'] == list[j]
  {
  }

  lemma WithoutDistinct<K>(list: seq<K>, k: K)
    requires Distinct(list)
    ensures Distinct(Without(list, k)) && k !in Without(list, k)
  {
    var i, w := IndexOf(list, k), Without(list, k);
    forall a, b | 0 <= a < b < |w|
      ensures w[a] != w[b]
    {
      assert w[a] == list[if a < i then a else a + 1] && w[b] == list[if b < i then b else b + 1];
    }
    forall a | 0 <= a < |w|
      ensures w[a] != k
    {
      assert w[a] == list[if a < i then a else a + 1];
    }
  }

  lemma WithoutIndex<K>(list: seq<K>, k: K, x: K)
    requires Distinct(list) && x in list && x != k
    ensures x in Without(list, k)
    ensures IndexOf(Without(list, k), x) == IndexOf(list, x) - (if IndexOf(list, k) < IndexOf(list, x) then 1 else 0)
  {
    var i, j := IndexOf(list, k), IndexOf(list, x);
    var j' := if i < j then j - 1 else j;
    if i < |list| {
      RemovedAt(list, i, j);
    }
    WithoutDistinct(list, k);
    IndexIsOnly(Without(list, k), j');
  }

  lemma WithoutIs<K>(list: seq<K>, k: K)
    requires Distinct(list)
    ensures Distinct(Without(list, k)) && k !in Without(list, k)
    ensures forall x :: x in Without(list, k) <==> x in list && x != k
  {
    WithoutDistinct(list, k);
    forall x | x in list && x != k
      ensures x in Without(list, k)
    {
      WithoutIndex(list, k, x);
    }
  }

  lemma IndexAppend<K>(list: seq<K>, k: K, x: K)
    requires x in list
    ensures IndexOf(list + [k], x) == IndexOf(list, x)
  {
    var m := IndexOf(list + [k], x);
    assert (list + [k])[IndexOf(list, x)] == x;
    assert (list + [k])[m] == x && (m < |list| ==> list[m] == x);
  }

  lemma AppendDistinct<K>(list: seq<K>, k: K)
    requires Distinct(list) && k !in list
    ensures Distinct(list + [k])
    ensures forall x :: x in list + [k] <==> x in list || x == k
  {
  }

  lemma InsertConserves<E>(q: Queue<E>, e: E, position: nat)
    requires Conserves(q)
    ensures Conserves(q.(elements := Placed(q.elements, q.fifo, e, position), inserted := q.inserted + [e]))
  {
    if q.fifo || position > |q.elements| {
      assert q.left + (q.elements + [e]) == q.left + q.elements + [e];
    } else {
      assert q.elements == q.elements[..position] + q.elements[position..];
    }
  }

  lemma RemoveConserves<E>(q: Queue<E>)
    requires Conserves(q) && q.elements != []
    ensures Conserves(q.(elements := q.elements[1..], left := q.left + [q.elements[0]]))
  {
    assert q.elements == [q.elements[0]] + q.elements[1..];
    if q.fifo {
      assert q.left + [q.elements[0]] + q.elements[1..] == q.inserted;
    }
  }

  lemma GetNextInv<K, E>(s: State<K, E>, k: K)
    requires Inv(s) && k in s.queues
    ensures Inv(GetNext(s, k).1)
  {
    GetNextReady(s, k);
    if s.queues[k].elements != [] {
      RemoveConserves(s.queues[k]);
    }
  }

  lemma GetNextReady<K, E>(s: State<K, E>, k: K)
    requires ReadyInv(s) && k in s.queues
    ensures ReadyInv(GetNext(s, k).1)
  {
    if s.queues[k].elements != [] && s.queues[k].bit != 0 {
      WithoutIs(s.ready, k);
      AppendDistinct(Without(s.ready, k), k);
    }
  }

  lemma InsertReady<K, E>(s: State<K, E>, k: K, e: E, taken: bool, position: nat)
    requires ReadyInv(s) && k in s.queues
    ensures ReadyInv(Insert(s, k, e, taken, position))
  {
    var q := s.queues[k];
    if q.elements == [] && !taken && q.bit != 0 {
      AppendDistinct(s.ready, k);
    }
  }

  lemma TakenConserves<E>(q: Queue<E>, e: E)
    requires Conserves(q) && q.elements == []
    ensures Conserves(q.(inserted := q.inserted + [e], left := q.left + [e]))
  {
    if q.fifo {
      assert q.inserted + [e] == q.left + [e] + q.elements;
    }
  }

  lemma InsertInv<K, E>(s: State<K, E>, k: K, e: E, taken: bool, position: nat)
    requires Inv(s) && k in s.queues
    ensures Inv(Insert(s, k, e, taken, position))
  {
    InsertReady(s, k, e, taken, position);
    var q := s.queues[k];
    if q.elements == [] && taken {
      TakenConserves(q, e);
    } else {
      InsertConserves(q, e, position);
    }
  }

  /** Every call keeps the invariant. */
  lemma StepInv<K, E>(s: State<K, E>, event: Event<K, E>)
    requires Inv(s)
    ensures Inv(Step(s, event))
  {
    match event
    case DoCreate(k, bit, fifo) =>
    case DoDestroy(k) =>
    case DoInsert(k, e, taken, position) =>
      if k in s.queues { InsertInv(s, k, e, taken, position); }
    case DoGetNext(k) =>
      if k in s.queues { GetNextInv(s, k); }
    case DoGetNextFromSet(mask) =>
      var j := Choose(s, mask, 0);
      if j < |s.ready| { GetNextInv(s, s.ready[j]); }
  }

  lemma {:induction false} RunInv<K, E>(s: State<K, E>, events: seq<Event<K, E>>)
    requires Inv(s)
    ensures Inv(Run(s, events))
    decreases |events|
  {
    if events != [] {
      StepInv(s, events[0]);
      RunInv(Step(s, events[0]), events[1..]);
    }
  }

  /** Taking from a set finds nothing exactly when no queue that shares a bit with the mask has work. */
  lemma NoneFound<K, E>(s: State<K, E>, mask: bv32)
    requires Inv(s)
    ensures GetNextFromSet(s, mask).0 == None <==>
            forall x :: x in s.queues && s.queues[x].elements != [] ==> !ShareBit(mask, s.queues[x].bit)
  {
    forall x | x in s.queues
      ensures Admits(s, mask, x) <==> ShareBit(mask, s.queues[x].bit)
    {
      InSetSharesBit(mask, s.queues[x].bit);
    }
    var j := Choose(s, mask, 0);
    if j == |s.ready| {
      forall x | x in s.queues && HasWork(s, x)
        ensures !Admits(s, mask, x)
      {
        assert Admits(s, mask, x) ==> s.queues[x].bit != 0;
        assert x in s.ready ==> s.ready[IndexOf(s.ready, x)] == x;
      }
    } else {
      assert HasWork(s, s.ready[j]);
    }
  }

  /** In every run from an empty controller: the elements that left a first-in first-out queue
      are a prefix of those inserted; a destroyed queue is on no list; and taking from a set
      finds nothing exactly when no queue of the set has work. */
  lemma ReachableQueues<K, E>(events: seq<Event<K, E>>, mask: bv32, k: K)
    ensures var s := Run(State([], map[]), events);
            && (k in s.queues && s.queues[k].fifo ==> s.queues[k].left <= s.queues[k].inserted)
            && (k !in Destroy(s, k).queues ==> k !in Destroy(s, k).ready)
            && (GetNextFromSet(s, mask).0 == None <==>
                forall x :: x in s.queues && s.queues[x].elements != [] ==> !ShareBit(mask, s.queues[x].bit))
            && (GetNextFromSet(s, 0xffff_ffff).0 == None <==>
                forall x :: x in s.queues && s.queues[x].bit != 0 ==> s.queues[x].elements == [])
  {
    var start: State<K, E> := State([], map[]);
    RunInv(start, events);
    var s := Run(start, events);
    StepInv(s, DoDestroy(k));
    NoneFound(s, mask);
    NoneFound(s, 0xffff_ffff);
    forall x | x in s.queues
      ensures ShareBit(0xffff_ffff, s.queues[x].bit) <==> s.queues[x].bit != 0
    {
      AnyQueueMask(s.queues[x].bit);
    }
  }

  // ------------------------------------------------------------------ bounded overtaking

  ghost predicate Ready<K, E>(s: State<K, E>, k: K) {
    k in s.ready
  }

  /** Where a queue stands in the ready list. */
  function Position<K, E>(s: State<K, E>, k: K): nat {
    IndexOf(s.ready, k)
  }

  /** The call takes an element from queue k. */
  predicate Serves<K, E>(s: State<K, E>, event: Event<K, E>, k: K) {
    match event
    case DoGetNext(x) => x == k && HasWork(s, k)
    case DoGetNextFromSet(mask) => Choose(s, mask, 0) < |s.ready| && s.ready[Choose(s, mask, 0)] == k
    case _ => false
  }

  /** The call takes from a set that k is in. */
  ghost predicate Admitting<K, E>(s: State<K, E>, event: Event<K, E>, k: K) {
    event.DoGetNextFromSet? && k in s.queues && ShareBit(event.mask, s.queues[k].bit)
  }

  lemma GetOtherMovesUp<K, E>(s: State<K, E>, x: K, k: K)
    requires Inv(s) && Ready(s, k) && x in s.queues && x != k
    ensures var s' := GetNext(s, x).1;
            && Ready(s', k) && s'.queues[k] == s.queues[k]
            && Position(s', k) == Position(s, k) -
               (if HasWork(s, x) && s.queues[x].bit != 0 && Position(s, x) < Position(s, k) then 1 else 0)
  {
    if HasWork(s, x) && s.queues[x].bit != 0 {
      WithoutIs(s.ready, x);
      WithoutIndex(s.ready, x, k);
      IndexAppend(Without(s.ready, x), x, k);
    }
  }

  lemma SetMovesUp<K, E>(s: State<K, E>, mask: bv32, k: K)
    requires Inv(s) && Ready(s, k) && !Serves(s, DoGetNextFromSet(mask), k)
    ensures var s' := GetNextFromSet(s, mask).1;
            && Ready(s', k) && s'.queues[k] == s.queues[k] && Position(s', k) <= Position(s, k)
            && (Admits(s, mask, k) ==> Position(s', k) < Position(s, k))
  {
    var j := Choose(s, mask, 0);
    assert s.ready[Position(s, k)] == k;
    if j < |s.ready| {
      GetOtherMovesUp(s, s.ready[j], k);
      assert Position(s, s.ready[j]) == j;
    }
  }

  lemma InsertKeepsPlace<K, E>(s: State<K, E>, x: K, e: E, taken: bool, position: nat, k: K)
    requires Inv(s) && Ready(s, k) && x in s.queues
    ensures var s' := Insert(s, x, e, taken, position);
            Ready(s', k) && s'.queues[k].bit == s.queues[k].bit && Position(s', k) == Position(s, k)
  {
    IndexAppend(s.ready, x, k);
  }

  /** A ready queue that is not served keeps its bit and never falls back; every call that
      could have chosen it moves it up. */
  lemma NotServedMovesUp<K, E>(s: State<K, E>, event: Event<K, E>, k: K)
    requires Inv(s) && Ready(s, k) && !Serves(s, event, k)
    ensures var s' := Step(s, event);
            && Ready(s', k) && s'.queues[k].bit == s.queues[k].bit
            && Position(s', k) <= Position(s, k)
            && (Admitting(s, event, k) ==> Position(s', k) < Position(s, k))
  {
    match event
    case DoCreate(x, _, _) =>
    case DoDestroy(x) =>
    case DoInsert(x, e, taken, position) =>
      if x in s.queues { InsertKeepsPlace(s, x, e, taken, position, k); }
    case DoGetNext(x) =>
      if x in s.queues && x != k { GetOtherMovesUp(s, x, k); }
    case DoGetNextFromSet(mask) =>
      SetMovesUp(s, mask, k);
      InSetSharesBit(mask, s.queues[k].bit);
  }

  /** How many of the calls, made one after the other, take from a set that k is in. */
  ghost function AdmittingCalls<K, E>(s: State<K, E>, events: seq<Event<K, E>>, k: K): nat
    decreases |events|
  {
    if events == [] then 0
    else (if Admitting(s, events[0], k) then 1 else 0) + AdmittingCalls(Step(s, events[0]), events[1..], k)
  }

  /** The call hands the head of the queue to the controller, and nothing else of it. */
  ghost predicate HeadLeaves<K, E>(s: State<K, E>, event: Event<K, E>, k: K) {
    && HasWork(s, k) && k in Step(s, event).queues
    && var q, q' := s.queues[k], Step(s, event).queues[k];
       q'.left == q.left + [q.elements[0]] && q'.elements == q.elements[1..]
  }

  /** Being served is leaving. */
  lemma ServedLeaves<K, E>(s: State<K, E>, event: Event<K, E>, k: K)
    requires Inv(s) && Serves(s, event, k)
    ensures HeadLeaves(s, event, k)
  {
  }

  /** What is taken is the head: of the queue itself, and from a set of the first queue in the ready list
      that has a bit of the mask. */
  lemma HeadIsTaken<K, E>(s: State<K, E>, mask: bv32, k: K)
    requires Inv(s) && k in s.queues
    ensures GetNext(s, k).0 == if s.queues[k].elements == [] then None else Some(s.queues[k].elements[0])
    ensures match GetNextFromSet(s, mask).0
            case None => true
            case Some((x, e)) =>
              && HeadLeaves(s, DoGetNextFromSet(mask), x) && e == s.queues[x].elements[0]
              && exists i :: 0 <= i < |s.ready| && s.ready[i] == x && ShareBit(mask, s.queues[x].bit)
                   && forall j :: 0 <= j < i ==> !ShareBit(mask, s.queues[s.ready[j]].bit)
  {
    forall x | x in s.queues
      ensures Admits(s, mask, x) <==> ShareBit(mask, s.queues[x].bit)
    {
      InSetSharesBit(mask, s.queues[x].bit);
    }
    if Choose(s, mask, 0) < |s.ready| {
      ServedLeaves(s, DoGetNextFromSet(mask), s.ready[Choose(s, mask, 0)]);
    }
  }

  /** Bounded overtaking: whatever else happens, a ready queue has been served once as many
      calls could have chosen it as it had queues ahead of it, plus one. */
  lemma {:induction false} ServedWithin<K, E>(s: State<K, E>, events: seq<Event<K, E>>, k: K) returns (n: nat)
    requires Inv(s) && Ready(s, k) && AdmittingCalls(s, events, k) > Position(s, k)
    ensures n < |events| && Serves(Run(s, events[..n]), events[n], k)
    ensures HeadLeaves(Run(s, events[..n]), events[n], k)
    ensures AdmittingCalls(s, events[..n], k) <= Position(s, k)
    decreases |events|
  {
    if Serves(s, events[0], k) {
      n := 0;
      ServedLeaves(s, events[0], k);
    } else {
      NotServedMovesUp(s, events[0], k);
      StepInv(s, events[0]);
      var m := ServedWithin(Step(s, events[0]), events[1..], k);
      n := m + 1;
      assert events[..n][0] == events[0] && events[..n][1..] == events[1..][..m];
    }
  }

}
