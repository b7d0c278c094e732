/**
 The compare-and-swap queue, one step of one thread at a time. Each step is one read of one
 shared word, one compare-and-swap of a pointer with its count, or purely local work; the two
 words of a pointer are read one at a time, in either order. Nodes are never reused (`_FREE_`
 undefined). What a thread has read is only ever out of date in ways that its later checks find.
 */
module CasSteps {
  import opened Options
  import opened FifoSpec

  const NULL := -1

  datatype Ptr = Ptr(count: int, ptr: int)

  datatype Node = Node(val: int, next: Ptr)

  /** `chain` is auxiliary: every node ever linked, oldest first. No step reads it. */
  datatype Queue = Queue(head: Ptr, tail: Ptr, nodes: seq<Node>, chain: seq<int>)

  /** The words of a pointer read so far; `at` is auxiliary, the list index of ptr when read. */
  datatype Part = Part(count: Option<int>, ptr: Option<int>, at: int)

  /** A local copy of head or tail. */
  datatype Copy = Copy(count: int, ptr: int, at: int)

  /** Auxiliary: the queue's progress when the call began, and the rounds of its loop so far. */
  datatype Pace = Pace(begun: int, rounds: int)

  datatype Thread =
    | Outside
    | EnqTail(node: int, part: Part, pace: Pace)                             // tail = q->tail
    | EnqNext(node: int, tail: Copy, part: Part, pace: Pace)                 // next = tail.ptr->next
    | EnqCheck(node: int, tail: Copy, next: Ptr, counted: bool, pace: Pace)  // is tail still q->tail
    | EnqAct(node: int, tail: Copy, next: Ptr, pace: Pace)
    | EnqSwing(node: int, tail: Copy)                                        // the last cas
    | EnqDone
    | DeqHead(part: Part, pace: Pace)
    | DeqTail(head: Copy, part: Part, pace: Pace)
    | DeqNext(head: Copy, tail: Copy, part: Part, empty: bool, pace: Pace)   // empty: auxiliary
    | DeqCheck(head: Copy, tail: Copy, next: Ptr, empty: bool, counted: bool, pace: Pace)
    | DeqAct(head: Copy, tail: Copy, next: Ptr, empty: bool, pace: Pace)
    | DeqTake(head: Copy, next: Ptr, val: int, pace: Pace)                   // cas of q->head
    | DeqDone(result: Option<int>, empty: bool)

  /** What the scheduler picks: a call to begin, or which word to read next. */
  datatype Choice = CallEnq(v: int) | CallDeq | Count | Pointer

  datatype Result = Result(q: Queue, t: Thread, e: Event)

  const NOTHING := Part(None, None, 0)

  /** Successful compare-and-swaps so far, up to a constant. */
  function Progress(q: Queue): int { |q.chain| + q.tail.count + q.head.count }

  function Next(q: Queue, p: int): Ptr {
    if 0 <= p < |q.nodes| then q.nodes[p].next else Ptr(0, NULL)
  }

  function Val(q: Queue, p: int): int {
    if 0 <= p < |q.nodes| then q.nodes[p].val else 0
  }

  function SetNext(q: Queue, p: int, x: Ptr): Queue {
    if 0 <= p < |q.nodes| then q.(nodes := q.nodes[p := q.nodes[p].(next := x)]) else q
  }

  function Again(p: Pace): Pace { p.(rounds := p.rounds + 1) }

  /** Read one more word of the pointer x, whose target is node `at` of the list. */
  function ReadWord(part: Part, x: Ptr, at: int, c: Choice): Part {
    match c
    case Count => if part.count == None then part.(count := Some(x.count)) else part
    case Pointer => if part.ptr == None then part.(ptr := Some(x.ptr), at := at) else part
    case _ => part
  }

  predicate Both(part: Part) { part.count.Some? && part.ptr.Some? }

  function Whole(part: Part): Copy
    requires Both(part)
  {
    Copy(part.count.value, part.ptr.value, part.at)
  }

  predicate Same(c: Copy, p: Ptr) { c.count == p.count && c.ptr == p.ptr }

  // ---------------------------------------------------------------------------------------
  // One step

  function EnqStep(q: Queue, t: Thread, c: Choice): Result {
    match t
    case EnqTail(n, part, pace) =>
      var r := ReadWord(part, q.tail, q.tail.count, c);
      Result(q, if Both(r) then EnqNext(n, Whole(r), NOTHING, pace) else EnqTail(n, r, pace), Silent)
    case EnqNext(n, tail, part, pace) =>
      var r := ReadWord(part, Next(q, tail.ptr), 0, c);
      Result(q, if Both(r) then EnqCheck(n, tail, Ptr(r.count.value, r.ptr.value), false, pace)
                else EnqNext(n, tail, r, pace), Silent)
    case EnqCheck(n, tail, next, counted, pace) =>
      if !counted then
        Result(q, if tail.count == q.tail.count then EnqCheck(n, tail, next, true, pace) else EnqTail(n, NOTHING, Again(pace)), Silent)
      else
        Result(q, if tail.ptr == q.tail.ptr then EnqAct(n, tail, next, pace) else EnqTail(n, NOTHING, Again(pace)), Silent)
    case EnqAct(n, tail, next, pace) =>
      if next.ptr == NULL then
        if Next(q, tail.ptr) == next then
          Result(SetNext(q, tail.ptr, Ptr(next.count + 1, n)).(chain := q.chain + [n]), EnqSwing(n, tail), Enqueue(Val(q, n)))
        else Result(q, EnqTail(n, NOTHING, Again(pace)), Silent)
      else
        Result(if Same(tail, q.tail) then q.(tail := Ptr(tail.count + 1, next.ptr)) else q,
               EnqTail(n, NOTHING, Again(pace)), Silent)
    case EnqSwing(n, tail) =>
      Result(if Same(tail, q.tail) then q.(tail := Ptr(tail.count + 1, n)) else q, EnqDone, Silent)
    case _ => Result(q, t, Silent)
  }

  function DeqStep(q: Queue, t: Thread, c: Choice): Result {
    match t
    case DeqHead(part, pace) =>
      var r := ReadWord(part, q.head, q.head.count, c);
      Result(q, if Both(r) then DeqTail(Whole(r), NOTHING, pace) else DeqHead(r, pace), Silent)
    case DeqTail(head, part, pace) =>
      var r := ReadWord(part, q.tail, q.tail.count, c);
      Result(q, if Both(r) then DeqNext(head, Whole(r), NOTHING, false, pace) else DeqTail(head, r, pace), Silent)
    case DeqNext(head, tail, part, empty, pace) =>
      var r := ReadWord(part, Next(q, head.ptr), 0, c);
      var e := if c == Pointer && part.ptr == None then Contents(q) == [] else empty;
      Result(q, if Both(r) then DeqCheck(head, tail, Ptr(r.count.value, r.ptr.value), e, false, pace)
                else DeqNext(head, tail, r, e, pace), Silent)
    case DeqCheck(head, tail, next, empty, counted, pace) =>
      if !counted then
        Result(q, if head.count == q.head.count then DeqCheck(head, tail, next, empty, true, pace) else DeqHead(NOTHING, Again(pace)), Silent)
      else
        Result(q, if head.ptr == q.head.ptr then DeqAct(head, tail, next, empty, pace) else DeqHead(NOTHING, Again(pace)), Silent)
    case DeqAct(head, tail, next, empty, pace) =>
      if head.ptr == tail.ptr then
        if next.ptr == NULL then Result(q, DeqDone(None, empty), Silent)
        else
          Result(if Same(tail, q.tail) then q.(tail := Ptr(head.count + 1, next.ptr)) else q,
                 DeqHead(NOTHING, Again(pace)), Silent)
      else Result(q, DeqTake(head, next, Val(q, next.ptr), pace), Silent)
    case DeqTake(head, next, val, pace) =>
      if Same(head, q.head) then
        Result(q.(head := Ptr(head.count + 1, next.ptr)), DeqDone(Some(val), false), Dequeue(val))
      else Result(q, DeqHead(NOTHING, Again(pace)), Silent)
    case _ => Result(q, t, Silent)
  }

  function Step(q: Queue, t: Thread, c: Choice): Result {
    match t
    case Outside =>
      (match c
       case CallEnq(v) =>
         Result(q.(nodes := q.nodes + [Node(v, Ptr(0, NULL))]), EnqTail(|q.nodes|, NOTHING, Pace(Progress(q), 0)), Silent)
       case CallDeq => Result(q, DeqHead(NOTHING, Pace(Progress(q), 0)), Silent)
       case _ => Result(q, t, Silent))
    case EnqDone => Result(q, Outside, Silent)
    case DeqDone(_, _) => Result(q, Outside, Silent)
    case EnqTail(_, _, _) => EnqStep(q, t, c)
    case EnqNext(_, _, _, _) => EnqStep(q, t, c)
    case EnqCheck(_, _, _, _, _) => EnqStep(q, t, c)
    case EnqAct(_, _, _, _) => EnqStep(q, t, c)
    case EnqSwing(_, _) => EnqStep(q, t, c)
    case _ => DeqStep(q, t, c)
  }

  // ---------------------------------------------------------------------------------------
  // The abstract queue and the invariant

  /** The values after the dummy that head points to. */
  function Contents(q: Queue): seq<int> {
    if 0 <= q.head.count < |q.chain| then seq(|q.chain| - q.head.count - 1, i => Front(q, i)) else []
  }

  function Front(q: Queue, i: int): int {
    if 0 <= q.head.count + 1 + i < |q.chain| then Val(q, q.chain[q.head.count + 1 + i]) else 0
  }

  /** Node p is the i-th of the list. */
  ghost predicate At(q: Queue, p: int, i: int) {
    0 <= i < |q.chain| && q.chain[i] == p
  }

  ghost predicate Fresh(q: Queue, n: int) {
    0 <= n < |q.nodes| && n !in q.chain && Next(q, n) == Ptr(0, NULL)
  }

  /** Both counts are list indices; tail is not behind head and at most one behind the end. */
  ghost predicate Inv(q: Queue) {
    && At(q, q.head.ptr, q.head.count) && At(q, q.tail.ptr, q.tail.count)
    && q.head.count <= q.tail.count && |q.chain| <= q.tail.count + 2
    && (forall i | 0 <= i < |q.chain| :: 0 <= q.chain[i] < |q.nodes|)
    && (forall i, j | 0 <= i < j < |q.chain| :: q.chain[i] != q.chain[j])
    && (forall i | 0 <= i < |q.chain| :: LinkedAt(q, i))
  }

  /** The next field of the i-th node. */
  ghost predicate LinkedAt(q: Queue, i: int)
    requires 0 <= i < |q.chain|
  {
    Next(q, q.chain[i]) == if i + 1 < |q.chain| then Ptr(1, q.chain[i + 1]) else Ptr(0, NULL)
  }

  /** What a thread knows of words of a pointer that is now x (at index x.count). */
  ghost predicate PartOf(q: Queue, part: Part, x: Ptr, pace: Pace) {
    && (part.count.Some? ==> part.count.value <= x.count && Paid(q, pace, x.count - part.count.value))
    && (part.ptr.Some? ==> At(q, part.ptr.value, part.at) && part.at <= x.count && Paid(q, pace, x.count - part.at))
  }

  ghost predicate CopyOf(q: Queue, c: Copy, x: Ptr, pace: Pace) {
    && c.count <= x.count && Paid(q, pace, x.count - c.count)
    && At(q, c.ptr, c.at) && c.at <= x.count && Paid(q, pace, x.count - c.at)
  }

  /** The rounds so far, and `more` steps since the present one began, were all progress. */
  ghost predicate Paid(q: Queue, pace: Pace, more: int) {
    pace.begun + pace.rounds + more <= Progress(q)
  }

  /** What a thread knows of the words of the next field of list node i. */
  ghost predicate NextOf(q: Queue, count: Option<int>, ptr: Option<int>, i: int, pace: Pace) {
    && (count.Some? ==> count.value == 0 || (count.value == 1 && i + 1 < |q.chain|))
    && (ptr.Some? ==> if ptr.value == NULL then Paid(q, pace, |q.chain| - i - 1) else At(q, ptr.value, i + 1))
  }

  /** What a thread at each point knows of the queue. */
  ghost predicate Knowledge(q: Queue, t: Thread) {
    match t
    case EnqTail(n, part, pace) => Fresh(q, n) && PartOf(q, part, q.tail, pace) && Paid(q, pace, 0)
    case EnqNext(n, tail, part, pace) =>
      Fresh(q, n) && CopyOf(q, tail, q.tail, pace) && NextOf(q, part.count, part.ptr, tail.at, pace)
    case EnqCheck(n, tail, next, counted, pace) =>
      && Fresh(q, n) && CopyOf(q, tail, q.tail, pace) && NextOf(q, Some(next.count), Some(next.ptr), tail.at, pace)
      && (counted ==> tail.at <= tail.count)
    case EnqAct(n, tail, next, pace) =>
      && Fresh(q, n) && CopyOf(q, tail, q.tail, pace) && NextOf(q, Some(next.count), Some(next.ptr), tail.at, pace)
      && tail.at == tail.count
    case EnqSwing(n, tail) => At(q, tail.ptr, tail.count) && At(q, n, tail.count + 1)
    case DeqHead(part, pace) => PartOf(q, part, q.head, pace) && Paid(q, pace, 0)
    case DeqTail(head, part, pace) =>
      CopyOf(q, head, q.head, pace) && PartOf(q, part, q.tail, pace) && (part.ptr.Some? ==> head.at <= part.at)
    case DeqNext(head, tail, part, empty, pace) => KnowsNext(q, head, tail, part.count, part.ptr, empty, pace)
    case DeqCheck(head, tail, next, empty, counted, pace) =>
      KnowsNext(q, head, tail, Some(next.count), Some(next.ptr), empty, pace) && (counted ==> head.at <= head.count)
    case DeqAct(head, tail, next, empty, pace) =>
      KnowsNext(q, head, tail, Some(next.count), Some(next.ptr), empty, pace) && head.at == head.count
    case DeqTake(head, next, val, pace) =>
      && CopyOf(q, head, q.head, pace) && head.at == head.count && head.at < q.tail.count
      && At(q, next.ptr, head.at + 1) && val == Val(q, next.ptr)
    case DeqDone(result, empty) => result == None ==> empty
    case _ => true
  }

  /** Knowledge as one fact: the comparison keeps the verifier from splitting it into cases. */
  ghost predicate Knows(q: Queue, t: Thread) {
    Knowledge(q, t) == true
  }

  ghost predicate KnowsNext(q: Queue, head: Copy, tail: Copy, count: Option<int>, ptr: Option<int>, empty: bool, pace: Pace) {
    && CopyOf(q, head, q.head, pace) && CopyOf(q, tail, q.tail, pace) && head.at <= tail.at
    && NextOf(q, count, ptr, head.at, pace)
    && (ptr.Some? && ptr.value == NULL ==> empty && tail.at == head.at)
  }

  // ---------------------------------------------------------------------------------------
  // How the queue may move

  /** The list only grows, the counts only rise, and values and links of list nodes stay. */
  ghost predicate Moves(q: Queue, r: Queue) {
    && |q.nodes| <= |r.nodes| && |q.chain| <= |r.chain|
    && (forall i | 0 <= i < |q.chain| :: r.chain[i] == q.chain[i])
    && q.head.count <= r.head.count && q.tail.count <= r.tail.count
    && (forall p | 0 <= p < |q.nodes| :: Val(r, p) == Val(q, p))
  }

  lemma StillPart(q: Queue, r: Queue, part: Part, x: Ptr, y: Ptr, pace: Pace)
    requires Moves(q, r) && PartOf(q, part, x, pace)
    requires (x == q.head && y == r.head) || (x == q.tail && y == r.tail)
    ensures PartOf(r, part, y, pace)
  {
  }

  lemma StillCopy(q: Queue, r: Queue, c: Copy, x: Ptr, y: Ptr, pace: Pace)
    requires Moves(q, r) && CopyOf(q, c, x, pace)
    requires (x == q.head && y == r.head) || (x == q.tail && y == r.tail)
    ensures CopyOf(r, c, y, pace)
  {
  }

  lemma StillNext(q: Queue, r: Queue, count: Option<int>, ptr: Option<int>, i: int, pace: Pace)
    requires Moves(q, r) && NextOf(q, count, ptr, i, pace)
    ensures NextOf(r, count, ptr, i, pace)
  {
  }

  /** The private node of a thread that has not linked it yet. */
  function Private(t: Thread): Option<int> {
    match t
    case EnqTail(n, _, _) => Some(n)
    case EnqNext(n, _, _, _) => Some(n)
    case EnqCheck(n, _, _, _, _) => Some(n)
    case EnqAct(n, _, _, _) => Some(n)
    case _ => None
  }

  /** What a thread knows survives the steps of the others. */
  lemma StillKnows(q: Queue, r: Queue, t: Thread)
    requires Inv(q) && Moves(q, r) && Knows(q, t)
    requires Private(t).Some? ==> Fresh(r, Private(t).value)
    ensures Knows(r, t)
  {
    match t {
      case EnqTail(n, part, pace) => StillPart(q, r, part, q.tail, r.tail, pace);
      case EnqNext(n, tail, part, pace) =>
        StillCopy(q, r, tail, q.tail, r.tail, pace);
        StillNext(q, r, part.count, part.ptr, tail.at, pace);
      case EnqCheck(n, tail, next, counted, pace) =>
        StillCopy(q, r, tail, q.tail, r.tail, pace);
        StillNext(q, r, Some(next.count), Some(next.ptr), tail.at, pace);
      case EnqAct(n, tail, next, pace) =>
        StillCopy(q, r, tail, q.tail, r.tail, pace);
        StillNext(q, r, Some(next.count), Some(next.ptr), tail.at, pace);
      case DeqHead(part, pace) => StillPart(q, r, part, q.head, r.head, pace);
      case DeqTail(head, part, pace) =>
        StillCopy(q, r, head, q.head, r.head, pace);
        StillPart(q, r, part, q.tail, r.tail, pace);
      case DeqNext(head, tail, part, empty, pace) =>
        StillCopy(q, r, head, q.head, r.head, pace);
        StillCopy(q, r, tail, q.tail, r.tail, pace);
        StillNext(q, r, part.count, part.ptr, head.at, pace);
      case DeqCheck(head, tail, next, empty, counted, pace) =>
        StillCopy(q, r, head, q.head, r.head, pace);
        StillCopy(q, r, tail, q.tail, r.tail, pace);
        StillNext(q, r, Some(next.count), Some(next.ptr), head.at, pace);
      case DeqAct(head, tail, next, empty, pace) =>
        StillCopy(q, r, head, q.head, r.head, pace);
        StillCopy(q, r, tail, q.tail, r.tail, pace);
        StillNext(q, r, Some(next.count), Some(next.ptr), head.at, pace);
      case DeqTake(head, next, val, pace) =>
        StillCopy(q, r, head, q.head, r.head, pace);
        assert 0 <= next.ptr < |q.nodes| by { assert At(q, next.ptr, head.at + 1); }
      case _ =>
    }
  }

  // ---------------------------------------------------------------------------------------
  // The four ways the queue moves

  /** What every step does: the invariant, the abstract queue, and the others' private nodes. */
  ghost predicate Effect(q: Queue, r: Queue, e: Event, mine: Option<int>) {
    && Inv(r) && Moves(q, r)
    && (forall n | Fresh(q, n) && mine != Some(n) :: Fresh(r, n))
    && Does(Contents(q), e, Contents(r))
  }

  lemma Stays(q: Queue, mine: Option<int>)
    requires Inv(q)
    ensures Effect(q, q, Silent, mine)
  {
  }

  /** create_node */
  lemma Allocates(q: Queue, v: int)
    requires Inv(q)
    ensures
      var r := q.(nodes := q.nodes + [Node(v, Ptr(0, NULL))]);
      Effect(q, r, Silent, None) && Fresh(r, |q.nodes|) && Val(r, |q.nodes|) == v
  {
    var r := q.(nodes := q.nodes + [Node(v, Ptr(0, NULL))]);
    forall p ensures Next(r, p) == Next(q, p) && (0 <= p < |q.nodes| ==> Val(r, p) == Val(q, p)) {}
    assert |q.nodes| !in q.chain;
    forall i | 0 <= i < |r.chain| ensures LinkedAt(r, i) {
      assert LinkedAt(q, i);
    }
    AllocatedContents(q, r);
  }

  lemma AllocatedContents(q: Queue, r: Queue)
    requires Inv(q) && r.head == q.head && r.chain == q.chain && forall p | 0 <= p < |q.nodes| :: Val(r, p) == Val(q, p)
    ensures Contents(r) == Contents(q)
  {
    forall i | 0 <= i < |Contents(q)| ensures Contents(r)[i] == Contents(q)[i] {
      assert q.chain[q.head.count + 1 + i] < |q.nodes|;
    }
  }

  /** The successful cas on the next field of the last node. */
  lemma Links(q: Queue, p: int, at: int, n: int)
    requires Inv(q) && At(q, p, at) && at + 1 == |q.chain| && at <= q.tail.count && Fresh(q, n)
    ensures
      var r := SetNext(q, p, Ptr(1, n)).(chain := q.chain + [n]);
      Effect(q, r, Enqueue(Val(q, n)), Some(n)) && At(r, n, at + 1) && Progress(r) == Progress(q) + 1
  {
    var r := SetNext(q, p, Ptr(1, n)).(chain := q.chain + [n]);
    forall x | x != p ensures Next(r, x) == Next(q, x) {}
    forall x ensures Val(r, x) == Val(q, x) {}
    assert n != p && q.chain[at] == p && LinkedAt(q, at);
    forall i | 0 <= i < |r.chain| ensures LinkedAt(r, i) {
      if i < at { assert LinkedAt(q, i); }
    }
    LinkedContents(q, r, n);
  }

  lemma LinkedContents(q: Queue, r: Queue, n: int)
    requires Inv(q) && r.chain == q.chain + [n] && r.head == q.head && forall x :: Val(r, x) == Val(q, x)
    ensures Contents(r) == Contents(q) + [Val(q, n)]
  {
    forall i | 0 <= i < |Contents(r)| ensures Contents(r)[i] == (Contents(q) + [Val(q, n)])[i] {}
  }

  /** A successful cas on the tail. */
  lemma SwingsTail(q: Queue, k: int, n: int)
    requires Inv(q) && k == q.tail.count + 1 && At(q, n, k)
    ensures
      var r := q.(tail := Ptr(k, n));
      Effect(q, r, Silent, None) && Progress(r) == Progress(q) + 1
  {
    var r := q.(tail := Ptr(k, n));
    forall i | 0 <= i < |r.chain| ensures LinkedAt(r, i) {
      assert LinkedAt(q, i);
    }
    assert Contents(r) == Contents(q);
  }

  /** A successful cas on the head. */
  lemma SwingsHead(q: Queue, k: int, n: int)
    requires Inv(q) && k == q.head.count + 1 && At(q, n, k) && q.head.count < q.tail.count
    ensures
      var r := q.(head := Ptr(k, n));
      Effect(q, r, Dequeue(Val(q, n)), None) && Progress(r) == Progress(q) + 1
  {
    var r := q.(head := Ptr(k, n));
    forall i | 0 <= i < |r.chain| ensures LinkedAt(r, i) {
      assert LinkedAt(q, i);
    }
    assert Contents(q)[0] == Front(q, 0) == Val(q, n);
    forall i | 0 <= i < |Contents(r)| ensures Contents(r)[i] == Contents(q)[1..][i] {
      assert Front(r, i) == Front(q, i + 1);
    }
    assert Contents(r) == Contents(q)[1..];
  }

  // ---------------------------------------------------------------------------------------
  // Steps of enq

  /** What a step of one thread guarantees. */
  ghost predicate Keeps(q: Queue, t: Thread, x: Result) {
    && Effect(q, x.q, x.e, Private(t)) && Knows(x.q, x.t)
    && (Private(x.t).Some? ==> Private(x.t) == Private(t) || Private(x.t).value == |q.nodes|)
  }

  /** A step that leaves the queue alone. */
  lemma Looks(q: Queue, t: Thread, x: Result)
    requires Inv(q) && x.q == q && x.e == Silent && Knows(q, x.t)
    requires Private(x.t) == None || Private(x.t) == Private(t)
    ensures Keeps(q, t, x)
  {
    Stays(q, Private(t));
  }

  /** A step that moves the queue without linking a node. */
  lemma Turns(q: Queue, t: Thread, x: Result)
    requires Effect(q, x.q, x.e, None) && Knows(x.q, x.t)
    requires Private(x.t) == None || Private(x.t) == Private(t)
    ensures Keeps(q, t, x)
  {
  }

  lemma SamePlace(q: Queue, p: int, i: int, j: int)
    requires Inv(q) && At(q, p, i) && At(q, p, j)
    ensures i == j
  {
  }

  /** The next field of a list node. */
  lemma NextIs(q: Queue, p: int, i: int)
    requires Inv(q) && At(q, p, i)
    ensures i + 1 < |q.chain| ==> Next(q, p) == Ptr(1, q.chain[i + 1]) && q.chain[i + 1] != NULL
    ensures i + 1 == |q.chain| ==> Next(q, p) == Ptr(0, NULL)
  {
    assert q.chain[i] == p && LinkedAt(q, i);
    assert i + 1 < |q.chain| ==> 0 <= q.chain[i + 1];
  }

  lemma ReadsPart(q: Queue, part: Part, x: Ptr, c: Choice, pace: Pace)
    requires PartOf(q, part, x, pace) && At(q, x.ptr, x.count) && Paid(q, pace, 0)
    ensures
      var r := ReadWord(part, x, x.count, c);
      PartOf(q, r, x, pace) && (Both(r) ==> CopyOf(q, Whole(r), x, pace))
  {
  }

  lemma ReadsNext(q: Queue, part: Part, p: int, i: int, c: Choice, pace: Pace)
    requires Inv(q) && At(q, p, i) && NextOf(q, part.count, part.ptr, i, pace) && Paid(q, pace, 0)
    ensures
      var r := ReadWord(part, Next(q, p), 0, c);
      NextOf(q, r.count, r.ptr, i, pace)
  {
    NextIs(q, p, i);
  }

  lemma EnqReads(q: Queue, t: Thread, c: Choice)
    requires Inv(q) && Knows(q, t) && (t.EnqTail? || t.EnqNext?)
    ensures Keeps(q, t, Step(q, t, c))
  {
    match t {
      case EnqTail(_, part, pace) => ReadsPart(q, part, q.tail, c, pace);
      case EnqNext(_, tail, part, pace) => ReadsNext(q, part, tail.ptr, tail.at, c, pace);
    }
    Looks(q, t, Step(q, t, c));
  }

  /** A validated copy is whole: its two words were read of one and the same pointer. */
  lemma Validated(q: Queue, c: Copy, x: Ptr, pace: Pace)
    requires Inv(q) && (x == q.head || x == q.tail) && CopyOf(q, c, x, pace)
    ensures c.ptr == x.ptr ==> c.at == x.count
    ensures !Same(c, x) ==> c.at < x.count || c.count < x.count
  {
    assert At(q, x.ptr, x.count);
    assert q.chain[c.at] == c.ptr && q.chain[x.count] == x.ptr;
  }

  lemma EnqChecks(q: Queue, t: Thread, c: Choice)
    requires Inv(q) && Knows(q, t) && t.EnqCheck?
    ensures Keeps(q, t, Step(q, t, c))
  {
    Validated(q, t.tail, q.tail, t.pace);
    Looks(q, t, Step(q, t, c));
  }

  /** Moving the tail on for somebody else pays for another round. */
  lemma HelpsTail(q: Queue, c: Copy, n: int, pace: Pace)
    requires Inv(q) && Same(c, q.tail) && CopyOf(q, c, q.tail, pace) && At(q, n, c.at + 1) && c.at == q.tail.count
    ensures
      var r := q.(tail := Ptr(c.count + 1, n));
      && Effect(q, r, Silent, None) && Paid(r, Again(pace), 0) && r.head == q.head
      && forall m | Fresh(q, m) :: Fresh(r, m)
  {
    SwingsTail(q, c.count + 1, n);
  }

  lemma EnqLinks(q: Queue, t: Thread)
    requires Inv(q) && Knows(q, t) && t.EnqAct? && t.next.ptr == NULL && Next(q, t.tail.ptr) == t.next
    ensures
      var r := SetNext(q, t.tail.ptr, Ptr(t.next.count + 1, t.node)).(chain := q.chain + [t.node]);
      Keeps(q, t, Result(r, EnqSwing(t.node, t.tail), Enqueue(Val(q, t.node))))
  {
    NextIs(q, t.tail.ptr, t.tail.at);
    Links(q, t.tail.ptr, t.tail.at, t.node);
  }

  /** A failed attempt to link has seen the list grow. */
  lemma LinkFails(q: Queue, t: Thread)
    requires Inv(q) && Knows(q, t) && t.EnqAct? && t.next.ptr == NULL && Next(q, t.tail.ptr) != t.next
    ensures Keeps(q, t, Result(q, EnqTail(t.node, NOTHING, Again(t.pace)), Silent))
  {
    NextIs(q, t.tail.ptr, t.tail.at);
    Looks(q, t, Result(q, EnqTail(t.node, NOTHING, Again(t.pace)), Silent));
  }

  /** The caller goes back to reading the tail. */
  lemma EnqAgain(q: Queue, r: Queue, t: Thread)
    requires Inv(q) && Knows(q, t) && t.EnqAct? && Effect(q, r, Silent, None) && Paid(r, Again(t.pace), 0)
    requires forall m | Fresh(q, m) :: Fresh(r, m)
    ensures Keeps(q, t, Result(r, EnqTail(t.node, NOTHING, Again(t.pace)), Silent))
  {
    Turns(q, t, Result(r, EnqTail(t.node, NOTHING, Again(t.pace)), Silent));
  }

  lemma EnqHelps(q: Queue, t: Thread)
    requires Inv(q) && Knows(q, t) && t.EnqAct? && t.next.ptr != NULL && Same(t.tail, q.tail)
    ensures Keeps(q, t, Result(q.(tail := Ptr(t.tail.count + 1, t.next.ptr)), EnqTail(t.node, NOTHING, Again(t.pace)), Silent))
  {
    HelpsTail(q, t.tail, t.next.ptr, t.pace);
    EnqAgain(q, q.(tail := Ptr(t.tail.count + 1, t.next.ptr)), t);
  }

  lemma EnqHelpFails(q: Queue, t: Thread)
    requires Inv(q) && Knows(q, t) && t.EnqAct? && !Same(t.tail, q.tail)
    ensures Keeps(q, t, Result(q, EnqTail(t.node, NOTHING, Again(t.pace)), Silent))
  {
    Validated(q, t.tail, q.tail, t.pace);
    Looks(q, t, Result(q, EnqTail(t.node, NOTHING, Again(t.pace)), Silent));
  }

  lemma EnqTriesLink(q: Queue, t: Thread, c: Choice)
    requires Inv(q) && Knows(q, t) && t.EnqAct? && t.next.ptr == NULL
    ensures Keeps(q, t, Step(q, t, c))
  {
    if Next(q, t.tail.ptr) == t.next {
      EnqLinks(q, t);
    } else {
      LinkFails(q, t);
    }
  }

  lemma EnqTriesHelp(q: Queue, t: Thread, c: Choice)
    requires Inv(q) && Knows(q, t) && t.EnqAct? && t.next.ptr != NULL
    ensures Keeps(q, t, Step(q, t, c))
  {
    if Same(t.tail, q.tail) {
      EnqHelps(q, t);
    } else {
      EnqHelpFails(q, t);
    }
  }

  lemma EnqActs(q: Queue, t: Thread, c: Choice)
    requires Inv(q) && Knows(q, t) && t.EnqAct?
    ensures Keeps(q, t, Step(q, t, c))
  {
    if t.next.ptr == NULL {
      EnqTriesLink(q, t, c);
    } else {
      EnqTriesHelp(q, t, c);
    }
  }

  lemma EnqSwingsTail(q: Queue, t: Thread)
    requires Inv(q) && Knows(q, t) && t.EnqSwing? && Same(t.tail, q.tail)
    ensures Keeps(q, t, Result(q.(tail := Ptr(t.tail.count + 1, t.node)), EnqDone, Silent))
  {
    SwingsTail(q, t.tail.count + 1, t.node);
    Turns(q, t, Result(q.(tail := Ptr(t.tail.count + 1, t.node)), EnqDone, Silent));
  }

  lemma EnqSwings(q: Queue, t: Thread, c: Choice)
    requires Inv(q) && Knows(q, t) && t.EnqSwing?
    ensures Keeps(q, t, Step(q, t, c))
  {
    if Same(t.tail, q.tail) {
      EnqSwingsTail(q, t);
    } else {
      Looks(q, t, Result(q, EnqDone, Silent));
    }
  }

  // ---------------------------------------------------------------------------------------
  // Steps of deq

  lemma EmptyHere(q: Queue, i: int)
    requires Inv(q) && i <= q.head.count && i + 1 == |q.chain|
    ensures Contents(q) == []
  {
  }

  lemma DeqReads(q: Queue, t: Thread, c: Choice)
    requires Inv(q) && Knows(q, t) && (t.DeqHead? || t.DeqTail?)
    ensures Keeps(q, t, Step(q, t, c))
  {
    match t {
      case DeqHead(part, pace) => ReadsPart(q, part, q.head, c, pace);
      case DeqTail(head, part, pace) => ReadsPart(q, part, q.tail, c, pace);
    }
    Looks(q, t, Step(q, t, c));
  }

  /** A null next field of the head node: at this instant the queue is empty. */
  lemma NullMeansEmpty(q: Queue, head: Copy, tail: Copy, pace: Pace)
    requires Inv(q) && CopyOf(q, head, q.head, pace) && CopyOf(q, tail, q.tail, pace) && head.at <= tail.at
    ensures Next(q, head.ptr).ptr == NULL ==> Contents(q) == [] && tail.at == head.at
  {
    NextIs(q, head.ptr, head.at);
    if head.at + 1 == |q.chain| {
      EmptyHere(q, head.at);
    }
  }

  lemma KnowsMore(q: Queue, head: Copy, tail: Copy, part: Part, empty: bool, pace: Pace, c: Choice)
    requires Inv(q) && KnowsNext(q, head, tail, part.count, part.ptr, empty, pace)
    ensures
      var r := ReadWord(part, Next(q, head.ptr), 0, c);
      var e := if c == Pointer && part.ptr == None then Contents(q) == [] else empty;
      KnowsNext(q, head, tail, r.count, r.ptr, e, pace)
  {
    assert Paid(q, pace, 0);
    ReadsNext(q, part, head.ptr, head.at, c, pace);
    NullMeansEmpty(q, head, tail, pace);
  }

  lemma DeqReadsNext(q: Queue, t: Thread, c: Choice)
    requires Inv(q) && Knows(q, t) && t.DeqNext?
    ensures Keeps(q, t, Step(q, t, c))
  {
    var r := ReadWord(t.part, Next(q, t.head.ptr), 0, c);
    var e := if c == Pointer && t.part.ptr == None then Contents(q) == [] else t.empty;
    KnowsMore(q, t.head, t.tail, t.part, t.empty, t.pace, c);
    if Both(r) {
      var u := DeqCheck(t.head, t.tail, Ptr(r.count.value, r.ptr.value), e, false, t.pace);
      assert r.count == Some(u.next.count) && r.ptr == Some(u.next.ptr);
      Looks(q, t, Result(q, u, Silent));
    } else {
      Looks(q, t, Result(q, DeqNext(t.head, t.tail, r, e, t.pace), Silent));
    }
  }

  lemma DeqChecks(q: Queue, t: Thread, c: Choice)
    requires Inv(q) && Knows(q, t) && t.DeqCheck?
    ensures Keeps(q, t, Step(q, t, c))
  {
    Validated(q, t.head, q.head, t.pace);
    Looks(q, t, Step(q, t, c));
  }

  lemma DeqHelps(q: Queue, t: Thread)
    requires Inv(q) && Knows(q, t) && t.DeqAct? && t.head.ptr == t.tail.ptr && t.next.ptr != NULL && Same(t.tail, q.tail)
    ensures Keeps(q, t, Result(q.(tail := Ptr(t.head.count + 1, t.next.ptr)), DeqHead(NOTHING, Again(t.pace)), Silent))
  {
    SamePlace(q, t.head.ptr, t.head.at, t.tail.at);
    Validated(q, t.tail, q.tail, t.pace);
    HelpsTail(q, t.tail, t.next.ptr, t.pace);
    assert t.head.count == t.tail.count;
    Turns(q, t, Result(q.(tail := Ptr(t.head.count + 1, t.next.ptr)), DeqHead(NOTHING, Again(t.pace)), Silent));
  }

  lemma DeqHelpFails(q: Queue, t: Thread)
    requires Inv(q) && Knows(q, t) && t.DeqAct? && !Same(t.tail, q.tail)
    ensures Keeps(q, t, Result(q, DeqHead(NOTHING, Again(t.pace)), Silent))
  {
    Validated(q, t.tail, q.tail, t.pace);
    Looks(q, t, Result(q, DeqHead(NOTHING, Again(t.pace)), Silent));
  }

  lemma DeqReadsValue(q: Queue, t: Thread)
    requires Inv(q) && Knows(q, t) && t.DeqAct? && t.head.ptr != t.tail.ptr
    ensures Keeps(q, t, Result(q, DeqTake(t.head, t.next, Val(q, t.next.ptr), t.pace), Silent))
  {
    assert t.head.at < t.tail.at by {
      assert q.chain[t.head.at] == t.head.ptr && q.chain[t.tail.at] == t.tail.ptr;
    }
    Looks(q, t, Result(q, DeqTake(t.head, t.next, Val(q, t.next.ptr), t.pace), Silent));
  }

  lemma DeqActs(q: Queue, t: Thread, c: Choice)
    requires Inv(q) && Knows(q, t) && t.DeqAct?
    ensures Keeps(q, t, Step(q, t, c))
  {
    if t.head.ptr != t.tail.ptr {
      DeqReadsValue(q, t);
    } else if t.next.ptr == NULL {
      Looks(q, t, Result(q, DeqDone(None, t.empty), Silent));
    } else if Same(t.tail, q.tail) {
      DeqHelps(q, t);
    } else {
      DeqHelpFails(q, t);
    }
  }

  lemma DeqWins(q: Queue, t: Thread)
    requires Inv(q) && Knows(q, t) && t.DeqTake? && Same(t.head, q.head)
    ensures Keeps(q, t, Result(q.(head := Ptr(t.head.count + 1, t.next.ptr)), DeqDone(Some(t.val), false), Dequeue(t.val)))
  {
    Validated(q, t.head, q.head, t.pace);
    SwingsHead(q, t.head.count + 1, t.next.ptr);
    Turns(q, t, Result(q.(head := Ptr(t.head.count + 1, t.next.ptr)), DeqDone(Some(t.val), false), Dequeue(t.val)));
  }

  lemma DeqLoses(q: Queue, t: Thread)
    requires Inv(q) && Knows(q, t) && t.DeqTake? && !Same(t.head, q.head)
    ensures Keeps(q, t, Result(q, DeqHead(NOTHING, Again(t.pace)), Silent))
  {
    Validated(q, t.head, q.head, t.pace);
    Looks(q, t, Result(q, DeqHead(NOTHING, Again(t.pace)), Silent));
  }

  lemma DeqTakes(q: Queue, t: Thread, c: Choice)
    requires Inv(q) && Knows(q, t) && t.DeqTake?
    ensures Keeps(q, t, Step(q, t, c))
  {
    if Same(t.head, q.head) {
      DeqWins(q, t);
    } else {
      DeqLoses(q, t);
    }
  }

  lemma StepKeeps(q: Queue, t: Thread, c: Choice)
    requires Inv(q) && Knows(q, t)
    ensures Keeps(q, t, Step(q, t, c))
  {
    match t {
      case Outside => Begins(q, c);
      case EnqTail(_, _, _) => EnqReads(q, t, c);
      case EnqNext(_, _, _, _) => EnqReads(q, t, c);
      case EnqCheck(_, _, _, _, _) => EnqChecks(q, t, c);
      case EnqAct(_, _, _, _) => EnqActs(q, t, c);
      case EnqSwing(_, _) => EnqSwings(q, t, c);
      case DeqHead(_, _) => DeqReads(q, t, c);
      case DeqTail(_, _, _) => DeqReads(q, t, c);
      case DeqNext(_, _, _, _, _) => DeqReadsNext(q, t, c);
      case DeqCheck(_, _, _, _, _, _) => DeqChecks(q, t, c);
      case DeqAct(_, _, _, _, _) => DeqActs(q, t, c);
      case DeqTake(_, _, _, _) => DeqTakes(q, t, c);
      case _ => Looks(q, t, Step(q, t, c));
    }
  }

  lemma Begins(q: Queue, c: Choice)
    requires Inv(q)
    ensures Keeps(q, Outside, Step(q, Outside, c))
  {
    if c.CallEnq? {
      BeginsEnq(q, c.v);
    } else {
      Looks(q, Outside, Step(q, Outside, c));
    }
  }

  lemma BeginsEnq(q: Queue, v: int)
    requires Inv(q)
    ensures
      var r := q.(nodes := q.nodes + [Node(v, Ptr(0, NULL))]);
      Keeps(q, Outside, Result(r, EnqTail(|q.nodes|, NOTHING, Pace(Progress(q), 0)), Silent))
  {
    Allocates(q, v);
  }
}
