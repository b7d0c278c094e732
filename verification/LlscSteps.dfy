/**
 The load-linked/store-conditional queue, one step of one thread at a time. Each step is one
 atomic read or compare-and-swap of a shared word, or local work. Nodes are never freed: the
 64-bit compare-and-swap on an exit tag covers only its first two fields, so the flags that would
 allow freeing stay clear. Versions are list indices, and every step keeps it that way.
 */
module LlscSteps {
  import opened Options
  import opened FifoSpec

  const NULL := -1
  const BEFORE := 1 // the node that the initial dummy names as its predecessor

  datatype Entry = Entry(ver: int, count: int)

  datatype Exit = Exit(count: int, left: int) // exit.count, exit.transfersLeft

  datatype Var = Var(cell0: int, cell1: int, entry: Entry)

  datatype Node = Node(val: int, next: int, pred: int, exit: Exit)

  /**
   Auxiliary, read by no step: `chain` lists the nodes linked so far, oldest first; `drift` says
   by how much unlink has unbalanced the count of each; `unlinks` counts its decrements.
   */
  datatype Queue = Queue(head: Var, tail: Var, nodes: seq<Node>, chain: seq<int>, drift: seq<int>, unlinks: nat)

  /** The call a thread is in; DeqEmpty is a deq that found no next node. */
  datatype Op = Enq(nd: int, linked: bool) | Deq | DeqEmpty

  /** myver and mynode. */
  datatype Hold = Hold(ver: int, node: int)

  datatype Thread =
    | Outside
    | LLRead(op: Op)                                                    // e = loc->entry
    | LLNode(op: Op, e: Entry)                                          // *mynode = CURRENT
    | LLCas(op: Op, e: Entry, node: int)
    | SetPred(op: Op, h: Hold)                                          // nd->pred = tail
    | LinkCas(op: Op, h: Hold)                                          // cas(&tail->next, ..)
    | NextRead(op: Op, h: Hold)                                         // tail->next or head->next
    | ScPred(op: Op, h: Hold, nd: int)                                  // pred_nd = mynode->pred
    | ScCas(op: Op, h: Hold, nd: int, pred: int)
    | ScRead(op: Op, h: Hold, nd: int, won: bool)                       // e = loc->entry
    | ScEntry(op: Op, h: Hold, nd: int, won: bool, e: Entry)
    | TransRead(op: Op, h: Hold, nd: int, won: bool, count: int)        // pre = nd->exit
    | TransCas(op: Op, h: Hold, nd: int, won: bool, count: int, pre: Exit)
    | RelRead(op: Op, h: Hold, nd: int, won: bool)
    | RelCas(op: Op, h: Hold, nd: int, won: bool, pre: Exit)
    | UnlinkRead(h: Hold)
    | UnlinkCas(h: Hold, e: Entry)
    | Done(op: Op, result: Option<int>)

  datatype Choice = CallEnq(v: int) | CallDeq | Go

  datatype Result = Result(q: Queue, t: Thread, e: Event)

  function Cell(v: Var, ver: int): int {
    if ver % 2 == 0 then v.cell0 else v.cell1
  }

  function SetCell(v: Var, ver: int, x: int): Var {
    if ver % 2 == 0 then v.(cell0 := x) else v.(cell1 := x)
  }

  function VarOf(q: Queue, op: Op): Var {
    if op.Enq? then q.tail else q.head
  }

  function SetVar(q: Queue, op: Op, v: Var): Queue {
    if op.Enq? then q.(tail := v) else q.(head := v)
  }

  const NO_NODE := Node(0, NULL, NULL, Exit(0, 0))

  function At(q: Queue, p: int): Node {
    if 0 <= p < |q.nodes| then q.nodes[p] else NO_NODE
  }

  function Put(q: Queue, p: int, n: Node): Queue {
    if 0 <= p < |q.nodes| then q.(nodes := q.nodes[p := n]) else q
  }

  function PutExit(q: Queue, p: int, e: Exit): Queue { Put(q, p, At(q, p).(exit := e)) }

  // ---------------------------------------------------------------------------------------
  // Steps

  /** The cas of LL on the entry tag. */
  function TakeStep(q: Queue, t: Thread): Result
    requires t.LLCas?
  {
    var v := VarOf(q, t.op);
    if v.entry == t.e then
      Result(SetVar(q, t.op, v.(entry := Entry(t.e.ver, t.e.count + 1))), Taken(t.op, Hold(t.e.ver, t.node)), Silent)
    else Result(q, LLRead(t.op), Silent)
  }

  function Taken(op: Op, h: Hold): Thread {
    if op.Enq? then SetPred(op, h) else NextRead(op, h)
  }

  function LLStep(q: Queue, t: Thread): Result {
    match t
    case LLRead(op) => Result(q, LLNode(op, VarOf(q, op).entry), Silent)
    case LLNode(op, e) => Result(q, LLCas(op, e, Cell(VarOf(q, op), e.ver)), Silent)
    case LLCas(_, _, _) => TakeStep(q, t)
    case _ => Result(q, t, Silent)
  }

  /** The cas of unlink: it counts down the version that is current by now. */
  function UnlinkStep(q: Queue, t: Thread): Result
    requires t.UnlinkCas?
  {
    if q.head.entry == t.e then
      Result(Unlinked(q, t.h, t.e), Done(DeqEmpty, None), Silent)
    else Result(q, RelRead(DeqEmpty, t.h, NULL, false), Silent)
  }

  function Unlinked(q: Queue, h: Hold, e: Entry): Queue {
    q.(head := q.head.(entry := Entry(e.ver, e.count - 1)), unlinks := q.unlinks + 1,
      drift := if 0 <= h.ver < |q.drift| && 0 <= e.ver < |q.drift| then Tilt(q.drift, h.ver, e.ver) else q.drift)
  }

  function BodyStep(q: Queue, t: Thread): Result {
    match t
    case SetPred(op, h) =>
      if op.Enq? then Result(Put(q, op.nd, At(q, op.nd).(pred := h.node)), LinkCas(op, h), Silent) else Result(q, t, Silent)
    case LinkCas(op, h) =>
      if op.Enq? && At(q, h.node).next == NULL then
        Result(Put(q, h.node, At(q, h.node).(next := op.nd)).(chain := q.chain + [op.nd], drift := q.drift + [0]),
               ScPred(Enq(op.nd, true), h, op.nd), Enqueue(At(q, op.nd).val))
      else Result(q, NextRead(op, h), Silent)
    case NextRead(op, h) =>
      var next := At(q, h.node).next;
      Result(q, if op.Deq? && next == NULL then UnlinkRead(h) else ScPred(op, h, next), Silent)
    case UnlinkRead(h) =>
      var e := q.head.entry;
      Result(q, if e.ver == h.ver then t else UnlinkCas(h, e), Silent)
    case UnlinkCas(_, _) => UnlinkStep(q, t)
    case _ => Result(q, t, Silent)
  }

  /** A unit taken from entry j is missing at i. */
  function Tilt(d: seq<int>, i: int, j: int): seq<int>
    requires 0 <= i < |d| && 0 <= j < |d|
  {
    d[i := d[i] + 1][j := d[i := d[i] + 1][j] - 1]
  }

  /** The cas of SC on the cell that is not current. */
  function StoreStep(q: Queue, t: Thread): Result
    requires t.ScCas?
  {
    var v := VarOf(q, t.op);
    if Cell(v, t.h.ver + 1) == t.pred then
      Result(SetVar(q, t.op, SetCell(v, t.h.ver + 1, t.nd)), ScRead(t.op, t.h, t.nd, true),
             if t.op.Deq? then Dequeue(At(q, t.nd).val) else Silent)
    else Result(q, ScRead(t.op, t.h, t.nd, false), Silent)
  }

  /** The cas of SC on the entry tag. */
  function AdvanceStep(q: Queue, t: Thread): Result
    requires t.ScEntry?
  {
    var v := VarOf(q, t.op);
    if v.entry == t.e then
      Result(SetVar(q, t.op, v.(entry := Entry(t.e.ver + 1, 0))), TransRead(t.op, t.h, t.nd, t.won, t.e.count), Silent)
    else Result(q, ScRead(t.op, t.h, t.nd, t.won), Silent)
  }

  function TransferStep(q: Queue, t: Thread): Result
    requires t.TransCas?
  {
    if At(q, t.h.node).exit == t.pre then
      Result(PutExit(q, t.h.node, Exit(t.pre.count + t.count, t.pre.left - 1)), ScRead(t.op, t.h, t.nd, t.won), Silent)
    else Result(q, TransRead(t.op, t.h, t.nd, t.won, t.count), Silent)
  }

  function ReleaseStep(q: Queue, t: Thread): Result
    requires t.RelCas?
  {
    if At(q, t.h.node).exit == t.pre then
      Result(PutExit(q, t.h.node, Exit(t.pre.count - 1, t.pre.left)), Released(q, t.op, t.nd, t.won), Silent)
    else Result(q, RelRead(t.op, t.h, t.nd, t.won), Silent)
  }

  function SCStep(q: Queue, t: Thread): Result {
    match t
    case ScPred(op, h, nd) => Result(q, ScCas(op, h, nd, At(q, h.node).pred), Silent)
    case ScCas(_, _, _, _) => StoreStep(q, t)
    case ScRead(op, h, nd, won) =>
      var e := VarOf(q, op).entry;
      Result(q, if e.ver == h.ver then ScEntry(op, h, nd, won, e) else RelRead(op, h, nd, won), Silent)
    case ScEntry(_, _, _, _, _) => AdvanceStep(q, t)
    case TransRead(op, h, nd, won, count) => Result(q, TransCas(op, h, nd, won, count, At(q, h.node).exit), Silent)
    case TransCas(_, _, _, _, _, _) => TransferStep(q, t)
    case RelRead(op, h, nd, won) => Result(q, RelCas(op, h, nd, won, At(q, h.node).exit), Silent)
    case RelCas(_, _, _, _, _) => ReleaseStep(q, t)
    case _ => Result(q, t, Silent)
  }

  /** After release: return, or go round the loop again. */
  function Released(q: Queue, op: Op, nd: int, won: bool): Thread {
    match op
    case Enq(_, linked) => if linked then Done(op, None) else LLRead(op)
    case Deq => if won then Done(op, Some(At(q, nd).val)) else LLRead(op)
    case DeqEmpty => Done(op, None)
  }

  function Step(q: Queue, t: Thread, c: Choice): Result {
    if t.Outside? then
      match c
      case CallEnq(v) =>
        Result(q.(nodes := q.nodes + [Node(v, NULL, NULL, Exit(0, 2))]), LLRead(Enq(|q.nodes|, false)), Silent)
      case CallDeq => Result(q, LLRead(Deq), Silent)
      case Go => Result(q, t, Silent)
    else if t.Done? then Result(q, Outside, Silent)
    else if t.LLRead? || t.LLNode? || t.LLCas? then LLStep(q, t)
    else if t.SetPred? || t.LinkCas? || t.NextRead? || t.UnlinkRead? || t.UnlinkCas? then BodyStep(q, t)
    else SCStep(q, t)
  }

  // ---------------------------------------------------------------------------------------
  // The invariant

  /** The i-th node of the list; -1 is the node before the first dummy. */
  function Nth(q: Queue, i: int): int {
    if 0 <= i < |q.chain| then q.chain[i] else if i == -1 then BEFORE else NULL
  }

  ghost predicate LinkedAt(q: Queue, i: int)
    requires 0 <= i < |q.chain|
  {
    At(q, q.chain[i]).next == Nth(q, i + 1) && At(q, q.chain[i]).pred == Nth(q, i - 1)
  }

  /** `ver` is the list index of the current node, and the other cell holds node ver - 1 or
      ver + 1. */
  ghost predicate VarInv(q: Queue, v: Var) {
    && 0 <= v.entry.ver < |q.chain|
    && Cell(v, v.entry.ver) == Nth(q, v.entry.ver)
    && (|| Cell(v, v.entry.ver + 1) == Nth(q, v.entry.ver - 1)
        || (Cell(v, v.entry.ver + 1) == Nth(q, v.entry.ver + 1) && v.entry.ver + 1 < |q.chain|))
  }

  ghost predicate ChainInv(q: Queue) {
    && 0 < |q.chain| && |q.drift| == |q.chain| && BEFORE < |q.nodes|
    && (forall i | 0 <= i < |q.chain| :: 0 <= q.chain[i] < |q.nodes| && q.chain[i] != BEFORE)
    && (forall i, j | 0 <= i < j < |q.chain| :: q.chain[i] != q.chain[j])
    && (forall i | 0 <= i < |q.chain| :: LinkedAt(q, i))
  }

  ghost predicate Inv(q: Queue) {
    ChainInv(q) && VarInv(q, q.head) && VarInv(q, q.tail) && |q.chain| <= q.tail.entry.ver + 2
  }

  /** A node still private to its enqueuer. */
  ghost predicate Fresh(q: Queue, n: int) {
    0 <= n < |q.nodes| && n != BEFORE && n !in q.chain && At(q, n).next == NULL && At(q, n).exit == Exit(0, 2)
  }

  ghost predicate Private(q: Queue, op: Op) {
    op.Enq? && !op.linked ==> Fresh(q, op.nd)
  }

  ghost predicate Holds(q: Queue, v: Var, h: Hold) {
    0 <= h.ver <= v.entry.ver && h.node == Nth(q, h.ver)
  }

  ghost predicate Successor(q: Queue, h: Hold, nd: int) {
    h.ver + 1 < |q.chain| && nd == Nth(q, h.ver + 1)
  }

  /** What a thread at each point knows of the queue. */
  ghost predicate Knowledge(q: Queue, t: Thread) {
    match t
    case Outside => true
    case LLRead(op) => Trying(q, op)
    case LLNode(op, e) => Trying(q, op) && 0 <= e.ver <= VarOf(q, op).entry.ver
    case LLCas(op, e, node) =>
      && Trying(q, op) && 0 <= e.ver <= VarOf(q, op).entry.ver
      && (e.ver == VarOf(q, op).entry.ver ==> node == Nth(q, e.ver))
    case SetPred(op, h) => Private(q, op) && op.Enq? && !op.linked && Holds(q, q.tail, h)
    case LinkCas(op, h) =>
      Private(q, op) && op.Enq? && !op.linked && Holds(q, q.tail, h) && At(q, op.nd).pred == h.node
    case NextRead(op, h) =>
      && Private(q, op) && op != DeqEmpty && Holds(q, VarOf(q, op), h)
      && (op.Enq? ==> h.ver + 1 < |q.chain| && !op.linked)
    case ScPred(op, h, nd) => Private(q, op) && op != DeqEmpty && Holds(q, VarOf(q, op), h) && Successor(q, h, nd)
    case ScCas(op, h, nd, pred) =>
      Private(q, op) && op != DeqEmpty && Holds(q, VarOf(q, op), h) && Successor(q, h, nd) && pred == Nth(q, h.ver - 1)
    case ScRead(op, h, nd, won) => Stored(q, op, h, nd)
    case ScEntry(op, h, nd, won, e) => Stored(q, op, h, nd) && e.ver == h.ver
    case TransRead(op, h, nd, won, _) => Stored(q, op, h, nd)
    case TransCas(op, h, nd, won, _, _) => Stored(q, op, h, nd)
    case RelRead(op, h, nd, won) => Leaving(q, op, h, nd)
    case RelCas(op, h, nd, won, _) => Leaving(q, op, h, nd)
    case UnlinkRead(h) => Holds(q, q.head, h)
    case UnlinkCas(h, e) => Holds(q, q.head, h) && h.ver < e.ver <= q.head.entry.ver
    case Done(_, _) => true
  }

  /** Knowledge as one fact: the comparison keeps the verifier from splitting it into cases. */
  ghost predicate Knows(q: Queue, t: Thread) {
    Knowledge(q, t) == true
  }

  /** A call going round its loop. */
  ghost predicate Trying(q: Queue, op: Op) {
    op.Deq? || (op.Enq? && !op.linked && Fresh(q, op.nd))
  }

  ghost predicate Stored(q: Queue, op: Op, h: Hold, nd: int) {
    && Private(q, op) && op != DeqEmpty && Holds(q, VarOf(q, op), h) && Successor(q, h, nd)
    && h.ver < Stores(q, VarOf(q, op))
  }

  ghost predicate Leaving(q: Queue, op: Op, h: Hold, nd: int) {
    Private(q, op) && Holds(q, VarOf(q, op), h) && (op != DeqEmpty ==> Successor(q, h, nd))
  }

  // ---------------------------------------------------------------------------------------
  // The abstract queue

  /** Successful store-conditionals on v so far: the index of the node last stored into it. */
  function Stores(q: Queue, v: Var): int {
    if Cell(v, v.entry.ver + 1) == Nth(q, v.entry.ver + 1) && v.entry.ver + 1 < |q.chain| then v.entry.ver + 1 else v.entry.ver
  }

  function Contents(q: Queue): seq<int> {
    var n := Stores(q, q.head);
    if 0 <= n < |q.chain| then seq(|q.chain| - n - 1, i => ValAt(q, n + 1 + i)) else []
  }

  function ValAt(q: Queue, i: int): int { At(q, Nth(q, i)).val }

  // ---------------------------------------------------------------------------------------
  // How the queue may move

  ghost predicate Moves(q: Queue, r: Queue) {
    && |q.nodes| <= |r.nodes| && |q.chain| <= |r.chain|
    && (forall i | 0 <= i < |q.chain| :: r.chain[i] == q.chain[i])
    && q.head.entry.ver <= r.head.entry.ver && q.tail.entry.ver <= r.tail.entry.ver
    && Stores(q, q.head) <= Stores(r, r.head) && Stores(q, q.tail) <= Stores(r, r.tail)
    && (forall p | 0 <= p < |q.nodes| :: At(r, p).val == At(q, p).val)
  }

  function Mine(t: Thread): Option<int> {
    if t.Outside? || t.UnlinkRead? || t.UnlinkCas? || t.Done? then None
    else if t.op.Enq? && !t.op.linked then Some(t.op.nd) else None
  }

  ghost predicate Effect(q: Queue, r: Queue, e: Event, mine: Option<int>) {
    && Inv(r) && Moves(q, r)
    && (forall n | Fresh(q, n) && mine != Some(n) :: Fresh(r, n) && At(r, n) == At(q, n))
    && Does(Contents(q), e, Contents(r))
  }

  ghost predicate Guarantees(q: Queue, t: Thread, x: Result) {
    && Effect(q, x.q, x.e, Mine(t)) && Knows(x.q, x.t)
    && (Mine(x.t).Some? ==> Mine(x.t) == Mine(t) || Mine(x.t).value == |q.nodes|)
  }

  /** The guarantees as one fact, as in Knows. */
  ghost predicate Keeps(q: Queue, t: Thread, x: Result) {
    Guarantees(q, t, x) == true
  }

  /** What a thread knows survives the steps of the others. */
  lemma StillKnows(q: Queue, r: Queue, t: Thread)
    requires Inv(q) && Moves(q, r) && Knows(q, t)
    requires Mine(t).Some? ==> Fresh(r, Mine(t).value) && At(r, Mine(t).value) == At(q, Mine(t).value)
    ensures Knows(r, t)
  {
    if t.LLRead? || t.LLNode? || t.LLCas? || t.SetPred? || t.LinkCas? || t.NextRead? {
      StillReads(q, r, t);
    } else if t.ScPred? || t.ScCas? {
      StillStoring(q, r, t);
    } else if t.ScRead? || t.ScEntry? || t.TransRead? || t.TransCas? {
      StillStored(q, r, t.op, t.h, t.nd);
    } else if t.RelRead? || t.RelCas? {
      StillLeaving(q, r, t.op, t.h, t.nd);
    }
  }

  ghost predicate StillMine(q: Queue, r: Queue, op: Op) {
    op.Enq? && !op.linked ==> Fresh(r, op.nd) && At(r, op.nd) == At(q, op.nd)
  }

  lemma StillReads(q: Queue, r: Queue, t: Thread)
    requires Inv(q) && Moves(q, r) && Knows(q, t)
    requires t.LLRead? || t.LLNode? || t.LLCas? || t.SetPred? || t.LinkCas? || t.NextRead?
    requires StillMine(q, r, t.op)
    ensures Knows(r, t)
  {
  }

  lemma StillStoring(q: Queue, r: Queue, t: Thread)
    requires Inv(q) && Moves(q, r) && Knows(q, t) && (t.ScPred? || t.ScCas?)
    requires StillMine(q, r, t.op)
    ensures Knows(r, t)
  {
  }

  lemma StillStored(q: Queue, r: Queue, op: Op, h: Hold, nd: int)
    requires Inv(q) && Moves(q, r) && Stored(q, op, h, nd) && StillMine(q, r, op)
    ensures Stored(r, op, h, nd)
  {
  }

  lemma StillLeaving(q: Queue, r: Queue, op: Op, h: Hold, nd: int)
    requires Inv(q) && Moves(q, r) && Leaving(q, op, h, nd) && StillMine(q, r, op)
    ensures Leaving(r, op, h, nd)
  {
  }

  lemma Looks(q: Queue, t: Thread, x: Result)
    requires Inv(q) && x.q == q && x.e == Silent && Knows(q, x.t)
    requires Mine(x.t) == None || Mine(x.t) == Mine(t)
    ensures Keeps(q, t, x)
  {
  }

  /** As Turns, where the step adds nothing to what the thread knows. */
  lemma Carries(q: Queue, t: Thread, x: Result)
    requires Inv(q) && Effect(q, x.q, x.e, None) && Knows(q, x.t)
    requires Mine(x.t) == None || Mine(x.t) == Mine(t)
    ensures Keeps(q, t, x)
  {
    MineIsFresh(q, x.t);
    StillKnows(q, x.q, x.t);
  }

  lemma MineIsFresh(q: Queue, t: Thread)
    requires Knows(q, t)
    ensures Mine(t).Some? ==> Fresh(q, Mine(t).value)
  {
  }

  lemma Turns(q: Queue, t: Thread, x: Result)
    requires Effect(q, x.q, x.e, None) && Knows(x.q, x.t)
    requires Mine(x.t) == None || Mine(x.t) == Mine(t)
    ensures Keeps(q, t, x)
  {
  }

  // ---------------------------------------------------------------------------------------
  // The ways the queue moves

  /** The list position of a node is unique. */
  lemma SamePlace(q: Queue, i: int, j: int)
    requires ChainInv(q) && -1 <= i < |q.chain| && -1 <= j < |q.chain| && Nth(q, i) == Nth(q, j)
    ensures i == j
  {
  }

  lemma SameContents(q: Queue, r: Queue)
    requires |r.chain| == |q.chain| && Stores(r, r.head) == Stores(q, q.head)
    requires forall i | 0 <= i < |q.chain| :: ValAt(r, i) == ValAt(q, i)
    ensures Contents(r) == Contents(q)
  {
    forall i | 0 <= i < |Contents(q)| ensures Contents(r)[i] == Contents(q)[i] {
      assert ValAt(r, Stores(q, q.head) + 1 + i) == ValAt(q, Stores(q, q.head) + 1 + i);
    }
  }

  /** Changing one variable, at most from version k to k + 1 or by one store. */
  lemma ChangesVar(q: Queue, op: Op, w: Var)
    requires Inv(q) && VarInv(q, w) && VarOf(q, op).entry.ver <= w.entry.ver
    requires Stores(q, VarOf(q, op)) == Stores(q, w)
    ensures Effect(q, SetVar(q, op, w), Silent, None)
  {
    var r := SetVar(q, op, w);
    SameChain(q, r);
    SameContents(q, r);
  }

  lemma SameChain(q: Queue, r: Queue)
    requires ChainInv(q) && r.nodes == q.nodes && r.chain == q.chain && |r.drift| == |q.drift|
    ensures ChainInv(r) && (forall i :: Nth(r, i) == Nth(q, i)) && (forall v :: VarInv(q, v) ==> VarInv(r, v))
    ensures forall v :: Stores(r, v) == Stores(q, v)
    ensures forall n :: Fresh(q, n) ==> Fresh(r, n)
  {
    forall i | 0 <= i < |r.chain| ensures LinkedAt(r, i) {
      assert LinkedAt(q, i);
    }
  }

  lemma FrontGoes(q: Queue, r: Queue)
    requires |r.chain| == |q.chain| && Stores(r, r.head) == Stores(q, q.head) + 1 < |q.chain| && 0 <= Stores(q, q.head)
    requires forall i | 0 <= i < |q.chain| :: ValAt(r, i) == ValAt(q, i)
    ensures Contents(q) != [] && Contents(q)[0] == ValAt(q, Stores(q, q.head) + 1) && Contents(r) == Contents(q)[1..]
  {
    var n := Stores(q, q.head);
    forall i | 0 <= i < |Contents(r)| ensures Contents(r)[i] == Contents(q)[1..][i] {
      assert Contents(r)[i] == ValAt(r, n + 1 + 1 + i) == ValAt(q, n + 1 + (1 + i)) == Contents(q)[1 + i];
    }
    assert Contents(q)[0] == ValAt(q, n + 1 + 0);
  }

  /** A successful store: into the head it removes the front value. */
  lemma StoresNext(q: Queue, op: Op, w: Var)
    requires Inv(q) && VarInv(q, w) && VarOf(q, op).entry.ver == w.entry.ver
    requires Stores(q, w) == Stores(q, VarOf(q, op)) + 1
    ensures Effect(q, SetVar(q, op, w), if op.Enq? then Silent else Dequeue(ValAt(q, Stores(q, w))), None)
  {
    var r := SetVar(q, op, w);
    SameChain(q, r);
    forall i ensures ValAt(r, i) == ValAt(q, i) {}
    if op.Enq? {
      SameContents(q, r);
    } else {
      FrontGoes(q, r);
    }
  }

  /** create_node */
  lemma Allocates(q: Queue, v: int)
    requires Inv(q)
    ensures
      var r := q.(nodes := q.nodes + [Node(v, NULL, NULL, Exit(0, 2))]);
      Effect(q, r, Silent, None) && Fresh(r, |q.nodes|) && At(r, |q.nodes|).val == v
  {
    var r := q.(nodes := q.nodes + [Node(v, NULL, NULL, Exit(0, 2))]);
    SameLinks(q, r);
    assert |q.nodes| !in q.chain;
  }

  /** The chain's links are as before. */
  lemma SameLinks(q: Queue, r: Queue)
    requires Inv(q) && |q.nodes| <= |r.nodes| && r.chain == q.chain && r.drift == q.drift && r.head == q.head && r.tail == q.tail
    requires forall i | 0 <= i < |q.chain| ::
      At(r, q.chain[i]).next == At(q, q.chain[i]).next && At(r, q.chain[i]).pred == At(q, q.chain[i]).pred
    requires forall p | 0 <= p < |q.nodes| :: At(r, p).val == At(q, p).val
    ensures Inv(r) && Moves(q, r) && Contents(r) == Contents(q)
  {
    forall i ensures Nth(r, i) == Nth(q, i) {}
    forall i | 0 <= i < |r.chain| ensures LinkedAt(r, i) {
      assert LinkedAt(q, i);
    }
    forall i | 0 <= i < |q.chain| ensures ValAt(r, i) == ValAt(q, i) {}
    assert Contents(r) == Contents(q);
  }

  /** nd->pred = tail */
  lemma SetsPred(q: Queue, n: int, p: int)
    requires Inv(q) && Fresh(q, n)
    ensures
      var r := Put(q, n, At(q, n).(pred := p));
      Effect(q, r, Silent, Some(n)) && Fresh(r, n) && At(r, n).pred == p && At(r, n).val == At(q, n).val
  {
    var r := Put(q, n, At(q, n).(pred := p));
    forall x | x != n ensures At(r, x) == At(q, x) {}
    SameLinks(q, r);
  }

  /** A store into the exit tag of a list node. */
  lemma SetsExit(q: Queue, i: int, p: int, e: Exit)
    requires Inv(q) && 0 <= i < |q.chain| && p == Nth(q, i)
    ensures Effect(q, PutExit(q, p, e), Silent, None)
  {
    var r := PutExit(q, p, e);
    forall x | x != p ensures At(r, x) == At(q, x) {}
    SameLinks(q, r);
  }

  /** The cas that links a new node after the last. */
  lemma Links(q: Queue, i: int, n: int)
    requires Inv(q) && i == |q.chain| - 1 && i <= q.tail.entry.ver && Fresh(q, n) && At(q, n).pred == q.chain[i]
    ensures
      var r := Put(q, q.chain[i], At(q, q.chain[i]).(next := n)).(chain := q.chain + [n], drift := q.drift + [0]);
      Effect(q, r, Enqueue(At(q, n).val), Some(n)) && Nth(r, i + 1) == n
  {
    var p := q.chain[i];
    var r := Put(q, p, At(q, p).(next := n)).(chain := q.chain + [n], drift := q.drift + [0]);
    forall x | x != p ensures At(r, x) == At(q, x) {}
    forall j | -1 <= j < |q.chain| ensures Nth(r, j) == Nth(q, j) {}
    forall j | 0 <= j < |r.chain| ensures LinkedAt(r, j) {
      if j < |q.chain| { assert LinkedAt(q, j); }
    }
    NoStore(q, r, q.head, n);
    NoStore(q, r, q.tail, n);
    BackGrows(q, r, n);
  }

  lemma BackGrows(q: Queue, r: Queue, n: int)
    requires Inv(q) && r.chain == q.chain + [n] && Stores(r, r.head) == Stores(q, q.head)
    requires forall p :: At(r, p).val == At(q, p).val
    ensures Contents(r) == Contents(q) + [At(q, n).val]
  {
    forall j | 0 <= j < |q.chain| ensures ValAt(r, j) == ValAt(q, j) {}
    var d := Stores(q, q.head) + 1;
    forall j | 0 <= j < |Contents(r)| ensures Contents(r)[j] == (Contents(q) + [At(q, n).val])[j] {
      assert Contents(r)[j] == ValAt(r, d + j);
      if j < |Contents(q)| { assert Contents(q)[j] == ValAt(q, d + j); }
    }
    assert Contents(r) == Contents(q) + [At(q, n).val];
  }

  lemma NoStore(q: Queue, r: Queue, v: Var, n: int)
    requires ChainInv(q) && VarInv(q, v) && r.chain == q.chain + [n] && n != BEFORE && n !in q.chain
    ensures VarInv(r, v) && Stores(r, v) == Stores(q, v)
  {
    forall j | -1 <= j < |q.chain| ensures Nth(r, j) == Nth(q, j) {}
    if v.entry.ver >= 1 { assert Nth(q, v.entry.ver - 1) in q.chain; }
  }

  // ---------------------------------------------------------------------------------------
  // Steps of LL

  lemma LLKeeps(q: Queue, t: Thread)
    requires Inv(q) && Knows(q, t) && (t.LLRead? || t.LLNode? || t.LLCas?)
    ensures Keeps(q, t, LLStep(q, t))
  {
    match t {
      case LLRead(op) => Looks(q, t, Result(q, LLNode(op, VarOf(q, op).entry), Silent));
      case LLNode(op, e) => Looks(q, t, Result(q, LLCas(op, e, Cell(VarOf(q, op), e.ver)), Silent));
      case LLCas(_, _, _) =>
        if VarOf(q, t.op).entry == t.e {
          LLTakes(q, t);
        } else {
          Looks(q, t, Result(q, LLRead(t.op), Silent));
        }
    }
  }

  lemma SameStores(q: Queue, v: Var, w: Var)
    requires VarInv(q, v) && w.cell0 == v.cell0 && w.cell1 == v.cell1 && w.entry.ver == v.entry.ver
    ensures VarInv(q, w) && Stores(q, w) == Stores(q, v)
  {
  }

  lemma LLTakes(q: Queue, t: Thread)
    requires Inv(q) && Knows(q, t) && t.LLCas? && VarOf(q, t.op).entry == t.e
    ensures Keeps(q, t, TakeStep(q, t))
  {
    LLTaken(q, t, VarOf(q, t.op).(entry := Entry(t.e.ver, t.e.count + 1)));
  }

  lemma LLTaken(q: Queue, t: Thread, w: Var)
    requires Inv(q) && Knows(q, t) && t.LLCas? && VarOf(q, t.op).entry == t.e
    requires w == VarOf(q, t.op).(entry := Entry(t.e.ver, t.e.count + 1))
    ensures Keeps(q, t, Result(SetVar(q, t.op, w), Taken(t.op, Hold(t.e.ver, t.node)), Silent))
  {
    SameStores(q, VarOf(q, t.op), w);
    VarSet(q, t, t.op, w, Taken(t.op, Hold(t.e.ver, t.node)));
  }

  // ---------------------------------------------------------------------------------------
  // Steps of enq and deq

  /** Next pointers of list nodes. */
  lemma NextIs(q: Queue, i: int)
    requires ChainInv(q) && 0 <= i < |q.chain|
    ensures At(q, Nth(q, i)).next == Nth(q, i + 1) && At(q, Nth(q, i)).pred == Nth(q, i - 1)
    ensures Nth(q, i + 1) == NULL <==> i == |q.chain| - 1
  {
    assert LinkedAt(q, i);
  }

  lemma SetPredKeeps(q: Queue, t: Thread)
    requires Inv(q) && Knows(q, t) && t.SetPred?
    ensures Keeps(q, t, BodyStep(q, t))
  {
    SetsPred(q, t.op.nd, t.h.node);
  }

  lemma LinkKeeps(q: Queue, t: Thread)
    requires Inv(q) && Knows(q, t) && t.LinkCas?
    ensures Keeps(q, t, BodyStep(q, t))
  {
    NextIs(q, t.h.ver);
    if At(q, t.h.node).next == NULL {
      Links(q, t.h.ver, t.op.nd);
    } else {
      Looks(q, t, BodyStep(q, t));
    }
  }

  lemma NextReadKeeps(q: Queue, t: Thread)
    requires Inv(q) && Knows(q, t) && t.NextRead?
    ensures Keeps(q, t, BodyStep(q, t))
  {
    NextIs(q, t.h.ver);
    Looks(q, t, BodyStep(q, t));
  }

  lemma Decrements(q: Queue, h: Hold, e: Entry)
    requires Inv(q) && q.head.entry == e && 0 <= h.ver < |q.drift|
    ensures Effect(q, Unlinked(q, h, e), Silent, None)
  {
    var w := q.head.(entry := Entry(e.ver, e.count - 1));
    var r, x := SetVar(q, Deq, w), Unlinked(q, h, e);
    SameStores(q, q.head, w);
    ChangesVar(q, Deq, w);
    SameChain(r, x);
    SameContents(r, x);
  }

  lemma UnlinkWins(q: Queue, t: Thread)
    requires Inv(q) && Knows(q, t) && t.UnlinkCas? && q.head.entry == t.e
    ensures 0 <= t.h.ver < |q.drift| && 0 <= t.e.ver < |q.drift|
    ensures Keeps(q, t, Result(Unlinked(q, t.h, t.e), Done(DeqEmpty, None), Silent))
  {
    Decrements(q, t.h, t.e);
    Turns(q, t, Result(Unlinked(q, t.h, t.e), Done(DeqEmpty, None), Silent));
  }

  lemma UnlinkLoses(q: Queue, t: Thread)
    requires Inv(q) && Knows(q, t) && t.UnlinkCas?
    ensures Keeps(q, t, Result(q, RelRead(DeqEmpty, t.h, NULL, false), Silent))
  {
    Looks(q, t, Result(q, RelRead(DeqEmpty, t.h, NULL, false), Silent));
  }

  lemma UnlinkKeeps(q: Queue, t: Thread)
    requires Inv(q) && Knows(q, t) && t.UnlinkCas?
    ensures Keeps(q, t, UnlinkStep(q, t))
  {
    if q.head.entry == t.e {
      UnlinkWins(q, t);
    } else {
      UnlinkLoses(q, t);
    }
  }

  lemma BodyKeeps(q: Queue, t: Thread)
    requires Inv(q) && Knows(q, t) && (t.SetPred? || t.LinkCas? || t.NextRead? || t.UnlinkRead? || t.UnlinkCas?)
    ensures Keeps(q, t, BodyStep(q, t))
  {
    match t {
      case SetPred(_, _) => SetPredKeeps(q, t);
      case LinkCas(_, _) => LinkKeeps(q, t);
      case NextRead(_, _) => NextReadKeeps(q, t);
      case UnlinkCas(_, _) => UnlinkKeeps(q, t);
      case UnlinkRead(_) => Looks(q, t, BodyStep(q, t));
    }
  }

  // ---------------------------------------------------------------------------------------
  // Steps of SC

  /**
   The compare-and-swap of SC succeeds exactly when no store-conditional of the same version has
   succeeded before: a stale one always fails, and each version has one success.
   */
  lemma StoreSucceedsExactly(q: Queue, op: Op, h: Hold)
    requires Inv(q) && Holds(q, VarOf(q, op), h)
    ensures Cell(VarOf(q, op), h.ver + 1) == Nth(q, h.ver - 1) <==> Stores(q, VarOf(q, op)) == h.ver
  {
    var v := VarOf(q, op);
    var k := v.entry.ver;
    if (k - h.ver) % 2 == 0 {
      assert Cell(v, h.ver + 1) == Cell(v, k + 1);
      OtherCell(q, v, h.ver);
    } else {
      assert Cell(v, h.ver + 1) == Cell(v, k);
      DifferentPlaces(q, k, h.ver - 1);
    }
  }

  lemma OtherCell(q: Queue, v: Var, k: int)
    requires ChainInv(q) && VarInv(q, v) && 0 <= k <= v.entry.ver
    ensures Cell(v, v.entry.ver + 1) == Nth(q, k - 1) <==> Stores(q, v) == k
  {
    var n := v.entry.ver;
    if k != n {
      DifferentPlaces(q, n - 1, k - 1);
    }
    if n + 1 < |q.chain| {
      DifferentPlaces(q, n + 1, k - 1);
    }
  }

  lemma DifferentPlaces(q: Queue, i: int, j: int)
    requires ChainInv(q) && -1 <= i < |q.chain| && -1 <= j < |q.chain| && i != j
    ensures Nth(q, i) != Nth(q, j)
  {
    if Nth(q, i) == Nth(q, j) { SamePlace(q, i, j); }
  }

  lemma StoreKeeps(q: Queue, t: Thread)
    requires Inv(q) && Knows(q, t) && t.ScCas?
    ensures Keeps(q, t, StoreStep(q, t))
  {
    if Cell(VarOf(q, t.op), t.h.ver + 1) == t.pred {
      StoreSucceeds(q, t);
    } else {
      StoreFails(q, t);
    }
  }

  lemma StoreSucceeds(q: Queue, t: Thread)
    requires Inv(q) && Knows(q, t) && t.ScCas? && Cell(VarOf(q, t.op), t.h.ver + 1) == t.pred
    ensures Keeps(q, t, StoreStep(q, t))
  {
    StoreWins(q, t);
  }

  lemma StoreFails(q: Queue, t: Thread)
    requires Inv(q) && Knows(q, t) && t.ScCas? && Cell(VarOf(q, t.op), t.h.ver + 1) != t.pred
    ensures Keeps(q, t, Result(q, ScRead(t.op, t.h, t.nd, false), Silent))
  {
    StoreSucceedsExactly(q, t.op, t.h);
    StoresAhead(q, VarOf(q, t.op), t.h);
    Looks(q, t, Result(q, ScRead(t.op, t.h, t.nd, false), Silent));
  }

  lemma StoreWins(q: Queue, t: Thread)
    requires Inv(q) && Knows(q, t) && t.ScCas? && Cell(VarOf(q, t.op), t.h.ver + 1) == t.pred
    ensures
      var w := SetCell(VarOf(q, t.op), t.h.ver + 1, t.nd);
      Keeps(q, t, Result(SetVar(q, t.op, w), ScRead(t.op, t.h, t.nd, true), if t.op.Deq? then Dequeue(At(q, t.nd).val) else Silent))
  {
    var v := VarOf(q, t.op);
    var w := SetCell(v, t.h.ver + 1, t.nd);
    StoreSucceedsExactly(q, t.op, t.h);
    StoredVar(q, v, w, t.h.ver, t.nd);
    StoresNext(q, t.op, w);
    StoredKnows(q, t, w);
    Turns(q, t, Result(SetVar(q, t.op, w), ScRead(t.op, t.h, t.nd, true), if t.op.Deq? then Dequeue(At(q, t.nd).val) else Silent));
  }

  lemma StoredKnows(q: Queue, t: Thread, w: Var)
    requires Inv(q) && Knows(q, t) && t.ScCas? && w.entry == VarOf(q, t.op).entry && Stores(q, w) == t.h.ver + 1
    requires Effect(q, SetVar(q, t.op, w), if t.op.Enq? then Silent else Dequeue(At(q, t.nd).val), None)
    ensures Stored(SetVar(q, t.op, w), t.op, t.h, t.nd)
  {
    var r := SetVar(q, t.op, w);
    SameChain(q, r);
  }

  lemma StoresAhead(q: Queue, v: Var, h: Hold)
    requires VarInv(q, v) && Holds(q, v, h) && Stores(q, v) != h.ver
    ensures h.ver < Stores(q, v)
  {
  }

  lemma StoredVar(q: Queue, v: Var, w: Var, k: int, nd: int)
    requires ChainInv(q) && VarInv(q, v) && Stores(q, v) == k && v.entry.ver <= k && k + 1 < |q.chain|
    requires 0 <= k <= v.entry.ver
    requires nd == Nth(q, k + 1) && w == SetCell(v, k + 1, nd)
    ensures VarInv(q, w) && w.entry == v.entry && Stores(q, w) == k + 1
  {
    assert Cell(w, k) == Cell(v, k) && Cell(w, k + 1) == nd;
  }

  /** Advancing the version: the other cell already holds the next node. */
  lemma AdvancedVar(q: Queue, v: Var, w: Var)
    requires ChainInv(q) && VarInv(q, v) && v.entry.ver < Stores(q, v)
    requires w.cell0 == v.cell0 && w.cell1 == v.cell1 && w.entry == Entry(v.entry.ver + 1, 0)
    ensures VarInv(q, w) && Stores(q, w) == Stores(q, v)
  {
    var k := v.entry.ver;
    assert Cell(w, k + 1) == Cell(v, k + 1) && Cell(w, k + 2) == Cell(v, k);
    if k + 2 < |q.chain| {
      DifferentPlaces(q, k, k + 2);
    }
  }

  /** A step that changes a variable without storing a node. */
  lemma VarSet(q: Queue, t: Thread, op: Op, w: Var, u: Thread)
    requires Inv(q) && VarInv(q, w) && VarOf(q, op).entry.ver <= w.entry.ver && Stores(q, VarOf(q, op)) == Stores(q, w)
    requires Knows(q, u) && (Mine(u) == None || Mine(u) == Mine(t))
    ensures Keeps(q, t, Result(SetVar(q, op, w), u, Silent))
  {
    ChangesVar(q, op, w);
    Carries(q, t, Result(SetVar(q, op, w), u, Silent));
  }

  lemma AdvanceKeeps(q: Queue, t: Thread)
    requires Inv(q) && Knows(q, t) && t.ScEntry?
    ensures Keeps(q, t, AdvanceStep(q, t))
  {
    if VarOf(q, t.op).entry == t.e {
      Advances(q, t);
    } else {
      AdvanceRetries(q, t);
    }
  }

  lemma Advances(q: Queue, t: Thread)
    requires Inv(q) && Knows(q, t) && t.ScEntry? && VarOf(q, t.op).entry == t.e
    ensures Keeps(q, t, AdvanceStep(q, t))
  {
    Advanced(q, t, VarOf(q, t.op).(entry := Entry(t.e.ver + 1, 0)));
  }

  lemma Advanced(q: Queue, t: Thread, w: Var)
    requires Inv(q) && Knows(q, t) && t.ScEntry? && VarOf(q, t.op).entry == t.e
    requires w == VarOf(q, t.op).(entry := Entry(t.e.ver + 1, 0))
    ensures Keeps(q, t, Result(SetVar(q, t.op, w), TransRead(t.op, t.h, t.nd, t.won, t.e.count), Silent))
  {
    AdvancedVar(q, VarOf(q, t.op), w);
    VarSet(q, t, t.op, w, TransRead(t.op, t.h, t.nd, t.won, t.e.count));
  }

  lemma AdvanceRetries(q: Queue, t: Thread)
    requires Inv(q) && Knows(q, t) && t.ScEntry? && VarOf(q, t.op).entry != t.e
    ensures Keeps(q, t, AdvanceStep(q, t))
  {
    Looks(q, t, Result(q, ScRead(t.op, t.h, t.nd, t.won), Silent));
  }

  /** A step that stores into the exit tag of the node held. */
  lemma ExitSet(q: Queue, t: Thread, h: Hold, e: Exit, u: Thread)
    requires Inv(q) && 0 <= h.ver < |q.chain| && h.node == Nth(q, h.ver)
    requires Knows(q, u) && (Mine(u) == None || Mine(u) == Mine(t))
    ensures Keeps(q, t, Result(PutExit(q, h.node, e), u, Silent))
  {
    SetsExit(q, h.ver, h.node, e);
    Carries(q, t, Result(PutExit(q, h.node, e), u, Silent));
  }

  lemma TransferKeeps(q: Queue, t: Thread)
    requires Inv(q) && Knows(q, t) && t.TransCas?
    ensures Keeps(q, t, TransferStep(q, t))
  {
    if At(q, t.h.node).exit == t.pre {
      TransferAdds(q, t);
    } else {
      TransferRetries(q, t);
    }
  }

  lemma TransferAdds(q: Queue, t: Thread)
    requires Inv(q) && Knows(q, t) && t.TransCas? && At(q, t.h.node).exit == t.pre
    ensures Keeps(q, t, TransferStep(q, t))
  {
    TransferSets(q, t, Exit(t.pre.count + t.count, t.pre.left - 1));
  }

  lemma TransferSets(q: Queue, t: Thread, e: Exit)
    requires Inv(q) && Knows(q, t) && t.TransCas?
    ensures Keeps(q, t, Result(PutExit(q, t.h.node, e), ScRead(t.op, t.h, t.nd, t.won), Silent))
  {
    ExitSet(q, t, t.h, e, ScRead(t.op, t.h, t.nd, t.won));
  }

  lemma TransferRetries(q: Queue, t: Thread)
    requires Inv(q) && Knows(q, t) && t.TransCas? && At(q, t.h.node).exit != t.pre
    ensures Keeps(q, t, TransferStep(q, t))
  {
    Looks(q, t, Result(q, TransRead(t.op, t.h, t.nd, t.won, t.count), Silent));
  }

  lemma ReleaseKeeps(q: Queue, t: Thread)
    requires Inv(q) && Knows(q, t) && t.RelCas?
    ensures Keeps(q, t, ReleaseStep(q, t))
  {
    if At(q, t.h.node).exit == t.pre {
      ReleaseTakes(q, t);
    } else {
      ReleaseRetries(q, t);
    }
  }

  lemma ReleaseTakes(q: Queue, t: Thread)
    requires Inv(q) && Knows(q, t) && t.RelCas? && At(q, t.h.node).exit == t.pre
    ensures Keeps(q, t, ReleaseStep(q, t))
  {
    ReleaseSets(q, t, Exit(t.pre.count - 1, t.pre.left));
  }

  lemma ReleaseSets(q: Queue, t: Thread, e: Exit)
    requires Inv(q) && Knows(q, t) && t.RelCas?
    ensures Keeps(q, t, Result(PutExit(q, t.h.node, e), Released(q, t.op, t.nd, t.won), Silent))
  {
    ReleasedKnows(q, t.op, t.h, t.nd, t.won);
    ExitSet(q, t, t.h, e, Released(q, t.op, t.nd, t.won));
  }

  lemma ReleaseRetries(q: Queue, t: Thread)
    requires Inv(q) && Knows(q, t) && t.RelCas? && At(q, t.h.node).exit != t.pre
    ensures Keeps(q, t, ReleaseStep(q, t))
  {
    Looks(q, t, Result(q, RelRead(t.op, t.h, t.nd, t.won), Silent));
  }

  lemma ReleasedKnows(q: Queue, op: Op, h: Hold, nd: int, won: bool)
    requires Leaving(q, op, h, nd)
    ensures
      var u := Released(q, op, nd, won);
      Knows(q, u) && (Mine(u) == None || (op.Enq? && !op.linked && Mine(u) == Some(op.nd)))
  {
  }

  lemma ScanKeeps(q: Queue, t: Thread)
    requires Inv(q) && Knows(q, t) && (t.ScPred? || t.ScRead? || t.TransRead? || t.RelRead?)
    ensures Keeps(q, t, SCStep(q, t))
  {
    match t {
      case ScPred(op, h, nd) =>
        NextIs(q, h.ver);
        Looks(q, t, Result(q, ScCas(op, h, nd, At(q, h.node).pred), Silent));
      case ScRead(op, h, nd, won) => ReadKeeps(q, t);
      case TransRead(op, h, nd, won, count) => Looks(q, t, Result(q, TransCas(op, h, nd, won, count, At(q, h.node).exit), Silent));
      case RelRead(op, h, nd, won) => Looks(q, t, Result(q, RelCas(op, h, nd, won, At(q, h.node).exit), Silent));
    }
  }

  lemma ReadKeeps(q: Queue, t: Thread)
    requires Inv(q) && Knows(q, t) && t.ScRead?
    ensures Keeps(q, t, SCStep(q, t))
  {
    var e := VarOf(q, t.op).entry;
    if e.ver == t.h.ver {
      Looks(q, t, Result(q, ScEntry(t.op, t.h, t.nd, t.won, e), Silent));
    } else {
      Looks(q, t, Result(q, RelRead(t.op, t.h, t.nd, t.won), Silent));
    }
  }

  lemma SCKeeps(q: Queue, t: Thread)
    requires Inv(q) && Knows(q, t)
    requires t.ScPred? || t.ScCas? || t.ScRead? || t.ScEntry? || t.TransRead? || t.TransCas? || t.RelRead? || t.RelCas?
    ensures Keeps(q, t, SCStep(q, t))
  {
    if t.ScCas? {
      StoreKeeps(q, t);
    } else if t.TransCas? {
      TransferKeeps(q, t);
    } else if t.RelCas? {
      ReleaseKeeps(q, t);
    } else if t.ScEntry? {
      AdvanceKeeps(q, t);
    } else {
      ScanKeeps(q, t);
    }
  }

  lemma StepKeeps(q: Queue, t: Thread, c: Choice)
    requires Inv(q) && Knows(q, t)
    ensures Keeps(q, t, Step(q, t, c))
  {
    if t.Outside? || t.Done? {
      if t.Outside? && c.CallEnq? {
        Allocates(q, c.v);
      } else {
        Looks(q, t, Step(q, t, c));
      }
    } else if t.LLRead? || t.LLNode? || t.LLCas? {
      LLKeeps(q, t);
    } else if t.SetPred? || t.LinkCas? || t.NextRead? || t.UnlinkRead? || t.UnlinkCas? {
      BodyKeeps(q, t);
    } else {
      SCKeeps(q, t);
    }
  }
}
