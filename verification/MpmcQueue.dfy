/** The lock-free bounded queue as a transition system: one step per access to
    shared memory, any number of threads, every interleaving.
    A ticket is a value of `enqueue_pos` or `dequeue_pos` claimed by a successful
    compare-and-swap. */
module MpmcQueue {
  import opened Wrappers

  /** Where a call stands: the shared access it makes next. */
  datatype Pc =
    | Load      // first load of the position counter
    | ReadSeq   // load of the cell's sequence
    | Cas       // compare-and-swap on the position counter
    | Reload    // load of the position counter after finding it stale
    | Access    // write or read of the cell's data, after winning the ticket
    | Store     // store of the cell's sequence

  /** A call in flight. `start` and `retries` only count: the position first loaded
      and how often the loop has gone round. */
  datatype Call<T> = Call(op: Op<T>, pc: Pc, pos: nat, start: nat, retries: nat)

  datatype Op<T> = Push(arg: T) | Pop(got: Option<T>)

  datatype Cell<T> = Cell(sequence: nat, data: T)

  /** `pushed[p]` is the value whose push won ticket `p`; `popped[p]` the value that
      the pop with ticket `p` took out. Both only record history. */
  datatype State<T> = State(
    n: nat, enq: nat, deq: nat, cells: seq<Cell<T>>, calls: map<nat, Call<T>>,
    pushed: seq<T>, popped: map<nat, T>)

  /** `pos & m_buffer_mask` for a buffer of `n` cells. */
  function Slot(pos: nat, n: nat): (c: nat)
    requires n > 0
    ensures c < n
  {
    if pos < n then pos else Slot(pos - n, n)
  }

  lemma {:induction false} SlotPeriod(p: nat, q: nat, n: nat)
    requires n > 0 && Slot(p, n) == Slot(q, n) && p < q
    ensures p + n <= q
    decreases q
  {
    if p >= n {
      SlotPeriod(p - n, q - n, n);
    }
  }

  /** Tickets that share a cell are equal or at least a round apart. */
  lemma SameSlot(p: nat, q: nat, n: nat)
    requires n > 0
    ensures Slot(p, n) == Slot(q, n) ==> p == q || p + n <= q || q + n <= p
  {
    if Slot(p, n) == Slot(q, n) && p < q {
      SlotPeriod(p, q, n);
    } else if Slot(p, n) == Slot(q, n) && q < p {
      SlotPeriod(q, p, n);
    }
  }

  // -------------------------------------------------------------- the steps

  predicate Init<T>(s: State<T>) {
    && s.n >= 2 && s.enq == 0 && s.deq == 0 && s.calls == map[] && s.pushed == [] && s.popped == map[]
    && |s.cells| == s.n && forall i :: 0 <= i < s.n ==> s.cells[i].sequence == i
  }

  predicate Shaped<T>(s: State<T>) {
    s.n >= 2 && |s.cells| == s.n
  }

  function CellOf<T>(s: State<T>, pos: nat): Cell<T>
    requires Shaped(s)
  {
    s.cells[Slot(pos, s.n)]
  }

  function SetCall<T>(s: State<T>, id: nat, c: Call<T>): State<T> {
    s.(calls := s.calls[id := c])
  }

  function EndCall<T>(s: State<T>, id: nat): State<T> {
    s.(calls := s.calls - {id})
  }

  function SetCell<T>(s: State<T>, pos: nat, c: Cell<T>): State<T>
    requires Shaped(s)
  {
    s.(cells := s.cells[Slot(pos, s.n) := c])
  }

  /** The counter a call works on. */
  function Counter<T>(s: State<T>, c: Call<T>): nat {
    if c.op.Push? then s.enq else s.deq
  }

  /** The sequence value that lets a call claim ticket `pos`. */
  function Expected<T>(c: Call<T>): nat {
    if c.op.Push? then c.pos else c.pos + 1
  }

  /** The step that call `id` takes next. */
  function Step<T>(s: State<T>, id: nat): State<T>
    requires Shaped(s) && id in s.calls
  {
    var c := s.calls[id];
    match c.pc
    case Load => SetCall(s, id, c.(pc := ReadSeq, pos := Counter(s, c), start := Counter(s, c)))
    case ReadSeq =>
      var sequence := CellOf(s, c.pos).sequence;
      if sequence == Expected(c) then SetCall(s, id, c.(pc := Cas))
      else if sequence < Expected(c) then EndCall(s, id)
      else SetCall(s, id, c.(pc := Reload))
    case Cas =>
      if Counter(s, c) != c.pos then
        SetCall(s, id, c.(pc := ReadSeq, pos := Counter(s, c), retries := c.retries + 1))
      else if c.op.Push? then
        SetCall(s, id, c.(pc := Access)).(enq := c.pos + 1, pushed := s.pushed + [c.op.arg])
      else SetCall(s, id, c.(pc := Access)).(deq := c.pos + 1)
    case Reload =>
      SetCall(s, id, c.(pc := ReadSeq, pos := Counter(s, c), retries := c.retries + 1))
    case Access =>
      if c.op.Push? then SetCell(SetCall(s, id, c.(pc := Store)), c.pos, CellOf(s, c.pos).(data := c.op.arg))
      else SetCall(s, id, c.(pc := Store, op := Pop(Some(CellOf(s, c.pos).data))))
             .(popped := s.popped[c.pos := CellOf(s, c.pos).data])
    case Store =>
      SetCell(EndCall(s, id), c.pos,
              CellOf(s, c.pos).(sequence := if c.op.Push? then c.pos + 1 else c.pos + s.n))
  }

  /** A new call may begin on any idle thread; a call in flight takes its next step. */
  predicate Next<T(==)>(s: State<T>, s': State<T>, id: nat, call: Call<T>)
    requires Shaped(s)
  {
    if id in s.calls then s' == Step(s, id)
    else call.pc == Load && call.retries == 0 && (call.op.Pop? ==> call.op.got == None)
         && s' == SetCall(s, id, call)
  }

  // ---------------------------------------------------------- the invariant

  /** The ticket a cell is serving: free for it, or holding its value. */
  function Turn<T>(s: State<T>, c: nat): nat
    requires Shaped(s) && c < s.n
  {
    var q := s.cells[c].sequence;
    if Slot(q, s.n) == c then q else if q == 0 then 0 else q - 1
  }

  predicate Free<T>(s: State<T>, c: nat)
    requires Shaped(s) && c < s.n
  {
    s.cells[c].sequence == Turn(s, c)
  }

  predicate CellInv<T(==)>(s: State<T>, c: nat)
    requires Shaped(s) && c < s.n
  {
    var t := Turn(s, c);
    && Slot(t, s.n) == c && s.cells[c].sequence <= t + 1 && s.cells[c].sequence >= t
    && t < s.deq + s.n && s.enq <= t + s.n && s.deq <= t + s.n
    && (Free(s, c) ==> s.deq <= t)
    && (!Free(s, c) ==> t < s.enq)
    && (!Free(s, c) && s.deq <= t < |s.pushed| ==> s.cells[c].data == s.pushed[t])
  }

  /** A call that has won ticket `pos` and not yet given its cell back. */
  predicate Owns<T>(c: Call<T>) {
    c.pc == Access || c.pc == Store
  }

  predicate CallInv<T(==)>(s: State<T>, c: Call<T>)
    requires Shaped(s)
  {
    && (c.pc != Load ==> c.pos <= Counter(s, c) && c.start + c.retries <= c.pos)
    && (c.pc == Load ==> c.retries == 0)
    && (c.pc == Cas ==> CellOf(s, c.pos).sequence >= Expected(c))
    && (c.pc == Reload ==> c.pos < Counter(s, c))
    && (Owns(c) ==>
      c.pos < Counter(s, c) && c.pos < |s.pushed| && CellOf(s, c.pos).sequence == Expected(c))
    && (c.op.Push? && Owns(c) ==> s.pushed[c.pos] == c.op.arg)
    && (c.op.Push? && c.pc == Store ==> CellOf(s, c.pos).data == c.op.arg)
    && (c.op.Pop? && c.pc == Access ==> CellOf(s, c.pos).data == s.pushed[c.pos] && c.pos !in s.popped)
    && (c.op.Pop? && c.pc == Store ==> c.op.got == Some(s.pushed[c.pos]))
  }

  /** Two calls of the same kind never own the same ticket. */
  predicate Exclusive<T>(a: Call<T>, b: Call<T>) {
    Owns(a) && Owns(b) && a.op.Push? == b.op.Push? ==> a.pos != b.pos
  }

  predicate Inv<T(==)>(s: State<T>) {
    && Shaped(s) && s.deq <= s.enq == |s.pushed|
    && (forall c :: 0 <= c < s.n ==> CellInv(s, c))
    && (forall id :: id in s.calls ==> CallInv(s, s.calls[id]))
    && (forall i, j :: i in s.calls && j in s.calls && i != j ==> Exclusive(s.calls[i], s.calls[j]))
    && (forall p :: p in s.popped ==> p < s.deq && s.popped[p] == s.pushed[p])
  }

  lemma InitInv<T>(s: State<T>)
    requires Init(s)
    ensures Inv(s)
  {
    forall c | 0 <= c < s.n ensures CellInv(s, c) {
      assert Slot(c, s.n) == c;
    }
  }

  // ------------------------------------------------ what a cell's sequence means

  /** The number of claimed tickets never exceeds the buffer. */
  lemma Bounded<T>(s: State<T>)
    requires Inv(s)
    ensures s.deq <= s.enq <= s.deq + s.n
  {
    var c := Slot(s.deq, s.n);
    var t := Turn(s, c);
    assert CellInv(s, c);
    SameSlot(s.deq, t, s.n);
  }

  /** A compare-and-swap that succeeds on `pos` finds the cell's sequence exactly as
      it was read before: there is no ABA. */
  lemma NoAba<T>(s: State<T>, c: Call<T>)
    requires Inv(s) && CallInv(s, c) && c.pc == Cas && Counter(s, c) == c.pos
    ensures CellOf(s, c.pos).sequence == Expected(c)
    ensures Turn(s, Slot(c.pos, s.n)) == c.pos && (Free(s, Slot(c.pos, s.n)) <==> c.op.Push?)
  {
    var k := Slot(c.pos, s.n);
    var t := Turn(s, k);
    assert CellInv(s, k);
    SameSlot(c.pos, t, s.n);
  }

  /** A sequence beyond the expected one means that another call has claimed the
      ticket: going round the loop is always some other call's progress. */
  lemma StaleTicket<T>(s: State<T>, c: Call<T>)
    requires Inv(s) && c.pos <= Counter(s, c) && CellOf(s, c.pos).sequence > Expected(c)
    ensures c.pos < Counter(s, c)
  {
    var k := Slot(c.pos, s.n);
    assert CellInv(s, k);
    SameSlot(c.pos, Turn(s, k), s.n);
  }

  /** A push reports "full" exactly when its ticket is still the next one and the
      ticket one round earlier has not been given back: its value is not yet written,
      not yet claimed, or not yet released by the pop that claimed it. */
  lemma PushRefused<T>(s: State<T>, c: Call<T>)
    requires Inv(s) && c.op.Push? && c.pos <= s.enq
    ensures CellOf(s, c.pos).sequence < c.pos <==>
      s.enq == c.pos && s.n <= c.pos && Turn(s, Slot(c.pos, s.n)) == c.pos - s.n
  {
    var k := Slot(c.pos, s.n);
    assert CellInv(s, k);
    SameSlot(c.pos, Turn(s, k), s.n);
  }

  /** A pop reports "empty" exactly when its ticket is still the next one and no
      value has been published for it. */
  lemma PopRefused<T>(s: State<T>, c: Call<T>)
    requires Inv(s) && c.op.Pop? && c.pos <= s.deq
    ensures CellOf(s, c.pos).sequence < c.pos + 1 <==>
      s.deq == c.pos && !(Turn(s, Slot(c.pos, s.n)) == c.pos && !Free(s, Slot(c.pos, s.n)))
  {
    var k := Slot(c.pos, s.n);
    assert CellInv(s, k);
    SameSlot(c.pos, Turn(s, k), s.n);
  }

  // ------------------------------------------------- every step keeps the invariant

  /** What one step may do to the shared memory another call relies on. */
  predicate Keeps<T(==)>(s: State<T>, s': State<T>, c: Call<T>)
    requires Shaped(s) && Shaped(s') && s.n == s'.n
  {
    && s.enq <= s'.enq && s.deq <= s'.deq && s.pushed <= s'.pushed
    && CellOf(s', c.pos).sequence >= CellOf(s, c.pos).sequence
    && (Owns(c) ==> CellOf(s', c.pos) == CellOf(s, c.pos))
    && (c.op.Pop? && c.pc == Access && c.pos in s'.popped ==> c.pos in s.popped)
  }

  lemma CallKept<T>(s: State<T>, s': State<T>, c: Call<T>)
    requires Shaped(s) && Shaped(s') && s.n == s'.n && Keeps(s, s', c)
    requires CallInv(s, c)
    ensures CallInv(s', c)
  {
  }

  /** A step that leaves the cells, the counters and the history alone. */
  lemma LocalStep<T>(s: State<T>, s': State<T>, id: nat)
    requires Inv(s) && s' == s.(calls := s'.calls)
    requires s'.calls == (if id in s'.calls then s.calls[id := s'.calls[id]] else s.calls - {id})
    requires id in s'.calls ==> CallInv(s', s'.calls[id]) && !Owns(s'.calls[id])
    ensures Inv(s')
  {
    forall c | 0 <= c < s.n ensures CellInv(s', c) {
      assert CellInv(s, c);
    }
    forall i | i in s'.calls ensures CallInv(s', s'.calls[i]) {
      if i != id {
        CallKept(s, s', s.calls[i]);
      }
    }
    forall i, j | i in s'.calls && j in s'.calls && i != j ensures Exclusive(s'.calls[i], s'.calls[j]) {
      if i != id && j != id {
        assert Exclusive(s.calls[i], s.calls[j]);
      }
    }
  }

  /** A successful compare-and-swap by a push. */
  lemma PushClaims<T>(s: State<T>, id: nat)
    requires Inv(s) && id in s.calls && s.calls[id].op.Push? && s.calls[id].pc == Cas && s.enq == s.calls[id].pos
    ensures Inv(Step(s, id))
  {
    var c, s' := s.calls[id], Step(s, id);
    NoAba(s, c);
    forall k | 0 <= k < s.n ensures CellInv(s', k) {
      assert CellInv(s, k);
      SameSlot(Turn(s, k) + s.n, s.enq, s.n);
      assert Slot(Turn(s, k) + s.n, s.n) == k;
      assert s'.cells[k] == s.cells[k] && Turn(s', k) == Turn(s, k);
    }
    forall i | i in s'.calls ensures CallInv(s', s'.calls[i]) {
      if i != id {
        CallKept(s, s', s.calls[i]);
      }
    }
    forall i, j | i in s'.calls && j in s'.calls && i != j ensures Exclusive(s'.calls[i], s'.calls[j]) {
      assert CallInv(s, s.calls[i]) && CallInv(s, s.calls[j]);
      assert Exclusive(s.calls[i], s.calls[j]);
    }
  }

  /** A successful compare-and-swap by a pop. */
  lemma PopClaims<T>(s: State<T>, id: nat)
    requires Inv(s) && id in s.calls && s.calls[id].op.Pop? && s.calls[id].pc == Cas && s.deq == s.calls[id].pos
    ensures Inv(Step(s, id))
  {
    var c, s' := s.calls[id], Step(s, id);
    var k := Slot(c.pos, s.n);
    NoAba(s, c);
    assert CellInv(s, k);
    forall m | 0 <= m < s.n ensures CellInv(s', m) {
      assert CellInv(s, m);
      assert Slot(Turn(s, m) + s.n, s.n) == m;
      assert Turn(s', m) == Turn(s, m);
    }
    forall i | i in s'.calls ensures CallInv(s', s'.calls[i]) {
      if i != id {
        CallKept(s, s', s.calls[i]);
      }
    }
    forall i, j | i in s'.calls && j in s'.calls && i != j ensures Exclusive(s'.calls[i], s'.calls[j]) {
      assert CallInv(s, s.calls[i]) && CallInv(s, s.calls[j]);
      assert Exclusive(s.calls[i], s.calls[j]);
    }
  }

  /** The cell of an owned ticket, and who else could own it. */
  lemma OwnedCell<T>(s: State<T>, id: nat)
    requires Inv(s) && id in s.calls && Owns(s.calls[id])
    ensures var c := s.calls[id]; var k := Slot(c.pos, s.n);
      Turn(s, k) == c.pos && (Free(s, k) <==> c.op.Push?)
    ensures forall j :: j in s.calls && j != id && Owns(s.calls[j]) ==>
      Slot(s.calls[j].pos, s.n) != Slot(s.calls[id].pos, s.n)
  {
    var c := s.calls[id];
    var k := Slot(c.pos, s.n);
    assert CallInv(s, c) && CellInv(s, k);
    SameSlot(c.pos, Turn(s, k), s.n);
    forall j | j in s.calls && j != id && Owns(s.calls[j])
      ensures Slot(s.calls[j].pos, s.n) != k
    {
      assert CallInv(s, s.calls[j]) && Exclusive(c, s.calls[j]);
      SameSlot(c.pos, s.calls[j].pos, s.n);
    }
  }

  lemma OtherCells<T>(s: State<T>, id: nat)
    requires Inv(s) && id in s.calls && Owns(s.calls[id])
    ensures Shaped(Step(s, id)) && Step(s, id).n == s.n
    ensures forall m :: 0 <= m < s.n && m != Slot(s.calls[id].pos, s.n) ==> CellInv(Step(s, id), m)
  {
    hide Slot;
    var c, s' := s.calls[id], Step(s, id);
    var k := Slot(c.pos, s.n);
    forall m | 0 <= m < s.n && m != k ensures CellInv(s', m) {
      assert CellInv(s, m);
      assert s'.cells[m] == s.cells[m] && Turn(s', m) == Turn(s, m);
    }
  }

  lemma OtherCall<T>(s: State<T>, id: nat, i: nat)
    requires Inv(s) && id in s.calls && Owns(s.calls[id]) && i in s.calls && i != id
    ensures Shaped(Step(s, id)) && CallInv(Step(s, id), s.calls[i])
  {
    hide Slot, CellInv, Turn, Free;
    OwnedCell(s, id);
    assert CallInv(s, s.calls[id]) && CallInv(s, s.calls[i]) && Exclusive(s.calls[i], s.calls[id]);
    CallKept(s, Step(s, id), s.calls[i]);
  }

  /** Steps of an owner change only the cell it owns. */
  lemma OwnerStep<T>(s: State<T>, id: nat)
    requires Inv(s) && id in s.calls && Owns(s.calls[id])
    requires id in Step(s, id).calls ==> CallInv(Step(s, id), Step(s, id).calls[id])
    requires CellInv(Step(s, id), Slot(s.calls[id].pos, s.n))
    ensures Inv(Step(s, id))
  {
    hide Slot, CellInv;
    var c, s' := s.calls[id], Step(s, id);
    OtherCells(s, id);
    assert CallInv(s, c);
    forall i | i in s'.calls ensures CallInv(s', s'.calls[i]) {
      if i != id {
        OtherCall(s, id, i);
      }
    }
    forall i, j | i in s'.calls && j in s'.calls && i != j ensures Exclusive(s'.calls[i], s'.calls[j]) {
      assert Exclusive(s.calls[i], s.calls[j]);
    }
  }

  /** Writing or reading the data of the owned cell. */
  lemma AccessStep<T>(s: State<T>, id: nat)
    requires Inv(s) && id in s.calls && s.calls[id].pc == Access
    ensures Inv(Step(s, id))
  {
    hide Slot;
    var c, s' := s.calls[id], Step(s, id);
    var k := Slot(c.pos, s.n);
    OwnedCell(s, id);
    assert CallInv(s, c) && CellInv(s, k);
    assert s'.cells[k].sequence == s.cells[k].sequence && Turn(s', k) == Turn(s, k);
    OwnerStep(s, id);
  }

  /** Publishing a pushed value, or handing a popped cell to the ticket one round on. */
  lemma StoreStep<T>(s: State<T>, id: nat)
    requires Inv(s) && id in s.calls && s.calls[id].pc == Store
    ensures Inv(Step(s, id))
  {
    var c, s' := s.calls[id], Step(s, id);
    var k := Slot(c.pos, s.n);
    OwnedCell(s, id);
    assert CallInv(s, c) && CellInv(s, k);
    if c.op.Push? {
      SameSlot(c.pos, c.pos + 1, s.n);
      assert Turn(s', k) == c.pos;
    } else {
      assert Slot(c.pos + s.n, s.n) == k;
      assert Turn(s', k) == c.pos + s.n;
    }
    OwnerStep(s, id);
  }

  lemma StepInv<T>(s: State<T>, id: nat)
    requires Inv(s) && id in s.calls
    ensures Inv(Step(s, id))
  {
    hide Slot, CellInv;
    var c := s.calls[id];
    assert CallInv(s, c);
    match c.pc
    case Load => LocalStep(s, Step(s, id), id);
    case ReadSeq =>
      if CellOf(s, c.pos).sequence > Expected(c) {
        StaleTicket(s, c);
      }
      LocalStep(s, Step(s, id), id);
    case Reload => LocalStep(s, Step(s, id), id);
    case Cas =>
      if Counter(s, c) != c.pos {
        LocalStep(s, Step(s, id), id);
      } else if c.op.Push? {
        PushClaims(s, id);
      } else {
        PopClaims(s, id);
      }
    case Access => AccessStep(s, id);
    case Store => StoreStep(s, id);
  }

  /** Every step of every thread keeps the invariant. */
  lemma NextInv<T>(s: State<T>, s': State<T>, id: nat, call: Call<T>)
    requires Inv(s) && Next(s, s', id, call)
    ensures Inv(s')
  {
    if id in s.calls {
      StepInv(s, id);
    } else {
      LocalStep(s, s', id);
    }
  }

  // ------------------------------------------------------------- whole runs

  /** One step of an interleaving: which thread moves, and what it calls if idle. */
  datatype Move<T> = Move(id: nat, call: Call<T>)

  predicate Linked<T(==)>(run: seq<State<T>>, moves: seq<Move<T>>, i: nat) {
    i < |moves| && i + 1 < |run| && Shaped(run[i]) && Next(run[i], run[i + 1], moves[i].id, moves[i].call)
  }

  /** `run` is a sequence of states linked by `moves`. */
  predicate IsRun<T(==)>(run: seq<State<T>>, moves: seq<Move<T>>) {
    && |run| == |moves| + 1 && Init(run[0])
    && forall i :: 0 <= i < |moves| ==> Linked(run, moves, i)
  }

  lemma {:induction false} RunInv<T>(run: seq<State<T>>, moves: seq<Move<T>>, i: nat)
    requires IsRun(run, moves) && i < |run|
    ensures Inv(run[i])
  {
    if i == 0 {
      InitInv(run[0]);
    } else {
      RunInv(run, moves, i - 1);
      assert Linked(run, moves, i - 1);
      NextInv(run[i - 1], run[i], moves[i - 1].id, moves[i - 1].call);
    }
  }

  lemma RunStep<T>(run: seq<State<T>>, moves: seq<Move<T>>, i: nat)
    requires IsRun(run, moves) && i < |moves|
    ensures Inv(run[i]) && Inv(run[i + 1]) && Next(run[i], run[i + 1], moves[i].id, moves[i].call)
  {
    hide Inv, Next, Init;
    assert Linked(run, moves, i);
    RunInv(run, moves, i);
    RunInv(run, moves, i + 1);
  }

  // -------------------------------------------------------- nothing is lost

  /** Some call in flight owns ticket `p` of the given kind. */
  predicate HasOwner<T>(s: State<T>, push: bool, p: nat) {
    exists id :: id in s.calls && Owns(s.calls[id]) && s.calls[id].op.Push? == push && s.calls[id].pos == p
  }

  predicate Taking<T>(s: State<T>, p: nat) {
    exists id :: id in s.calls && s.calls[id].pc == Access && s.calls[id].op.Pop? && s.calls[id].pos == p
  }

  /** Every claimed ticket whose cell still waits belongs to a call in flight, and
      every ticket claimed for popping has been taken out or is being taken out. */
  predicate Complete<T>(s: State<T>)
    requires Shaped(s)
  {
    && (forall k :: 0 <= k < s.n && Free(s, k) && Turn(s, k) < s.enq ==> HasOwner(s, true, Turn(s, k)))
    && (forall k :: 0 <= k < s.n && !Free(s, k) && Turn(s, k) < s.deq ==> HasOwner(s, false, Turn(s, k)))
    && (forall p :: 0 <= p < s.deq ==> p in s.popped || Taking(s, p))
  }

  /** Ownership survives any step that does not end the owner's call. */
  lemma OwnerStays<T>(s: State<T>, s': State<T>, push: bool, p: nat)
    requires HasOwner(s, push, p)
    requires forall i :: i in s.calls && Owns(s.calls[i]) && s.calls[i].pos == p && s.calls[i].op.Push? == push ==>
      i in s'.calls && Owns(s'.calls[i]) && s'.calls[i].pos == p && s'.calls[i].op.Push? == push
    ensures HasOwner(s', push, p)
  {
    var i :| i in s.calls && Owns(s.calls[i]) && s.calls[i].op.Push? == push && s.calls[i].pos == p;
    assert i in s'.calls && Owns(s'.calls[i]);
  }

  lemma TakingStays<T>(s: State<T>, s': State<T>, p: nat)
    requires Taking(s, p)
    requires forall i :: i in s.calls && s.calls[i].pc == Access && s.calls[i].op.Pop? && s.calls[i].pos == p ==>
      i in s'.calls && s'.calls[i] == s.calls[i]
    ensures Taking(s', p)
  {
    var i :| i in s.calls && s.calls[i].pc == Access && s.calls[i].op.Pop? && s.calls[i].pos == p;
    assert i in s'.calls && s'.calls[i].pc == Access;
  }

  lemma SameTurns<T>(s: State<T>, id: nat)
    requires Inv(s) && id in s.calls && s.calls[id].pc != Store
    ensures var s' := Step(s, id);
      && Shaped(s') && s'.n == s.n
      && forall k :: 0 <= k < s.n ==> Turn(s', k) == Turn(s, k) && Free(s', k) == Free(s, k)
  {
    hide Slot, CellInv, CallInv;
    var s' := Step(s, id);
    forall k | 0 <= k < s.n ensures Turn(s', k) == Turn(s, k) && Free(s', k) == Free(s, k) {
      assert s'.cells[k].sequence == s.cells[k].sequence;
    }
  }

  /** Steps that move no cell to another ticket. */
  lemma CompleteSameTurns<T>(s: State<T>, id: nat)
    requires Inv(s) && Complete(s) && id in s.calls && s.calls[id].pc != Store
    ensures Complete(Step(s, id))
  {
    hide Slot, CellInv, CallInv;
    var c, s' := s.calls[id], Step(s, id);
    if c.pc == Cas && Counter(s, c) == c.pos {
      NoAba(s, c);
    }
    SameTurns(s, id);
    hide Turn, Free, HasOwner, Taking;
    forall k | 0 <= k < s.n && Free(s', k) && Turn(s', k) < s'.enq ensures HasOwner(s', true, Turn(s', k)) {
      if Turn(s, k) < s.enq {
        OwnerStays(s, s', true, Turn(s, k));
      } else {
        assert id in s'.calls && Owns(s'.calls[id]) && s'.calls[id].pos == Turn(s', k);
      }
    }
    forall k | 0 <= k < s.n && !Free(s', k) && Turn(s', k) < s'.deq ensures HasOwner(s', false, Turn(s', k)) {
      if Turn(s, k) < s.deq {
        OwnerStays(s, s', false, Turn(s, k));
      } else {
        assert id in s'.calls && Owns(s'.calls[id]) && s'.calls[id].pos == Turn(s', k);
      }
    }
    CompleteTaken(s, id);
  }

  lemma CompleteTaken<T>(s: State<T>, id: nat)
    requires Inv(s) && Complete(s) && id in s.calls
    ensures var s' := Step(s, id); forall p :: 0 <= p < s'.deq ==> p in s'.popped || Taking(s', p)
  {
    hide Slot, CellInv, CallInv;
    var c, s' := s.calls[id], Step(s, id);
    forall p | 0 <= p < s'.deq ensures p in s'.popped || Taking(s', p) {
      if p == s.deq {
        assert id in s'.calls && s'.calls[id].pc == Access && s'.calls[id].pos == p;
      } else if p !in s'.popped {
        assert p !in s.popped;
        TakingStays(s, s', p);
      }
    }
  }

  lemma CompleteStore<T>(s: State<T>, id: nat)
    requires Inv(s) && Complete(s) && id in s.calls && s.calls[id].pc == Store
    ensures Complete(Step(s, id))
  {
    hide Slot, CellInv, CallInv, Turn, Free, HasOwner, Taking;
    var s' := Step(s, id);
    StoreTurns(s, id);
    forall k | 0 <= k < s.n && Free(s', k) && Turn(s', k) < s'.enq ensures HasOwner(s', true, Turn(s', k)) {
      StoreKeepsOwner(s, id, k, true);
    }
    forall k | 0 <= k < s.n && !Free(s', k) && Turn(s', k) < s'.deq ensures HasOwner(s', false, Turn(s', k)) {
      StoreKeepsOwner(s, id, k, false);
    }
    CompleteTaken(s, id);
  }

  /** A store moves its own cell on, to where no counter has come yet, and no other. */
  lemma StoreTurns<T>(s: State<T>, id: nat)
    requires Inv(s) && id in s.calls && s.calls[id].pc == Store
    ensures var s' := Step(s, id); var k0 := Slot(s.calls[id].pos, s.n);
      && Shaped(s') && s'.n == s.n && s'.enq == s.enq && s'.deq == s.deq
      && (Free(s', k0) ==> Turn(s', k0) >= s.enq) && (!Free(s', k0) ==> Turn(s', k0) >= s.deq)
      && forall k :: 0 <= k < s.n && k != k0 ==> Turn(s', k) == Turn(s, k) && Free(s', k) == Free(s, k)
  {
    var c, s' := s.calls[id], Step(s, id);
    var k0 := Slot(c.pos, s.n);
    OwnedCell(s, id);
    assert CallInv(s, c) && CellInv(s, k0);
    SameSlot(c.pos, c.pos + 1, s.n);
    assert Slot(c.pos + s.n, s.n) == k0;
    assert Turn(s', k0) == if c.op.Push? then c.pos else c.pos + s.n;
    hide Slot, CellInv, CallInv;
    forall k | 0 <= k < s.n && k != k0 ensures Turn(s', k) == Turn(s, k) && Free(s', k) == Free(s, k) {
      assert s'.cells[k] == s.cells[k];
    }
  }

  /** Owners of other cells are not the call that stores. */
  lemma StoreKeepsOwner<T>(s: State<T>, id: nat, k: nat, push: bool)
    requires Inv(s) && id in s.calls && s.calls[id].pc == Store && k < s.n
    requires k != Slot(s.calls[id].pos, s.n) && HasOwner(s, push, Turn(s, k))
    ensures HasOwner(Step(s, id), push, Turn(s, k))
  {
    assert CellInv(s, k);
    OwnerStays(s, Step(s, id), push, Turn(s, k));
  }

  lemma CompleteNext<T>(s: State<T>, s': State<T>, id: nat, call: Call<T>)
    requires Inv(s) && Complete(s) && Next(s, s', id, call)
    ensures Complete(s')
  {
    if id in s.calls {
      if s.calls[id].pc == Store {
        CompleteStore(s, id);
      } else {
        CompleteSameTurns(s, id);
      }
    } else {
      hide Slot, CellInv, CallInv;
      forall k | 0 <= k < s.n ensures Turn(s', k) == Turn(s, k) && Free(s', k) == Free(s, k) {
        assert s'.cells[k].sequence == s.cells[k].sequence;
      }
      forall k | 0 <= k < s.n && Free(s', k) && Turn(s', k) < s'.enq ensures HasOwner(s', true, Turn(s', k)) {
        OwnerStays(s, s', true, Turn(s, k));
      }
      forall k | 0 <= k < s.n && !Free(s', k) && Turn(s', k) < s'.deq ensures HasOwner(s', false, Turn(s', k)) {
        OwnerStays(s, s', false, Turn(s, k));
      }
      forall p | 0 <= p < s'.deq && p !in s'.popped ensures Taking(s', p) {
        TakingStays(s, s', p);
      }
    }
  }

  lemma {:induction false} RunComplete<T>(run: seq<State<T>>, moves: seq<Move<T>>, i: nat)
    requires IsRun(run, moves) && i < |run|
    ensures Shaped(run[i]) && Complete(run[i])
  {
    RunInv(run, moves, i);
    if i == 0 {
      forall k | 0 <= k < run[0].n ensures Turn(run[0], k) == k {
        assert Slot(k, run[0].n) == k;
      }
    } else {
      RunStep(run, moves, i - 1);
      RunComplete(run, moves, i - 1);
      CompleteNext(run[i - 1], run[i], moves[i - 1].id, moves[i - 1].call);
    }
  }

  /** The history of `s` is the beginning of the history of `s'`. */
  predicate Extends<T(==)>(s: State<T>, s': State<T>) {
    && s.pushed <= s'.pushed && s.enq <= s'.enq && s.deq <= s'.deq
    && forall p :: p in s.popped ==> p in s'.popped && s'.popped[p] == s.popped[p]
  }

  lemma ExtendsFurther<T>(a: State<T>, b: State<T>, c: State<T>)
    requires Extends(a, b) && Extends(b, c)
    ensures Extends(a, c)
  {
  }

  lemma HistoryStep<T>(s: State<T>, s': State<T>, id: nat, call: Call<T>)
    requires Inv(s) && Next(s, s', id, call)
    ensures Extends(s, s')
  {
    hide Slot, CellInv, CellOf;
    if id in s.calls {
      assert CallInv(s, s.calls[id]);
    }
  }

  /** History is only ever extended. */
  lemma {:induction false} HistoryGrows<T>(run: seq<State<T>>, moves: seq<Move<T>>, i: nat, j: nat)
    requires IsRun(run, moves) && i <= j < |run|
    ensures Extends(run[i], run[j])
  {
    if i < j {
      hide Inv, Next, Extends;
      HistoryGrows(run, moves, i, j - 1);
      RunStep(run, moves, j - 1);
      HistoryStep(run[j - 1], run[j], moves[j - 1].id, moves[j - 1].call);
      ExtendsFurther(run[i], run[j - 1], run[j]);
    }
  }

  /** The values taken out for tickets 0..m-1, in ticket order. */
  function Popped<T>(s: State<T>, m: nat): (r: seq<T>)
    requires forall p :: 0 <= p < m ==> p in s.popped
    ensures |r| == m && forall p :: 0 <= p < m ==> r[p] == s.popped[p]
  {
    if m == 0 then [] else Popped(s, m - 1) + [s.popped[m - 1]]
  }

  // ------------------------------------------------- from the callers' side

  /** The step of `id` is a compare-and-swap that succeeds. */
  predicate Claims<T>(s: State<T>, id: nat, push: bool) {
    && id in s.calls && s.calls[id].pc == Cas && s.calls[id].op.Push? == push
    && Counter(s, s.calls[id]) == s.calls[id].pos
  }

  /** The thread is in one and the same call from state `j` to state `i`. */
  predicate InFlight<T>(run: seq<State<T>>, id: nat, j: nat, i: nat) {
    i < |run| && forall k :: j <= k <= i ==> id in run[k].calls
  }

  /** The call that `id` is in at state `i` was begun by move `k`, with that move's operation
      and, for a push, that move's argument. */
  predicate BegunBy<T(==)>(run: seq<State<T>>, moves: seq<Move<T>>, i: nat, id: nat, k: nat) {
    && k < i < |run| && k < |moves| && moves[k].id == id && id !in run[k].calls && InFlight(run, id, k + 1, i)
    && run[i].calls[id].op.Push? == moves[k].call.op.Push?
    && (moves[k].call.op.Push? ==> run[i].calls[id].op == moves[k].call.op)
  }

  /** A step leaves the operation of a call as it is, except for what a pop has got. */
  lemma OperationKept<T>(s: State<T>, s': State<T>, mover: nat, call: Call<T>, id: nat)
    requires Shaped(s) && Next(s, s', mover, call) && id in s.calls && id in s'.calls
    ensures s'.calls[id].op.Push? == s.calls[id].op.Push?
    ensures s.calls[id].op.Push? ==> s'.calls[id].op == s.calls[id].op
  {
    hide Slot;
  }

  lemma OperationBegun<T>(s: State<T>, s': State<T>, mover: nat, call: Call<T>, id: nat)
    requires Shaped(s) && Next(s, s', mover, call) && id !in s.calls && id in s'.calls
    ensures mover == id && s'.calls[id].op == call.op
  {
    hide Slot;
  }

  /** Every call in flight is the one that some move began, with that move's argument. */
  lemma {:induction false} CallBegun<T>(run: seq<State<T>>, moves: seq<Move<T>>, i: nat, id: nat) returns (k: nat)
    requires IsRun(run, moves) && i < |run| && id in run[i].calls
    ensures BegunBy(run, moves, i, id, k)
    decreases i
  {
    assert i > 0;
    hide Inv, Next;
    RunStep(run, moves, i - 1);
    var s, m := run[i - 1], moves[i - 1];
    assert Shaped(s) by {
      assert Linked(run, moves, i - 1);
    }
    if id in s.calls {
      k := CallBegun(run, moves, i - 1, id);
      OperationKept(s, run[i], m.id, m.call, id);
    } else {
      OperationBegun(s, run[i], m.id, m.call, id);
      k := i - 1;
    }
  }

  /** Move `k` called push with the value that `pushed` records for ticket `p`, and that same
      call won the ticket in step `j`. */
  predicate PushedBy<T(==)>(run: seq<State<T>>, moves: seq<Move<T>>, i: nat, p: nat, k: nat, j: nat)
    requires i < |run|
  {
    && j < i && j < |moves| && p < |run[i].pushed| && Claims(run[j], moves[j].id, true)
    && run[j].calls[moves[j].id].pos == p && BegunBy(run, moves, j, moves[j].id, k)
    && moves[k].call.op == Push(run[i].pushed[p])
  }

  /** In step `j` the pop that holds ticket `p` took out the value that `popped` records. */
  predicate PoppedBy<T(==)>(run: seq<State<T>>, moves: seq<Move<T>>, i: nat, p: nat, j: nat)
    requires i < |run|
  {
    && j < i && j < |moves| && p in run[i].popped && moves[j].id in run[j].calls && moves[j].id in run[j + 1].calls
    && run[j].calls[moves[j].id].pc == Access && run[j].calls[moves[j].id].op.Pop?
    && run[j].calls[moves[j].id].pos == p
    && run[j + 1].calls[moves[j].id].op == Pop(Some(run[i].popped[p]))
  }

  ghost predicate HasPusher<T>(run: seq<State<T>>, moves: seq<Move<T>>, i: nat, p: nat)
    requires i < |run|
  {
    exists k: nat, j: nat :: PushedBy(run, moves, i, p, k, j)
  }

  ghost predicate HasPopper<T>(run: seq<State<T>>, moves: seq<Move<T>>, i: nat, p: nat)
    requires i < |run|
  {
    exists j: nat :: PoppedBy(run, moves, i, p, j)
  }

  /** What one step adds to the two histories. */
  lemma HistoryAdds<T>(s: State<T>, s': State<T>, id: nat, call: Call<T>)
    requires Inv(s) && Next(s, s', id, call)
    ensures s'.pushed == s.pushed || (Claims(s, id, true) && s.calls[id].pos == |s.pushed|
      && s'.pushed == s.pushed + [s.calls[id].op.arg])
    ensures forall p :: p in s'.popped && p !in s.popped ==>
      && id in s.calls && id in s'.calls && s.calls[id].pc == Access && s.calls[id].op.Pop? && s.calls[id].pos == p
      && s'.calls[id].op == Pop(Some(s'.popped[p]))
  {
    hide Slot, CellInv, CallInv;
  }

  /** Every recorded value is the argument of a push that won the ticket. */
  lemma {:induction false} PushFound<T>(run: seq<State<T>>, moves: seq<Move<T>>, i: nat, p: nat) returns (k: nat, j: nat)
    requires IsRun(run, moves) && i < |run| && p < |run[i].pushed|
    ensures PushedBy(run, moves, i, p, k, j)
    decreases i
  {
    assert i > 0;
    hide Inv, Next;
    RunStep(run, moves, i - 1);
    var s, m := run[i - 1], moves[i - 1];
    HistoryAdds(s, run[i], m.id, m.call);
    if p < |s.pushed| {
      k, j := PushFound(run, moves, i - 1, p);
    } else {
      k := CallBegun(run, moves, i - 1, m.id);
      j := i - 1;
    }
  }

  lemma {:induction false} PopFound<T>(run: seq<State<T>>, moves: seq<Move<T>>, i: nat, p: nat) returns (j: nat)
    requires IsRun(run, moves) && i < |run| && p in run[i].popped
    ensures PoppedBy(run, moves, i, p, j)
    decreases i
  {
    assert i > 0;
    hide Inv, Next;
    RunStep(run, moves, i - 1);
    var s, m := run[i - 1], moves[i - 1];
    HistoryAdds(s, run[i], m.id, m.call);
    HistoryStep(s, run[i], m.id, m.call);
    if p in s.popped {
      j := PopFound(run, moves, i - 1, p);
    } else {
      j := i - 1;
    }
  }

  /** In every interleaving: each value pushed is the argument of the push call that won
      its ticket, the value taken out for ticket p is the value put in for ticket p, and it is
      what the pop with that ticket got. So the values popped in ticket order are a prefix of
      the values pushed in ticket order, and never more than the buffer holds are in between. */
  lemma Fifo<T>(run: seq<State<T>>, moves: seq<Move<T>>, i: nat, m: nat)
    requires IsRun(run, moves) && i < |run| && forall p :: 0 <= p < m ==> p in run[i].popped
    ensures Popped(run[i], m) <= run[i].pushed
    ensures forall p :: p in run[i].popped ==> p < |run[i].pushed| && run[i].popped[p] == run[i].pushed[p]
    ensures forall p :: 0 <= p < |run[i].pushed| ==> HasPusher(run, moves, i, p)
    ensures forall p :: p in run[i].popped ==> HasPopper(run, moves, i, p)
    ensures run[i].deq <= |run[i].pushed| <= run[i].deq + run[i].n
  {
    RunInv(run, moves, i);
    Bounded(run[i]);
    var s := run[i];
    if m > 0 {
      assert m - 1 in s.popped;
    }
    assert Popped(s, m) == s.pushed[..m];
    hide PushedBy, PoppedBy;
    forall p | 0 <= p < |s.pushed| ensures HasPusher(run, moves, i, p) {
      var k, j := PushFound(run, moves, i, p);
    }
    forall p | p in s.popped ensures HasPopper(run, moves, i, p) {
      var j := PopFound(run, moves, i, p);
    }
  }

  /** A call about to return: a push has stored its own argument under its ticket, and a pop
      holds the argument of the push that won the same ticket. */
  lemma ReturnsItsTicket<T>(run: seq<State<T>>, moves: seq<Move<T>>, i: nat, id: nat) returns (k: nat, k': nat, j: nat)
    requires IsRun(run, moves) && i < |run| && id in run[i].calls && run[i].calls[id].pc == Store
    ensures var c := run[i].calls[id];
      && BegunBy(run, moves, i, id, k) && c.pos < |run[i].pushed| && PushedBy(run, moves, i, c.pos, k', j)
      && (c.op.Push? ==> moves[k].call.op == moves[k'].call.op)
      && (c.op.Pop? ==> c.op.got == Some(moves[k'].call.op.arg))
  {
    RunInv(run, moves, i);
    assert CallInv(run[i], run[i].calls[id]);
    k := CallBegun(run, moves, i, id);
    k', j := PushFound(run, moves, i, run[i].calls[id].pos);
  }

  /** When no call is in flight nothing has been lost or duplicated: exactly the
      claimed tickets were taken out, and every other value waits in its cell. */
  lemma NothingLost<T>(run: seq<State<T>>, moves: seq<Move<T>>, i: nat)
    requires IsRun(run, moves) && i < |run| && run[i].calls == map[]
    ensures var s := run[i];
      && (forall p :: p in s.popped <==> 0 <= p < s.deq)
      && (forall p :: s.deq <= p < |s.pushed| ==>
           Shaped(s) && CellOf(s, p) == Cell(p + 1, s.pushed[p]))
    ensures forall p :: 0 <= p < |run[i].pushed| ==> HasPusher(run, moves, i, p)
    ensures forall p :: p in run[i].popped ==> HasPopper(run, moves, i, p)
  {
    var s := run[i];
    Fifo(run, moves, i, 0);
    hide HasPusher, HasPopper;
    RunInv(run, moves, i);
    RunComplete(run, moves, i);
    Bounded(s);
    forall p | 0 <= p < s.deq ensures p in s.popped {
      assert p in s.popped || Taking(s, p);
    }
    forall p | s.deq <= p < |s.pushed| ensures CellOf(s, p) == Cell(p + 1, s.pushed[p]) {
      var k := Slot(p, s.n);
      assert CellInv(s, k);
      SameSlot(p, Turn(s, k), s.n);
      assert !HasOwner(s, true, Turn(s, k)) && !HasOwner(s, false, Turn(s, k));
    }
  }

  /** Each pop takes its ticket's value out once. */
  lemma TakenOnce<T>(s: State<T>, id: nat)
    requires Inv(s) && id in s.calls && s.calls[id].op.Pop? && s.calls[id].pc == Access
    ensures var p := s.calls[id].pos; var s' := Step(s, id);
      && p !in s.popped && p < |s.pushed| && s'.popped == s.popped[p := s.pushed[p]]
      && s'.calls[id].op == Pop(Some(s.pushed[p]))
  {
    assert CallInv(s, s.calls[id]);
  }

  // ------------------------------------------------------------- who is held up

  /** In step `j`, after its `r`-th retry, the call that `id` is in at state `i` loses the
      ticket it holds for the next one: another thread's call of its kind claims it. */
  predicate Beaten<T>(run: seq<State<T>>, moves: seq<Move<T>>, i: nat, id: nat, r: nat, j: nat) {
    && j < i && j < |moves| && InFlight(run, id, j, i) && moves[j].id != id
    && run[j].calls[id].retries == r && run[j].calls[id].pc != Load
    && Claims(run[j], moves[j].id, run[i].calls[id].op.Push?)
    && run[j].calls[moves[j].id].pos == run[j].calls[id].pos
  }

  /** What one step does to the call of another thread, and to the counters. */
  lemma OtherUnmoved<T>(s: State<T>, s': State<T>, mover: nat, call: Call<T>, id: nat)
    requires Inv(s) && Next(s, s', mover, call) && id in s'.calls && (id == mover ==> id !in s.calls)
    ensures id in s.calls ==> s'.calls[id] == s.calls[id]
    ensures id !in s.calls ==> s'.calls[id].pc == Load
    ensures forall c: Call<T> :: Counter(s', c) == Counter(s, c) + if Claims(s, mover, c.op.Push?) then 1 else 0
  {
    hide Slot, CellInv, CallInv;
  }

  ghost predicate Charged<T>(run: seq<State<T>>, moves: seq<Move<T>>, i: nat, id: nat, r: nat) {
    exists j: nat :: Beaten(run, moves, i, id, r, j)
  }

  lemma BeatenLater<T>(run: seq<State<T>>, moves: seq<Move<T>>, i: nat, id: nat, r: nat, j: nat)
    requires i + 1 < |run| && id in run[i].calls && id in run[i + 1].calls && Beaten(run, moves, i, id, r, j)
    requires run[i + 1].calls[id].op.Push? == run[i].calls[id].op.Push?
    ensures Beaten(run, moves, i + 1, id, r, j)
  {
    hide Claims;
  }

  lemma ChargedLater<T>(run: seq<State<T>>, moves: seq<Move<T>>, i: nat, id: nat, r: nat)
    requires Charged(run, moves, i, id, r) && i + 1 < |run| && id in run[i].calls && id in run[i + 1].calls
    requires run[i + 1].calls[id].op.Push? == run[i].calls[id].op.Push?
    ensures Charged(run, moves, i + 1, id, r)
  {
    hide Beaten;
    var j: nat :| Beaten(run, moves, i, id, r, j);
    BeatenLater(run, moves, i, id, r, j);
  }

  /** A step that leaves a call with a ticket already gone was not a load. */
  lemma GoneBefore<T>(s: State<T>, id: nat)
    requires Shaped(s) && id in s.calls && id in Step(s, id).calls
    ensures var o, c := s.calls[id], Step(s, id).calls[id];
      && o.op.Push? == c.op.Push?
      && (c.pc != Load && !Owns(c) && Counter(Step(s, id), c) > c.pos ==>
        o.pc != Load && !Owns(o) && o.pos == c.pos && o.retries == c.retries && Counter(s, o) > o.pos)
  {
    hide Slot;
  }

  /** A call whose ticket is gone has been beaten to it since its last load. */
  lemma {:induction false} TicketGone<T>(run: seq<State<T>>, moves: seq<Move<T>>, i: nat, id: nat) returns (j: nat)
    requires IsRun(run, moves) && i < |run| && id in run[i].calls && !Owns(run[i].calls[id])
    requires run[i].calls[id].pc != Load && Counter(run[i], run[i].calls[id]) > run[i].calls[id].pos
    ensures Beaten(run, moves, i, id, run[i].calls[id].retries, j)
    ensures run[j].calls[id].pos == run[i].calls[id].pos
    decreases i
  {
    hide Slot, CellInv, Turn, Free, Step, Beaten, CellOf;
    var c := run[i].calls[id];
    assert i > 0;
    var s, m := run[i - 1], moves[i - 1];
    RunStep(run, moves, i - 1);
    if m.id == id && id in s.calls {
      GoneBefore(s, id);
      j := TicketGone(run, moves, i - 1, id);
      BeatenLater(run, moves, i - 1, id, c.retries, j);
    } else {
      OtherUnmoved(s, run[i], m.id, m.call, id);
      assert CallInv(s, s.calls[id]);
      if Counter(s, c) > c.pos {
        j := TicketGone(run, moves, i - 1, id);
        BeatenLater(run, moves, i - 1, id, c.retries, j);
      } else {
        j := i - 1;
        BeatenNow(run, moves, i, id);
      }
    }
  }

  lemma BeatenNow<T>(run: seq<State<T>>, moves: seq<Move<T>>, i: nat, id: nat)
    requires 0 < i < |run| && i <= |moves| && id in run[i - 1].calls && id in run[i].calls
    requires run[i].calls[id] == run[i - 1].calls[id] && run[i].calls[id].pc != Load && moves[i - 1].id != id
    requires Claims(run[i - 1], moves[i - 1].id, run[i].calls[id].op.Push?)
    requires Counter(run[i - 1], run[i].calls[id]) == run[i].calls[id].pos
    ensures Beaten(run, moves, i, id, run[i].calls[id].retries, i - 1)
  {
  }

  /** How often the call has gone round before and after its own step. */
  lemma RetryStep<T>(s: State<T>, id: nat)
    requires Inv(s) && id in s.calls && id in Step(s, id).calls
    ensures var o, c := s.calls[id], Step(s, id).calls[id];
      if o.pc == Load then c.retries == 0
      else c.retries == o.retries || (c.retries == o.retries + 1 && !Owns(o) && Counter(s, o) > o.pos)
  {
    hide Slot, CellInv;
    assert CallInv(s, s.calls[id]);
  }

  /** Each retry of a call is some other thread's success: between two loads of the
      counter another call of the kind claimed the very ticket this one was trying for.
      Different retries are charged to different claims, so there are no more of them than
      tickets passed by. */
  lemma {:induction false} RetriesCharged<T>(run: seq<State<T>>, moves: seq<Move<T>>, i: nat, id: nat)
    requires IsRun(run, moves) && i < |run| && id in run[i].calls && run[i].calls[id].pc != Load
    ensures var c := run[i].calls[id]; c.start + c.retries <= c.pos <= Counter(run[i], c)
    ensures forall r :: 0 <= r < run[i].calls[id].retries ==> Charged(run, moves, i, id, r)
    decreases i
  {
    hide Slot, CellInv, Turn, Free, Step, Beaten, CellOf;
    assert i > 0;
    var s, m := run[i - 1], moves[i - 1];
    RunStep(run, moves, i - 1);
    assert CallInv(run[i], run[i].calls[id]);
    var c := run[i].calls[id];
    if m.id == id && id in s.calls {
      RetryStep(s, id);
      GoneBefore(s, id);
    } else {
      OtherUnmoved(s, run[i], m.id, m.call, id);
    }
    if s.calls[id].pc != Load {
      RetriesCharged(run, moves, i - 1, id);
      forall r | 0 <= r < c.retries ensures Charged(run, moves, i, id, r) {
        if r == s.calls[id].retries {
          var j := TicketGone(run, moves, i - 1, id);
          assert Charged(run, moves, i - 1, id, r);
        }
        ChargedLater(run, moves, i - 1, id, r);
      }
    }
  }

  // ------------------------------------------------------------- order in real time

  lemma OwnMove<T>(s: State<T>, s': State<T>, id: nat, call: Call<T>)
    requires Inv(s) && Next(s, s', id, call) && id in s.calls
    ensures s' == Step(s, id)
  {
    hide Step, Inv;
  }

  /** A call's first load fixes where it started. */
  lemma StartStep<T>(s: State<T>, id: nat)
    requires Inv(s) && id in s.calls && id in Step(s, id).calls
    ensures var o, c := s.calls[id], Step(s, id).calls[id];
      c.op.Push? == o.op.Push? && c.start == if o.pc == Load then Counter(s, o) else o.start
  {
    hide Slot, CellInv, CallInv;
  }

  /** A call that begins after state `k` first loads a counter at least as large. */
  lemma {:induction false} LoadedLater<T>(run: seq<State<T>>, moves: seq<Move<T>>, k: nat, j: nat, id: nat)
    requires IsRun(run, moves) && k <= j < |run| && id !in run[k].calls
    requires id in run[j].calls && run[j].calls[id].pc != Load
    ensures Counter(run[k], run[j].calls[id]) <= run[j].calls[id].start
    decreases j
  {
    assert k < j;
    var s, m := run[j - 1], moves[j - 1];
    hide Inv, Next, Step, Claims;
    RunStep(run, moves, j - 1);
    if m.id == id && id in s.calls {
      OwnMove(s, run[j], id, m.call);
      StartStep(s, id);
      if s.calls[id].pc == Load {
        HistoryGrows(run, moves, k, j - 1);
      } else {
        LoadedLater(run, moves, k, j - 1, id);
      }
    } else {
      OtherUnmoved(s, run[j], m.id, m.call, id);
      LoadedLater(run, moves, k, j - 1, id);
    }
  }

  /** Tickets follow real time: a call that begins after another of its kind has won its
      ticket wins a larger one. With `Fifo`, values come out in the order of pushes that
      did not overlap, to pops in the order of their own. */
  lemma TicketsInRealTime<T>(run: seq<State<T>>, moves: seq<Move<T>>, i: nat, k: nat, j: nat, a: nat, b: nat)
    requires IsRun(run, moves) && i <= k <= j < |run|
    requires a in run[i].calls && Owns(run[i].calls[a])
    requires b !in run[k].calls && b in run[j].calls && Owns(run[j].calls[b])
    requires run[i].calls[a].op.Push? == run[j].calls[b].op.Push?
    ensures run[i].calls[a].pos < run[j].calls[b].pos
  {
    RunInv(run, moves, i);
    RunInv(run, moves, j);
    assert CallInv(run[i], run[i].calls[a]) && CallInv(run[j], run[j].calls[b]);
    HistoryGrows(run, moves, i, k);
    LoadedLater(run, moves, k, j, b);
  }

  /** A call returns false in one step only: the sequence read of its cell, where the
      push finds the previous round's ticket unreleased, or the pop finds its own
      ticket unpublished, and the ticket is still the next to be claimed. */
  lemma FalseMeansFullOrEmpty<T>(run: seq<State<T>>, moves: seq<Move<T>>, i: nat)
    requires IsRun(run, moves) && i < |moves| && moves[i].id in run[i].calls
    requires moves[i].id !in run[i + 1].calls && run[i].calls[moves[i].id].pc != Store
    ensures var s := run[i]; var c := s.calls[moves[i].id];
      && Shaped(s) && c.pc == ReadSeq && c.pos == Counter(s, c)
      && (c.op.Push? ==> s.n <= c.pos && Turn(s, Slot(c.pos, s.n)) == c.pos - s.n)
      && (c.op.Pop? ==> !(Turn(s, Slot(c.pos, s.n)) == c.pos && !Free(s, Slot(c.pos, s.n))))
  {
    RunStep(run, moves, i);
    var s := run[i];
    var c := s.calls[moves[i].id];
    assert CallInv(s, c);
    if c.op.Push? {
      PushRefused(s, c);
    } else {
      PopRefused(s, c);
    }
  }

  /** At any moment one call at most may touch a cell's data or sequence: of all the
      calls that own a ticket, no two use the same cell. */
  lemma OneOwnerPerCell<T>(run: seq<State<T>>, moves: seq<Move<T>>, i: nat, a: nat, b: nat)
    requires IsRun(run, moves) && i < |run| && a in run[i].calls && b in run[i].calls && a != b
    requires Owns(run[i].calls[a]) && Owns(run[i].calls[b])
    ensures Shaped(run[i]) && Slot(run[i].calls[a].pos, run[i].n) != Slot(run[i].calls[b].pos, run[i].n)
  {
    RunInv(run, moves, i);
    OwnedCell(run[i], a);
  }

  // ------------------------------------------------------------- one call at a time

  /** The next `k` steps of a thread that runs alone, fewer when its call ends. */
  ghost function Alone<T>(s: State<T>, id: nat, k: nat): (r: State<T>)
    requires Inv(s)
    ensures Inv(r)
    decreases k
  {
    if k == 0 || id !in s.calls then s
    else
      StepInv(s, id);
      Alone(Step(s, id), id, k - 1)
  }

  /** What the queue holds: pushed and not yet claimed by a pop. */
  function Contents<T>(s: State<T>): seq<T>
    requires s.deq <= |s.pushed|
  {
    s.pushed[s.deq..]
  }

  /** With no call in flight, the sequence at the next ticket says whether there is room for
      it, respectively a value in it. */
  lemma QuietSequence<T>(s: State<T>, c: Call<T>)
    requires Inv(s) && Complete(s) && s.calls == map[] && c.pos == Counter(s, c)
    ensures var q := CellOf(s, c.pos).sequence;
      if (if c.op.Push? then |Contents(s)| < s.n else |Contents(s)| > 0) then q == Expected(c) else q < Expected(c)
  {
    var k := Slot(c.pos, s.n);
    assert CellInv(s, k);
    assert !HasOwner(s, true, Turn(s, k)) && !HasOwner(s, false, Turn(s, k));
    SameSlot(c.pos, Turn(s, k), s.n);
    Bounded(s);
  }

  /** A call that runs alone from start to end on a queue with no call in flight is an
      operation of a bounded queue: a push appends its argument or, on a full queue, changes
      nothing, and a pop removes the oldest value or, on an empty queue, changes nothing. */
  lemma AloneIsAtomic<T>(run: seq<State<T>>, moves: seq<Move<T>>, i: nat, id: nat, call: Call<T>)
    requires IsRun(run, moves) && i < |run| && run[i].calls == map[]
    requires call.pc == Load && call.retries == 0 && (call.op.Pop? ==> call.op.got == None)
    ensures var s := run[i]; var begun := SetCall(s, id, call);
      && Inv(s) && Inv(begun) && Alone(begun, id, 5).calls == map[]
      && var q, q' := Contents(s), Contents(Alone(begun, id, 5));
        if call.op.Push? then q' == if |q| < s.n then q + [call.op.arg] else q
        else if q == [] then q' == q
        else q' == q[1..] && id in Alone(begun, id, 4).calls && Alone(begun, id, 4).calls[id].op == Pop(Some(q[0]))
  {
    var s := run[i];
    RunInv(run, moves, i);
    RunComplete(run, moves, i);
    Bounded(s);
    var s0 := SetCall(s, id, call);
    NextInv(s, s0, id, call);
    var c := call.(pc := ReadSeq, pos := Counter(s, call), start := Counter(s, call));
    QuietSequence(s, c);
    AloneSteps(s, id, call, c);
    if call.op.Pop? && |Contents(s)| > 0 {
      NothingLost(run, moves, i);
    }
  }

  lemma AloneOne<T>(s: State<T>, id: nat, k: nat)
    requires Inv(s) && id in s.calls && k > 0
    ensures Inv(Step(s, id)) && Alone(s, id, k) == Alone(Step(s, id), id, k - 1)
  {
    StepInv(s, id);
  }

  lemma AloneOver<T>(s: State<T>, id: nat, k: nat)
    requires Inv(s) && (id !in s.calls || k == 0)
    ensures Alone(s, id, k) == s
  {
  }

  /** The steps, one after the other. */
  lemma AloneSteps<T>(s: State<T>, id: nat, call: Call<T>, c: Call<T>)
    requires Inv(s) && s.calls == map[] && Inv(SetCall(s, id, call)) && call.pc == Load
    requires c == call.(pc := ReadSeq, pos := Counter(s, call), start := Counter(s, call))
    requires CellOf(s, c.pos).sequence <= Expected(c)
    ensures var r := Alone(SetCall(s, id, call), id, 5);
      && r.calls == map[]
      && if CellOf(s, c.pos).sequence < Expected(c) then r == s
         else if call.op.Push? then r.pushed == s.pushed + [call.op.arg] && r.deq == s.deq
         else
           && r.pushed == s.pushed && r.deq == s.deq + 1
           && var t := Alone(SetCall(s, id, call), id, 4);
             id in t.calls && t.calls[id].op == Pop(Some(CellOf(s, c.pos).data))
  {
    InvShaped(s);
    hide Inv, Slot, Alone, Step;
    var s0 := SetCall(s, id, call);
    LoadStep(s, id, call, c);
    AloneOne(s0, id, 5);
    AloneOne(s0, id, 4);
    var s1 := SetCall(s, id, c);
    AloneOne(s1, id, 4);
    AloneOne(s1, id, 3);
    if CellOf(s, c.pos).sequence < Expected(c) {
      RefusedStep(s, id, c);
      AloneOver(s, id, 3);
    } else {
      AloneClaims(s, id, c);
    }
  }

  lemma InvShaped<T>(s: State<T>)
    requires Inv(s)
    ensures Shaped(s)
  {
  }

  lemma LoadStep<T>(s: State<T>, id: nat, call: Call<T>, c: Call<T>)
    requires Shaped(s) && s.calls == map[] && call.pc == Load
    requires c == call.(pc := ReadSeq, pos := Counter(s, call), start := Counter(s, call))
    ensures Step(SetCall(s, id, call), id) == SetCall(s, id, c)
  {
    hide Slot;
    assert SetCall(s, id, call).calls[id := c] == map[id := c];
  }

  lemma RefusedStep<T>(s: State<T>, id: nat, c: Call<T>)
    requires Shaped(s) && s.calls == map[] && c.pc == ReadSeq && CellOf(s, c.pos).sequence < Expected(c)
    ensures Step(SetCall(s, id, c), id) == s
  {
    hide Slot;
    assert SetCall(s, id, c).calls - {id} == map[];
  }

  lemma AloneClaims<T>(s: State<T>, id: nat, c: Call<T>)
    requires Inv(s) && s.calls == map[] && Inv(SetCall(s, id, c)) && c.pc == ReadSeq && c.pos == Counter(s, c)
    requires CellOf(s, c.pos).sequence == Expected(c) && Inv(Step(SetCall(s, id, c), id))
    ensures var s2 := Step(SetCall(s, id, c), id); var r, t := Alone(s2, id, 3), Alone(s2, id, 2);
      && r.calls == map[] && id in t.calls
      && if c.op.Push? then r.pushed == s.pushed + [c.op.arg] && r.deq == s.deq
         else r.pushed == s.pushed && r.deq == s.deq + 1 && t.calls[id].op == Pop(Some(CellOf(s, c.pos).data))
  {
    InvShaped(s);
    hide Inv, Alone, Slot, Step;
    var s2 := Step(SetCall(s, id, c), id);
    AloneOne(s2, id, 3);
    AloneOne(s2, id, 2);
    ClaimStep(s, id, c);
    var s3 := Step(s2, id);
    AloneOne(s3, id, 2);
    AloneOne(s3, id, 1);
    AccessStores(s3, id);
    var s4 := Step(s3, id);
    AloneOver(s4, id, 0);
    AloneOne(s4, id, 1);
    StoreEnds(s4, id);
    AloneOver(Step(s4, id), id, 0);
  }

  lemma ClaimStep<T>(s: State<T>, id: nat, c: Call<T>)
    requires Shaped(s) && s.calls == map[] && c.pc == ReadSeq && c.pos == Counter(s, c)
    requires CellOf(s, c.pos).sequence == Expected(c)
    ensures var s2 := Step(SetCall(s, id, c), id); Shaped(s2) && id in s2.calls
    ensures var r := Step(Step(SetCall(s, id, c), id), id);
      && Shaped(r) && r.calls == map[id := c.(pc := Access)] && r.cells == s.cells && r.n == s.n
      && if c.op.Push? then r.pushed == s.pushed + [c.op.arg] && r.deq == s.deq
         else r.pushed == s.pushed && r.deq == s.deq + 1
  {
    hide Slot;
    var s2 := Step(SetCall(s, id, c), id);
    assert s2 == s.(calls := map[id := c.(pc := Cas)]);
    assert s2.calls[id := c.(pc := Access)] == map[id := c.(pc := Access)];
  }

  lemma AccessStores<T>(s: State<T>, id: nat)
    requires Shaped(s) && id in s.calls && s.calls == map[id := s.calls[id]] && s.calls[id].pc == Access
    ensures var c, r := s.calls[id], Step(s, id);
      && Shaped(r) && id in r.calls && r.calls == map[id := r.calls[id]] && r.calls[id].pc == Store
      && r.pushed == s.pushed && r.deq == s.deq
      && (c.op.Pop? ==> r.calls[id].op == Pop(Some(CellOf(s, c.pos).data)))
  {
    hide Slot;
  }

  lemma StoreEnds<T>(s: State<T>, id: nat)
    requires Shaped(s) && id in s.calls && s.calls == map[id := s.calls[id]] && s.calls[id].pc == Store
    ensures var r := Step(s, id); r.calls == map[] && r.pushed == s.pushed && r.deq == s.deq
  {
    hide Slot;
  }
}
