/** The queue object with no other call in flight: each call is then a call of a
    bounded first-in first-out queue. */
module BoundedQueue {
  import opened Bits
  import opened MpmcQueue
  import opened Wrappers

  /** The bitwise `&` of two natural numbers. */
  function BitAnd(a: nat, b: nat): nat {
    if a == 0 || b == 0 then 0
    else (if a % 2 == 1 && b % 2 == 1 then 1 else 0) + 2 * BitAnd(a / 2, b / 2)
  }

  lemma {:induction false} AndSelf(a: nat)
    ensures BitAnd(a, a) == a
  {
    if a > 0 {
      AndSelf(a / 2);
    }
  }

  lemma {:induction false} AndMask(v: nat, k: nat)
    ensures BitAnd(v, Pow2(k) - 1) == Low(v, k)
  {
    if k > 0 && v > 0 {
      AndMask(v / 2, k - 1);
      assert (Pow2(k) - 1) / 2 == Pow2(k - 1) - 1 && (Pow2(k) - 1) % 2 == 1;
    } else if v == 0 {
      LowOfSmall(0, k);
    }
  }

  ghost predicate IsPowerOfTwo(n: nat) {
    exists k: nat :: n == Pow2(k)
  }

  /** `size & (size - 1)` vanishes exactly for powers of two. */
  lemma {:induction false} PowerOfTwoTest(size: nat)
    requires size > 0
    ensures BitAnd(size, size - 1) == 0 <==> IsPowerOfTwo(size)
  {
    if size == 1 {
      assert size == Pow2(0);
    } else if size % 2 == 1 {
      AndSelf(size / 2);
      forall k: nat ensures size != Pow2(k) {
        assert k > 0 ==> Pow2(k) == 2 * Pow2(k - 1);
      }
    } else {
      PowerOfTwoTest(size / 2);
      assert (size - 1) / 2 == size / 2 - 1;
      if IsPowerOfTwo(size / 2) {
        var k: nat :| size / 2 == Pow2(k);
        assert size == Pow2(k + 1);
      }
      if IsPowerOfTwo(size) {
        var k: nat :| size == Pow2(k);
        assert size / 2 == Pow2(k - 1);
      }
    }
  }

  /** For a power-of-two buffer the masked position is the position's slot. */
  lemma {:induction false} SlotIsMask(pos: nat, k: nat)
    ensures Slot(pos, Pow2(k)) == BitAnd(pos, Pow2(k) - 1)
    decreases pos
  {
    hide BitAnd, Low, Shr;
    AndMask(pos, k);
    if pos < Pow2(k) {
      LowOfSmall(pos, k);
    } else {
      var p := pos - Pow2(k);
      SlotIsMask(p, k);
      AndMask(p, k);
      LowShr(p, k);
      LowShrUnique(pos, k, Shr(p, k) + 1, Low(p, k));
    }
  }

  class MPMCBoundedQueue<T> {
    const buffer: array<Cell<T>>
    const bufferMask: nat
    var enqueuePos: nat
    var dequeuePos: nat
    ghost var Contents: seq<T>

    /** The cells hold `Contents` from `dequeuePos` on; the others are free. */
    ghost predicate Valid()
      reads this, buffer
    {
      var n := buffer.Length;
      && n >= 2 && IsPowerOfTwo(n) && bufferMask == n - 1
      && enqueuePos == dequeuePos + |Contents| && |Contents| <= n
      && (forall p :: dequeuePos <= p < enqueuePos ==>
            buffer[Slot(p, n)] == Cell(p + 1, Contents[p - dequeuePos]))
      && (forall p :: enqueuePos <= p < dequeuePos + n ==> buffer[Slot(p, n)].sequence == p)
    }

    constructor (size: nat, blank: T)
      requires size >= 2 && IsPowerOfTwo(size)
      ensures Valid() && Contents == [] && buffer.Length == size && fresh(buffer)
    {
      buffer := new Cell<T>[size](i requires i >= 0 => Cell(i, blank));
      bufferMask := size - 1;
      enqueuePos, dequeuePos := 0, 0;
      Contents := [];
    }

    method Masked(pos: nat) returns (c: nat)
      requires buffer.Length >= 2 && IsPowerOfTwo(buffer.Length) && bufferMask == buffer.Length - 1
      ensures c == Slot(pos, buffer.Length)
    {
      ghost var k: nat :| buffer.Length == Pow2(k);
      SlotIsMask(pos, k);
      c := BitAnd(pos, bufferMask);
    }

    /** With no interference the compare-and-swap succeeds and the loop runs once:
        the push is refused exactly when the queue is full. */
    method Push(value: T) returns (ok: bool)
      requires Valid()
      modifies this, buffer
      ensures Valid()
      ensures ok <==> old(|Contents|) < buffer.Length
      ensures Contents == if ok then old(Contents) + [value] else old(Contents)
    {
      ghost var n := buffer.Length;
      var pos, claimed, c := enqueuePos, false, 0;
      while !claimed
        invariant pos == old(enqueuePos) && c < n
        invariant if claimed then c == Slot(pos, n) && enqueuePos == pos + 1 && |Contents| < n
                  else enqueuePos == pos
        invariant dequeuePos == old(dequeuePos) && Contents == old(Contents) && buffer[..] == old(buffer[..])
        decreases !claimed
      {
        c := Masked(pos);
        var sequence := buffer[c].sequence;
        FullOrFree(dequeuePos, enqueuePos, n);
        if sequence == pos {
          if enqueuePos == pos {
            enqueuePos := pos + 1;
            claimed := true;
          } else {
            assert false;
          }
        } else if sequence < pos {
          return false;
        } else {
          assert false;
        }
      }
      assert forall p :: 0 <= p < n ==> buffer[p] == old(buffer[..])[p];
      buffer[c] := buffer[c].(data := value);
      buffer[c] := buffer[c].(sequence := pos + 1);
      Contents := Contents + [value];
      ok := true;
      forall p | dequeuePos <= p < dequeuePos + n && p != pos ensures Slot(p, n) != c {
        SameSlot(p, pos, n);
      }
    }

    /** The pop is refused exactly when the queue is empty. */
    method Pop() returns (ok: bool, value: Option<T>)
      requires Valid()
      modifies this, buffer
      ensures Valid()
      ensures ok <==> old(Contents) != []
      ensures ok ==> value == Some(old(Contents)[0]) && Contents == old(Contents)[1..]
      ensures !ok ==> value == None && Contents == old(Contents)
    {
      ghost var n := buffer.Length;
      var pos, claimed, c := dequeuePos, false, 0;
      while !claimed
        invariant pos == old(dequeuePos) && c < n
        invariant if claimed then c == Slot(pos, n) && dequeuePos == pos + 1 && Contents != []
                  else dequeuePos == pos
        invariant enqueuePos == old(enqueuePos) && Contents == old(Contents) && buffer[..] == old(buffer[..])
        decreases !claimed
      {
        c := Masked(pos);
        var sequence := buffer[c].sequence;
        if sequence == pos + 1 {
          if dequeuePos == pos {
            dequeuePos := pos + 1;
            claimed := true;
          } else {
            assert false;
          }
        } else if sequence < pos + 1 {
          return false, None;
        } else {
          assert false;
        }
      }
      assert forall p :: 0 <= p < n ==> buffer[p] == old(buffer[..])[p];
      value := Some(buffer[c].data);
      buffer[c] := buffer[c].(sequence := pos + bufferMask + 1);
      Contents := Contents[1..];
      ok := true;
      forall p | dequeuePos <= p < pos + n ensures Slot(p, n) != c {
        SameSlot(p, pos, n);
      }
      assert Slot(pos + n, n) == c;
    }
  }

  /** When the queue is full, the next push meets the oldest element's cell. */
  lemma FullOrFree(deq: nat, enq: nat, n: nat)
    requires n >= 2 && deq <= enq <= deq + n
    ensures enq == deq + n ==> Slot(enq, n) == Slot(deq, n)
  {
  }

  /** The constructor's size check: anything but a power of two from 2 on is refused. */
  method Create<T>(size: nat, blank: T) returns (ok: bool, q: MPMCBoundedQueue?<T>)
    ensures ok <==> size >= 2 && IsPowerOfTwo(size)
    ensures ok ==> q != null && q.Valid() && q.Contents == [] && q.buffer.Length == size
  {
    if size > 0 {
      PowerOfTwoTest(size);
    }
    if !(size >= 2 && BitAnd(size, size - 1) == 0) {
      return false, null;
    }
    q := new MPMCBoundedQueue<T>(size, blank);
    ok := true;
  }
}
