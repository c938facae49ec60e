/** The fixed-capacity buffer of src/cache/ring_buffer.h, against the history of its pushes. */
module RingBuffer {
  import opened Options

  function Min(a: nat, b: nat): nat {
    if a < b then a else b
  }

  /** The last n elements of s, or all of them, oldest first. */
  function Last<T>(s: seq<T>, n: nat): (r: seq<T>) {
    s[|s| - Min(n, |s|)..]
  }

  /** The newest items are the last of all, in their order. */
  lemma LastIsSuffix<T>(s: seq<T>, n: nat)
    ensures |Last(s, n)| <= n && |Last(s, n)| <= |s| && (|Last(s, n)| == n || |Last(s, n)| == |s|)
    ensures forall i :: 0 <= i < |Last(s, n)| ==> Last(s, n)[i] == s[|s| - |Last(s, n)| + i]
  {
  }

  /** The slot that item i is stored in. */
  function Slot(i: nat, cap: nat): (k: nat)
    requires cap > 0
    ensures k < cap
  {
    i % cap
  }

  class Ring<T(0)> {
    const buffer: array<T>
    var head: nat
    var count: nat
    ghost var pushed: seq<T>

    ghost predicate Valid()
      reads this, buffer
    {
      && 0 < buffer.Length
      && head == Slot(|pushed|, buffer.Length)
      && count == Min(|pushed|, buffer.Length)
      && forall i :: |pushed| - count <= i < |pushed| ==> buffer[Slot(i, buffer.Length)] == pushed[i]
    }

    constructor (capacity: nat)
      requires capacity > 0
      ensures Valid() && fresh(buffer) && buffer.Length == capacity && pushed == []
    {
      buffer := new T[capacity];
      head, count, pushed := 0, 0, [];
    }

    /** The source's constructor throws on capacity 0. */
    static method Create(capacity: nat) returns (r: Option<Ring<T>>)
      ensures r.None? <==> capacity == 0
      ensures r.Some? ==> (fresh(r.value) && fresh(r.value.buffer) && r.value.Valid()
                           && r.value.buffer.Length == capacity && r.value.pushed == [])
    {
      if capacity == 0 {
        return None;
      }
      var ring := new Ring(capacity);
      return Some(ring);
    }

    method Push(item: T)
      requires Valid()
      modifies this, buffer
      ensures Valid() && pushed == old(pushed) + [item]
    {
      ghost var n, cap := |pushed|, buffer.Length;
      forall i: nat | n - cap < i < n ensures Slot(i, cap) != head {
        DistinctSlots(i, n, cap);
      }
      NextSlot(n, cap);
      buffer[head] := item;
      head := Slot(head + 1, buffer.Length);
      if count < buffer.Length {
        count := count + 1;
      }
      pushed := pushed + [item];
    }

    method Size() returns (n: nat)
      requires Valid()
      ensures n == Min(|pushed|, buffer.Length)
    {
      n := count;
    }

    /** The last min(maxCount, pushes, capacity) items, oldest first. */
    method Snapshot(maxCount: nat) returns (out: seq<T>)
      requires Valid()
      ensures out == Last(pushed, Min(maxCount, buffer.Length))
    {
      hide Slot;
      var cap := buffer.Length;
      var take := Min(maxCount, count);
      out := [];
      var start := Slot(head + cap - take, cap);
      for i := 0 to take
        invariant out == pushed[|pushed| - take..|pushed| - take + i]
      {
        SlotOfIndex(|pushed|, cap, take, i);
        SlotInRange(start + i, cap);
        out := out + [buffer[Slot(start + i, cap)]];
      }
    }
  }

  // ------------------------------------------------------------------- slot numbers

  lemma {:induction false} ModuloSteps(x: int, q: int, m: nat)
    requires m > 0
    ensures (x + q * m) % m == x % m
    decreases if q < 0 then -q else q
  {
    if q > 0 {
      ModuloSteps(x, q - 1, m);
      ModuloOnce(x + (q - 1) * m, m);
      assert x + q * m == x + (q - 1) * m + m;
    } else if q < 0 {
      ModuloSteps(x, q + 1, m);
      ModuloOnce(x + q * m, m);
      assert x + q * m + m == x + (q + 1) * m;
    }
  }

  lemma ModuloOnce(x: int, m: nat)
    requires m > 0
    ensures (x + m) % m == x % m
  {
    var q, r := x / m, x % m;
    assert x == q * m + r;
    assert x + m == (q + 1) * m + r;
    QuotientIsUnique(x + m, q + 1, r, m);
  }

  lemma QuotientIsUnique(x: int, q: int, r: int, m: nat)
    requires m > 0 && 0 <= r < m && x == q * m + r
    ensures x % m == r
  {
    var p := x / m;
    assert x == p * m + x % m;
    assert p < q ==> (p + 1) * m <= q * m;
    assert p > q ==> (q + 1) * m <= p * m;
  }

  lemma SlotInRange(i: nat, cap: nat)
    requires cap > 0
    ensures Slot(i, cap) < cap
  {
  }

  /** Equal remainders are a multiple of the capacity apart. */
  lemma DistinctSlots(i: nat, n: nat, cap: nat)
    requires cap > 0 && n - cap < i < n
    ensures Slot(i, cap) != Slot(n, cap)
  {
    var d := n / cap - i / cap;
    assert n - i == d * cap + (n % cap - i % cap);
    assert d >= 1 ==> d * cap >= cap;
    assert d <= 0 ==> d * cap <= 0;
  }

  lemma NextSlot(n: nat, cap: nat)
    requires cap > 0
    ensures Slot(Slot(n, cap) + 1, cap) == Slot(n + 1, cap)
  {
    ModuloSteps(n % cap + 1, n / cap, cap);
  }

  /** Counting back from head and forward again finds item n - take + i in its own slot. */
  lemma {:induction false} SlotOfIndex(n: nat, cap: nat, take: nat, i: nat)
    requires cap > 0 && i < take <= Min(n, cap)
    ensures Slot(Slot(Slot(n, cap) + cap - take, cap) + i, cap) == Slot(n - take + i, cap)
  {
    var a := n % cap + cap - take;
    ModuloSteps(a % cap + i, a / cap, cap);
    assert a % cap + i + a / cap * cap == a + i;
    ModuloSteps(a + i, n / cap - 1, cap);
    assert a + i + (n / cap - 1) * cap == n - take + i;
  }
}
