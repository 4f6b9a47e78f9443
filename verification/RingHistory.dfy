/** A preallocated circular buffer with a write head and a saturating count, against the plain
    sequence of everything ever written to it. */
module RingHistory {
  import opened Common

  function Last<T>(log: seq<T>, n: nat): seq<T>
    requires n <= |log|
  {
    log[|log| - n..]
  }

  /** The entry written `i` writes before the latest one. */
  function Newest<T>(log: seq<T>, i: int): T
    requires 0 <= i < |log|
  {
    log[|log| - 1 - i]
  }

  /** `buf`, `head` and `count` represent the tail of `log` that fits. */
  ghost predicate Mirrors<T>(buf: seq<T>, head: nat, count: nat, log: seq<T>) {
    if |log| < |buf| then
      head == count == |log| && buf[..head] == log
    else
      count == |buf| > 0 && head == |log| % |buf| && buf[head..] + buf[..head] == Last(log, |buf|)
  }

  function Next(head: nat, size: nat): (next: nat)
    requires head < size
    ensures next == if head + 1 < size then head + 1 else 0
  {
    (head + 1) % size
  }

  function Saturate(count: nat, size: nat): nat {
    if count + 1 < size then count + 1 else size
  }

  /** The head that follows `n` writes follows the head of `n - 1`. */
  lemma NextRemainder(n: nat, size: nat)
    requires size > 0
    ensures (n + 1) % size == Next(n % size, size)
  {
    var q, r := n / size, n % size;
    assert n == q * size + r;
    if r + 1 < size {
      DivisionIs(n + 1, size, q, r + 1);
    } else {
      assert n + 1 == (q + 1) * size;
      DivisionIs(n + 1, size, q + 1, 0);
    }
  }

  lemma WriteWrapped<T>(buf: seq<T>, head: nat, log: seq<T>, x: T, next: nat)
    requires |log| >= |buf| > head && buf[head..] + buf[..head] == Last(log, |buf|)
    requires next == if head + 1 < |buf| then head + 1 else 0
    ensures buf[head := x][next..] + buf[head := x][..next] == Last(log + [x], |buf|)
  {
    var turned := buf[head..] + buf[..head];
    assert Last(log + [x], |buf|) == Last(log, |buf|)[1..] + [x];
    assert turned[1..] == buf[head + 1..] + buf[..head];
    if head + 1 < |buf| {
      assert buf[head := x][next..] == buf[head + 1..];
      assert buf[head := x][..next] == buf[..head] + [x];
    } else {
      assert buf[head := x] == buf[..head] + [x];
    }
  }

  /** Writing at the head and advancing it appends to the represented sequence. */
  lemma Write<T>(buf: seq<T>, head: nat, count: nat, log: seq<T>, x: T)
    requires Mirrors(buf, head, count, log) && |buf| > 0
    ensures head < |buf|
    ensures Mirrors(buf[head := x], Next(head, |buf|), Saturate(count, |buf|), log + [x])
  {
    if |log| < |buf| {
      assert buf[head := x][..head + 1] == log + [x];
      if |log| + 1 == |buf| {
        assert Last(log + [x], |buf|) == log + [x];
        DivisionIs(|log| + 1, |buf|, 1, 0);
      }
    } else {
      WriteWrapped(buf, head, log, x, Next(head, |buf|));
      NextRemainder(|log|, |buf|);
    }
  }

  /** A buffer of `size` cells that hold `init`, after the writes of `log`. */
  datatype Ring<T> = Ring(buf: seq<T>, head: nat, count: nat)

  function After<T>(size: nat, init: T, log: seq<T>): (r: Ring<T>)
    requires size > 0
    ensures |r.buf| == size > r.head
  {
    if log == [] then Ring(seq(size, _ => init), 0, 0)
    else
      var r := After(size, init, log[..|log| - 1]);
      Ring(r.buf[r.head := log[|log| - 1]], Next(r.head, size), Saturate(r.count, size))
  }

  lemma {:induction false} AfterMirrors<T>(size: nat, init: T, log: seq<T>)
    requires size > 0
    ensures var r := After(size, init, log); Mirrors(r.buf, r.head, r.count, log)
  {
    if log == [] {
      assert After(size, init, log).buf[..0] == log;
    } else {
      var before, x := log[..|log| - 1], log[|log| - 1];
      var r := After(size, init, before);
      AfterMirrors(size, init, before);
      Write(r.buf, r.head, r.count, before, x);
      assert log == before + [x];
    }
  }

  method Put<T>(a: array<T>, head: nat, x: T, ghost count: nat, ghost log: seq<T>)
    requires Mirrors(a[..], head, count, log) && head < a.Length
    modifies a
    ensures Mirrors(a[..], Next(head, a.Length), Saturate(count, a.Length), log + [x])
  {
    ghost var before := a[..];
    Write(before, head, count, log, x);
    a[head] := x;
    assert a[..] == before[head := x];
  }

  /** The slot written `i` writes before the latest one. */
  function SlotBack(size: nat, head: nat, i: nat): int
    requires head < size && i < size
  {
    if i < head then head - 1 - i else head - 1 - i + size
  }

  lemma ReadBack<T>(buf: seq<T>, head: nat, count: nat, log: seq<T>, i: nat)
    requires Mirrors(buf, head, count, log) && head < |buf| && i < count
    ensures i < |log| && 0 <= SlotBack(|buf|, head, i) < |buf|
    ensures buf[SlotBack(|buf|, head, i)] == Newest(log, i)
  {
    if |log| < |buf| {
      assert buf[..head][head - 1 - i] == log[|log| - 1 - i];
    } else {
      var turned := buf[head..] + buf[..head];
      assert turned[|buf| - 1 - i] == Last(log, |buf|)[|buf| - 1 - i];
    }
  }
}
