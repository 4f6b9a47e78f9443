/** Definitions shared by several components: sequences without repetition, and the string
    operations of the compliance checks, over ASCII. */
module Common {

  datatype Option<+T> = None | Some(value: T)

  function LowerChar(c: char): char {
    if 'A' <= c <= 'Z' then c + 32 as char else c
  }

  /** `str.lower` */
  function Lower(s: string): (r: string)
    ensures |r| == |s|
    ensures forall i :: 0 <= i < |s| ==> r[i] == LowerChar(s[i])
  {
    if s == [] then [] else [LowerChar(s[0])] + Lower(s[1..])
  }

  /** The `i`-th upper-case letter becomes the `i`-th lower-case letter; everything else stays. */
  lemma LowerCharExact(c: char, i: nat)
    requires i < 26
    ensures LowerChar('A' + i as char) == 'a' + i as char
    ensures c < 'A' || 'Z' < c ==> LowerChar(c) == c
  {
  }

  ghost predicate NoDup<T>(s: seq<T>) {
    forall i, j :: 0 <= i < j < |s| ==> s[i] != s[j]
  }

  ghost function Elements<T>(s: seq<T>): set<T> {
    set x | x in s
  }

  lemma HeadInElements<T>(s: seq<T>)
    requires s != []
    ensures s[0] in Elements(s)
  {
  }

  /** `list.remove`: only the first occurrence goes. */
  function RemoveFirst<T(==)>(s: seq<T>, x: T): seq<T> {
    if s == [] then [] else if s[0] == x then s[1..] else [s[0]] + RemoveFirst(s[1..], x)
  }

  lemma {:induction false} RemoveFirstMembers<T>(s: seq<T>, x: T)
    ensures forall y :: y in RemoveFirst(s, x) ==> y in s
    ensures forall y :: y in s && y != x ==> y in RemoveFirst(s, x)
    ensures x !in s ==> RemoveFirst(s, x) == s
  {
    if s != [] {
      RemoveFirstMembers(s[1..], x);
    }
  }

  /** What stands before and after the first occurrence stays. */
  lemma {:induction false} RemoveFirstExact<T>(before: seq<T>, x: T, after: seq<T>)
    requires x !in before
    ensures RemoveFirst(before + [x] + after, x) == before + after
  {
    var s := before + [x] + after;
    if before == [] {
      assert s[1..] == after;
    } else {
      assert s[1..] == before[1..] + [x] + after;
      RemoveFirstExact(before[1..], x, after);
    }
  }

  lemma {:induction false} RemoveFirstDistinct<T>(s: seq<T>, x: T)
    requires NoDup(s)
    ensures NoDup(RemoveFirst(s, x)) && Elements(RemoveFirst(s, x)) == Elements(s) - {x}
    ensures |RemoveFirst(s, x)| == if x in s then |s| - 1 else |s|
  {
    if s != [] {
      var tail := s[1..];
      assert forall i :: 0 <= i < |tail| ==> tail[i] == s[i + 1];
      assert s[0] !in tail;
      RemoveFirstDistinct(tail, x);
      RemoveFirstMembers(tail, x);
      assert s[0] !in RemoveFirst(tail, x);
      assert x !in RemoveFirst(tail, x) by { assert x !in Elements(RemoveFirst(tail, x)); }
      if s[0] != x {
        assert Elements(RemoveFirst(s, x)) == {s[0]} + Elements(RemoveFirst(tail, x));
      }
      assert Elements(s) == {s[0]} + Elements(tail);
    }
  }

  lemma {:induction false} MultipleAtLeast(d: nat, size: nat)
    requires d >= 1
    ensures d * size >= size
  {
    if d > 1 {
      MultipleAtLeast(d - 1, size);
      assert d * size == (d - 1) * size + size;
    }
  }

  lemma QuotientNotLess(a: int, r: nat, b: int, t: nat, size: nat)
    requires a * size + r == b * size + t && r < size
    ensures a >= b
  {
    assert (b - a) * size == b * size - a * size;
    if a < b {
      MultipleAtLeast(b - a, size);
    }
  }

  /** Division with remainder is unique. */
  lemma DivisionIs(n: int, size: nat, q: int, r: nat)
    requires r < size && n == q * size + r
    ensures n / size == q && n % size == r
  {
    var p, t := n / size, n % size;
    assert n == p * size + t;
    QuotientNotLess(p, t, q, r, size);
    QuotientNotLess(q, r, p, t, size);
  }

  /** Reducing a summand first does not change the remainder. */
  lemma RemainderOfSum(a: nat, b: nat, n: nat)
    requires n > 0
    ensures (a % n + b) % n == (a + b) % n
  {
    var q, r := a / n, a % n;
    var q', r' := (r + b) / n, (r + b) % n;
    assert a == q * n + r && r + b == q' * n + r';
    assert (q + q') * n == q * n + q' * n;
    DivisionIs(a + b, n, q + q', r');
  }

  /** Multiplying by a positive number keeps the order, both ways. */
  lemma ScaleOrder(a: real, b: real, n: real)
    requires n > 0.0
    ensures a <= b <==> a * n <= b * n
    ensures a == b <==> a * n == b * n
  {
    assert b * n - a * n == (b - a) * n;
    if b - a > 0.0 {
      assert (b - a) * n > 0.0;
    } else if b - a < 0.0 {
      assert (a - b) * n > 0.0;
    }
  }

  /** A quotient is what its product says it is. */
  lemma Quotient(a: real, b: real, q: real)
    requires b != 0.0 && q * b == a
    ensures a / b == q
  {
    var d := a / b;
    assert d * b == a;
    assert (d - q) * b == 0.0;
  }
}
