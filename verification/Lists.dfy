/** Finite lists of numbers, as the recency orders of LRU need them. */
module Lists {
  datatype List = Nil | Cons(head: nat, tail: List)

  function Length(l: List): nat {
    match l case Nil => 0 case Cons(_, t) => 1 + Length(t)
  }

  predicate Has(l: List, x: nat) {
    match l case Nil => false case Cons(h, t) => h == x || Has(t, x)
  }

  predicate NoDuplicates(l: List) {
    match l case Nil => true case Cons(h, t) => !Has(t, h) && NoDuplicates(t)
  }

  /** `x` stands in the list ahead of `y`. */
  predicate Ahead(l: List, x: nat, y: nat) {
    match l case Nil => false case Cons(h, t) => if h == x then Has(t, y) else Ahead(t, x, y)
  }

  function Without(l: List, x: nat): List {
    match l case Nil => Nil case Cons(h, t) => if h == x then t else Cons(h, Without(t, x))
  }

  function MoveToFront(l: List, x: nat): List {
    Cons(x, Without(l, x))
  }

  function Take(l: List, n: nat): List {
    if n == 0 || l.Nil? then Nil else Cons(l.head, Take(l.tail, n - 1))
  }

  function Last(l: List): (x: nat)
    requires l.Cons?
    ensures Has(l, x)
  {
    if l.tail.Nil? then l.head else Last(l.tail)
  }

  lemma {:induction false} WithoutKeeps(l: List, x: nat, y: nat)
    requires NoDuplicates(l)
    ensures Has(Without(l, x), y) <==> Has(l, y) && y != x
    ensures NoDuplicates(Without(l, x))
    ensures Length(Without(l, x)) == Length(l) - if Has(l, x) then 1 else 0
  {
    if l.Cons? {
      WithoutKeeps(l.tail, x, y);
      WithoutKeeps(l.tail, x, l.head);
    }
  }

  lemma {:induction false} WithoutAhead(l: List, x: nat, y: nat, z: nat)
    requires NoDuplicates(l) && Ahead(Without(l, x), y, z)
    ensures Ahead(l, y, z) && x != y && x != z
  {
    if l.head == x {
      if y == x { AheadHas(l.tail, y, z); }
      AheadHas(l.tail, y, z);
    } else {
      WithoutKeeps(l.tail, x, z);
      WithoutKeeps(l.tail, x, l.head);
      if l.head != y { WithoutAhead(l.tail, x, y, z); }
    }
  }

  lemma {:induction false} AheadHas(l: List, x: nat, y: nat)
    requires Ahead(l, x, y)
    ensures Has(l, x) && Has(l, y)
  {
    if l.head != x { AheadHas(l.tail, x, y); }
  }

  lemma {:induction false} TakeWithin(l: List, n: nat, k: nat, x: nat)
    requires n <= k && Has(Take(l, n), x)
    ensures Has(Take(l, k), x) && Has(l, x)
  {
    if l.head != x { TakeWithin(l.tail, n - 1, k - 1, x); }
  }

  lemma {:induction false} TakeAll(l: List, n: nat)
    requires Length(l) <= n
    ensures Take(l, n) == l
  {
    if l.Cons? { TakeAll(l.tail, n - 1); }
  }
}
