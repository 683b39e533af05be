/** Sums over finite sets, independent of the order in which the members are visited. */
module SetSums {
  ghost function Sum<T(!new)>(S: set<T>, f: T -> nat): nat
    decreases |S|
  {
    if S == {} then 0
    else
      var x :| x in S;
      f(x) + Sum(S - {x}, f)
  }

  lemma {:induction false} SumRemove<T(!new)>(S: set<T>, f: T -> nat, x: T)
    requires x in S
    ensures Sum(S, f) == f(x) + Sum(S - {x}, f)
    decreases |S|
  {
    var y :| y in S && Sum(S, f) == f(y) + Sum(S - {y}, f);
    if y != x {
      SumRemove(S - {y}, f, x);
      SumRemove(S - {x}, f, y);
      assert S - {y} - {x} == S - {x} - {y};
    }
  }

  lemma SumAdd<T(!new)>(S: set<T>, f: T -> nat, x: T)
    requires x !in S
    ensures Sum(S + {x}, f) == Sum(S, f) + f(x)
  {
    SumRemove(S + {x}, f, x);
    assert S + {x} - {x} == S;
  }

  lemma {:induction false} SumZeroIff<T(!new)>(S: set<T>, f: T -> nat)
    ensures Sum(S, f) == 0 <==> forall x :: x in S ==> f(x) == 0
    decreases |S|
  {
    if x :| x in S {
      SumRemove(S, f, x);
      SumZeroIff(S - {x}, f);
      assert forall y :: y in S <==> y == x || y in S - {x};
    }
  }

  /** How many of the first `n` positions have the property. */
  ghost function Number(n: nat, p: int -> bool): nat {
    |set i | 0 <= i < n && p(i)|
  }

  lemma NumberGrows(n: nat, p: int -> bool)
    ensures Number(0, p) == 0
    ensures Number(n + 1, p) == Number(n, p) + if p(n) then 1 else 0
  {
    assert (set i | 0 <= i < 0 && p(i)) == {};
    assert (set i | 0 <= i < n + 1 && p(i)) == (set i | 0 <= i < n && p(i)) + if p(n) then {n} else {};
  }
}
