/** Result types and the counting fact behind every "pick an unused name" loop. */
module Prelude {

  datatype Option<+T> = None | Some(value: T)

  datatype Result<+T, +E> = Ok(value: T) | Err(error: E)

  /** A set included in another has at most as many elements. */
  lemma {:induction false} SubsetSize<T>(small: set<T>, big: set<T>)
    requires small <= big
    ensures |small| <= |big|
    decreases small
  {
    if small != {} {
      var x :| x in small;
      SubsetSize(small - {x}, big - {x});
    }
  }

  /** The first n names that a numbering produces, counting from `start`. */
  ghost function Named<T>(name: nat -> T, start: nat, n: nat): set<T> {
    if n == 0 then {} else Named(name, start, n - 1) + {name(start + n - 1)}
  }

  lemma {:induction false} NamedAre<T>(name: nat -> T, start: nat, n: nat)
    ensures forall x :: x in Named(name, start, n) <==> exists m: nat :: start <= m < start + n && x == name(m)
  {
    if n > 0 { NamedAre(name, start, n - 1); }
  }

  /** Pigeonhole: when the first n names of an injective numbering are all taken, at least n names are. */
  lemma {:induction false} TakenNames<T>(name: nat -> T, start: nat, n: nat, taken: set<T>)
    requires forall i: nat, j: nat :: name(i) == name(j) ==> i == j
    requires Named(name, start, n) <= taken
    ensures |Named(name, start, n)| == n <= |taken|
  {
    if n > 0 {
      TakenNames(name, start, n - 1, taken);
      NamedAre(name, start, n - 1);
    }
    SubsetSize(Named(name, start, n), taken);
  }
}
