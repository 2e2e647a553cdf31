/** Shared by the other modules. */
module Base {

  datatype Option<+T> = None | Some(val: T)

  predicate NoDup(q: seq<nat>) { forall i, j | 0 <= i < j < |q| :: q[i] != q[j] }
}
