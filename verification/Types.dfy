/** Values shared by several components. */
module Types {
  type Address = nat

  datatype Option<+T> = None | Some(value: T)

  function Min(a: nat, b: nat): nat {
    if a < b then a else b
  }
}
