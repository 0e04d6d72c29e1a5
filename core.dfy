/** The few values of the host language's standard library that the guard's
    comparison operators return. */
module Core {

  datatype Option<+T> = None | Some(value: T)

  /** The result of a three-way comparison. */
  datatype Ordering = Less | Equal | Greater {

    /** The ordering seen with the operands swapped. */
    function Reverse(): Ordering
    {
      match this
      case Less => Greater
      case Equal => Equal
      case Greater => Less
    }
  }

  /** `n.cmp(&0)` on a signed integer: the ordering of `n` against zero. */
  function CmpZero(n: int): (r: Ordering)
    ensures r == Less <==> n < 0
    ensures r == Equal <==> n == 0
    ensures r == Greater <==> n > 0
  {
    if n < 0 then Less else if n == 0 then Equal else Greater
  }
}
