/**
  The display-mode convention shared by the encoder and the panel: the integer
  selector 0, 1, 2 chooses the difference, the forward count or the backward
  count, and the panel shows the letter 'd', 'f' or 'b' for it.
 */
module Modes {
  import opened Wrappers

  datatype Mode = Difference | ForwardOnly | BackwardOnly

  /** The integer selector callers pass for a mode. */
  function Selector(m: Mode): (i: int)
    ensures 0 <= i <= 2
  {
    match m
    case Difference => 0
    case ForwardOnly => 1
    case BackwardOnly => 2
  }

  /** The letter the panel shows for a mode. */
  function Letter(m: Mode): char
  {
    match m
    case Difference => 'd'
    case ForwardOnly => 'f'
    case BackwardOnly => 'b'
  }

  /** The mode an integer selector names, or None for a selector outside 0..2. */
  function FromSelector(i: int): (r: Option<Mode>)
    ensures r.Some? <==> 0 <= i <= 2
    ensures r.Some? ==> Selector(r.value) == i
  {
    if i == 0 then Some(Difference)
    else if i == 1 then Some(ForwardOnly)
    else if i == 2 then Some(BackwardOnly)
    else None
  }

  /** Selectors and letters are both one-to-one codes for the three modes. */
  lemma CodesAreBijective(m: Mode, n: Mode)
    ensures FromSelector(Selector(m)) == Some(m)
    ensures Selector(m) == Selector(n) <==> m == n
    ensures Letter(m) == Letter(n) <==> m == n
  {
  }
}
