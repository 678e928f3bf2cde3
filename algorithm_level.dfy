/** `AlgorithmLevel`: how many heuristics the solver installs. Level 1 is naked singles,
    level 2 adds hidden singles, level 3 adds naked pairs; `Default` lets the board size
    decide. */
module AlgorithmLevels {

  datatype AlgorithmLevel = Default | Level1 | Level2 | Level3
  {
    /** The underlying value of the enum member. */
    function Value(): (v: nat)
      ensures v < 4 && FromValue(v) == Some(this)
    {
      match this
      case Default => 0
      case Level1 => 1
      case Level2 => 2
      case Level3 => 3
    }

    /** `level >= other`, as the enum compares its values. */
    predicate AtLeast(other: AlgorithmLevel)
    {
      Value() >= other.Value()
    }
  }

  datatype Option<T> = None | Some(value: T)

  /** The member with underlying value v, if there is one. */
  function FromValue(v: int): (r: Option<AlgorithmLevel>)
    ensures r.Some? <==> 0 <= v < 4
  {
    if v == 0 then Some(Default)
    else if v == 1 then Some(Level1)
    else if v == 2 then Some(Level2)
    else if v == 3 then Some(Level3)
    else None
  }

  /** FromValue reads back the underlying value. */
  lemma FromValueInverse(v: int)
    requires 0 <= v < 4
    ensures FromValue(v).Some? && FromValue(v).value.Value() == v
  {
  }

  /** The members are ordered Default < Level1 < Level2 < Level3, and `AtLeast` is that
      order. */
  lemma LevelOrder(a: AlgorithmLevel, b: AlgorithmLevel)
    ensures a.AtLeast(b) && b.AtLeast(a) ==> a == b
    ensures a.AtLeast(Default) && Level3.AtLeast(a)
    ensures a.AtLeast(b) || b.AtLeast(a)
  {
  }
}
