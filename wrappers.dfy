/** Optional values and results with an error, used where the C# code returns
    null or throws. */
module Wrappers {

  datatype Option<+T> = None | Some(value: T)

  /** The exceptions the modelled code can raise on a path the model keeps. */
  datatype Error = NullReference

  datatype Result<+T> = Ok(value: T) | Err(error: Error)
}

/** `UnityEngine.Vector2Int`: a pair of integer coordinates. */
module Vectors {

  datatype Vec = Vec(x: int, y: int)

  /** `Vector2Int.zero`. */
  const Zero := Vec(0, 0)

  /** The scan order the inventory uses for cells and anchors: `x` ascending,
      and `y` ascending within one column. */
  predicate ScanBefore(a: Vec, b: Vec) {
    a.x < b.x || (a.x == b.x && a.y < b.y)
  }

  lemma ScanOrderIsTotal(a: Vec, b: Vec)
    ensures ScanBefore(a, b) || a == b || ScanBefore(b, a)
    ensures !(ScanBefore(a, b) && ScanBefore(b, a))
  {
  }
}

/** Two's-complement 32-bit integers, C#'s `int`. */
module Int32 {

  const MinValue: int := -0x8000_0000
  const MaxValue: int := 0x7fff_ffff

  newtype int32 = x: int | -0x8000_0000 <= x < 0x8000_0000

  /** Unchecked C# arithmetic: the mathematical result reduced into range. */
  function Wrap(x: int): (r: int32)
    ensures MinValue <= x <= MaxValue ==> r as int == x
    ensures (r as int - x) % 0x1_0000_0000 == 0
  {
    ((x - MinValue) % 0x1_0000_0000 + MinValue) as int32
  }
}
