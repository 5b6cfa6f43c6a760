/** What several of the modelled programs share: bytes, null pointers and 32-bit words. */
module Common {
  type byte = x: int | 0 <= x < 256

  /** A pointer result, or the null pointer. */
  datatype Option<+T> = None | Some(value: T)

  /** Concatenation is associative. */
  lemma Assoc3<T>(a: seq<T>, b: seq<T>, c: seq<T>)
    ensures a + b + c == a + (b + c)
  {
  }

  lemma Assoc4<T>(a: seq<T>, b: seq<T>, c: seq<T>, d: seq<T>)
    ensures a + b + c + d == a + (b + (c + d))
  {
  }

  lemma Assoc5<T>(a: seq<T>, b: seq<T>, c: seq<T>, d: seq<T>, e: seq<T>)
    ensures a + b + c + d + e == a + (b + (c + (d + e)))
  {
  }

  const TWO32 := 0x1_0000_0000

  /** A 32-bit unsigned number. */
  type Word32 = x: int | 0 <= x < TWO32

  /** Addition and subtraction of 32-bit unsigned numbers. */
  function Add32(a: nat, b: nat): Word32 { (a + b) % TWO32 }

  function Sub32(a: nat, b: nat): Word32 { (a - b) % TWO32 }
}
