/** Types shared by every component of the listener. */
module Common {
  type byte = x: int | 0 <= x < 256
  type u16 = x: int | 0 <= x < 0x1_0000
  type u32 = x: int | 0 <= x < 0x1_0000_0000

  datatype Option<+T> = None | Some(value: T)

  datatype Result<+T, +E> = Ok(value: T) | Err(error: E)

  function Max(a: int, b: int): int {
    if a < b then b else a
  }

  /** The elements of `s` except the last. */
  function Front<T>(s: seq<T>): seq<T>
    requires s != []
  {
    s[..|s| - 1]
  }

  function Last<T>(s: seq<T>): T
    requires s != []
  {
    s[|s| - 1]
  }

  /** Concatenation is associative. */
  lemma Regroup<T>(a: seq<T>, b: seq<T>, c: seq<T>)
    ensures a + b + c == a + (b + c)
  {
  }

  lemma SliceOfRest<T>(s: seq<T>, start: nat, lo: nat, hi: nat)
    requires start <= |s| && lo <= hi <= |s| - start
    ensures s[start..][lo..hi] == s[start + lo..start + hi]
  {
  }

  /** The two bytes of a 16-bit value on the wire, low byte first. */
  function LittleEndian(lo: byte, hi: byte): nat {
    lo + 256 * hi
  }
}
