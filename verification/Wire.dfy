/** Types shared by the modules that look at raw bytes and bits. */
module Wire {
  type byte = bv8

  datatype Option<+T> = None | Some(value: T)

  datatype Result<+T, +E> = Ok(value: T) | Err(error: E)

  /** Bit t of a byte, counted from the most significant. */
  predicate ByteBit(x: byte, t: nat)
    requires t < 8
  {
    if t == 0 then x & 0x80 != 0
    else if t == 1 then x & 0x40 != 0
    else if t == 2 then x & 0x20 != 0
    else if t == 3 then x & 0x10 != 0
    else if t == 4 then x & 0x08 != 0
    else if t == 5 then x & 0x04 != 0
    else if t == 6 then x & 0x02 != 0
    else x & 0x01 != 0
  }

  /** The eight bits of a byte in the order they travel on the track. */
  function ByteBits(x: byte): (r: seq<bool>)
    ensures |r| == 8
  {
    seq(8, t requires 0 <= t < 8 => ByteBit(x, t))
  }

  function Reverse<T>(s: seq<T>): (r: seq<T>)
    ensures |r| == |s|
    ensures forall i :: 0 <= i < |s| ==> r[i] == s[|s| - 1 - i]
  {
    if s == [] then [] else Reverse(s[1..]) + [s[0]]
  }
}
