/** Result types and byte facts shared by every module. */
module Common {

  type byte = bv8

  type u8 = x: nat | x < 0x100

  datatype Option<+T> = None | Some(value: T)

  datatype Result<+T, +E> = Ok(value: T) | Err(error: E) {
    predicate IsFailure() {
      Err?
    }

    function PropagateFailure<U>(): Result<U, E>
      requires Err?
    {
      Err(error)
    }

    function Extract(): T
      requires Ok?
    {
      value
    }
  }

  lemma {:induction false} ByteOf(x: int) returns (b: byte)
    requires 0 <= x < 256
    ensures b as int == x
  {
    if x == 0 {
      b := 0;
    } else {
      var before := ByteOf(x - 1);
      NextByte(before);
      b := before + 1;
    }
  }

  lemma NextByte(b: byte)
    requires b as int < 255
    ensures (b + 1) as int == b as int + 1
  {
  }

  lemma ByteToIntToByte(b: byte)
    ensures (b as int) as byte == b
  {
  }

  lemma ByteRoundTrip(x: int)
    requires 0 <= x < 256
    ensures (x as byte) as int == x
  {
    var b := ByteOf(x);
    ByteToIntToByte(b);
  }

  /** `k as u8`, for a `k` that fits. */
  function U8(k: nat): byte
    requires k < 256
  {
    k as byte
  }

  /** `b as usize`. */
  function Size(b: byte): (n: nat)
    ensures n < 256
  {
    b as nat
  }

  lemma SizeOfU8(n: nat)
    requires n < 256
    ensures Size(U8(n)) == n
  {
    ByteRoundTrip(n);
  }

  lemma U8OfSize(b: byte)
    ensures U8(Size(b)) == b
  {
    ByteToIntToByte(b);
  }

  lemma ByteOrder(a: byte, b: byte)
    ensures a < b <==> a as int < b as int
    ensures a == b <==> a as int == b as int
  {
  }

  lemma ConcatAssoc<T>(a: seq<T>, b: seq<T>, c: seq<T>)
    ensures a + (b + c) == a + b + c
  {
  }

  lemma DropAppend<T>(a: seq<T>, b: seq<T>, k: nat)
    requires k <= |a|
    ensures (a + b)[k..] == a[k..] + b
  {
  }

  /** Concatenation of a sequence of sequences, as `join` on an empty separator. */
  function Flatten<T>(parts: seq<seq<T>>): seq<T> {
    if parts == [] then [] else parts[0] + Flatten(parts[1..])
  }

  function Reversed<T>(s: seq<T>): (r: seq<T>)
    ensures |r| == |s|
    ensures forall i | 0 <= i < |s| :: r[i] == s[|s| - 1 - i]
  {
    seq(|s|, i requires 0 <= i < |s| => s[|s| - 1 - i])
  }
}
