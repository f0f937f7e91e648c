/** Results of reading a value off the front of a byte stream. */
module Parsing {
  import opened Bytes

  datatype Option<+T> = None | Some(value: T)

  /** A value and the input left after it, or a failed read. */
  datatype Parsed<+T> = Got(value: T, rest: seq<byte>) | Bad {
    predicate IsFailure() {
      Bad?
    }

    function PropagateFailure<U>(): Parsed<U>
      requires Bad?
    {
      Bad
    }

    function Extract(): (T, seq<byte>)
      requires Got?
    {
      (value, rest)
    }
  }

  function PByte(s: seq<byte>): (p: Parsed<byte>)
    ensures p.Got? ==> |p.rest| + 1 == |s|
  {
    if s == [] then Bad else Got(s[0], s[1..])
  }

  /** io.ReadFull and readBytes: exactly n bytes. */
  function PBytes(s: seq<byte>, n: nat): (p: Parsed<seq<byte>>)
    ensures p.Got? ==> |p.rest| + n == |s| && |p.value| == n
  {
    if n > |s| then Bad else Got(s[..n], s[n..])
  }

  lemma PBytesOf(a: seq<byte>, t: seq<byte>)
    ensures PBytes(a + t, |a|) == Got(a, t)
  {
    assert (a + t)[..|a|] == a && (a + t)[|a|..] == t;
  }

  lemma PByteOf(b: byte, t: seq<byte>)
    ensures PByte([b] + t) == Got(b, t)
  {
    assert ([b] + t)[1..] == t;
  }

  lemma Assoc(a: seq<byte>, b: seq<byte>, c: seq<byte>)
    ensures (a + b) + c == a + (b + c)
  {
  }

  lemma Assoc3(a: seq<byte>, b: seq<byte>, c: seq<byte>, t: seq<byte>)
    ensures (a + (b + c)) + t == a + (b + (c + t))
  {
  }

  lemma Assoc4(a: seq<byte>, b: seq<byte>, c: seq<byte>, d: seq<byte>, t: seq<byte>)
    ensures (a + (b + (c + d))) + t == a + (b + (c + (d + t)))
  {
  }

  // Appending pieces one after the other.

  lemma Nested3(start: seq<byte>, a: seq<byte>, b: seq<byte>, c: seq<byte>)
    ensures ((start + a) + b) + c == start + (a + (b + c))
  {
  }

  lemma Nested4(start: seq<byte>, a: seq<byte>, b: seq<byte>, c: seq<byte>, d: seq<byte>)
    ensures (((start + a) + b) + c) + d == start + (a + (b + (c + d)))
  {
  }

  lemma Nested5(start: seq<byte>, a: seq<byte>, b: seq<byte>, c: seq<byte>, d: seq<byte>, e: seq<byte>)
    ensures ((((start + a) + b) + c) + d) + e == start + (a + (b + (c + (d + e))))
  {
  }

  lemma Piece3(start: seq<byte>, a: seq<byte>, b: seq<byte>, c: seq<byte>, rest: seq<byte>)
    ensures (start + (a + (b + c))) + rest == start + (a + (b + (c + rest)))
  {
  }

  lemma AfterKey1(start: seq<byte>, a: seq<byte>, k: seq<byte>, b: seq<byte>)
    ensures (start + (a + k)) + b == start + (a + (k + b))
  {
  }

  lemma AfterKey2(start: seq<byte>, a: seq<byte>, k: seq<byte>, b: seq<byte>, c: seq<byte>)
    ensures ((start + (a + k)) + b) + c == start + (a + (k + (b + c)))
  {
  }

  lemma AfterKey3(start: seq<byte>, a: seq<byte>, k: seq<byte>, b: seq<byte>, c: seq<byte>, d: seq<byte>)
    ensures (((start + (a + k)) + b) + c) + d == start + (a + (k + (b + (c + d))))
  {
  }
}
