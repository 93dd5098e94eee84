/** The log file's byte layout: each operation is an 8-byte little-endian length followed
    by that many serialised bytes (src/core/metas/wal.rs:27-71). The serialiser is a
    parameter; the framing is concrete. */
module Framing {
  import opened Metas
  import opened Arithmetic

  type byte = b: int | 0 <= b < 256

  function Pow256(w: nat): nat {
    if w == 0 then 1 else 256 * Pow256(w - 1)
  }

  function LittleEndian(n: nat, width: nat): (bytes: seq<byte>)
    ensures |bytes| == width
  {
    if width == 0 then [] else [n % 256] + LittleEndian(n / 256, width - 1)
  }

  function FromLittleEndian(bytes: seq<byte>): nat {
    if bytes == [] then 0 else bytes[0] + 256 * FromLittleEndian(bytes[1..])
  }

  lemma {:induction false} LittleEndianRoundTrip(n: nat, width: nat)
    requires n < Pow256(width)
    ensures FromLittleEndian(LittleEndian(n, width)) == n
  {
    if width == 0 {
    } else {
      LittleEndianRoundTrip(n / 256, width - 1);
      var bytes := LittleEndian(n, width);
      assert bytes[1..] == LittleEndian(n / 256, width - 1);
    }
  }

  /** Byte `k` is the `k`-th base-256 digit, least significant first. */
  lemma {:induction false} LittleEndianDigit(n: nat, width: nat, k: nat)
    requires k < width
    ensures Pow256(k) > 0 && LittleEndian(n, width)[k] == n / Pow256(k) % 256
  {
    if k == 0 {
    } else {
      LittleEndianDigit(n / 256, width - 1, k - 1);
      DivideTwice(n, 256, Pow256(k - 1));
    }
  }

  const MAX_LENGTH: nat := 0x1_0000_0000_0000_0000

  lemma MaxLengthFits()
    ensures Pow256(8) == MAX_LENGTH
  {
    assert Pow256(4) == 256 * (256 * (256 * 256));
    assert Pow256(8) == 256 * (256 * (256 * (256 * Pow256(4))));
  }

  /** A serialiser and its deserialiser. */
  datatype Codec<!T(!new)> = Codec(encode: T -> seq<byte>, decode: seq<byte> -> Option<T>) {
    /** Whatever was encoded decodes to itself, and lengths fit a `usize`. */
    ghost predicate Faithful() {
      forall t: T :: decode(encode(t)) == Some(t) && |encode(t)| < MAX_LENGTH
    }
  }

  function Frame<T(!new)>(c: Codec<T>, op: T): seq<byte> {
    LittleEndian(|c.encode(op)|, 8) + c.encode(op)
  }

  function Frames<T(!new)>(c: Codec<T>, ops: seq<T>): seq<byte> {
    if ops == [] then [] else Frame(c, ops[0]) + Frames(c, ops[1..])
  }

  function Prepend<T>(ops: seq<T>, r: Outcome<seq<T>>): Outcome<seq<T>> {
    if r.Ok? then Ok(ops + r.value) else r
  }

  lemma PrependNothing<T>(r: Outcome<seq<T>>)
    ensures Prepend([], r) == r
  {
    if r.Ok? {
      assert [] + r.value == r.value;
    }
  }

  lemma PrependPrepend<T>(a: seq<T>, b: seq<T>, r: Outcome<seq<T>>)
    ensures Prepend(a, Prepend(b, r)) == Prepend(a + b, r)
  {
    if r.Ok? {
      assert a + (b + r.value) == a + b + r.value;
    }
  }

  /** What the log readers make of a file: slices beyond the end panic, a record that does
      not deserialise is an error, whichever comes first. A length so large that the end
      index overflows panics too: by itself, or wrapped to before the slice's start. */
  function Parse<T(!new)>(c: Codec<T>, data: seq<byte>): Outcome<seq<T>> {
    if data == [] then Ok([])
    else if |data| < 8 then Panic
    else
      var end := 8 + FromLittleEndian(data[..8]);
      if end > |data| then Panic
      else match c.decode(data[8..end])
        case None => Err("deserialize")
        case Some(op) => Prepend([op], Parse(c, data[end..]))
  }

  /** One step of parsing, in place. */
  lemma ParseAt<T(!new)>(c: Codec<T>, data: seq<byte>, index: nat)
    requires index < |data|
    ensures Parse(c, data[index..]) ==
      if index + 8 > |data| then Panic
      else
        var end := index + 8 + FromLittleEndian(data[index..index + 8]);
        if end > |data| then Panic
        else match c.decode(data[index + 8..end])
          case None => Err("deserialize")
          case Some(op) => Prepend([op], Parse(c, data[end..]))
  {
    var rest := data[index..];
    if index + 8 <= |data| {
      var length := FromLittleEndian(rest[..8]);
      assert rest[..8] == data[index..index + 8];
      if 8 + length <= |rest| {
        assert rest[8..8 + length] == data[index + 8..index + 8 + length];
        assert rest[8 + length..] == data[index + 8 + length..];
      }
    }
  }

  /** A record that does not deserialise is an error, not a panic, whatever follows it. */
  lemma BadRecord<T(!new)>(c: Codec<T>, ops: seq<T>, payload: seq<byte>, rest: seq<byte>)
    requires c.Faithful() && |payload| < MAX_LENGTH && c.decode(payload) == None
    ensures Parse(c, Frames(c, ops) + (LittleEndian(|payload|, 8) + payload + rest)) == Err("deserialize")
  {
    var header := LittleEndian(|payload|, 8);
    var data := header + payload + rest;
    MaxLengthFits();
    LittleEndianRoundTrip(|payload|, 8);
    assert data[..8] == header && data[8..8 + |payload|] == payload;
    ParseFrames(c, ops, data);
  }

  lemma FrameHeader<T(!new)>(c: Codec<T>, op: T, rest: seq<byte>)
    requires c.Faithful()
    ensures |Frame(c, op)| == 8 + |c.encode(op)|
    ensures var data := Frame(c, op) + rest;
            && FromLittleEndian(data[..8]) == |c.encode(op)|
            && data[8..|Frame(c, op)|] == c.encode(op)
            && data[|Frame(c, op)|..] == rest
  {
    var data := Frame(c, op) + rest;
    assert |c.encode(op)| < MAX_LENGTH by {
      assert c.decode(c.encode(op)) == Some(op);
    }
    MaxLengthFits();
    LittleEndianRoundTrip(|c.encode(op)|, 8);
    assert data[..8] == LittleEndian(|c.encode(op)|, 8);
  }

  lemma ParseFrame<T(!new)>(c: Codec<T>, op: T, rest: seq<byte>)
    requires c.Faithful()
    ensures Parse(c, Frame(c, op) + rest) == Prepend([op], Parse(c, rest))
  {
    FrameHeader(c, op, rest);
    assert c.decode(c.encode(op)) == Some(op);
  }

  /** Parsing distributes over appending to a well-formed log. */
  lemma {:induction false} ParseFrames<T(!new)>(c: Codec<T>, ops: seq<T>, rest: seq<byte>)
    requires c.Faithful()
    ensures Parse(c, Frames(c, ops) + rest) == Prepend(ops, Parse(c, rest))
  {
    if ops == [] {
      assert Frames(c, ops) + rest == rest;
      PrependNothing(Parse(c, rest));
    } else {
      var tail := Frames(c, ops[1..]) + rest;
      assert Frames(c, ops) + rest == Frame(c, ops[0]) + tail;
      ParseFrame(c, ops[0], tail);
      ParseFrames(c, ops[1..], rest);
      PrependPrepend([ops[0]], ops[1..], Parse(c, rest));
      assert [ops[0]] + ops[1..] == ops;
    }
  }

  /** A log reads back as what was written. */
  lemma FramesRoundTrip<T(!new)>(c: Codec<T>, ops: seq<T>)
    requires c.Faithful()
    ensures Parse(c, Frames(c, ops)) == Ok(ops)
  {
    ParseFrames(c, ops, []);
    assert Frames(c, ops) + [] == Frames(c, ops);
    assert ops + [] == ops;
  }

  lemma {:induction false} FramesConcat<T(!new)>(c: Codec<T>, a: seq<T>, b: seq<T>)
    ensures Frames(c, a + b) == Frames(c, a) + Frames(c, b)
  {
    if a == [] {
      assert a + b == b;
    } else {
      assert (a + b)[1..] == a[1..] + b;
      FramesConcat(c, a[1..], b);
    }
  }

  /** `cut` bytes are exactly the first `k` frames. */
  predicate AtBoundary<T(!new)>(c: Codec<T>, ops: seq<T>, cut: nat, k: nat) {
    k <= |ops| && cut == |Frames(c, ops[..k])|
  }

  lemma {:induction false} PrefixOfFrames<T(!new)>(c: Codec<T>, ops: seq<T>, k: nat)
    requires k <= |ops|
    ensures |Frames(c, ops[..k])| <= |Frames(c, ops)|
    ensures Frames(c, ops)[..|Frames(c, ops[..k])|] == Frames(c, ops[..k])
  {
    FramesConcat(c, ops[..k], ops[k..]);
    assert ops[..k] + ops[k..] == ops;
  }

  /** A well-formed log cut off anywhere reads as the operations before the cut when the
      cut lies between two frames, and makes the reader panic everywhere else. */
  lemma {:induction false} CutLog<T(!new)>(c: Codec<T>, ops: seq<T>, cut: nat)
    requires c.Faithful() && cut <= |Frames(c, ops)|
    ensures forall k: nat | AtBoundary(c, ops, cut, k) :: Parse(c, Frames(c, ops)[..cut]) == Ok(ops[..k])
    ensures (forall k: nat :: !AtBoundary(c, ops, cut, k)) ==> Parse(c, Frames(c, ops)[..cut]) == Panic
  {
    forall k: nat | AtBoundary(c, ops, cut, k)
      ensures Parse(c, Frames(c, ops)[..cut]) == Ok(ops[..k])
    {
      PrefixOfFrames(c, ops, k);
      FramesRoundTrip(c, ops[..k]);
    }
    if forall k: nat :: !AtBoundary(c, ops, cut, k) {
      CutInsideFrame(c, ops, cut);
    }
  }

  lemma BoundaryShift<T(!new)>(c: Codec<T>, ops: seq<T>, left: nat, k: nat)
    requires ops != []
    ensures AtBoundary(c, ops[1..], left, k) <==> AtBoundary(c, ops, |Frame(c, ops[0])| + left, k + 1)
  {
    if k < |ops| {
      assert ops[..k + 1][1..] == ops[1..][..k];
    }
  }

  lemma {:induction false} CutInsideFrame<T(!new)>(c: Codec<T>, ops: seq<T>, cut: nat)
    requires c.Faithful() && cut <= |Frames(c, ops)|
    requires forall k: nat :: !AtBoundary(c, ops, cut, k)
    ensures Parse(c, Frames(c, ops)[..cut]) == Panic
  {
    assert !AtBoundary(c, ops, cut, 0) && ops[..0] == [] && cut != 0;
    var first, rest := Frame(c, ops[0]), Frames(c, ops[1..]);
    var data := (first + rest)[..cut];
    FrameHeader(c, ops[0], rest);
    if cut < |first| {
      if 8 <= cut {
        assert data[..8] == (first + rest)[..8];
      }
    } else {
      var left := cut - |first|;
      assert data == first + rest[..left];
      forall k: nat
        ensures !AtBoundary(c, ops[1..], left, k)
      {
        BoundaryShift(c, ops, left, k);
      }
      CutInsideFrame(c, ops[1..], left);
      ParseFrame(c, ops[0], rest[..left]);
    }
  }
}
