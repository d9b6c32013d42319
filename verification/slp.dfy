/**
 The SLP codec: an ordered list of byte items and its flat encoding, in which
 every item is written as its length in two little-endian bytes followed by
 its raw bytes, with no count, separator or terminator.

 `Encode` and `Decode` are the pure definitions; `EncodeWrite` and
 `DecodeRead` follow the source's loops, with the sink and the source
 modelled as in-memory byte sequences.
 */
module Slp {
  import opened Wire

  /** One item: an arbitrary sequence of bytes (Rust `Vec<u8>`). */
  type Item = seq<byte>

  /** The SLP value: the ordered items it owns. */
  datatype SLP = SLP(items: seq<Item>) {

    /** Gives up the wrapper and yields exactly the items it held. */
    function IntoInner(): (r: seq<Item>)
      ensures SLP(r) == this
    {
      items
    }
  }

  /** An item whose length fits in the 2-byte prefix. */
  predicate Fits(item: Item) {
    |item| <= MaxItemLen
  }

  /** Every item of the list fits in the 2-byte prefix. */
  predicate AllFit(items: seq<Item>) {
    forall i :: 0 <= i < |items| ==> Fits(items[i])
  }

  /** The index of the first item too long to encode, or `|items|` if every
      item fits. */
  function FirstTooLong(items: seq<Item>): (k: nat)
    ensures k <= |items|
    ensures AllFit(items[..k])
    ensures k < |items| ==> !Fits(items[k])
  {
    if |items| == 0 || !Fits(items[0]) then 0
    else
      var k' := FirstTooLong(items[1..]);
      assert items[..k' + 1] == [items[0]] + items[1..][..k'];
      k' + 1
  }

  /** The wire form of one item: its length prefix, then its bytes. */
  function Frame(item: Item): seq<byte>
    requires Fits(item)
  {
    PutU16Le(|item|) + item
  }

  /** The encoding of a list of items: their frames, concatenated in order. */
  function Encode(items: seq<Item>): (r: seq<byte>)
    requires AllFit(items)
  {
    if |items| == 0 then [] else Frame(items[0]) + Encode(items[1..])
  }

  /** Encoding an item in front of a list adds its frame in front. */
  lemma EncodeCons(item: Item, more: seq<Item>)
    requires Fits(item) && AllFit(more)
    ensures AllFit([item] + more)
    ensures Encode([item] + more) == Frame(item) + Encode(more)
  {
    assert ([item] + more)[1..] == more;
  }

  /** Encoding distributes over concatenation of item lists. */
  lemma {:induction false} EncodeConcat(a: seq<Item>, b: seq<Item>)
    requires AllFit(a) && AllFit(b)
    ensures AllFit(a + b)
    ensures Encode(a + b) == Encode(a) + Encode(b)
  {
    assert AllFit(a + b) by {
      forall i | 0 <= i < |a + b| ensures Fits((a + b)[i]) {
        if i < |a| { assert (a + b)[i] == a[i]; } else { assert (a + b)[i] == b[i - |a|]; }
      }
    }
    if |a| == 0 {
      assert a + b == b;
    } else {
      assert (a + b)[1..] == a[1..] + b;
      EncodeConcat(a[1..], b);
    }
  }

  /** Places already-decoded items in front of the rest of a decode; an
      error of the rest stays that error, with no partial items. */
  function Prepend(items: seq<Item>, r: Result<seq<Item>>): Result<seq<Item>> {
    match r
    case Success(more) => Success(items + more)
    case Failure(e) => Failure(e)
  }

  /** Prepending decoded items is associative: prepending `b` and then `a`
      is prepending `a + b`. `DecodeRead`'s loop invariant relies on it. */
  lemma PrependPrepend(a: seq<Item>, b: seq<Item>, r: Result<seq<Item>>)
    ensures Prepend(a, Prepend(b, r)) == Prepend(a + b, r)
  {
    if r.Success? {
      assert a + (b + r.value) == (a + b) + r.value;
    }
  }

  /**
   Decoding as the source's loop does it: read a 2-byte prefix; if that read
   fails (0 or 1 bytes left) stop successfully with the items read so far; if
   it succeeds, read exactly the declared number of content bytes, failing
   with a read error when fewer are left, and repeat.
   */
  function Decode(source: seq<byte>): (r: Result<seq<Item>>)
    ensures r.Failure? ==> r.error == ReadError
    ensures r.Success? ==> AllFit(r.value)
    ensures |source| < PrefixLen ==> r == Success([])
    decreases |source|
  {
    match ReadExact(source, PrefixLen)
    case UnexpectedEof => Success([])
    case Filled(lengthBuf, afterPrefix) =>
      var n := GetU16Le(lengthBuf[0], lengthBuf[1]);
      match ReadExact(afterPrefix, n)
      case UnexpectedEof => Failure(ReadError)
      case Filled(item, rest) => Prepend([item], Decode(rest))
  }

  /**
   Encodes the items onto the end of `sink`, item by item. An item longer
   than 65535 bytes stops the encoding with `ItemTooLong` before any of its
   bytes are written; the frames of the items before it stay in the sink.
   The sink always accepts the bytes it is given.
   */
  method EncodeWrite(slp: SLP, sink: seq<byte>) returns (written: seq<byte>, outcome: Outcome)
    ensures outcome.Pass? <==> AllFit(slp.items)
    ensures outcome.Fail? ==> outcome.error == ItemTooLong
    ensures written == sink + Encode(slp.items[..FirstTooLong(slp.items)])
  {
    written := sink;
    var i := 0;
    while i < |slp.items|
      invariant i <= |slp.items|
      invariant AllFit(slp.items[..i])
      invariant written == sink + Encode(slp.items[..i])
    {
      var bytes := slp.items[i];
      var byteLen := ToU16(|bytes|);
      if byteLen.Failure? {
        FirstTooLongAt(slp.items, i);
        return written, Fail(byteLen.error);
      }
      var lengthBuf := PutU16Le(byteLen.value);
      written := written + lengthBuf;
      written := written + bytes;
      assert Encode([bytes]) == Frame(bytes);
      EncodeConcat(slp.items[..i], [bytes]);
      assert slp.items[..i + 1] == slp.items[..i] + [bytes];
      i := i + 1;
    }
    assert slp.items[..i] == slp.items;
    FirstTooLongAt(slp.items, i);
    outcome := Pass;
  }

  /** `FirstTooLong` is the only index with its two defining properties. */
  lemma {:induction false} FirstTooLongAt(items: seq<Item>, i: nat)
    requires i <= |items|
    requires AllFit(items[..i])
    requires i < |items| ==> !Fits(items[i])
    ensures FirstTooLong(items) == i
  {
    if i > 0 {
      assert items[..i][0] == items[0];
      assert items[1..][..i - 1] == items[..i][1..];
      FirstTooLongAt(items[1..], i - 1);
    }
  }

  /**
   Decodes a whole source with the source's loop. A failed prefix read ends
   the loop successfully; a failed content read is a `ReadError` and no
   partial item list is returned.
   */
  method DecodeRead(source: seq<byte>) returns (r: Result<SLP>)
    ensures r.Success? <==> Decode(source).Success?
    ensures r.Success? ==> r.value.items == Decode(source).value
    ensures r.Failure? ==> r.error == ReadError
  {
    var items: seq<Item> := [];
    var rest := source;
    var prefix := ReadExact(rest, PrefixLen);
    if Decode(source).Success? {
      assert items + Decode(source).value == Decode(source).value;
    }
    while prefix.Filled?
      invariant prefix == ReadExact(rest, PrefixLen)
      invariant Decode(source) == Prepend(items, Decode(rest))
      decreases |rest|
    {
      var byteLen := GetU16Le(prefix.buf[0], prefix.buf[1]);
      var content := ReadExact(prefix.rest, byteLen);
      if content.UnexpectedEof? {
        return Failure(ReadError);
      }
      PrependPrepend(items, [content.buf], Decode(content.rest));
      items := items + [content.buf];
      rest := content.rest;
      prefix := ReadExact(rest, PrefixLen);
    }
    assert items + [] == items;
    return Success(SLP(items));
  }
}
