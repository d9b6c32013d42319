/**
 Properties of the SLP codec: the byte layout of an encoding, the round trip,
 and an exact description of which byte streams decode and to what.

 Lemmas marked `{:induction false}` either are proved by explicit induction
 in their body or, for the ones that never call themselves, have automatic
 induction switched off only to keep their verification fast and stable.
 */
module SlpProperties {
  import opened Wire
  import opened Slp

  /** The size of an encoding, counted item by item: two prefix bytes plus
      the item's own bytes. */
  function EncodedSize(items: seq<Item>): nat {
    if |items| == 0 then 0 else PrefixLen + |items[0]| + EncodedSize(items[1..])
  }

  /** `source` is the encoding of `items` followed by fewer than two stray
      bytes: the streams on which decoding stops cleanly with `items`. */
  ghost predicate FramedBy(source: seq<byte>, items: seq<Item>) {
    && AllFit(items)
    && var e := Encode(items);
    && |e| <= |source| < |e| + PrefixLen
    && source[..|e|] == e
  }

  /** The encoding is exactly as long as the sum of `2 + |item|`. */
  lemma {:induction false} EncodeLength(items: seq<Item>)
    requires AllFit(items)
    ensures |Encode(items)| == EncodedSize(items)
    ensures Encode(items) == [] <==> items == []
  {
    if |items| > 0 {
      EncodeLength(items[1..]);
    }
  }

  /** Item `i` sits in the encoding right after the frames of the items
      before it: first its length as `[len mod 256, len / 256]`, then its
      bytes. */
  lemma {:induction false} EncodeLayout(items: seq<Item>, i: nat)
    requires AllFit(items)
    requires i < |items|
    ensures var off := |Encode(items[..i])|;
      && off + PrefixLen + |items[i]| <= |Encode(items)|
      && Encode(items)[off..off + PrefixLen] == [|items[i]| % 0x100, |items[i]| / 0x100]
      && Encode(items)[off + PrefixLen..off + PrefixLen + |items[i]|] == items[i]
  {
    AllFitParts(items, i);
    var item := items[i];
    var eb, f, ea := Encode(items[..i]), Frame(item), Encode(items[i + 1..]);
    EncodeAround(items, i);
    FrameParts(item);
    MiddleSlice(eb, f, ea, 0, PrefixLen);
    MiddleSlice(eb, f, ea, PrefixLen, |f|);
    assert Encode(items)[|eb|..|eb| + PrefixLen] == f[..PrefixLen];
    assert Encode(items)[|eb| + PrefixLen..|eb| + PrefixLen + |item|] == f[PrefixLen..];
  }

  /** The two parts of a frame: the little-endian length, then the item. */
  lemma FrameParts(item: Item)
    requires Fits(item)
    ensures |Frame(item)| == PrefixLen + |item|
    ensures Frame(item)[..PrefixLen] == [|item| % 0x100, |item| / 0x100]
    ensures Frame(item)[PrefixLen..] == item
  {
    assert Frame(item) == PutU16Le(|item|) + item;
  }

  /** The encoding of `items` split around position `i`. */
  lemma {:induction false} EncodeAround(items: seq<Item>, i: nat)
    requires AllFit(items)
    requires i < |items|
    requires AllFit(items[..i]) && AllFit(items[i + 1..])
    ensures Encode(items) == Encode(items[..i]) + (Frame(items[i]) + Encode(items[i + 1..]))
  {
    var item, before, after := items[i], items[..i], items[i + 1..];
    EncodeCons(item, after);
    SplitAround(items, i);
    EncodeConcat(before, [item] + after);
  }

  /** A sequence is its part before `i`, its element at `i`, and its part
      after `i`. */
  lemma SplitAround<T>(s: seq<T>, i: nat)
    requires i < |s|
    ensures s == s[..i] + ([s[i]] + s[i + 1..])
  {
  }

  /** The items before and after position `i` fit when all items do. */
  lemma AllFitParts(items: seq<Item>, i: nat)
    requires AllFit(items)
    requires i < |items|
    ensures AllFit(items[..i]) && AllFit(items[i + 1..])
  {
    var before, after := items[..i], items[i + 1..];
    forall j | 0 <= j < |before| ensures Fits(before[j]) { assert before[j] == items[j]; }
    forall j | 0 <= j < |after| ensures Fits(after[j]) { assert after[j] == items[i + 1 + j]; }
  }

  /** A slice of the middle part of a three-part concatenation. */
  lemma MiddleSlice(a: seq<byte>, b: seq<byte>, c: seq<byte>, i: nat, j: nat)
    requires i <= j <= |b|
    ensures (a + (b + c))[|a| + i..|a| + j] == b[i..j]
  {
    assert (a + (b + c))[|a|..] == b + c;
  }

  /** Decoding a stream that starts with one well-formed frame yields that
      frame's item in front of whatever the rest decodes to. */
  lemma {:induction false} DecodeFrame(item: Item, more: seq<byte>)
    requires Fits(item)
    ensures Decode(Frame(item) + more) == Prepend([item], Decode(more))
  {
    var s := Frame(item) + more;
    var n := GetU16Le(s[0], s[1]);
    LittleEndianPrefix(|item|, 0, 0);
    assert s[0] == PutU16Le(|item|)[0] && s[1] == PutU16Le(|item|)[1];
    assert n == |item|;
    assert s[PrefixLen..] == item + more;
    assert (item + more)[..n] == item && (item + more)[n..] == more;
  }

  /** Decoding the encoding of `items` followed by any bytes yields `items`
      in front of whatever those bytes decode to. */
  lemma {:induction false} DecodeAfterFrames(items: seq<Item>, rest: seq<byte>)
    requires AllFit(items)
    ensures Decode(Encode(items) + rest) == Prepend(items, Decode(rest))
  {
    if |items| == 0 {
      assert Encode(items) + rest == rest;
      if Decode(rest).Success? {
        assert items + Decode(rest).value == Decode(rest).value;
      }
    } else {
      assert Encode(items) + rest == Frame(items[0]) + (Encode(items[1..]) + rest);
      DecodeFrame(items[0], Encode(items[1..]) + rest);
      DecodeAfterFrames(items[1..], rest);
      PrependPrepend([items[0]], items[1..], Decode(rest));
      assert [items[0]] + items[1..] == items;
    }
  }

  /** Round trip: when every item fits, decoding the encoding gives back the
      very same items, in order. */
  lemma {:induction false} RoundTrip(items: seq<Item>)
    requires AllFit(items)
    ensures Decode(Encode(items)) == Success(items)
  {
    EndOfStream(items, []);
    assert Encode(items) + [] == Encode(items);
  }

  /** Fewer than two bytes after the last frame end the stream cleanly: they
      are dropped, not reported. */
  lemma {:induction false} EndOfStream(items: seq<Item>, tail: seq<byte>)
    requires AllFit(items)
    requires |tail| < PrefixLen
    ensures Decode(Encode(items) + tail) == Success(items)
  {
    DecodeAfterFrames(items, tail);
    assert items + [] == items;
  }

  /** A complete prefix `[lo, hi]` declaring more content bytes than follow
      makes the whole decode fail with `ReadError`, with no partial items. */
  lemma {:induction false} TruncatedContent(items: seq<Item>, lo: byte, hi: byte, partial: seq<byte>)
    requires AllFit(items)
    requires |partial| < GetU16Le(lo, hi)
    ensures Decode(Encode(items) + [lo, hi] + partial) == Failure(ReadError)
  {
    var tail := [lo, hi] + partial;
    assert Encode(items) + [lo, hi] + partial == Encode(items) + tail;
    DecodeAfterFrames(items, tail);
    DecodeStep(tail);
  }

  /** One step of decoding a stream with a complete prefix `[lo, hi]`. */
  lemma {:induction false} DecodeStep(source: seq<byte>)
    requires |source| >= PrefixLen
    ensures var n := GetU16Le(source[0], source[1]);
      && (n > |source| - PrefixLen ==> Decode(source) == Failure(ReadError))
      && (n <= |source| - PrefixLen ==>
            Decode(source) == Prepend([source[PrefixLen..PrefixLen + n]], Decode(source[PrefixLen + n..])))
  {
    var n := GetU16Le(source[0], source[1]);
    var afterPrefix := source[PrefixLen..];
    assert ReadExact(source, PrefixLen) == Filled(source[..PrefixLen], afterPrefix);
    if n <= |afterPrefix| {
      assert afterPrefix[..n] == source[PrefixLen..PrefixLen + n];
      assert afterPrefix[n..] == source[PrefixLen + n..];
    }
  }

  /** A complete frame read off the front of a stream re-encodes to the
      very bytes it was read from. */
  lemma FrameReread(source: seq<byte>)
    requires |source| >= PrefixLen
    requires PrefixLen + GetU16Le(source[0], source[1]) <= |source|
    ensures var n := GetU16Le(source[0], source[1]);
      Frame(source[PrefixLen..PrefixLen + n]) == source[..PrefixLen + n]
  {
    var n := GetU16Le(source[0], source[1]);
    LittleEndianPrefix(n, source[0], source[1]);
    assert source[..PrefixLen + n] == [source[0], source[1]] + source[PrefixLen..PrefixLen + n];
  }

  /** One more frame in front of a framed stream keeps it framed. */
  lemma FramedCons(item: Item, more: seq<Item>, rest: seq<byte>)
    requires Fits(item)
    requires FramedBy(rest, more)
    ensures FramedBy(Frame(item) + rest, [item] + more)
  {
    EncodeCons(item, more);
    var e := Encode(more);
    assert (Frame(item) + rest)[..|Frame(item)| + |e|] == Frame(item) + rest[..|e|];
  }

  /** Whatever decodes successfully is the encoding of the decoded items
      followed by fewer than two stray bytes. */
  lemma {:induction false} DecodeSound(source: seq<byte>)
    requires Decode(source).Success?
    ensures FramedBy(source, Decode(source).value)
    decreases |source|
  {
    if |source| >= PrefixLen {
      var n := GetU16Le(source[0], source[1]);
      DecodeStepSuccess(source);
      var item, rest := source[PrefixLen..PrefixLen + n], source[PrefixLen + n..];
      DecodeSound(rest);
      FrameReread(source);
      FramedCons(item, Decode(rest).value, rest);
    }
  }

  /** One successful decoding step: the declared content is all there, and
      the rest of the stream decodes successfully too. */
  lemma {:induction false} DecodeStepSuccess(source: seq<byte>)
    requires |source| >= PrefixLen
    requires Decode(source).Success?
    ensures var n := GetU16Le(source[0], source[1]);
      && n <= |source| - PrefixLen
      && Decode(source[PrefixLen + n..]).Success?
      && Decode(source).value == [source[PrefixLen..PrefixLen + n]] + Decode(source[PrefixLen + n..]).value
  {
    DecodeStep(source);
  }

  /** Exact description of a successful decode, both directions: `source`
      decodes to `items` if and only if it is their encoding followed by
      fewer than two stray bytes. */
  lemma {:induction false} DecodeIffFramed(source: seq<byte>, items: seq<Item>)
    ensures Decode(source) == Success(items) <==> FramedBy(source, items)
  {
    assert Decode(source) == Success(items) ==> FramedBy(source, items) by {
      if Decode(source) == Success(items) {
        DecodeSound(source);
      }
    }
    if FramedBy(source, items) {
      FramedDecodes(source, items);
    }
  }

  /** A framed stream decodes to the items it frames. */
  lemma {:induction false} FramedDecodes(source: seq<byte>, items: seq<Item>)
    requires FramedBy(source, items)
    ensures Decode(source) == Success(items)
  {
    var e := Encode(items);
    EndOfStream(items, source[|e|..]);
    assert source == e + source[|e|..];
  }

  /** Decoding fails exactly on the streams that are not an encoding followed
      by fewer than two stray bytes. */
  lemma {:induction false} DecodeFailsIffUnframed(source: seq<byte>)
    ensures Decode(source).Failure? <==> forall items :: !FramedBy(source, items)
  {
    if Decode(source).Success? {
      DecodeSound(source);
    }
    forall items | FramedBy(source, items) ensures Decode(source).Success? {
      DecodeIffFramed(source, items);
    }
  }

  /** Two item lists with the same encoding are the same list. */
  lemma {:induction false} EncodeInjective(a: seq<Item>, b: seq<Item>)
    requires AllFit(a) && AllFit(b)
    requires Encode(a) == Encode(b)
    ensures a == b
  {
    RoundTrip(a);
    RoundTrip(b);
  }

  /** An empty item list encodes to no bytes, and no bytes decode to an
      empty item list. */
  lemma EmptyCases()
    ensures Encode([]) == []
    ensures Decode([]) == Success([])
  {
  }

  /** The frame of an empty item is the zero prefix alone. */
  lemma EmptyFrame(item: Item)
    requires |item| == 0
    ensures Frame(item) == [0x00, 0x00]
  {
    assert PutU16Le(0) == [0x00, 0x00];
    assert item == [];
  }

  /** A zero-length item encodes to a bare zero prefix, `00 00`. */
  lemma ZeroLengthEncode()
    ensures Encode([[]]) == [0x00, 0x00]
  {
    EmptyFrame([]);
    assert Encode([[]]) == Frame([]) + Encode([]);
  }

  /** A zero prefix, alone or followed by one stray byte, decodes to a single
      zero-length item. */
  lemma ZeroLengthDecode(tail: seq<byte>)
    requires |tail| < PrefixLen
    ensures Decode([0x00, 0x00] + tail) == Success([[]])
  {
    var empty: Item := [];
    var s := [0x00, 0x00] + tail;
    DecodeStep(s);
    assert s[PrefixLen..PrefixLen] == empty;
    assert s[PrefixLen..] == tail;
    assert [empty] + [] == [empty];
  }

  /** The items `[1, 2, 3]` and `[4, 5, 6, 7]` encode to
      `03 00 01 02 03 04 00 04 05 06 07`. */
  lemma TwoItemEncode()
    ensures Encode([[1, 2, 3], [4, 5, 6, 7]]) == [0x03, 0x00, 1, 2, 3, 0x04, 0x00, 4, 5, 6, 7]
  {
    var first: Item, second: Item := [1, 2, 3], [4, 5, 6, 7];
    assert Frame(first) == [0x03, 0x00, 1, 2, 3] by {
      assert PutU16Le(3) == [0x03, 0x00];
    }
    assert Frame(second) == [0x04, 0x00, 4, 5, 6, 7] by {
      assert PutU16Le(4) == [0x04, 0x00];
    }
    assert Encode([second]) == Frame(second) + Encode([]);
    assert Encode([first, second]) == Frame(first) + Encode([second]);
  }

  /** `03 00 01 02 03 04 00 04 05 06 07` decodes back to the two items. */
  lemma TwoItemDecode()
    ensures Decode([0x03, 0x00, 1, 2, 3, 0x04, 0x00, 4, 5, 6, 7]) == Success([[1, 2, 3], [4, 5, 6, 7]])
  {
    TwoItemEncode();
    RoundTrip([[1, 2, 3], [4, 5, 6, 7]]);
  }

  /** A stray byte where a prefix should start is dropped, not reported. */
  lemma StrayByteExample(x: byte)
    ensures Decode([x]) == Success([])
    ensures Decode([0x00, 0x00, x]) == Success([[]])
  {
    ZeroLengthDecode([x]);
    assert [0x00, 0x00] + [x] == [0x00, 0x00, x];
  }

  /** A prefix declaring three bytes followed by only two is a `ReadError`. */
  lemma TruncatedExample()
    ensures Decode([0x03, 0x00, 1, 2]) == Failure(ReadError)
  {
    TruncatedContent([], 0x03, 0x00, [1, 2]);
    assert Encode([]) + [0x03, 0x00] + [1, 2] == [0x03, 0x00, 1, 2];
  }
}
