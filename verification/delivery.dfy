/** What one node publishes with `src/dispatch.c`, another node decodes
    with `DIS_process` and hands out with `DIS_getElements`: the element
    arrays survive the little-endian encoding, the header fields survive
    the nibble packing, and the frame layer returns the payload intact. */
module Delivery {
  import opened Config
  import opened FrameSpec
  import opened DispatchSpec
  import Frame

  // ---------------------------------------------------------------------
  // Element arrays
  // ---------------------------------------------------------------------

  lemma {:induction false} EncodeCons(v: int, vs: seq<int>, w: nat)
    ensures Encode([v] + vs, w) == LittleEndian(v, w) + Encode(vs, w)
    decreases |vs|
  {
    if vs == [] {
      assert [v] + vs == [v];
      assert [v][..0] == [];
    } else {
      var init := vs[..|vs| - 1];
      assert ([v] + vs)[..|vs|] == [v] + init;
      EncodeCons(v, init, w);
    }
  }

  lemma {:induction false} EncodeAppend(a: seq<int>, b: seq<int>, w: nat)
    ensures Encode(a + b, w) == Encode(a, w) + Encode(b, w)
    decreases |b|
  {
    if b == [] {
      assert a + b == a;
    } else {
      var ab, init, last := a + b, b[..|b| - 1], b[|b| - 1];
      assert ab[..|ab| - 1] == a + init && ab[|ab| - 1] == last;
      assert Encode(ab, w) == Encode(a + init, w) + LittleEndian(last, w);
      EncodeAppend(a, init, w);
      assert Encode(b, w) == Encode(init, w) + LittleEndian(last, w);
    }
  }

  lemma MulStep(n: nat, m: nat, w: nat, extra: nat)
    requires n == m + 1 && w > 0
    ensures n * w + extra > 0 && n * w + extra - w == m * w + extra
  {
  }

  /** One element read off the front. */
  lemma ReadUnfold(t: Tag, bs: seq<Byte>, r: int, r': int)
    requires IsNumeric(t) && r > 0 && ElementWidth(t) <= |bs| && r' == r - ElementWidth(t)
    ensures var w := ElementWidth(t);
            (ReadsFit(bs, r, w) <==> ReadsFit(bs[w..], r', w)) &&
            (ReadsFit(bs, r, w) ==>
               ReadElements(t, bs, r) == [ElementValue(t, bs[..w])] + ReadElements(t, bs[w..], r'))
  {
  }

  /** The element loop can consume the encoding of `vs` followed by
      `extra` more octets exactly when `rest` holds those `extra`. */
  lemma {:induction false} EncodedFits(w: nat, vs: seq<int>, rest: seq<Byte>, extra: nat, r: int)
    requires w > 0 && r == |vs| * w + extra
    ensures ReadsFit(Encode(vs, w) + rest, r, w) <==> ReadsFit(rest, extra, w)
    decreases |vs|
  {
    if vs == [] {
      assert Encode(vs, w) + rest == rest;
    } else {
      EncodeFront(vs, rest, w);
      MulStep(|vs|, |vs| - 1, w, extra);
      FitsUnfold(Encode(vs, w) + rest, r, w);
      EncodedFits(w, vs[1..], rest, extra, r - w);
    }
  }

  /** The encoding of `vs` followed by `rest` starts with the octets of
      `vs[0]` and goes on with the encoding of the others. */
  lemma EncodeFront(vs: seq<int>, rest: seq<Byte>, w: nat)
    requires |vs| > 0
    ensures var bs := Encode(vs, w) + rest;
            w <= |bs| && bs[..w] == LittleEndian(vs[0], w) && bs[w..] == Encode(vs[1..], w) + rest
  {
    var tail := vs[1..];
    assert Encode(vs, w) == LittleEndian(vs[0], w) + Encode(tail, w) by {
      assert [vs[0]] + tail == vs;
      EncodeCons(vs[0], tail, w);
    }
    SplitFront(LittleEndian(vs[0], w), Encode(tail, w), rest);
  }

  /** Splitting a concatenation at its first part. Stated over fresh
      variables: the same fact asserted on the encodings at the call site
      makes that proof far costlier. */
  lemma SplitFront<T>(a: seq<T>, b: seq<T>, c: seq<T>)
    ensures (a + b + c)[..|a|] == a && (a + b + c)[|a|..] == b + c
  {
  }

  /** One element's octets consumed. */
  lemma FitsUnfold(bs: seq<Byte>, r: int, w: nat)
    requires r > 0 && w > 0
    ensures ReadsFit(bs, r, w) <==> w <= |bs| && ReadsFit(bs[w..], r - w, w)
  {
  }

  /** The element loop of `DIS_getElements` reads back, in order, the
      values the publisher encoded, and then goes on with whatever follows
      them: `extra` more octets to consume are read from `rest`. */
  lemma {:induction false} ReadEncoded(t: Tag, vs: seq<int>, bs: seq<Byte>, rest: seq<Byte>, extra: nat, r: int)
    requires IsNumeric(t) && bs == Encode(vs, ElementWidth(t)) + rest
    requires ReadsFit(rest, extra, ElementWidth(t)) && r == |bs| - |rest| + extra
    requires forall i :: 0 <= i < |vs| ==> InRange(t, vs[i])
    ensures ReadsFit(bs, r, ElementWidth(t))
    ensures ReadElements(t, bs, r) == vs + ReadElements(t, rest, extra)
    decreases |vs|
  {
    var w := ElementWidth(t);
    if vs == [] {
      EmptyAppend(Encode(vs, w), rest);
    } else {
      var tail, mid, r' := vs[1..], bs[w..], r - w;
      EncodeFront(vs, rest, w);
      ReadEncoded(t, tail, mid, rest, extra, r');
      ReadCons(t, bs, r, r', vs[0], mid, tail, rest, extra);
      ConsTail(vs);
    }
  }

  /** An empty prefix adds nothing (a lemma for the same reason). */
  lemma EmptyAppend<T>(e: seq<T>, s: seq<T>)
    requires e == []
    ensures e + s == s
  {
  }

  lemma ConsTail<T>(s: seq<T>)
    requires |s| > 0
    ensures [s[0]] + s[1..] == s
  {
  }

  /** Octets that start with the encoding of `v` and go on with `mid`:
      the element loop reads `v` first and then what it reads from `mid`. */
  lemma ReadCons(t: Tag, bs: seq<Byte>, r: int, r': int, v: int, mid: seq<Byte>, tail: seq<int>,
                 rest: seq<Byte>, extra: nat)
    requires IsNumeric(t) && InRange(t, v) && r > 0 && r' == r - ElementWidth(t)
    requires ReadsFit(rest, extra, ElementWidth(t))
    requires ElementWidth(t) <= |bs| && bs[..ElementWidth(t)] == LittleEndian(v, ElementWidth(t))
    requires bs[ElementWidth(t)..] == mid && ReadsFit(mid, r', ElementWidth(t))
    requires ReadElements(t, mid, r') == tail + ReadElements(t, rest, extra)
    ensures ReadsFit(bs, r, ElementWidth(t))
    ensures ReadElements(t, bs, r) == [v] + tail + ReadElements(t, rest, extra)
  {
    ElementRoundTrip(t, v);
    ReadUnfold(t, bs, r, r');
    Frame.Assoc([v], tail, ReadElements(t, rest, extra));
  }

  // ---------------------------------------------------------------------
  // Lengths and offsets
  // ---------------------------------------------------------------------

  lemma {:induction false} Length8bitCons(t: Tag, tags: seq<Tag>, n: nat)
    ensures Length8bit([t] + tags, n) == n * DecodeWidth(t) + Length8bit(tags, n)
    decreases |tags|
  {
    if tags == [] {
      assert [t] + tags == [t];
      assert [t][..0] == [];
    } else {
      var init := tags[..|tags| - 1];
      assert ([t] + tags)[..|tags|] == [t] + init;
      Length8bitCons(t, init, n);
    }
  }

  /** Without a string specifier, the `length8bit` sum the receiver
      computes is exactly the number of data octets the publisher sent. */
  lemma {:induction false} DataBytesLength(tags: seq<Tag>, n: nat, args: seq<Arg>)
    requires ArgsFit(tags, n, args)
    requires forall i :: 0 <= i < |tags| ==> tags[i] != STRING
    ensures |DataBytes(tags, n, args)| == Length8bit(tags, n)
    decreases |tags|
  {
    if tags != [] {
      assert [tags[0]] + tags[1..] == tags;
      Length8bitCons(tags[0], tags[1..], n);
      if IsNumeric(tags[0]) {
        DataBytesLength(tags[1..], n, args[1..]);
      } else {
        DataBytesLength(tags[1..], n, args);
      }
    }
  }

  /** The arguments fit the specifiers, every specifier is numeric, and
      every value sent is one its C type can hold. */
  predicate ArraysFit(tags: seq<Tag>, n: nat, args: seq<Arg>) {
    ArgsFit(tags, n, args) && |args| >= |tags| &&
    forall i :: 0 <= i < |tags| ==>
      IsNumeric(tags[i]) && args[i].Values? && |args[i].values| >= n &&
      forall j :: 0 <= j < n ==> InRange(tags[i], args[i].values[j])
  }

  /** With numeric specifiers only, the offset `getCurrentRxPointerIndex`
      computes for element `e` is the `length8bit` sum of the specifiers
      before it. */
  lemma {:induction false} PointerIndexIsLength8bit(tags: seq<Tag>, n: nat, e: nat)
    requires e <= |tags|
    requires forall i :: 0 <= i < e ==> IsNumeric(tags[i])
    ensures PointerIndex(tags, n, e) == Length8bit(tags[..e], n)
    decreases e
  {
    if e > 0 {
      assert tags[..e][..e - 1] == tags[..e - 1];
      PointerIndexIsLength8bit(tags, n, e - 1);
    }
  }

  lemma DataBytesCons(tags: seq<Tag>, n: nat, args: seq<Arg>)
    requires ArgsFit(tags, n, args) && tags != [] && IsNumeric(tags[0])
    ensures |args| > 0 && args[0].Values? && |args[0].values| >= n && ArgsFit(tags[1..], n, args[1..])
    ensures DataBytes(tags, n, args) ==
            Encode(args[0].values[..n], ElementWidth(tags[0])) + DataBytes(tags[1..], n, args[1..])
  {
  }

  /** The data of the numeric branch splits at any specifier. */
  lemma {:induction false} DataBytesSplit(tags: seq<Tag>, n: nat, args: seq<Arg>, e: nat)
    requires ArgsFit(tags, n, args) && |args| >= |tags| && e <= |tags|
    requires forall i :: 0 <= i < |tags| ==> IsNumeric(tags[i])
    ensures ArgsFit(tags[..e], n, args[..e]) && ArgsFit(tags[e..], n, args[e..])
    ensures DataBytes(tags, n, args) == DataBytes(tags[..e], n, args[..e]) + DataBytes(tags[e..], n, args[e..])
    decreases e
  {
    if e == 0 {
      assert tags[0..] == tags && args[0..] == args;
    } else {
      DataBytesSplit(tags[1..], n, args[1..], e - 1);
      DataBytesSplitStep(tags, n, args, e);
    }
  }

  /** The inductive step of `DataBytesSplit`: splitting after the first
      specifier's array. */
  lemma DataBytesSplitStep(tags: seq<Tag>, n: nat, args: seq<Arg>, e: nat)
    requires ArgsFit(tags, n, args) && |args| >= |tags| && 0 < e <= |tags|
    requires forall i :: 0 <= i < |tags| ==> IsNumeric(tags[i])
    requires ArgsFit(tags[1..][..e - 1], n, args[1..][..e - 1])
    requires ArgsFit(tags[1..][e - 1..], n, args[1..][e - 1..])
    requires DataBytes(tags[1..], n, args[1..]) ==
             DataBytes(tags[1..][..e - 1], n, args[1..][..e - 1]) + DataBytes(tags[1..][e - 1..], n, args[1..][e - 1..])
    ensures ArgsFit(tags[..e], n, args[..e]) && ArgsFit(tags[e..], n, args[e..])
    ensures DataBytes(tags, n, args) == DataBytes(tags[..e], n, args[..e]) + DataBytes(tags[e..], n, args[e..])
  {
    assert tags[1..][..e - 1] == tags[..e][1..];
    assert args[1..][..e - 1] == args[..e][1..];
    assert tags[1..][e - 1..] == tags[e..];
    assert args[1..][e - 1..] == args[e..];
    DataBytesCons(tags, n, args);
    DataBytesCons(tags[..e], n, args[..e]);
  }

  lemma {:induction false} PointerIndexPrefix(stored: seq<Tag>, tags: seq<Tag>, n: nat, e: nat)
    requires e <= |tags| <= |stored| && stored[..|tags|] == tags
    ensures PointerIndex(stored, n, e) == PointerIndex(tags, n, e)
    decreases e
  {
    if e > 0 {
      assert stored[e - 1] == tags[e - 1];
      PointerIndexPrefix(stored, tags, n, e - 1);
    }
  }

  /** The offset of specifier `e` is the length of the arrays before it. */
  lemma OffsetOfArray(tags: seq<Tag>, n: nat, args: seq<Arg>, e: nat, stored: seq<Tag>)
    requires ArraysFit(tags, n, args) && e < |tags|
    requires |stored| >= |tags| && stored[..|tags|] == tags
    ensures ArgsFit(tags[..e], n, args[..e])
    ensures PointerIndex(stored, n, e) == |DataBytes(tags[..e], n, args[..e])|
  {
    DataBytesSplit(tags, n, args, e);
    assert forall i :: 0 <= i < e ==> tags[..e][i] != STRING;
    DataBytesLength(tags[..e], n, args[..e]);
    PointerIndexPrefix(stored, tags, n, e);
    PointerIndexIsLength8bit(tags, n, e);
  }

  /** The arrays from specifier `e` on: its own array, then the rest. */
  lemma DataBytesAt(tags: seq<Tag>, n: nat, args: seq<Arg>, e: nat)
    requires e < |tags| <= |args| && IsNumeric(tags[e])
    requires ArgsFit(tags[e..], n, args[e..])
    ensures args[e].Values? && |args[e].values| >= n && ArgsFit(tags[e + 1..], n, args[e + 1..])
    ensures DataBytes(tags[e..], n, args[e..]) ==
            Encode(args[e].values[..n], ElementWidth(tags[e])) + DataBytes(tags[e + 1..], n, args[e + 1..])
  {
    var suffix := tags[e..];
    var sargs := args[e..];
    assert suffix[1..] == tags[e + 1..] && sargs[1..] == args[e + 1..];
    DataBytesCons(suffix, n, sargs);
  }

  /** The arrays before specifier `e`, its own array, and those after. */
  lemma ArrayOffset(tags: seq<Tag>, n: nat, args: seq<Arg>, e: nat)
    requires ArgsFit(tags, n, args) && |args| >= |tags| && e < |tags|
    requires forall i :: 0 <= i < |tags| ==> IsNumeric(tags[i])
    ensures ArgsFit(tags[..e], n, args[..e]) && ArgsFit(tags[e + 1..], n, args[e + 1..])
    ensures args[e].Values? && |args[e].values| >= n
    ensures DataBytes(tags, n, args) ==
            DataBytes(tags[..e], n, args[..e]) +
            (Encode(args[e].values[..n], ElementWidth(tags[e])) + DataBytes(tags[e + 1..], n, args[e + 1..]))
  {
    DataBytesSplit(tags, n, args, e);
    DataBytesAt(tags, n, args, e);
  }

  /** The element loop over the encoding of `vs` and beyond hands out
      `vs` first. */
  lemma ReadEncodedPrefix(t: Tag, vs: seq<int>, rest: seq<Byte>, extra: nat, l8: nat)
    requires IsNumeric(t)
    requires forall i :: 0 <= i < |vs| ==> InRange(t, vs[i])
    requires l8 == |vs| * ElementWidth(t) + extra
    ensures ReadsFit(Encode(vs, ElementWidth(t)) + rest, l8, ElementWidth(t)) ==>
              var r := ReadElements(t, Encode(vs, ElementWidth(t)) + rest, l8);
              |r| >= |vs| && r[..|vs|] == vs
  {
    EncodedFits(ElementWidth(t), vs, rest, extra, l8);
    if ReadsFit(rest, extra, ElementWidth(t)) {
      ReadEncoded(t, vs, Encode(vs, ElementWidth(t)) + rest, rest, extra, l8);
    }
  }

  /** For a numeric specifier, `DIS_getElements(e)` runs the element loop
      from the 16-bit offset of `e`. */
  lemma ExtractNumeric(stored: seq<Tag>, n: nat, l8: nat, data: seq<Byte>, e: nat)
    requires e < |stored| && IsNumeric(stored[e])
    requires PointerIndex(stored, n, e) % 0x1_0000 <= |data|
    ensures ExtractDefined(stored, n, l8, data, e) ==>
              ReadsFit(data[PointerIndex(stored, n, e) % 0x1_0000..], l8, ElementWidth(stored[e])) &&
              Extract(stored, n, l8, data, e) ==
              ReadElements(stored[e], data[PointerIndex(stored, n, e) % 0x1_0000..], l8)
  {
  }

  /** `DIS_getElements(e)` for a numeric specifier whose offset points at
      the encoding of `vs`: it hands out `vs` first. */
  lemma ExtractAt(stored: seq<Tag>, n: nat, l8: nat, data: seq<Byte>, e: nat,
                  vs: seq<int>, rest: seq<Byte>, extra: nat)
    requires e < |stored| && IsNumeric(stored[e])
    requires forall i :: 0 <= i < |vs| ==> InRange(stored[e], vs[i])
    requires PointerIndex(stored, n, e) % 0x1_0000 <= |data|
    requires data[PointerIndex(stored, n, e) % 0x1_0000..] == Encode(vs, ElementWidth(stored[e])) + rest
    requires l8 == |vs| * ElementWidth(stored[e]) + extra
    ensures ExtractDefined(stored, n, l8, data, e) ==>
              var r := Extract(stored, n, l8, data, e);
              |r| >= |vs| && r[..|vs|] == vs
  {
    ExtractNumeric(stored, n, l8, data, e);
    ReadEncodedPrefix(stored[e], vs, rest, extra, l8);
  }

  /** Octets that start with `before + (mid + after)`, read from the end
      of `before`. */
  lemma SliceAfter(data: seq<Byte>, before: seq<Byte>, mid: seq<Byte>, after: seq<Byte>)
    requires |data| >= |before + (mid + after)| && data[..|before + (mid + after)|] == before + (mid + after)
    ensures data[|before|..] == mid + (after + data[|before + (mid + after)|..])
  {
    var db := before + (mid + after);
    assert data == db + data[|db|..];
  }

  /** Element `e` of a message whose specifiers are all numeric: what
      `DIS_getElements(e)` hands out begins with the `n` values the
      publisher sent for that specifier, wherever in the data they sit. */
  lemma ExtractArray(tags: seq<Tag>, n: nat, args: seq<Arg>, e: nat, stored: seq<Tag>, data: seq<Byte>)
    requires ArraysFit(tags, n, args) && e < |tags|
    requires |stored| >= |tags| && stored[..|tags|] == tags
    requires |DataBytes(tags, n, args)| <= MAX_RECEIVE_MESSAGE_LEN
    requires |data| >= |DataBytes(tags, n, args)|
    requires data[..|DataBytes(tags, n, args)|] == DataBytes(tags, n, args)
    ensures ExtractDefined(stored, n, |DataBytes(tags, n, args)|, data, e) ==>
              var r := Extract(stored, n, |DataBytes(tags, n, args)|, data, e);
              |r| >= n && r[..n] == args[e].values[..n]
  {
    var db := DataBytes(tags, n, args);
    var vs := args[e].values[..n];
    OffsetOfArray(tags, n, args, e, stored);
    ArrayOffset(tags, n, args, e);
    var before := DataBytes(tags[..e], n, args[..e]);
    var mid := Encode(vs, ElementWidth(tags[e]));
    var after := DataBytes(tags[e + 1..], n, args[e + 1..]);
    SmallOffset(PointerIndex(stored, n, e));
    SliceAfter(data, before, mid, after);
    ExtractAt(stored, n, |db|, data, e, vs, after + data[|db|..], |before| + |after|);
  }

  /** An offset inside the receive buffer survives the 16-bit truncation. */
  lemma SmallOffset(x: nat)
    requires x <= MAX_RECEIVE_MESSAGE_LEN
    ensures x % 0x1_0000 == x
  {
  }

  /** For a numeric first specifier, `DIS_getElements(0)` runs the
      element loop from the start of the data. */
  lemma ExtractFirst(t: Tag, stored: seq<Tag>, n: nat, l8: nat, data: seq<Byte>)
    requires |stored| > 0 && stored[0] == t && IsNumeric(t)
    requires ReadsFit(data[0..], l8, ElementWidth(t))
    ensures ExtractDefined(stored, n, l8, data, 0)
    ensures Extract(stored, n, l8, data, 0) == ReadElements(t, data[0..], l8)
  {
  }

  /** A sequence is its first `k` elements followed by the rest. */
  lemma TakeDrop<T>(s: seq<T>, k: nat)
    requires k <= |s|
    ensures s[0..] == s[..k] + s[k..]
  {
  }

  /** An empty suffix adds nothing. */
  lemma AppendEmpty<T>(s: seq<T>, e: seq<T>)
    requires e == []
    ensures s + e == s
  {
  }

  /** The same for a message the receiver decodes as one numeric array:
      the whole of it comes back, and reading it never leaves the data. */
  lemma ExtractSingleArray(t: Tag, vs: seq<int>, stored: seq<Tag>, data: seq<Byte>, l8: nat)
    requires IsNumeric(t) && forall i :: 0 <= i < |vs| ==> InRange(t, vs[i])
    requires |stored| > 0 && stored[0] == t
    requires l8 == |vs| * ElementWidth(t) <= |data|
    requires data[..l8] == Encode(vs, ElementWidth(t))
    ensures ExtractDefined(stored, |vs|, l8, data, 0)
    ensures Extract(stored, |vs|, l8, data, 0) == vs
  {
    TakeDrop(data, l8);
    ReadEncoded(t, vs, data[..l8] + data[l8..], data[l8..], 0, l8);
    AppendEmpty(vs, ReadElements(t, data[l8..], 0));
    ExtractFirst(t, stored, |vs|, l8, data);
  }

  // ---------------------------------------------------------------------
  // Decoding what was published
  // ---------------------------------------------------------------------

  /** Where the fields of the publishers' layout sit. */
  lemma LocateHeader(name: seq<Byte>, dims: Byte, lo: Byte, hi: Byte, packed: seq<Byte>,
                     db: seq<Byte>, rest: seq<Byte>)
    requires forall i :: 0 <= i < |name| ==> name[i] != 0
    ensures var data := name + [0, dims, lo, hi] + packed + db + rest;
            TopicEnd(data) == |name| && data[..|name|] == name &&
            data[|name| + 1] == dims && data[|name| + 2] == lo && data[|name| + 3] == hi &&
            data[|name| + 4..] == packed + (db + rest) &&
            data[|name| + 4 + |packed|..|name| + 4 + |packed| + |db|] == db
  {
    var data := name + [0, dims, lo, hi] + packed + db + rest;
    FirstIndexFromIs(data, 0, 0, |name|);
  }

  /** A header with the topic end at `t` and the packed specifiers after
      the length decodes to those specifiers. */
  lemma DecodeHeader(data: seq<Byte>, t: nat, tags: seq<Tag>, more: seq<Byte>)
    requires t < MAX_TOPIC_STR_LEN && |tags| <= MAX_NUM_OF_FORMAT_SPECIFIERS
    requires TopicEnd(data) == t && |data| > t + 3 && data[t + 1] == |tags|
    requires data[t + 4..] == PackTags(tags) + more
    ensures HeaderDecodable(data)
    ensures DecodeTags(data) == tags && PayloadStart(data) == t + 4 + |PackTags(tags)|
  {
    assert data[t + 1] % 16 == |tags|;
    assert DecodeTags(data) == UnpackTags(PackTags(tags) + more, |tags|);
    PackUnpack(tags, more);
  }

  /** A message whose header decodes to `tags` and `length` carries the
      `length8bit` octets after the packed specifiers. */
  lemma DecodeBody(data: seq<Byte>, tags: seq<Tag>, length: nat, db: seq<Byte>)
    requires HeaderDecodable(data) && DecodeTags(data) == tags && DecodeLength(data) == length
    requires |db| == Length8bit(tags, length) <= MAX_RECEIVE_MESSAGE_LEN
    requires PayloadStart(data) + |db| <= |data|
    requires data[PayloadStart(data)..PayloadStart(data) + |db|] == db
    ensures Decodable(data)
    ensures Decode(data) == Message(Chars(data[..TopicEnd(data)]), |tags|, length, tags, |db|, db)
  {
  }

  /** The layout every publisher produces decodes field by field: the
      name up to its 0, the dimension count, the 16-bit length, the
      specifiers, and as many data octets as their `length8bit` sum; what
      follows (the frame trailer) is not read. */
  lemma DecodeLayout(name: seq<Byte>, dims: Byte, lo: Byte, hi: Byte, length: nat, tags: seq<Tag>,
                     db: seq<Byte>, l8: nat, rest: seq<Byte>)
    requires |name| < MAX_TOPIC_STR_LEN && forall i :: 0 <= i < |name| ==> name[i] != 0
    requires |tags| == dims <= MAX_NUM_OF_FORMAT_SPECIFIERS && length == lo + 256 * hi
    requires l8 == |db| == Length8bit(tags, length) <= MAX_RECEIVE_MESSAGE_LEN
    ensures var data := name + [0, dims, lo, hi] + PackTags(tags) + db + rest;
            Decodable(data) &&
            Decode(data) == Message(Chars(name), dims, length, tags, l8, db)
  {
    var packed := PackTags(tags);
    var data := name + [0, dims, lo, hi] + packed + db + rest;
    var t := |name|;
    LocateHeader(name, dims, lo, hi, packed, db, rest);
    DecodeHeader(data, t, tags, db + rest);
    DecodeBody(data, tags, length, db);
  }

  /** `DIS_publish` with a descriptor that has commas, all of whose
      specifiers are numeric: the receiver gets the name before the first
      `,` or `:`, the comma count, the shared length, the specifiers and
      exactly the data that was sent. */
  lemma PublishArraysDecode(topic: seq<char>, args: seq<Arg>, rest: seq<Byte>)
    requires PublishDefined(topic, args) && CommaCount(topic) > 0
    requires NameEnd(topic) < MAX_TOPIC_STR_LEN
    requires forall i :: 0 <= i < CommaCount(topic) ==> PublishTags(topic)[i] != STRING
    requires |DataBytes(PublishTags(topic)[..CommaCount(topic)], PublishLength(topic), args)|
             <= MAX_RECEIVE_MESSAGE_LEN
    ensures var dims := CommaCount(topic);
            var tags := PublishTags(topic)[..dims];
            var db := DataBytes(tags, PublishLength(topic), args);
            Decodable(PublishPayload(topic, args) + rest) &&
            Decode(PublishPayload(topic, args) + rest) ==
              Message(topic[..NameEnd(topic)], dims, PublishLength(topic), tags, |db|, db)
  {
    var dims := CommaCount(topic);
    var tags := PublishTags(topic)[..dims];
    var n := PublishLength(topic);
    var db := DataBytes(tags, n, args);
    var name := Octets(topic[..NameEnd(topic)]);
    DataBytesLength(tags, n, args);
    DecodeLayout(name, dims, n, 0, n, tags, db, |db|, rest);
    CharsOctets(topic[..NameEnd(topic)]);
  }

  lemma StringTagLength(n: nat)
    ensures PackTags([STRING]) == [STRING]
    ensures Length8bit([STRING], n) == n
  {
    assert [STRING][..0] == [];
  }

  /** `DIS_publish` with a descriptor without commas: the receiver gets a
      one-dimensional string message carrying the characters sent. */
  lemma PublishStringDecodes(topic: seq<char>, args: seq<Arg>, rest: seq<Byte>)
    requires PublishDefined(topic, args) && CommaCount(topic) == 0
    requires NameEnd(topic) < MAX_TOPIC_STR_LEN
    requires |args[0].chars| % 256 <= MAX_RECEIVE_MESSAGE_LEN
    ensures var str := args[0].chars;
            var n := |str| % 256;
            n <= |str| && Decodable(PublishPayload(topic, args) + rest) &&
            Decode(PublishPayload(topic, args) + rest) ==
              Message(topic[..NameEnd(topic)], 1, n, [STRING], n, Octets(str[..n]))
  {
    var str := args[0].chars;
    var n := |str| % 256;
    TruncateAtMost(|str|, 256);
    var name := Octets(topic[..NameEnd(topic)]);
    StringTagLength(n);
    assert name + [0, 1, n, 0, STRING] == name + [0, 1, n, 0] + PackTags([STRING]);
    DecodeLayout(name, 1, n, 0, n, [STRING], Octets(str[..n]), n, rest);
    CharsOctets(topic[..NameEnd(topic)]);
  }

  /** `DIS_publish_str`: the receiver gets the whole topic, colons and
      commas included, and the characters with their 16-bit length. */
  lemma PublishStrDecodes(topic: seq<char>, str: seq<char>, rest: seq<Byte>)
    requires IsCString(topic) && IsCString(str)
    requires |topic| < MAX_TOPIC_STR_LEN && |str| % 0x1_0000 <= MAX_RECEIVE_MESSAGE_LEN
    ensures var n := |str| % 0x1_0000;
            n <= |str| && Decodable(PublishStrPayload(topic, str) + rest) &&
            Decode(PublishStrPayload(topic, str) + rest) ==
              Message(topic, 1, n, [STRING], n, Octets(str[..n]))
  {
    var n := |str| % 0x1_0000;
    TruncateAtMost(|str|, 0x1_0000);
    var name := Octets(topic);
    StringTagLength(n);
    Octets16(n);
    assert name + [0, 1, n % 256, n / 256, STRING] == name + [0, 1, n % 256, n / 256] + PackTags([STRING]);
    DecodeLayout(name, 1, n % 256, n / 256, n, [STRING], Octets(str[..n]), n, rest);
    CharsOctets(topic);
  }

  /** A one-array helper (`DIS_publish_u8` ... `DIS_publish_s32`): the
      receiver gets the name before the `:`, one dimension, the length,
      the specifier and the encoded values. */
  lemma ArrayDecodes(topic: seq<char>, t: Tag, data: seq<int>, rest: seq<Byte>)
    requires TopicDefined(topic) && IsNumeric(t) && |data| >= TopicLength(topic)
    requires TopicNameEnd(topic) < MAX_TOPIC_STR_LEN
    requires TopicLength(topic) * ElementWidth(t) <= MAX_RECEIVE_MESSAGE_LEN
    ensures var n := TopicLength(topic);
            Decodable(ArrayPayload(topic, t, data) + rest) &&
            Decode(ArrayPayload(topic, t, data) + rest) ==
              Message(topic[..TopicNameEnd(topic)], 1, n, [t], n * ElementWidth(t),
                      Encode(data[..n], ElementWidth(t)))
  {
    var n := TopicLength(topic);
    var w := ElementWidth(t);
    var name := Octets(topic[..TopicNameEnd(topic)]);
    Octets16(n);
    assert PackTags([t]) == [t];
    assert [t][..0] == [];
    assert Length8bit([t], n) == n * w;
    assert TopicHeader(topic, 1) + [t] == name + [0, 1, n % 256, n / 256] + PackTags([t]);
    DecodeLayout(name, 1, n % 256, n / 256, n, [t], Encode(data[..n], w), n * w, rest);
    CharsOctets(topic[..TopicNameEnd(topic)]);
  }

  /** A two-array helper: two dimensions with the same specifier, and the
      two arrays one after the other. */
  lemma Array2Decodes(topic: seq<char>, t: Tag, data0: seq<int>, data1: seq<int>, rest: seq<Byte>)
    requires TopicDefined(topic) && IsNumeric(t)
    requires |data0| >= TopicLength(topic) && |data1| >= TopicLength(topic)
    requires TopicNameEnd(topic) < MAX_TOPIC_STR_LEN
    requires 2 * (TopicLength(topic) * ElementWidth(t)) <= MAX_RECEIVE_MESSAGE_LEN
    ensures var n := TopicLength(topic);
            var w := ElementWidth(t);
            Decodable(Array2Payload(topic, t, data0, data1) + rest) &&
            Decode(Array2Payload(topic, t, data0, data1) + rest) ==
              Message(topic[..TopicNameEnd(topic)], 2, n, [t, t], 2 * (n * w),
                      Encode(data0[..n], w) + Encode(data1[..n], w))
  {
    var n := TopicLength(topic);
    var w := ElementWidth(t);
    var name := Octets(topic[..TopicNameEnd(topic)]);
    var e0, e1 := Encode(data0[..n], w), Encode(data1[..n], w);
    var db := e0 + e1;
    Octets16(n);
    assert |db| == Length8bit([t, t], n) by {
      assert [t, t][..1] == [t] && [t][..0] == [];
      assert Length8bit([t], n) == n * w;
    }
    assert Array2Payload(topic, t, data0, data1) == name + [0, 2, n % 256, n / 256] + PackTags([t, t]) + db by {
      assert PackTags([t, t]) == [t + 16 * t];
      Frame.Assoc(TopicHeader(topic, 2) + [t + 16 * t], e0, e1);
    }
    DecodeLayout(name, 2, n % 256, n / 256, n, [t, t], db, 2 * (n * w), rest);
    CharsOctets(topic[..TopicNameEnd(topic)]);
  }

  // ---------------------------------------------------------------------
  // End to end
  // ---------------------------------------------------------------------

  /** A frame that a clean receiver reads in one poll gives back the
      payload followed by its two-octet trailer. */
  lemma Transported(payload: seq<Byte>)
    requires |payload| > 0 && |FrameBytes(payload)| <= RX_FRAME_LENGTH
    ensures PullDefined(Zeros(RX_FRAME_LENGTH), 0, FrameBytes(payload))
    ensures var r := Pull(Zeros(RX_FRAME_LENGTH), 0, FrameBytes(payload));
            r.length == |payload| && |r.written| == |payload| + 2 &&
            r.written == payload + r.written[|payload|..]
  {
    FrameRoundTrip(payload);
    var r := Pull(Zeros(RX_FRAME_LENGTH), 0, FrameBytes(payload));
    assert r.written == r.written[..|payload|] + r.written[|payload|..];
  }

  /** A payload that decodes to `m` whatever trailer follows it, framed
      and read by a receiver that has just started: one call of
      `DIS_process` returns it and decodes it to `m`, whatever its local
      buffer held before. */
  lemma Delivered(payload: seq<Byte>, m: Message, stale: seq<Byte>)
    requires |payload| > 0 && |FrameBytes(payload)| <= RX_FRAME_LENGTH
    requires |payload| + 2 <= MAX_RECEIVE_MESSAGE_LEN == |stale|
    requires forall rest :: Decodable(payload + rest) && Decode(payload + rest) == m
    ensures ProcessDefined(Zeros(RX_FRAME_LENGTH), 0, FrameBytes(payload), stale)
    ensures var r := Pull(Zeros(RX_FRAME_LENGTH), 0, FrameBytes(payload));
            r.length > 0 && Decode(LocalBuffer(r.written, stale)) == m
  {
    Transported(payload);
    var r := Pull(Zeros(RX_FRAME_LENGTH), 0, FrameBytes(payload));
    var d := LocalBuffer(r.written, stale);
    assert d == payload + d[|payload|..];
    assert Decodable(payload + d[|payload|..]);
  }

  /** One array sent with a one-array helper and received by a node that
      has just started: `DIS_process` returns a message with the sent
      name and length, and `DIS_getElements(0)` hands out exactly the
      values sent, whatever older messages left in the receive buffers. */
  lemma ArrayDelivered(topic: seq<char>, t: Tag, data: seq<int>, oldTags: seq<Tag>, oldData: seq<Byte>,
                       stale: seq<Byte>)
    requires TopicDefined(topic) && IsNumeric(t) && |data| >= TopicLength(topic)
    requires forall i :: 0 <= i < |data| ==> InRange(t, data[i])
    requires TopicNameEnd(topic) < MAX_TOPIC_STR_LEN
    requires |FrameBytes(ArrayPayload(topic, t, data))| <= RX_FRAME_LENGTH
    requires |ArrayPayload(topic, t, data)| + 2 <= MAX_RECEIVE_MESSAGE_LEN
    requires |oldTags| == MAX_NUM_OF_FORMAT_SPECIFIERS && |oldData| == MAX_RECEIVE_MESSAGE_LEN
    requires |stale| == MAX_RECEIVE_MESSAGE_LEN
    ensures var input := FrameBytes(ArrayPayload(topic, t, data));
            ProcessDefined(Zeros(RX_FRAME_LENGTH), 0, input, stale) &&
            var r := Pull(Zeros(RX_FRAME_LENGTH), 0, input);
            r.length > 0 &&
            var m := Decode(LocalBuffer(r.written, stale));
            m.topic == topic[..TopicNameEnd(topic)] && m.length == TopicLength(topic) &&
            ExtractDefined(m.tags + oldTags[m.dims..], m.length, m.length8bit,
                           m.payload + oldData[m.length8bit..], 0) &&
            Extract(m.tags + oldTags[m.dims..], m.length, m.length8bit,
                    m.payload + oldData[m.length8bit..], 0) == data[..TopicLength(topic)]
  {
    var payload := ArrayPayload(topic, t, data);
    var n := TopicLength(topic);
    var w := ElementWidth(t);
    var enc := Encode(data[..n], w);
    var m := Message(topic[..TopicNameEnd(topic)], 1, n, [t], n * w, enc);
    forall rest | true ensures Decodable(payload + rest) && Decode(payload + rest) == m {
      ArrayDecodes(topic, t, data, rest);
    }
    Delivered(payload, m, stale);
    ExtractSingleArray(t, data[..n], [t] + oldTags[1..], enc + oldData[n * w..], n * w);
  }

  /** Two arrays sent with a two-array helper: `DIS_getElements(0)` hands
      out both arrays one after the other, because the element loop runs
      over the whole `length8bit`; `DIS_getElements(1)`, where its reads
      stay inside the buffer, starts with the second array and goes on
      into octets that no message of this frame wrote. */
  lemma Array2Delivered(topic: seq<char>, t: Tag, data0: seq<int>, data1: seq<int>,
                        oldTags: seq<Tag>, oldData: seq<Byte>, stale: seq<Byte>)
    requires TopicDefined(topic) && IsNumeric(t) && t != U32 && t != S32
    requires |data0| >= TopicLength(topic) && |data1| >= TopicLength(topic)
    requires forall i :: 0 <= i < |data0| ==> InRange(t, data0[i])
    requires forall i :: 0 <= i < |data1| ==> InRange(t, data1[i])
    requires TopicNameEnd(topic) < MAX_TOPIC_STR_LEN
    requires |FrameBytes(Array2Payload(topic, t, data0, data1))| <= RX_FRAME_LENGTH
    requires |Array2Payload(topic, t, data0, data1)| + 2 <= MAX_RECEIVE_MESSAGE_LEN
    requires |oldTags| == MAX_NUM_OF_FORMAT_SPECIFIERS && |oldData| == MAX_RECEIVE_MESSAGE_LEN
    requires |stale| == MAX_RECEIVE_MESSAGE_LEN
    ensures var input := FrameBytes(Array2Payload(topic, t, data0, data1));
            ProcessDefined(Zeros(RX_FRAME_LENGTH), 0, input, stale) &&
            var r := Pull(Zeros(RX_FRAME_LENGTH), 0, input);
            r.length > 0 &&
            var m := Decode(LocalBuffer(r.written, stale));
            var tags := m.tags + oldTags[m.dims..];
            var stored := m.payload + oldData[m.length8bit..];
            var n := TopicLength(topic);
            m.topic == topic[..TopicNameEnd(topic)] && m.length == n &&
            ExtractDefined(tags, m.length, m.length8bit, stored, 0) &&
            Extract(tags, m.length, m.length8bit, stored, 0) == data0[..n] + data1[..n] &&
            (ExtractDefined(tags, m.length, m.length8bit, stored, 1) ==>
               var second := Extract(tags, m.length, m.length8bit, stored, 1);
               |second| >= n && second[..n] == data1[..n])
  {
    var n := TopicLength(topic);
    var w := ElementWidth(t);
    var l8 := 2 * (n * w);
    Array2Received(topic, t, data0, data1, stale);
    PrefixInRange(t, data0, n);
    PrefixInRange(t, data1, n);
    Array2Extract(t, data0[..n], data1[..n], [t, t] + oldTags[2..], oldData[l8..]);
  }

  /** What `DIS_getElements` hands out for the two arrays of a two-array
      message, whatever older messages left behind them. */
  lemma Array2Extract(t: Tag, vs0: seq<int>, vs1: seq<int>, tags: seq<Tag>, stale: seq<Byte>)
    requires IsNumeric(t) && t != U32 && t != S32 && |vs0| == |vs1|
    requires forall i :: 0 <= i < |vs0| ==> InRange(t, vs0[i])
    requires forall i :: 0 <= i < |vs1| ==> InRange(t, vs1[i])
    requires |tags| >= 2 && tags[0] == t && tags[1] == t
    requires 2 * (|vs0| * ElementWidth(t)) <= MAX_RECEIVE_MESSAGE_LEN
    ensures var w := ElementWidth(t);
            var n := |vs0|;
            var stored := Encode(vs0, w) + Encode(vs1, w) + stale;
            ExtractDefined(tags, n, 2 * (n * w), stored, 0) &&
            Extract(tags, n, 2 * (n * w), stored, 0) == vs0 + vs1 &&
            (ExtractDefined(tags, n, 2 * (n * w), stored, 1) ==>
               var second := Extract(tags, n, 2 * (n * w), stored, 1);
               |second| >= n && second[..n] == vs1)
  {
    var w := ElementWidth(t);
    var n := |vs0|;
    var l8 := 2 * (n * w);
    EncodeAppend(vs0, vs1, w);
    assert |vs0 + vs1| * w == l8;
    ExtractSingleArray(t, vs0 + vs1, tags, Encode(vs0, w) + Encode(vs1, w) + stale, l8);
    Array2Second(t, n, vs1, tags, Encode(vs0, w), stale);
  }

  /** Values that fit their specifier still fit after truncation. */
  lemma PrefixInRange(t: Tag, data: seq<int>, n: nat)
    requires IsNumeric(t) && n <= |data| && forall i :: 0 <= i < |data| ==> InRange(t, data[i])
    ensures forall i :: 0 <= i < |data[..n]| ==> InRange(t, data[..n][i])
  {
  }

  /** The framing and decoding half of `Array2Delivered`. */
  lemma Array2Received(topic: seq<char>, t: Tag, data0: seq<int>, data1: seq<int>, stale: seq<Byte>)
    requires TopicDefined(topic) && IsNumeric(t) && t != U32 && t != S32
    requires |data0| >= TopicLength(topic) && |data1| >= TopicLength(topic)
    requires forall i :: 0 <= i < |data0| ==> InRange(t, data0[i])
    requires forall i :: 0 <= i < |data1| ==> InRange(t, data1[i])
    requires TopicNameEnd(topic) < MAX_TOPIC_STR_LEN
    requires |FrameBytes(Array2Payload(topic, t, data0, data1))| <= RX_FRAME_LENGTH
    requires |Array2Payload(topic, t, data0, data1)| + 2 <= MAX_RECEIVE_MESSAGE_LEN
    requires |stale| == MAX_RECEIVE_MESSAGE_LEN
    ensures var input := FrameBytes(Array2Payload(topic, t, data0, data1));
            ProcessDefined(Zeros(RX_FRAME_LENGTH), 0, input, stale) &&
            var r := Pull(Zeros(RX_FRAME_LENGTH), 0, input);
            var n := TopicLength(topic);
            var w := ElementWidth(t);
            r.length > 0 &&
            Decode(LocalBuffer(r.written, stale)) == Message(topic[..TopicNameEnd(topic)], 2, n, [t, t], 2 * (n * w),
                                         Encode(data0[..n], w) + Encode(data1[..n], w)) &&
            2 * (n * w) <= MAX_RECEIVE_MESSAGE_LEN
  {
    var payload := Array2Payload(topic, t, data0, data1);
    var n := TopicLength(topic);
    var w := ElementWidth(t);
    var m := Message(topic[..TopicNameEnd(topic)], 2, n, [t, t], 2 * (n * w),
                     Encode(data0[..n], w) + Encode(data1[..n], w));
    forall rest | true ensures Decodable(payload + rest) && Decode(payload + rest) == m {
      Array2Decodes(topic, t, data0, data1, rest);
    }
    Delivered(payload, m, stale);
  }

  /** The second array of a two-array message, read from its offset. */
  lemma Array2Second(t: Tag, n: nat, vs: seq<int>, tags: seq<Tag>, e0: seq<Byte>, stale: seq<Byte>)
    requires IsNumeric(t) && t != U32 && t != S32
    requires |vs| == n && forall i :: 0 <= i < n ==> InRange(t, vs[i])
    requires |tags| >= 2 && tags[0] == t && tags[1] == t
    requires |e0| == n * ElementWidth(t) <= MAX_RECEIVE_MESSAGE_LEN
    ensures var stored := e0 + Encode(vs, ElementWidth(t)) + stale;
            ExtractDefined(tags, n, 2 * (n * ElementWidth(t)), stored, 1) ==>
              var second := Extract(tags, n, 2 * (n * ElementWidth(t)), stored, 1);
              |second| >= n && second[..n] == vs
  {
    var w := ElementWidth(t);
    var stored := e0 + Encode(vs, w) + stale;
    assert PointerIndex(tags, n, 1) == n * w;
    SmallOffset(n * w);
    assert stored[n * w..] == Encode(vs, w) + stale;
    ExtractAt(tags, n, 2 * (n * w), stored, 1, vs, stale, n * w);
  }

  /** `DIS_publish` with all-numeric specifiers, end to end: the receiver
      gets the name, the comma count and the shared length, and for every
      specifier `e` whose reads stay inside the buffer, what
      `DIS_getElements(e)` hands out begins with the values sent for it. */
  lemma PublishArraysDelivered(topic: seq<char>, args: seq<Arg>, e: nat,
                               oldTags: seq<Tag>, oldData: seq<Byte>, stale: seq<Byte>)
    requires PublishDefined(topic, args) && 0 < CommaCount(topic)
    requires ArraysFit(PublishTags(topic)[..CommaCount(topic)], PublishLength(topic), args)
    requires NameEnd(topic) < MAX_TOPIC_STR_LEN && e < CommaCount(topic)
    requires e < |args| && args[e].Values? && |args[e].values| >= PublishLength(topic)
    requires |FrameBytes(PublishPayload(topic, args))| <= RX_FRAME_LENGTH
    requires |PublishPayload(topic, args)| + 2 <= MAX_RECEIVE_MESSAGE_LEN
    requires |oldTags| == MAX_NUM_OF_FORMAT_SPECIFIERS && |oldData| == MAX_RECEIVE_MESSAGE_LEN
    requires |stale| == MAX_RECEIVE_MESSAGE_LEN
    ensures var input := FrameBytes(PublishPayload(topic, args));
            ProcessDefined(Zeros(RX_FRAME_LENGTH), 0, input, stale) &&
            var r := Pull(Zeros(RX_FRAME_LENGTH), 0, input);
            r.length > 0 &&
            var m := Decode(LocalBuffer(r.written, stale));
            var tags := m.tags + oldTags[m.dims..];
            var stored := m.payload + oldData[m.length8bit..];
            var n := PublishLength(topic);
            m.topic == topic[..NameEnd(topic)] && m.dims == CommaCount(topic) && m.length == n &&
            (ExtractDefined(tags, n, m.length8bit, stored, e) ==>
               var got := Extract(tags, n, m.length8bit, stored, e);
               |got| >= n && got[..n] == args[e].values[..n])
  {
    var dims := CommaCount(topic);
    var ts := PublishTags(topic)[..dims];
    var db := DataBytes(ts, PublishLength(topic), args);
    forall i | 0 <= i < dims ensures PublishTags(topic)[i] != STRING {
      assert ts[i] == PublishTags(topic)[i];
    }
    PublishArraysReceived(topic, args, stale);
    ExtractArray(ts, PublishLength(topic), args, e, ts + oldTags[dims..], db + oldData[|db|..]);
  }

  /** The framing and decoding half of `PublishArraysDelivered`. */
  lemma PublishArraysReceived(topic: seq<char>, args: seq<Arg>, stale: seq<Byte>)
    requires PublishDefined(topic, args) && 0 < CommaCount(topic)
    requires forall i :: 0 <= i < CommaCount(topic) ==> PublishTags(topic)[i] != STRING
    requires NameEnd(topic) < MAX_TOPIC_STR_LEN
    requires |FrameBytes(PublishPayload(topic, args))| <= RX_FRAME_LENGTH
    requires |PublishPayload(topic, args)| + 2 <= MAX_RECEIVE_MESSAGE_LEN
    requires |stale| == MAX_RECEIVE_MESSAGE_LEN
    ensures var input := FrameBytes(PublishPayload(topic, args));
            ProcessDefined(Zeros(RX_FRAME_LENGTH), 0, input, stale) &&
            var r := Pull(Zeros(RX_FRAME_LENGTH), 0, input);
            var dims := CommaCount(topic);
            var ts := PublishTags(topic)[..dims];
            var db := DataBytes(ts, PublishLength(topic), args);
            r.length > 0 &&
            Decode(LocalBuffer(r.written, stale)) == Message(topic[..NameEnd(topic)], dims, PublishLength(topic), ts, |db|, db) &&
            |db| < |PublishPayload(topic, args)|
  {
    var payload := PublishPayload(topic, args);
    var dims := CommaCount(topic);
    var ts := PublishTags(topic)[..dims];
    var n := PublishLength(topic);
    var db := DataBytes(ts, n, args);
    var m := Message(topic[..NameEnd(topic)], dims, n, ts, |db|, db);
    forall rest | true ensures Decodable(payload + rest) && Decode(payload + rest) == m {
      PublishArraysDecode(topic, args, rest);
    }
    Delivered(payload, m, stale);
  }
}
