/** The publish/subscribe layer of `src/dispatch.c` as a stateful object:
    the frame transport it writes through, the last received message
    `rxMsg`, and the subscription table `sub[]`. Callbacks are ids (0 is
    the null pointer); `Process` returns the ids it would call, in order. */
module Dispatch {
  import opened Config
  import opened FrameSpec
  import opened DispatchSpec
  import opened Frame

  // ---------------------------------------------------------------------
  // Scanning loops of the descriptor parser that change no state
  // ---------------------------------------------------------------------

  /** The comma-counting loop at the top of `DIS_publish`. */
  method CountCommas(topic: seq<char>) returns (commaCount: nat)
    ensures commaCount == CommaCount(topic)
  {
    commaCount := 0;
    var i := 0;
    while i < |topic|
      invariant 0 <= i <= |topic|
      invariant commaCount == CommaCount(topic[..i])
    {
      assert topic[..i + 1][..i] == topic[..i];
      if topic[i] == ',' {
        commaCount := commaCount + 1;
      }
      i := i + 1;
    }
    assert topic[..i] == topic;
  }

  /** The `:` branch of `DIS_publish`: skip the colon and the spaces after
      it, copy the field up to the next comma or the end, and convert it
      with `atol` into the 8-bit length. Returns the position after the
      field. */
  method ReadLengthField(topic: seq<char>, strIndex: nat) returns (length: Byte, next: nat)
    requires IsCString(topic) && HasLengthField(topic) && strIndex == NameEnd(topic)
    ensures length == Atol(LengthField(topic)) % 256
    ensures next == LengthFieldEnd(topic)
  {
    var i := SkipBlanks(topic, strIndex + 1);
    var start := i;
    var strNum0: seq<char> := [];
    while At(topic, i) != ',' && At(topic, i) != 0 as char
      invariant start <= i <= |topic|
      invariant ScanTo(topic, i, {','}) == LengthFieldEnd(topic)
      invariant strNum0 == topic[start..i]
      decreases |topic| - i
    {
      strNum0 := strNum0 + [topic[i]];
      i := i + 1;
    }
    length := Atol(strNum0) % 256;
    next := i;
  }

  /** The length of `DIS_publish` read from the position after the name:
      the `:` field when there is one, raised to 1 when it is 0; and where
      the specifiers start. */
  method ReadPublishLength(topic: seq<char>, strIndex: nat) returns (length: Byte, tagsIndex: nat)
    requires IsCString(topic) && strIndex == NameEnd(topic)
    ensures length == PublishLength(topic) && tagsIndex == TagsStart(topic)
  {
    length := 0;
    tagsIndex := strIndex;
    if strIndex < |topic| && topic[strIndex] == ':' {
      length, tagsIndex := ReadLengthField(topic, strIndex);
    }
    if length < 1 {
      length := 1;
    }
  }

  /** The length part of `parseTopicString`, from the position after the
      name: the characters after the colon up to the terminator, converted
      with `atol` into a 16-bit value; 1 when there is no colon. */
  method ReadTopicLength(topic: seq<char>, strIndex: nat) returns (dataLength: nat)
    requires IsCString(topic) && strIndex == TopicNameEnd(topic)
    ensures dataLength == TopicLength(topic)
  {
    dataLength := 1;
    var i := strIndex;
    if At(topic, i) == ':' {
      i := i + 1;
      var numStr: seq<char> := [];
      while At(topic, i) != 0 as char
        invariant strIndex + 1 <= i <= |topic|
        invariant numStr == topic[strIndex + 1..i]
        decreases |topic| - i
      {
        numStr := numStr + [topic[i]];
        i := i + 1;
      }
      assert numStr == topic[strIndex + 1..];
      dataLength := Atol(numStr) % 0x1_0000;
    }
  }

  /** A loop `while(topic[strIndex] == ' ') strIndex++;`. */
  method SkipBlanks(topic: seq<char>, from: nat) returns (k: nat)
    requires from <= |topic|
    ensures k == SkipSpaces(topic, from)
  {
    k := from;
    while At(topic, k) == ' '
      invariant from <= k <= |topic|
      invariant SkipSpaces(topic, k) == SkipSpaces(topic, from)
      decreases |topic| - k
    {
      k := k + 1;
    }
  }

  /** One `,tag` item of the specifier loop, read from `k`: the specifier
      and the position after the item. */
  method ParseFormatSpecifier(topic: seq<char>, k: nat) returns (tag: Tag, next: nat)
    ensures (tag, next) == ParseTag(topic, k)
  {
    tag := NONE;
    next := k;
    if At(topic, next) == 'u' {
      next := next + 1;
      if At(topic, next) == '8' {
        tag := U8;
      } else if At(topic, next) == '1' {
        tag := U16;
        next := next + 1;
      } else if At(topic, next) == '3' {
        tag := U32;
        next := next + 1;
      }
    } else if At(topic, next) == 's' {
      next := next + 1;
      if At(topic, next) == '8' {
        tag := S8;
      } else if At(topic, next) == '1' {
        tag := S16;
        next := next + 1;
      } else if At(topic, next) == '3' {
        tag := S32;
        next := next + 1;
      } else if At(topic, next) == 't' {
        tag := STRING;
        next := next + 1;
      }
    }
    next := next + 1;
  }

  /** One more item of the specifier loop keeps the table read so far
      followed by the rest of the items equal to all of them. */
  lemma ParseStep(topic: seq<char>, k: nat, i: nat, fs: seq<Tag>, tag: Tag, next: nat)
    requires i < MAX_NUM_OF_FORMAT_SPECIFIERS == |fs| && k < |topic| && topic[k] == ','
    requires (tag, next) == ParseTag(topic, SkipSpaces(topic, k + 1))
    ensures fs[i := tag][..i + 1] + ParseTags(topic, next, i + 1) == fs[..i] + ParseTags(topic, k, i)
  {
    assert ParseTags(topic, k, i) == [tag] + ParseTags(topic, next, i + 1);
    assert fs[i := tag][..i + 1] == fs[..i] + [tag];
  }

  /** A table holding `tags` and then only `eNONE` is `Pad(tags)`. */
  lemma PadIs(fs: seq<Tag>, tags: seq<Tag>)
    requires |tags| <= |fs| == MAX_NUM_OF_FORMAT_SPECIFIERS && fs[..|tags|] == tags
    requires forall j :: |tags| <= j < |fs| ==> fs[j] == NONE
    ensures fs == Pad(tags)
  {
    var p := Pad(tags);
    assert forall j :: 0 <= j < |tags| ==> fs[j] == fs[..|tags|][j] == p[j];
  }

  /** The specifier loop of `DIS_publish`, starting at `strIndex`: the
      table of `MAX_NUM_OF_FORMAT_SPECIFIERS` entries, cleared to `eNONE`
      and then filled in order. */
  method ParseFormatSpecifiers(topic: seq<char>, strIndex: nat) returns (formatSpecifiers: seq<Tag>)
    ensures formatSpecifiers == Pad(ParseTags(topic, strIndex, 0))
  {
    formatSpecifiers := seq(MAX_NUM_OF_FORMAT_SPECIFIERS, _ => NONE);
    var i := 0;
    var k := strIndex;
    while k < |topic| && i < MAX_NUM_OF_FORMAT_SPECIFIERS
      invariant i <= MAX_NUM_OF_FORMAT_SPECIFIERS && |formatSpecifiers| == MAX_NUM_OF_FORMAT_SPECIFIERS
      invariant formatSpecifiers[..i] + ParseTags(topic, k, i) == ParseTags(topic, strIndex, 0)
      invariant forall j :: i <= j < MAX_NUM_OF_FORMAT_SPECIFIERS ==> formatSpecifiers[j] == NONE
      decreases |topic| - k
    {
      if topic[k] == ',' {
        var item := SkipBlanks(topic, k + 1);
        var tag, next := ParseFormatSpecifier(topic, item);
        ParseStep(topic, k, i, formatSpecifiers, tag, next);
        formatSpecifiers := formatSpecifiers[i := tag];
        k := next;
      } else {
        break;
      }
      i := i + 1;
    }
    PadIs(formatSpecifiers, ParseTags(topic, strIndex, 0));
  }

  /** The packing loop of `DIS_publish`: `fsArray` has room for every
      specifier, and its first `(dimensions + 1) / 2` octets are pushed. */
  method PackFormatSpecifiers(formatSpecifiers: seq<Tag>, dimensions: nat) returns (fsArray: seq<Byte>)
    requires dimensions <= |formatSpecifiers|
    ensures |fsArray| == |formatSpecifiers| / 2 + 1
    ensures fsArray[..(dimensions + 1) / 2] == PackTags(formatSpecifiers[..dimensions])
  {
    ghost var size := |formatSpecifiers| / 2 + 1;
    fsArray := seq(|formatSpecifiers| / 2 + 1, _ => 0);
    assert fsArray == PackTags(formatSpecifiers[..0]) + Zeros(size);
    var fsArrayIndex := 0;
    var i := 0;
    while i < dimensions
      invariant 0 <= i <= dimensions && fsArrayIndex == i / 2
      invariant fsArray == PackTags(formatSpecifiers[..i]) + Zeros(size - (i + 1) / 2)
    {
      fsArray, fsArrayIndex := PackSpecifier(formatSpecifiers, i, size, fsArray, fsArrayIndex);
      i := i + 1;
    }
    assert fsArray[..(dimensions + 1) / 2] == PackTags(formatSpecifiers[..dimensions]);
  }

  /** The body of the packing loop for specifier `i`: an even-placed one
      starts octet `i / 2` as its low nibble, an odd-placed one adds the
      high nibble to it and moves the octet index on. */
  method PackSpecifier(tags: seq<Tag>, i: nat, ghost size: nat, fsArray: seq<Byte>, fsArrayIndex: nat)
    returns (packed: seq<Byte>, next: nat)
    requires i < |tags| && (i + 2) / 2 <= size && fsArrayIndex == i / 2
    requires fsArray == PackTags(tags[..i]) + Zeros(size - (i + 1) / 2)
    ensures next == (i + 1) / 2
    ensures packed == PackTags(tags[..i + 1]) + Zeros(size - (i + 2) / 2)
  {
    Halves(i, i + 1);
    PackStep(tags, i, size, fsArray);
    next := fsArrayIndex;
    if i % 2 == 0 {
      packed := fsArray[fsArrayIndex := tags[i] % 16];
    } else {
      // the nibbles do not overlap, so the `|=` adds the high one
      packed := fsArray[fsArrayIndex := fsArray[fsArrayIndex] as int + 16 * (tags[i] as int % 16)];
      next := next + 1;
    }
  }

  /** One more specifier packed: an even-placed one starts a new octet as
      its low nibble, an odd-placed one adds the high nibble to the last. */
  lemma PackStep(tags: seq<Tag>, i: nat, size: nat, a: seq<Byte>)
    requires i < |tags| && (i + 2) / 2 <= size
    requires a == PackTags(tags[..i]) + Zeros(size - (i + 1) / 2)
    ensures var b := PackTags(tags[..i + 1]) + Zeros(size - (i + 2) / 2);
            |a| == size &&
            (i % 2 == 0 ==> a[i / 2 := tags[i] % 16] == b) &&
            (i % 2 == 1 ==> a[i / 2] < 16 && a[i / 2 := a[i / 2] as int + 16 * (tags[i] as int % 16)] == b)
  {
    var p, q := PackTags(tags[..i]), PackTags(tags[..i + 1]);
    var b := q + Zeros(size - (i + 2) / 2);
    if i % 2 == 0 {
      assert forall k :: 0 <= k < i / 2 ==> q[k] == p[k];
      assert q[i / 2] == tags[i];
    } else {
      assert forall k :: 0 <= k < i / 2 ==> q[k] == p[k];
      assert p[i / 2] == tags[i - 1];
      assert q[i / 2] == tags[i - 1] as int + 16 * tags[i] as int;
    }
  }

  /** The topic loop of `DIS_process`: the characters before the first 0,
      and the position of that 0. */
  method ReadTopic(data: seq<Byte>) returns (topic: seq<char>, i: nat)
    requires TopicEnd(data) < |data|
    ensures i == TopicEnd(data) && topic == Chars(data[..i])
  {
    topic := [];
    i := 0;
    while data[i] != 0
      invariant i <= TopicEnd(data)
      invariant topic == Chars(data[..i])
      decreases TopicEnd(data) - i
    {
      topic := topic + [data[i] as char];
      assert Chars(data[..i + 1]) == Chars(data[..i]) + [data[i] as char];
      i := i + 1;
    }
  }

  // ---------------------------------------------------------------------
  // The order of the pushes against the layout of the payload functions
  // ---------------------------------------------------------------------

  lemma StringArgumentOrder(p: seq<Byte>, n: Byte, o: seq<Byte>)
    ensures p + [1] + [n, 0] + [STRING] + o == p + [1, n, 0, STRING] + o
  {
    assert p + [1] + [n, 0] + [STRING] == p + [1, n, 0, STRING];
  }

  lemma ArrayArgumentsOrder(p: seq<Byte>, d: Byte, n: Byte, packed: seq<Byte>, data: seq<Byte>)
    ensures p + [d] + [n, 0] + packed + data == p + [d, n, 0] + packed + data
  {
    assert p + [d] + [n, 0] == p + [d, n, 0];
  }

  /** The pushes of `DIS_publish` for a string argument give its payload. */
  lemma PublishStringLayout(topic: seq<char>, args: seq<Arg>, pushed: seq<Byte>)
    requires PublishDefined(topic, args) && CommaCount(topic) == 0
    requires var str := args[0].chars;
             pushed == [] + Octets(topic[..ScanTo(topic, 0, {',', ':'})]) + [0] +
                       [1, |str| % 256, 0, STRING] + Octets(str[..|str| % 256])
    ensures pushed == PublishPayload(topic, args)
  {
    var name := Octets(topic[..NameEnd(topic)]);
    var n := |args[0].chars| % 256;
    assert [] + name + [0] + [1, n, 0, STRING] == name + [0, 1, n, 0, STRING];
  }

  /** The pushes of `DIS_publish` for array arguments give its payload. */
  lemma PublishArraysLayout(topic: seq<char>, args: seq<Arg>, pushed: seq<Byte>)
    requires PublishDefined(topic, args) && CommaCount(topic) > 0
    requires var dims := CommaCount(topic);
             var tags := PublishTags(topic)[..dims];
             var n := PublishLength(topic);
             pushed == [] + Octets(topic[..ScanTo(topic, 0, {',', ':'})]) + [0] +
                       [dims, n, 0] + PackTags(tags) + DataBytes(tags, n, args)
    ensures pushed == PublishPayload(topic, args)
  {
    var name := Octets(topic[..NameEnd(topic)]);
    var dims := CommaCount(topic);
    var n := PublishLength(topic);
    assert [] + name + [0] + [dims, n, 0] == name + [0, dims, n, 0];
  }

  /** The pushes of `DIS_publish_str` give its payload. */
  lemma PublishStrLayout(topic: seq<char>, str: seq<char>, pushed: seq<Byte>)
    requires IsCString(topic) && IsCString(str)
    requires var n := |str| % 0x1_0000;
             pushed == [] + Octets(topic) + [0] + [1] + [n % 256, n / 256] + [STRING] + Octets(str[..n])
    ensures pushed == PublishStrPayload(topic, str)
  {
    var n := |str| % 0x1_0000;
    assert [] + Octets(topic) + [0] + [1] + [n % 256, n / 256] + [STRING] ==
           Octets(topic) + [0, 1, n % 256, n / 256, STRING];
  }

  /** The pushes of `parseTopicString` give the topic header. */
  lemma TopicHeaderLayout(topic: seq<char>, dims: Byte, pushed: seq<Byte>)
    requires IsCString(topic)
    requires var n := TopicLength(topic);
             pushed == [] + Octets(topic[..TopicNameEnd(topic)]) + [0] + [dims] + [n % 256, n / 256]
    ensures pushed == TopicHeader(topic, dims)
  {
  }

  /** Two pushes append a pair. */
  lemma Snoc2<T>(p: seq<T>, a: T, b: T)
    ensures p + [a] + [b] == p + [a, b]
  {
  }

  /** Four pushes append a quadruple. */
  lemma Snoc4<T>(p: seq<T>, a: T, b: T, c: T, d: T)
    ensures p + [a] + [b] + [c] + [d] == p + [a, b, c, d]
  {
  }

  /** One more element pushed after the encoding of a prefix. */
  lemma EncodeStep(p: seq<Byte>, vs: seq<int>, j: nat, w: nat)
    requires j < |vs|
    ensures p + Encode(vs[..j], w) + LittleEndian(vs[j], w) == p + Encode(vs[..j + 1], w)
  {
    EncodeSnoc(vs, j, w);
  }

  /** A scan that has not met a stop yet has not reached `ScanTo`. */
  lemma ScanPast(s: seq<char>, stops: set<char>, k: nat)
    requires k <= ScanTo(s, 0, stops) && k < |s| && s[k] !in stops
    ensures k + 1 <= ScanTo(s, 0, stops)
  {
  }

  /** A scan that meets a stop or the end before `ScanTo` is at `ScanTo`. */
  lemma ScanStops(s: seq<char>, stops: set<char>, k: nat)
    requires k <= ScanTo(s, 0, stops) && (k == |s| || (k < |s| && s[k] in stops))
    ensures k == ScanTo(s, 0, stops)
  {
  }

  /** One step of an element-reading loop at offset `k` of the stored data. */
  lemma ReadStep(t: Tag, data: seq<Byte>, k: nat, remaining: int)
    requires IsNumeric(t) && k <= |data| && remaining > 0
    requires ReadsFit(data[k..], remaining, ElementWidth(t))
    ensures var w := ElementWidth(t);
            k + w <= |data| && ReadsFit(data[k + w..], remaining - w, w) &&
            DispatchSpec.ReadElements(t, data[k..], remaining) ==
            [ElementValue(t, data[k..k + w])] + DispatchSpec.ReadElements(t, data[k + w..], remaining - w)
  {
    var w := ElementWidth(t);
    assert data[k..][w..] == data[k + w..] && data[k..][..w] == data[k..k + w];
  }

  /** The elements read so far followed by the rest are unchanged by one
      more step. */
  lemma ReadStepped(t: Tag, data: seq<Byte>, k: nat, remaining: int, dest: seq<int>, value: int)
    requires IsNumeric(t) && k <= |data| && remaining > 0
    requires ReadsFit(data[k..], remaining, ElementWidth(t))
    requires k + ElementWidth(t) <= |data| && value == ElementValue(t, data[k..k + ElementWidth(t)])
    ensures var w := ElementWidth(t);
            ReadsFit(data[k + w..], remaining - w, w) &&
            dest + [value] + DispatchSpec.ReadElements(t, data[k + w..], remaining - w) ==
            dest + DispatchSpec.ReadElements(t, data[k..], remaining)
  {
    ReadStep(t, data, k, remaining);
  }

  /** Specifier `i` of those packed from `start` on sits in the low nibble
      of its octet when `i` is even and in the high nibble when it is odd. */
  lemma UnpackAt(data: seq<Byte>, start: nat, n: nat, i: nat)
    requires start + (n + 1) / 2 <= |data| && i < n
    ensures var b := data[start + i / 2];
            UnpackTags(data[start..], n)[i] == if i % 2 == 0 then b % 16 else b / 16
  {
  }

  /** The parts of a decoded message, where `DIS_process` finds them:
      specifier `i` in a nibble of octet `i / 2` after the header, the
      data right after the packed specifiers. */
  lemma DecodedParts(data: seq<Byte>)
    requires Decodable(data)
    ensures var t := TopicEnd(data);
            var m := Decode(data);
            PayloadStart(data) == t + 4 + (m.dims + 1) / 2 &&
            m.length8bit == Length8bit(m.tags, DecodeLength(data)) &&
            m.payload == data[PayloadStart(data)..PayloadStart(data) + m.length8bit] &&
            forall i :: 0 <= i < m.dims ==>
              m.tags[i] == if i % 2 == 0 then data[t + 4 + i / 2] % 16 else data[t + 4 + i / 2] / 16
  {
    var t := TopicEnd(data);
    var m := Decode(data);
    forall i | 0 <= i < m.dims
      ensures m.tags[i] == if i % 2 == 0 then data[t + 4 + i / 2] % 16 else data[t + 4 + i / 2] / 16
    {
      UnpackAt(data, t + 4, m.dims, i);
    }
  }

  /** One specifier of the data loop: a numeric one takes argument `k`
      and sends its first `n` values; any other sends nothing. */
  lemma DataStep(fs: seq<Tag>, i: nat, dims: nat, n: nat, args: seq<Arg>, k: nat)
    requires i < dims <= |fs| && k <= |args| && ArgsFit(fs[i..dims], n, args[k..])
    ensures IsNumeric(fs[i]) ==>
              k < |args| && args[k].Values? && |args[k].values| >= n &&
              ArgsFit(fs[i + 1..dims], n, args[k + 1..]) &&
              DataBytes(fs[i..dims], n, args[k..]) ==
              Encode(args[k].values[..n], ElementWidth(fs[i])) + DataBytes(fs[i + 1..dims], n, args[k + 1..])
    ensures !IsNumeric(fs[i]) ==>
              ArgsFit(fs[i + 1..dims], n, args[k..]) &&
              DataBytes(fs[i..dims], n, args[k..]) == DataBytes(fs[i + 1..dims], n, args[k..])
  {
    assert fs[i..dims][0] == fs[i] && fs[i..dims][1..] == fs[i + 1..dims];
    if k < |args| {
      assert args[k..][0] == args[k] && args[k..][1..] == args[k + 1..];
    }
  }

  /** Octet `i / 2` holds specifier `i`: the octets of the first `n`
      specifiers are `(n + 1) / 2`, and the next specifier starts a new
      octet exactly when `i` is even. */
  lemma Halves(i: nat, n: nat)
    requires i < n
    ensures i / 2 < (n + 1) / 2
    ensures (i + 1) / 2 == if i % 2 == 0 then i / 2 else i / 2 + 1
    ensures (i + 2) / 2 == i / 2 + 1
  {
  }

  /** The `length8bit` sum over one more specifier. */
  lemma Length8bitSnoc(tags: seq<Tag>, i: nat, length: nat)
    requires i < |tags|
    ensures Length8bit(tags[..i + 1], length) == Length8bit(tags[..i], length) + length * DecodeWidth(tags[i])
  {
    assert tags[..i + 1][..i] == tags[..i];
  }

  /** One step of a loop copying `a` over the front of `b`. */
  lemma CopyStep<T>(a: seq<T>, b: seq<T>, j: nat)
    requires j < |a| <= |b|
    ensures (a[..j] + b[j..])[j := a[j]] == a[..j + 1] + b[j + 1..]
  {
  }

  /** Where the search for a free slot stops is pinned down by the slots
      before it. */
  lemma FirstFreeIs(slots: seq<Subscription>, i: nat)
    requires i <= |slots| && (i < |slots| ==> slots[i].callback == 0)
    requires forall j :: 0 <= j < i ==> slots[j].callback != 0
    ensures FirstFree(slots, 0) == i
  {
    var f := FirstFree(slots, 0);
    if f < i {
      assert false;
    }
  }

  class Dispatcher {
    /** The frame transport every publisher writes through. */
    const frm: Framer
    /** `rxMsg`: the last message decoded by `DIS_process`. */
    var rxDimensions: nat
    var rxLength: nat
    var rxLength8bit: nat
    const rxFormatSpecifiers: array<Tag>
    const rxData: array<Byte>
    /** `sub[]`: the subscription table. */
    const sub: array<Subscription>

    ghost predicate Valid()
      reads this, frm, sub
    {
      frm.Valid() && frm.rxFrame != rxData &&
      rxFormatSpecifiers.Length == MAX_NUM_OF_FORMAT_SPECIFIERS &&
      rxData.Length == MAX_RECEIVE_MESSAGE_LEN &&
      sub.Length == MAX_NUM_OF_SUBSCRIPTIONS &&
      forall i :: 0 <= i < sub.Length ==> SlotOk(sub[i])
    }

    /** The state at program start: static storage is zero. */
    constructor ()
      ensures Valid() && fresh(frm) && fresh(frm.rxFrame)
      ensures fresh(rxFormatSpecifiers) && fresh(rxData) && fresh(sub)
      ensures frm.rxFrame[..] == Zeros(RX_FRAME_LENGTH) && frm.rxFrameIndex == 0
      ensures frm.out == [] && !frm.open
      ensures forall i :: 0 <= i < sub.Length ==> sub[i] == EmptySlot()
    {
      frm := new Framer();
      rxDimensions, rxLength, rxLength8bit := 0, 0, 0;
      rxFormatSpecifiers := new Tag[MAX_NUM_OF_FORMAT_SPECIFIERS](_ => NONE);
      rxData := new Byte[MAX_RECEIVE_MESSAGE_LEN](_ => 0);
      sub := new Subscription[MAX_NUM_OF_SUBSCRIPTIONS](_ => EmptySlot());
    }

    // -------------------------------------------------------------------
    // Subscription table
    // -------------------------------------------------------------------

    /** `DIS_init`: every slot gets a null callback and an empty topic. */
    method Init()
      requires Valid()
      modifies sub
      ensures Valid()
      ensures forall i :: 0 <= i < sub.Length ==> sub[i] == Cleared(old(sub[i]))
    {
      var i := 0;
      while i < MAX_NUM_OF_SUBSCRIPTIONS
        invariant 0 <= i <= MAX_NUM_OF_SUBSCRIPTIONS
        invariant forall j :: 0 <= j < i ==> sub[j] == Cleared(old(sub[j]))
        invariant forall j :: i <= j < MAX_NUM_OF_SUBSCRIPTIONS ==> sub[j] == old(sub[j])
      {
        sub[i] := sub[i].(callback := 0);
        sub[i] := sub[i].(topic := sub[i].topic[0 := 0 as char]);
        i := i + 1;
      }
    }

    /** `DIS_subscribe`: the first slot with a null callback takes the
        callback and the topic's characters; no terminator is written. */
    method Subscribe(topic: seq<char>, callback: nat)
      requires Valid() && IsCString(topic) && |topic| < MAX_TOPIC_STR_LEN
      modifies sub
      ensures Valid()
      ensures sub[..] == Subscribed(old(sub[..]), topic, callback)
    {
      var i, found := FindFree();
      if found {
        CopyTopic(i, topic, callback);
        ghost var slot := Subscription(topic + old(sub[i]).topic[|topic|..], callback);
        assert slot.topic[MAX_TOPIC_STR_LEN - 1] == old(sub[i]).topic[MAX_TOPIC_STR_LEN - 1];
      }
    }

    /** The search loop of `DIS_subscribe`: the first slot with a null
        callback, or the table size when there is none. */
    method FindFree() returns (i: nat, found: bool)
      requires sub.Length == MAX_NUM_OF_SUBSCRIPTIONS
      ensures i == FirstFree(sub[..], 0) && found == (i < MAX_NUM_OF_SUBSCRIPTIONS)
    {
      i := 0;
      found := false;
      while i < MAX_NUM_OF_SUBSCRIPTIONS
        invariant 0 <= i <= MAX_NUM_OF_SUBSCRIPTIONS
        invariant forall j :: 0 <= j < i ==> sub[j].callback != 0
      {
        if sub[i].callback == 0 {
          found := true;
          break;
        }
        i := i + 1;
      }
      FirstFreeIs(sub[..], i);
    }

    /** The copy loop of `DIS_subscribe`: slot `i` takes the callback and
        the topic's characters up to its terminator, which is not copied. */
    method CopyTopic(i: nat, topic: seq<char>, callback: nat)
      requires sub.Length == MAX_NUM_OF_SUBSCRIPTIONS && i < MAX_NUM_OF_SUBSCRIPTIONS
      requires IsCString(topic) && |topic| <= |sub[i].topic|
      modifies sub
      ensures sub[..] == old(sub[..])[i := Subscription(topic + old(sub[i]).topic[|topic|..], callback)]
    {
      sub[i] := sub[i].(callback := callback);
      var j := 0;
      while At(topic, j) != 0 as char
        invariant 0 <= j <= |topic|
        invariant sub[i] == Subscription(topic[..j] + old(sub[i]).topic[j..], callback)
        invariant forall k :: 0 <= k < MAX_NUM_OF_SUBSCRIPTIONS && k != i ==> sub[k] == old(sub[k])
        decreases |topic| - j
      {
        CopyStep(topic, old(sub[i]).topic, j);
        sub[i] := sub[i].(topic := sub[i].topic[j := topic[j]]);
        j := j + 1;
      }
      assert topic[..j] == topic;
    }

    /** `DIS_unsubscribe`: every slot holding the callback is emptied. */
    method Unsubscribe(callback: nat)
      requires Valid()
      modifies sub
      ensures Valid()
      ensures sub[..] == Unsubscribed(old(sub[..]), callback)
    {
      var i := 0;
      while i < MAX_NUM_OF_SUBSCRIPTIONS
        invariant 0 <= i <= MAX_NUM_OF_SUBSCRIPTIONS
        invariant forall j :: 0 <= j < i ==>
                    sub[j] == if old(sub[j]).callback == callback then Cleared(old(sub[j])) else old(sub[j])
        invariant forall j :: i <= j < MAX_NUM_OF_SUBSCRIPTIONS ==> sub[j] == old(sub[j])
      {
        if sub[i].callback == callback {
          sub[i] := sub[i].(callback := 0);
          sub[i] := sub[i].(topic := sub[i].topic[0 := 0 as char]);
        }
        i := i + 1;
      }
    }

    // -------------------------------------------------------------------
    // Publishing
    // -------------------------------------------------------------------

    /** `FRM_push` as the publishers see it: one more octet of payload. */
    method PushOctet(b: Byte)
      requires Valid()
      modifies frm`out, frm`f16Sum1, frm`f16Sum2, frm`pushed
      ensures Valid() && frm.open == old(frm.open) && frm.frameStart == old(frm.frameStart)
      ensures frm.pushed == old(frm.pushed) + [b]
    {
      frm.Push(b);
    }

    /** The two pushes of a length field: the low octet, then the high one. */
    method PushLength(n: nat)
      requires Valid() && n < 0x1_0000
      modifies frm`out, frm`f16Sum1, frm`f16Sum2, frm`pushed
      ensures Valid() && frm.open == old(frm.open) && frm.frameStart == old(frm.frameStart)
      ensures frm.pushed == old(frm.pushed) + [n % 256, n / 256]
      ensures n < 256 ==> frm.pushed == old(frm.pushed) + [n, 0]
    {
      PushOctet(n % 256);
      PushOctet(n / 256);
    }

    /** `FRM_finish` as the publishers see it: the open frame is closed
        around the payload pushed since `FRM_init`. */
    method FinishFrame()
      requires Valid() && frm.open
      modifies frm`out, frm`open
      ensures Valid() && !frm.open
      ensures frm.out == frm.frameStart + FrameBytes(frm.pushed)
    {
      frm.Finish();
    }

    /** A name loop: push the characters from the start up to the first
        one in `stops`, or up to the terminator. */
    method PushUntil(topic: seq<char>, stops: set<char>) returns (strIndex: nat)
      requires Valid() && IsCString(topic)
      modifies frm`out, frm`f16Sum1, frm`f16Sum2, frm`pushed
      ensures Valid() && frm.open == old(frm.open) && frm.frameStart == old(frm.frameStart)
      ensures strIndex == ScanTo(topic, 0, stops)
      ensures frm.pushed == old(frm.pushed) + Octets(topic[..strIndex])
    {
      strIndex := 0;
      while strIndex < |topic| && topic[strIndex] !in stops
        invariant Valid() && strIndex <= ScanTo(topic, 0, stops)
        invariant frm.pushed == old(frm.pushed) + Octets(topic[..strIndex])
      {
        ScanPast(topic, stops, strIndex);
        PushOctet(topic[strIndex] as int);
        OctetsSnoc(topic, strIndex);
        strIndex := strIndex + 1;
      }
      ScanStops(topic, stops, strIndex);
    }

    /** A string loop: push the first `length` characters of `s`. */
    method PushChars(s: seq<char>, length: nat)
      requires Valid() && IsCString(s) && length <= |s|
      modifies frm`out, frm`f16Sum1, frm`f16Sum2, frm`pushed
      ensures Valid() && frm.open == old(frm.open) && frm.frameStart == old(frm.frameStart)
      ensures frm.pushed == old(frm.pushed) + Octets(s[..length])
    {
      var i := 0;
      while i < length
        invariant Valid() && i <= length
        invariant frm.pushed == old(frm.pushed) + Octets(s[..i])
      {
        PushOctet(s[i] as int);
        OctetsSnoc(s, i);
        i := i + 1;
      }
    }

    /** A loop pushing the first `length` octets of `bs`. */
    method PushOctets(bs: seq<Byte>, length: nat)
      requires Valid() && length <= |bs|
      modifies frm`out, frm`f16Sum1, frm`f16Sum2, frm`pushed
      ensures Valid() && frm.open == old(frm.open) && frm.frameStart == old(frm.frameStart)
      ensures frm.pushed == old(frm.pushed) + bs[..length]
    {
      var i := 0;
      while i < length
        invariant Valid() && i <= length
        invariant frm.pushed == old(frm.pushed) + bs[..i]
      {
        PushOctet(bs[i]);
        assert bs[..i + 1] == bs[..i] + [bs[i]];
        i := i + 1;
      }
    }

    /** The pushes for one element of type `t`: its octets masked and
        shifted, low octet first. */
    method PushElement(v: int, t: Tag)
      requires Valid() && IsNumeric(t)
      modifies frm`out, frm`f16Sum1, frm`f16Sum2, frm`pushed
      ensures Valid() && frm.open == old(frm.open) && frm.frameStart == old(frm.frameStart)
      ensures frm.pushed == old(frm.pushed) + LittleEndian(v, ElementWidth(t))
    {
      LittleEndianOctets(v);
      ghost var before := frm.pushed;
      if t == U8 || t == S8 {
        PushOctet(v % 256);
      } else if t == U16 || t == S16 {
        PushOctet(v % 256);
        PushOctet((v / 256) % 256);
        Snoc2(before, v % 256, (v / 256) % 256);
      } else {
        PushOctet(v % 256);
        PushOctet((v / 256) % 256);
        PushOctet((v / 0x1_0000) % 256);
        PushOctet((v / 0x100_0000) % 256);
        Snoc4(before, v % 256, (v / 256) % 256, (v / 0x1_0000) % 256, (v / 0x100_0000) % 256);
      }
    }

    /** An array loop: push the first `length` values of `data` as
        elements of type `t`. */
    method PushElements(data: seq<int>, length: nat, t: Tag)
      requires Valid() && IsNumeric(t) && length <= |data|
      modifies frm`out, frm`f16Sum1, frm`f16Sum2, frm`pushed
      ensures Valid() && frm.open == old(frm.open) && frm.frameStart == old(frm.frameStart)
      ensures frm.pushed == old(frm.pushed) + Encode(data[..length], ElementWidth(t))
    {
      ghost var w := ElementWidth(t);
      ghost var start := frm.pushed;
      var j := 0;
      while j < length
        invariant Valid() && j <= length
        invariant frm.pushed == start + Encode(data[..j], w)
      {
        PushElement(data[j], t);
        EncodeStep(start, data, j, w);
        j := j + 1;
      }
    }

    /** The data loop of `DIS_publish`: for each of the `dimensions`
        specifiers in order, a numeric one takes the next argument and
        pushes `length` elements of it; any other pushes nothing. */
    method PushData(formatSpecifiers: seq<Tag>, dimensions: nat, length: nat, args: seq<Arg>)
      requires Valid() && dimensions <= |formatSpecifiers|
      requires ArgsFit(formatSpecifiers[..dimensions], length, args)
      modifies frm`out, frm`f16Sum1, frm`f16Sum2, frm`pushed
      ensures Valid() && frm.open == old(frm.open) && frm.frameStart == old(frm.frameStart)
      ensures frm.pushed == old(frm.pushed) + DataBytes(formatSpecifiers[..dimensions], length, args)
    {
      ghost var target := old(frm.pushed) + DataBytes(formatSpecifiers[..dimensions], length, args);
      var i := 0;
      var argIndex := 0;
      while i < dimensions
        invariant Valid() && i <= dimensions && argIndex <= |args|
        invariant ArgsFit(formatSpecifiers[i..dimensions], length, args[argIndex..])
        invariant frm.pushed + DataBytes(formatSpecifiers[i..dimensions], length, args[argIndex..]) == target
      {
        DataStep(formatSpecifiers, i, dimensions, length, args, argIndex);
        var t := formatSpecifiers[i];
        if IsNumeric(t) {
          var data := args[argIndex].values;
          ghost var before := frm.pushed;
          PushElements(data, length, t);
          Assoc(before, Encode(data[..length], ElementWidth(t)),
                DataBytes(formatSpecifiers[i + 1..dimensions], length, args[argIndex + 1..]));
          argIndex := argIndex + 1;
        }
        i := i + 1;
      }
      assert formatSpecifiers[..dimensions][0..] == formatSpecifiers[0..dimensions];
    }

    /** `DIS_publish` after the name when the descriptor has no comma: the
        argument is a string, sent with dimension 1 and its length cut to
        the 8-bit variable. */
    method PushStringArgument(data: seq<char>)
      requires Valid() && IsCString(data)
      modifies frm`out, frm`f16Sum1, frm`f16Sum2, frm`pushed
      ensures Valid() && frm.open == old(frm.open) && frm.frameStart == old(frm.frameStart)
      ensures frm.pushed == old(frm.pushed) + [1, |data| % 256, 0, STRING] + Octets(data[..|data| % 256])
    {
      ghost var before := frm.pushed;
      PushOctet(1);
      var length := |data| % 256;
      TruncateAtMost(|data|, 256);
      PushLength(length);
      PushOctet(STRING);
      PushChars(data, length);
      StringArgumentOrder(before, length, Octets(data[..length]));
    }

    /** `DIS_publish` after the name when the descriptor has commas: the
        dimension count, the length from the `:` field, the packed
        specifiers and the array data. */
    method PushArrayArguments(topic: seq<char>, strIndex: nat, dimensions: nat, args: seq<Arg>)
      requires Valid() && PublishDefined(topic, args)
      requires dimensions == CommaCount(topic) && dimensions > 0 && strIndex == NameEnd(topic)
      modifies frm`out, frm`f16Sum1, frm`f16Sum2, frm`pushed
      ensures Valid() && frm.open == old(frm.open) && frm.frameStart == old(frm.frameStart)
      ensures var tags := PublishTags(topic)[..dimensions];
              frm.pushed == old(frm.pushed) + [dimensions, PublishLength(topic), 0] +
                            PackTags(tags) + DataBytes(tags, PublishLength(topic), args)
    {
      ghost var before := frm.pushed;
      PushOctet(dimensions);
      var length, tagsIndex := ReadPublishLength(topic, strIndex);
      PushLength(length);
      var formatSpecifiers := ParseFormatSpecifiers(topic, tagsIndex);
      var fsArray := PackFormatSpecifiers(formatSpecifiers, dimensions);
      PushOctets(fsArray, (dimensions + 1) / 2);
      PushData(formatSpecifiers, dimensions, length, args);
      ArrayArgumentsOrder(before, dimensions, length, fsArray[..(dimensions + 1) / 2],
                          DataBytes(formatSpecifiers[..dimensions], length, args));
    }

    /** `DIS_publish`: one frame holding `PublishPayload(topic, args)`. */
    method Publish(topic: seq<char>, args: seq<Arg>)
      requires Valid() && PublishDefined(topic, args)
      modifies frm`out, frm`f16Sum1, frm`f16Sum2, frm`pushed, frm`open, frm`frameStart
      ensures Valid()
      ensures frm.out == old(frm.out) + FrameBytes(PublishPayload(topic, args))
    {
      var dimensions := CountCommas(topic);
      frm.Init();
      var strIndex := PushUntil(topic, {',', ':'});
      PushOctet(0);
      if dimensions == 0 {
        PushStringArgument(args[0].chars);
        PublishStringLayout(topic, args, frm.pushed);
      } else {
        PushArrayArguments(topic, strIndex, dimensions, args);
        PublishArraysLayout(topic, args, frm.pushed);
      }
      FinishFrame();
    }

    /** `DIS_publish_str`: one frame holding `PublishStrPayload`. */
    method PublishStr(topic: seq<char>, str: seq<char>)
      requires Valid() && IsCString(topic) && |topic| < 0x1_0000 && IsCString(str)
      modifies frm`out, frm`f16Sum1, frm`f16Sum2, frm`pushed, frm`open, frm`frameStart
      ensures Valid()
      ensures frm.out == old(frm.out) + FrameBytes(PublishStrPayload(topic, str))
    {
      frm.Init();
      var i := PushUntil(topic, {});
      assert topic[..i] == topic;
      PushOctet(0);
      PushOctet(1);
      var length := |str| % 0x1_0000;
      TruncateAtMost(|str|, 0x1_0000);
      PushLength(length);
      PushOctet(STRING);
      PushChars(str, length);
      PublishStrLayout(topic, str, frm.pushed);
      FinishFrame();
    }

    /** `parseTopicString`: start a frame, push the name, a 0, the given
        dimension count and the length, and return that length. */
    method ParseTopicString(topic: seq<char>, dimensions: Byte) returns (dataLength: nat)
      requires Valid() && TopicDefined(topic)
      modifies frm`out, frm`f16Sum1, frm`f16Sum2, frm`pushed, frm`open, frm`frameStart
      ensures Valid() && frm.open && frm.frameStart == old(frm.out)
      ensures frm.pushed == TopicHeader(topic, dimensions)
      ensures dataLength == TopicLength(topic)
    {
      frm.Init();
      var strIndex := PushUntil(topic, {':'});
      PushOctet(0);
      dataLength := ReadTopicLength(topic, strIndex);
      PushOctet(dimensions);
      PushLength(dataLength);
      TopicHeaderLayout(topic, dimensions, frm.pushed);
    }

    /** `DIS_publish_u8`, `_s8`, `_u16`, `_s16`, `_u32` and `_s32`, told
        apart by `t`: one frame holding `ArrayPayload(topic, t, data)`. */
    method PublishArray(topic: seq<char>, t: Tag, data: seq<int>)
      requires Valid() && TopicDefined(topic) && IsNumeric(t) && |data| >= TopicLength(topic)
      modifies frm`out, frm`f16Sum1, frm`f16Sum2, frm`pushed, frm`open, frm`frameStart
      ensures Valid()
      ensures frm.out == old(frm.out) + FrameBytes(ArrayPayload(topic, t, data))
    {
      var dataLength := ParseTopicString(topic, 1);
      PushOctet(t);
      PushElements(data, dataLength, t);
      FinishFrame();
    }

    /** `DIS_publish_2u8`, `_2s8`, `_2u16` and `_2s16`, told apart by `t`:
        one frame holding `Array2Payload(topic, t, data0, data1)`. */
    method PublishArray2(topic: seq<char>, t: Tag, data0: seq<int>, data1: seq<int>)
      requires Valid() && TopicDefined(topic) && (t == U8 || t == S8 || t == U16 || t == S16)
      requires |data0| >= TopicLength(topic) && |data1| >= TopicLength(topic)
      modifies frm`out, frm`f16Sum1, frm`f16Sum2, frm`pushed, frm`open, frm`frameStart
      ensures Valid()
      ensures frm.out == old(frm.out) + FrameBytes(Array2Payload(topic, t, data0, data1))
    {
      var dataLength := ParseTopicString(topic, 2);
      PushOctet(t + 16 * t);
      PushElements(data0, dataLength, t);
      PushElements(data1, dataLength, t);
      FinishFrame();
    }

    // -------------------------------------------------------------------
    // Receiving
    // -------------------------------------------------------------------

    /** The specifier loop of `DIS_process`: unpack `rxDimensions`
        specifiers from the octets at `start`, low nibble first, adding
        each one's share to `length8bit`; return where the data starts. */
    method DecodeSpecifiers(data: seq<Byte>, start: nat, ghost tags: seq<Tag>) returns (dataIndex: nat)
      requires rxFormatSpecifiers.Length == MAX_NUM_OF_FORMAT_SPECIFIERS
      requires rxDimensions == |tags| <= MAX_NUM_OF_FORMAT_SPECIFIERS && start + (rxDimensions + 1) / 2 <= |data|
      requires forall i :: 0 <= i < |tags| ==>
                 tags[i] == if i % 2 == 0 then data[start + i / 2] % 16 else data[start + i / 2] / 16
      modifies rxFormatSpecifiers, this`rxLength8bit
      ensures dataIndex == start + (rxDimensions + 1) / 2
      ensures rxFormatSpecifiers[..] == tags + old(rxFormatSpecifiers[..])[rxDimensions..]
      ensures rxLength8bit == Length8bit(tags, rxLength)
      ensures rxData[..] == old(rxData[..])
    {
      ghost var before := rxFormatSpecifiers[..];
      rxLength8bit := 0;
      dataIndex := start;
      var n, i := rxDimensions, 0;
      while i < n
        invariant i <= n && dataIndex == start + i / 2
        invariant rxFormatSpecifiers[..] == tags[..i] + before[i..]
        invariant rxLength8bit == Length8bit(tags[..i], rxLength)
      {
        dataIndex := DecodeSpecifier(data, start, dataIndex, tags, before, i);
        i := i + 1;
      }
      Halves(i, i + 1);
      if i % 2 == 1 {
        dataIndex := dataIndex + 1;
      }
      assert tags[..i] == tags;
    }

    /** The body of the specifier loop for specifier `i`, held in octet
        `dataIndex` of `data`: the table and `length8bit` then cover one
        more specifier, and the octet index moves on after a high nibble. */
    method DecodeSpecifier(data: seq<Byte>, start: nat, dataIndex: nat, ghost tags: seq<Tag>, ghost before: seq<Tag>, i: nat)
      returns (next: nat)
      requires i < |tags| <= |before| == rxFormatSpecifiers.Length
      requires start + (|tags| + 1) / 2 <= |data| && dataIndex == start + i / 2
      requires forall k :: 0 <= k < |tags| ==>
                 tags[k] == if k % 2 == 0 then data[start + k / 2] % 16 else data[start + k / 2] / 16
      requires rxFormatSpecifiers[..] == tags[..i] + before[i..]
      requires rxLength8bit == Length8bit(tags[..i], rxLength)
      modifies rxFormatSpecifiers, this`rxLength8bit
      ensures next == start + (i + 1) / 2
      ensures rxFormatSpecifiers[..] == tags[..i + 1] + before[i + 1..]
      ensures rxLength8bit == Length8bit(tags[..i + 1], rxLength)
    {
      Halves(i, |tags|);
      CopyStep(tags, before, i);
      Length8bitSnoc(tags, i, rxLength);
      var t := UnpackSpecifier(data[dataIndex], i);
      AddWidth(t);
      next := dataIndex;
      if i % 2 == 1 {
        next := next + 1;
      }
    }

    /** One specifier of the loop: the low nibble of `b` when `i` is even,
        the high one when it is odd, stored at `i`. */
    method UnpackSpecifier(b: Byte, i: nat) returns (t: Tag)
      requires i < rxFormatSpecifiers.Length
      modifies rxFormatSpecifiers
      ensures t == if i % 2 == 0 then b % 16 else b / 16
      ensures rxFormatSpecifiers[..] == old(rxFormatSpecifiers[..])[i := t]
    {
      if i % 2 == 0 {
        rxFormatSpecifiers[i] := b % 16;
      } else {
        rxFormatSpecifiers[i] := b / 16;
      }
      t := rxFormatSpecifiers[i];
    }

    /** The `switch` of the specifier loop: `length8bit` grows by the
        length times the octets per element of `t`, and by nothing for a
        tag that is not a data type. */
    method AddWidth(t: Tag)
      modifies this`rxLength8bit
      ensures rxLength8bit == old(rxLength8bit) + rxLength * DecodeWidth(t)
    {
      if t == STRING || t == U8 || t == S8 {
        rxLength8bit := rxLength8bit + rxLength;
      } else if t == U16 || t == S16 {
        rxLength8bit := rxLength8bit + rxLength * 2;
      } else if t == U32 || t == S32 {
        rxLength8bit := rxLength8bit + rxLength * 4;
      }
    }

    /** The copy loop of `DIS_process`: `length8bit` octets from `start`
        into the stored data; the rest of the buffer keeps its octets. */
    method CopyData(data: seq<Byte>, start: nat)
      requires Valid() && rxLength8bit <= MAX_RECEIVE_MESSAGE_LEN && start + rxLength8bit <= |data|
      modifies rxData
      ensures rxData[..] == data[start..start + rxLength8bit] + old(rxData[..])[rxLength8bit..]
    {
      var i := 0;
      while i < rxLength8bit
        invariant i <= rxLength8bit
        invariant rxData[..i] == data[start..start + i]
        invariant forall j :: i <= j < MAX_RECEIVE_MESSAGE_LEN ==> rxData[j] == old(rxData[j])
      {
        rxData[i] := data[start + i];
        assert rxData[..i + 1] == rxData[..i] + [rxData[i]];
        i := i + 1;
      }
      assert rxData[..] == rxData[..i] + old(rxData[..])[i..];
    }

    /** The subscription loop of `DIS_process`: the callbacks of the slots
        whose topic compares equal with `strcmp`, skipping null ones. */
    method Notify(topic: seq<char>) returns (fired: seq<nat>)
      requires Valid()
      ensures fired == Matching(sub[..], topic)
    {
      fired := [];
      var i := 0;
      while i < MAX_NUM_OF_SUBSCRIPTIONS
        invariant i <= MAX_NUM_OF_SUBSCRIPTIONS
        invariant fired == Matching(sub[..i], topic)
      {
        assert sub[..i + 1][..i] == sub[..i];
        if SlotTopic(sub[i].topic) == topic {
          if sub[i].callback != 0 {
            fired := fired + [sub[i].callback];
          }
        }
        i := i + 1;
      }
      assert sub[..i] == sub[..];
    }

    /** The header of a received message: the topic up to its terminator,
        the dimension count from the low nibble of the next octet, and the
        16-bit length, low octet first; return where the specifiers start. */
    method ReadHeader(data: seq<Byte>) returns (topic: seq<char>, dataIndex: nat)
      requires HeaderDecodable(data)
      modifies this`rxDimensions, this`rxLength
      ensures var t := TopicEnd(data);
              topic == Chars(data[..t]) && dataIndex == t + 4 &&
              rxDimensions == data[t + 1] % 16 && rxLength == DecodeLength(data)
    {
      var i;
      topic, i := ReadTopic(data);
      dataIndex := i + 1;
      rxDimensions := data[dataIndex] % 16;
      dataIndex := dataIndex + 1;
      rxLength := data[dataIndex];
      dataIndex := dataIndex + 1;
      rxLength := rxLength + (data[dataIndex] as int) * 256;
      dataIndex := dataIndex + 1;
    }

    /** The decoding part of `DIS_process` for a returned message: the
        dimension count, the 16-bit length, the specifiers with the
        `length8bit` sum, and the data go to `rxMsg`; the topic is
        returned. */
    method StoreMessage(data: seq<Byte>) returns (topic: seq<char>)
      requires Valid() && Decodable(data)
      modifies this`rxDimensions, this`rxLength, this`rxLength8bit, rxFormatSpecifiers, rxData
      ensures Valid()
      ensures var m := Decode(data);
              topic == m.topic && rxDimensions == m.dims && rxLength == m.length &&
              rxLength8bit == m.length8bit &&
              rxFormatSpecifiers[..] == m.tags + old(rxFormatSpecifiers[..])[m.dims..] &&
              rxData[..] == m.payload + old(rxData[..])[m.length8bit..]
    {
      ghost var m := Decode(data);
      ghost var stored := rxData[..];
      DecodedParts(data);
      var dataIndex;
      topic, dataIndex := ReadHeader(data);
      dataIndex := DecodeSpecifiers(data, dataIndex, m.tags);
      assert dataIndex == PayloadStart(data) && rxLength8bit == m.length8bit && rxData[..] == stored;
      CopyData(data, dataIndex);
    }

    /** `DIS_process`: poll the frame layer into the local buffer, whose
        earlier contents are `stale`; when the poll returns a message,
        decode the buffer into `rxMsg` and return the callbacks it fires,
        in order. Without a message nothing but the frame layer changes. */
    method Process(input: seq<Byte>, stale: seq<Byte>) returns (fired: seq<nat>)
      requires Valid() && ProcessDefined(frm.rxFrame[..], frm.rxFrameIndex, input, stale)
      modifies frm`rxFrameIndex, frm.rxFrame, this`rxDimensions, this`rxLength, this`rxLength8bit
      modifies rxFormatSpecifiers, rxData
      ensures Valid()
      ensures var r := FrameSpec.Pull(old(frm.rxFrame[..]), old(frm.rxFrameIndex), input);
              frm.rxFrame[..] == r.buffer && frm.rxFrameIndex == r.index
      ensures var r := FrameSpec.Pull(old(frm.rxFrame[..]), old(frm.rxFrameIndex), input);
              r.length == 0 ==>
                fired == [] && rxDimensions == old(rxDimensions) && rxLength == old(rxLength) &&
                rxLength8bit == old(rxLength8bit) &&
                rxFormatSpecifiers[..] == old(rxFormatSpecifiers[..]) && rxData[..] == old(rxData[..])
      ensures var r := FrameSpec.Pull(old(frm.rxFrame[..]), old(frm.rxFrameIndex), input);
              r.length > 0 ==>
                var m := Decode(LocalBuffer(r.written, stale));
                rxDimensions == m.dims && rxLength == m.length && rxLength8bit == m.length8bit &&
                rxFormatSpecifiers[..] == m.tags + old(rxFormatSpecifiers[..])[m.dims..] &&
                rxData[..] == m.payload + old(rxData[..])[m.length8bit..] &&
                fired == Matching(sub[..], m.topic)
    {
      var length, data := frm.Pull(input);
      fired := [];
      if length > 0 {
        var topic := StoreMessage(data + stale[|data|..]);
        fired := Notify(topic);
      }
    }

    /** `getCurrentRxPointerIndex`: the offset widths of the specifiers
        before `element`, times the length, summed in a 16-bit variable. */
    method CurrentRxPointerIndex(element: nat) returns (currentIndex: nat)
      requires Valid() && element <= MAX_NUM_OF_FORMAT_SPECIFIERS
      ensures currentIndex == PointerIndex(rxFormatSpecifiers[..], rxLength, element) % 0x1_0000
    {
      currentIndex := 0;
      var i := 0;
      while i < element
        invariant i <= element
        invariant currentIndex == PointerIndex(rxFormatSpecifiers[..], rxLength, i) % 0x1_0000
      {
        var widthInBytes := 0;
        var t := rxFormatSpecifiers[i];
        if t == NONE || t == U8 || t == S8 {
          widthInBytes := 1;
        } else if t == U16 || t == S16 {
          widthInBytes := 2;
        } else {
          widthInBytes := 4;
        }
        ModAddMod(PointerIndex(rxFormatSpecifiers[..], rxLength, i), rxLength * widthInBytes, 0x1_0000);
        currentIndex := (currentIndex + rxLength * widthInBytes) % 0x1_0000;
        i := i + 1;
      }
    }

    /** One element of a numeric case of `DIS_getElements`: the octets at
        `p` combined with `|=` and shifts, read as type `t`. */
    method ReadElement(t: Tag, p: nat) returns (value: int)
      requires IsNumeric(t) && p + ElementWidth(t) <= rxData.Length
      ensures value == ElementValue(t, rxData[p..p + ElementWidth(t)])
    {
      var raw: int := rxData[p];
      if t == U16 || t == S16 || t == U32 || t == S32 {
        raw := raw + 0x100 * (rxData[p + 1] as int);
      }
      if t == U32 || t == S32 {
        raw := raw + 0x1_0000 * (rxData[p + 2] as int) + 0x100_0000 * (rxData[p + 3] as int);
      }
      FromLittleEndianOctets(rxData[p..p + ElementWidth(t)]);
      value := if IsSigned(t) then ToSigned(raw, ElementWidth(t)) else raw;
    }

    /** The loop of a numeric case of `DIS_getElements`: elements from
        `currentIndex` on until `length8bit` octets are consumed. */
    method ReadElements(t: Tag, currentIndex: nat) returns (dest: seq<int>)
      requires IsNumeric(t) && currentIndex <= rxData.Length
      requires ReadsFit(rxData[currentIndex..], rxLength8bit, ElementWidth(t))
      ensures dest == DispatchSpec.ReadElements(t, rxData[currentIndex..], rxLength8bit)
    {
      ghost var stored := rxData[..];
      var w := ElementWidth(t);
      dest := [];
      var i := 0;
      // the read position and the octets still to consume
      ghost var p, remaining := currentIndex, rxLength8bit as int;
      while i < rxLength8bit
        invariant p == currentIndex + i && remaining == rxLength8bit - i
        invariant p <= |stored| && ReadsFit(stored[p..], remaining, w)
        invariant dest + DispatchSpec.ReadElements(t, stored[p..], remaining)
                  == DispatchSpec.ReadElements(t, stored[currentIndex..], rxLength8bit)
        decreases remaining
      {
        ReadStep(t, stored, p, remaining);
        var value := ReadElement(t, currentIndex + i);
        ReadStepped(t, stored, p, remaining, dest, value);
        dest := dest + [value];
        i := i + w;
        p, remaining := p + w, remaining - w;
      }
    }

    /** `DIS_getElements(element)`: the stored length, and what the call
        writes to its destination. */
    method GetElements(element: nat) returns (count: nat, dest: seq<int>)
      requires Valid() && ExtractDefined(rxFormatSpecifiers[..], rxLength, rxLength8bit, rxData[..], element)
      ensures count == rxLength
      ensures dest == Extract(rxFormatSpecifiers[..], rxLength, rxLength8bit, rxData[..], element)
    {
      var currentIndex := CurrentRxPointerIndex(element);
      var t := rxFormatSpecifiers[element];
      dest := [];
      if t == NONE || t == STRING {
        var i := 0;
        while i < rxLength8bit
          invariant i <= rxLength8bit
          invariant |dest| == i && forall j :: 0 <= j < i ==> dest[j] == rxData[j] as int
        {
          dest := dest + [rxData[i] as int];
          i := i + 1;
        }
        ghost var stored, l8 := rxData[..], rxLength8bit;
        assert dest == seq(l8, j requires 0 <= j < l8 => stored[j] as int);
      } else if IsNumeric(t) {
        dest := ReadElements(t, currentIndex);
      }
      count := rxLength;
    }
  }
}
