/** The frame transport of `src/frame.c` as a stateful object: the two
    checksum accumulators, the reassembly buffer and its append offset.
    The channel's write hook is the field `out`, to which every write
    appends; the read hook is the `input` handed to each poll. */
module Frame {
  import opened Config
  import opened FrameSpec

  /** `FRM_fletcher16`: the checksum of `data`, computed with the same
      accumulator loop as the encoder. */
  method ComputeFletcher16(data: seq<Byte>) returns (checksum: nat)
    ensures checksum == Fletcher16(data)
    ensures checksum == (PrefixSums(data) % 256) * 256 + Sum(data) % 256
  {
    var sum1: Byte, sum2: Byte := 0, 0;
    var i := 0;
    while i < |data|
      invariant 0 <= i <= |data|
      invariant sum1 == Sum1(data[..i]) && sum2 == Sum2(data[..i])
    {
      assert data[..i + 1][..i] == data[..i];
      sum1 := (sum1 + data[i]) % 256;
      sum2 := (sum2 + sum1) % 256;
      i := i + 1;
    }
    assert data[..i] == data;
    checksum := sum2 * 256 + sum1;
    SumsAreFletcherSums(data);
  }

  class Framer {
    /** `rxFrame`: the reassembly buffer. */
    const rxFrame: array<Byte>
    /** `rxFrameIndex`: where the next read is stored. */
    var rxFrameIndex: nat
    /** `f16Sum1`, `f16Sum2`: the running checksum accumulators. */
    var f16Sum1: nat
    var f16Sum2: nat
    /** Every octet written through the channel's write hook, in order. */
    var out: seq<Byte>
    /** The logical octets pushed since the last `Init`. */
    ghost var pushed: seq<Byte>
    /** Whether a frame has been started by `Init` and not yet finished,
        and what had been written before its start byte. */
    ghost var open: bool
    ghost var frameStart: seq<Byte>

    ghost predicate Valid()
      reads this
    {
      rxFrame.Length == RX_FRAME_LENGTH && rxFrameIndex <= RX_FRAME_LENGTH &&
      f16Sum1 == Sum1(pushed) && f16Sum2 == Sum2(pushed) && Framing()
    }

    /** While a frame is open, the output since its start byte is the
        escaped form of everything pushed into it. */
    ghost predicate Framing()
      reads this`out, this`open, this`frameStart, this`pushed
    {
      open ==> out == frameStart + [START_OF_FRAME] + EscapeAll(pushed)
    }

    /** The state at program start: static storage is zero. */
    constructor ()
      ensures Valid() && fresh(rxFrame)
      ensures rxFrame[..] == Zeros(RX_FRAME_LENGTH) && rxFrameIndex == 0
      ensures out == [] && pushed == [] && !open
    {
      rxFrame := new Byte[RX_FRAME_LENGTH](_ => 0);
      rxFrameIndex := 0;
      f16Sum1, f16Sum2 := 0, 0;
      out := [];
      pushed := [];
      open := false;
    }

    /** `FRM_init`: write the start byte and reset both accumulators. */
    method Init()
      requires Valid()
      modifies this`out, this`f16Sum1, this`f16Sum2, this`pushed, this`open, this`frameStart
      ensures Valid()
      ensures out == old(out) + [START_OF_FRAME] && pushed == []
      ensures f16Sum1 == 0 && f16Sum2 == 0
      ensures open && frameStart == old(out)
    {
      frameStart := out;
      out := out + [START_OF_FRAME];
      f16Sum1, f16Sum2 := 0, 0;
      pushed := [];
      open := true;
    }

    /** `FRM_pushToChannel`: write one octet, escaped when it is reserved. */
    method PushToChannel(b: Byte)
      modifies this`out
      ensures out == old(out) + Escape(b)
      ensures IsReserved(b) ==> out == old(out) + [ESC, Xor(b, ESC_XOR)]
      ensures !IsReserved(b) ==> out == old(out) + [b]
    {
      if b == START_OF_FRAME || b == END_OF_FRAME || b == ESC {
        var escChar := ESC;
        var escData := Xor(b, ESC_XOR);
        out := out + [escChar];
        out := out + [escData];
      } else {
        out := out + [b];
      }
    }

    /** `FRM_push`: write one payload octet and fold it into the checksum.
        The accumulators keep describing everything pushed since `Init`. */
    method Push(b: Byte)
      requires Valid()
      modifies this`out, this`f16Sum1, this`f16Sum2, this`pushed
      ensures Valid()
      ensures out == old(out) + Escape(b) && pushed == old(pushed) + [b]
      ensures f16Sum1 < 256 && f16Sum2 < 256
    {
      ghost var before := pushed;
      PushToChannel(b);
      f16Sum1 := (f16Sum1 + b) % 256;
      f16Sum2 := (f16Sum2 + f16Sum1) % 256;
      pushed := before + [b];
      SumsSnoc(before, b);
      EscapeAllSnoc(before, b);
      if open {
        Assoc(frameStart + [START_OF_FRAME], EscapeAll(before), Escape(b));
      }
    }

    /** `FRM_finish`: write the low accumulator, then the high one, both
        escaped, then the bare end byte. The accumulators are not changed. */
    method Finish()
      requires Valid()
      modifies this`out, this`open
      ensures Valid() && !open
      ensures out == old(out) + Escape(Sum1(pushed)) + Escape(Sum2(pushed)) + [END_OF_FRAME]
      ensures old(open) ==> out == frameStart + FrameBytes(pushed)
    {
      PushToChannel(f16Sum1);
      PushToChannel(f16Sum2);
      out := out + [END_OF_FRAME];
      open := false;
      if old(open) {
        FinishRegroup(frameStart, EscapeAll(pushed), Escape(Sum1(pushed)), Escape(Sum2(pushed)));
      }
    }

    /** `FRM_pull`: read `input`, look for a frame, unescape it into the
        returned `data`, tidy the buffer for the next frame, and check the
        trailer. The effect on the buffer, the offset and the result is
        exactly `FrameSpec.Pull`. */
    method Pull(input: seq<Byte>) returns (length: nat, data: seq<Byte>)
      requires Valid()
      requires PullDefined(rxFrame[..], rxFrameIndex, input)
      modifies this`rxFrameIndex, rxFrame
      ensures Valid()
      ensures var r := FrameSpec.Pull(old(rxFrame[..]), old(rxFrameIndex), input);
              rxFrame[..] == r.buffer && rxFrameIndex == r.index &&
              data == r.written && length == r.length
    {
      Read(input);
      length, data := Scan();
    }

    /** The processing of `FRM_pull` after the read: locate a frame, and
        take it out of the buffer when both its ends are present. */
    method Scan() returns (length: nat, data: seq<Byte>)
      requires rxFrame.Length == RX_FRAME_LENGTH
      requires HasFrame(rxFrame[..]) ==> |Unescape(Body(rxFrame[..]))| >= 2
      modifies this`rxFrameIndex, rxFrame
      ensures var r := Reassemble(old(rxFrame[..]), old(rxFrameIndex));
              rxFrame[..] == r.buffer && rxFrameIndex == r.index &&
              data == r.written && length == r.length
    {
      ghost var s := rxFrame[..];
      var sofIndex, eofIndex := Locate();
      length := 0;
      data := [];

      // both the start and the end of frame must be present
      if (rxFrame[0] == START_OF_FRAME || sofIndex > 0) && eofIndex != 0 {
        FrameLocated(s);
        length, data := TakeFrame(sofIndex, eofIndex);
      } else {
        assert !HasFrame(s);
      }
    }

    /** The two searches of `FRM_pull`: clear every octet before the first
        start byte, then find the first end byte after it. A missing start
        or end byte leaves the corresponding index at 0. */
    method Locate() returns (sofIndex: nat, eofIndex: nat)
      requires rxFrame.Length == RX_FRAME_LENGTH
      modifies rxFrame
      ensures rxFrame[..] == ZeroRange(old(rxFrame[..]), 0, StartIndex(old(rxFrame[..])))
      ensures eofIndex == if HasFrame(old(rxFrame[..])) then EndIndex(old(rxFrame[..])) else 0
      ensures HasFrame(old(rxFrame[..])) ==> sofIndex == StartIndex(old(rxFrame[..]))
      ensures sofIndex < RX_FRAME_LENGTH && (sofIndex == 0 ==> rxFrame[0] == START_OF_FRAME || !HasFrame(old(rxFrame[..])))
    {
      ghost var s := rxFrame[..];
      ghost var sof := StartIndex(s);
      sofIndex, eofIndex := 0, 0;

      // find the start of frame, clearing every byte before it
      var i := ClearUntilStart(0);
      if i < RX_FRAME_LENGTH {
        sofIndex := i;
      }

      // find the end of frame
      if sof < RX_FRAME_LENGTH {
        SameSuffixSameSearch(rxFrame[..], s, sof, END_OF_FRAME, sof);
      }
      i := FindEnd(sofIndex);
      if i < RX_FRAME_LENGTH {
        eofIndex := i;
      }
    }

    /** The read at the top of `FRM_pull`: the available octets are stored
        at the append offset, which then moves past them. */
    method Read(input: seq<Byte>)
      requires rxFrame.Length == RX_FRAME_LENGTH && rxFrameIndex + |input| <= RX_FRAME_LENGTH
      modifies this`rxFrameIndex, rxFrame
      ensures rxFrame[..] == Received(old(rxFrame[..]), old(rxFrameIndex), input)
      ensures rxFrameIndex == old(rxFrameIndex) + |input|
    {
      var numOfBytes := |input|;
      forall k | 0 <= k < numOfBytes {
        rxFrame[rxFrameIndex + k] := input[k];
      }
      rxFrameIndex := rxFrameIndex + numOfBytes;
    }

    /** The branch of `FRM_pull` taken when a frame lies between `sofIndex`
        and `eofIndex`: unescape it, clear the buffer up to the next start
        byte, move that byte to the front, reset the append offset, and
        check the trailer. */
    method TakeFrame(sofIndex: nat, eofIndex: nat) returns (length: nat, data: seq<Byte>)
      requires rxFrame.Length == RX_FRAME_LENGTH && sofIndex < eofIndex < RX_FRAME_LENGTH
      requires rxFrame[eofIndex] == END_OF_FRAME
      requires |Unescape(rxFrame[sofIndex + 1..eofIndex])| >= 2
      modifies this`rxFrameIndex, rxFrame
      ensures rxFrameIndex == 0
      ensures data == Unescape(old(rxFrame[sofIndex + 1..eofIndex]))
      ensures length == if ChecksumOk(data) then |data| - 2 else 0
      ensures var t := old(rxFrame[..]);
              var next := FirstIndexFrom(t, START_OF_FRAME, eofIndex);
              var cleared := ZeroRange(t[sofIndex := 0], eofIndex, next);
              rxFrame[..] == if next < |t| then Shift(cleared, next) else cleared
    {
      ghost var t := rxFrame[..];
      rxFrame[sofIndex] := 0;
      assert rxFrame[..] == t[sofIndex := 0];
      data := UnescapeSpan(sofIndex + 1, eofIndex);
      length := |data|;

      // clear from the end of frame up to the next start of frame
      SameSuffixSameSearch(rxFrame[..], t, eofIndex, START_OF_FRAME, eofIndex);
      var i := ClearUntilStart(eofIndex);
      var nextIndex := 0;
      if i < RX_FRAME_LENGTH {
        nextIndex := i;
      }
      rxFrameIndex := 0;

      // move the start of the next frame to the front
      if nextIndex > 0 {
        ShiftDown(nextIndex);
      }

      // the last two bytes are the checksum, low byte first
      var checksum := data[length - 2] as int + 256 * (data[length - 1] as int);
      length := length - 2;
      var check := ComputeFletcher16(data[..length]);
      if check != checksum {
        length := 0;
      }
    }

    /** The clearing scan of `FRM_pull`: zero every octet from `from` up to
        the next start byte, and return that byte's position (the buffer
        length when there is none). */
    method ClearUntilStart(from: nat) returns (k: nat)
      requires rxFrame.Length == RX_FRAME_LENGTH && from <= RX_FRAME_LENGTH
      modifies rxFrame
      ensures k == FirstIndexFrom(old(rxFrame[..]), START_OF_FRAME, from)
      ensures rxFrame[..] == ZeroRange(old(rxFrame[..]), from, k)
    {
      ghost var s := rxFrame[..];
      k := from;
      while k < RX_FRAME_LENGTH && rxFrame[k] != START_OF_FRAME
        invariant from <= k <= FirstIndexFrom(s, START_OF_FRAME, from)
        invariant forall j :: 0 <= j < RX_FRAME_LENGTH ==> rxFrame[j] == if from <= j < k then 0 else s[j]
      {
        rxFrame[k] := 0;
        k := k + 1;
      }
      assert rxFrame[..] == ZeroRange(s, from, k);
    }

    /** The end-of-frame scan of `FRM_pull`: the position of the first end
        byte at or after `from`, or the buffer length when there is none. */
    method FindEnd(from: nat) returns (k: nat)
      requires rxFrame.Length == RX_FRAME_LENGTH && from <= RX_FRAME_LENGTH
      ensures k == FirstIndexFrom(rxFrame[..], END_OF_FRAME, from)
      ensures k < RX_FRAME_LENGTH ==> rxFrame[k] == END_OF_FRAME
    {
      k := from;
      while k < RX_FRAME_LENGTH && rxFrame[k] != END_OF_FRAME
        invariant from <= k <= FirstIndexFrom(rxFrame[..], END_OF_FRAME, from)
      {
        k := k + 1;
      }
    }

    /** The unescape loop of `FRM_pull` over the octets at `lo <= k < hi`,
        where `hi` holds the end byte. */
    method UnescapeSpan(lo: nat, hi: nat) returns (data: seq<Byte>)
      requires rxFrame.Length == RX_FRAME_LENGTH && lo <= hi < RX_FRAME_LENGTH
      requires rxFrame[hi] == END_OF_FRAME
      ensures data == Unescape(rxFrame[lo..hi])
    {
      data := [];
      ghost var buf := rxFrame[..];
      var frameIndex := lo;
      while frameIndex < hi
        invariant lo <= frameIndex <= hi + 1
        invariant frameIndex <= hi ==> data + Unescape(buf[frameIndex..hi]) == Unescape(buf[lo..hi])
        invariant frameIndex == hi + 1 ==> data == Unescape(buf[lo..hi])
      {
        UnescapeFront(buf, frameIndex, hi);
        if rxFrame[frameIndex] == ESC {
          frameIndex := frameIndex + 1;
          var x := Xor(rxFrame[frameIndex], ESC_XOR);
          if frameIndex < hi {
            SnocRegroup(data, x, Unescape(buf[frameIndex + 1..hi]));
          }
          data := data + [x];
        } else {
          SnocRegroup(data, rxFrame[frameIndex], Unescape(buf[frameIndex + 1..hi]));
          data := data + [rxFrame[frameIndex]];
        }
        frameIndex := frameIndex + 1;
      }
      assert buf[lo..hi] == rxFrame[lo..hi];
    }

    /** The copy-and-clear loop of `FRM_pull`: move every octet `d` places
        towards the front, clearing each source position after its copy. */
    method ShiftDown(d: nat)
      requires rxFrame.Length == RX_FRAME_LENGTH && 0 < d < RX_FRAME_LENGTH
      modifies rxFrame
      ensures rxFrame[..] == Shift(old(rxFrame[..]), d)
    {
      ghost var s := rxFrame[..];
      var i := 0;
      while i + d < RX_FRAME_LENGTH
        invariant 0 <= i <= RX_FRAME_LENGTH - d
        invariant forall j :: 0 <= j < i ==> rxFrame[j] == s[j + d]
        invariant forall j :: i <= j < RX_FRAME_LENGTH && d <= j < d + i ==> rxFrame[j] == 0
        invariant forall j :: i <= j < RX_FRAME_LENGTH && !(d <= j < d + i) ==> rxFrame[j] == s[j]
      {
        rxFrame[i] := rxFrame[i + d];
        rxFrame[i + d] := 0;
        i := i + 1;
      }
      assert rxFrame[..] == Shift(s, d);
    }
  }

  /** One step of the unescape loop: an escape byte combines with the octet
      after it, which is the end byte when the escape byte is last. */
  lemma UnescapeFront(buf: seq<Byte>, i: nat, hi: nat)
    requires i < hi < |buf| && buf[hi] == END_OF_FRAME
    ensures buf[i] == ESC && i + 1 == hi ==> Unescape(buf[i..hi]) == [Xor(buf[i + 1], ESC_XOR)]
    ensures buf[i] == ESC && i + 1 < hi ==>
              Unescape(buf[i..hi]) == [Xor(buf[i + 1], ESC_XOR)] + Unescape(buf[i + 2..hi])
    ensures buf[i] != ESC ==> Unescape(buf[i..hi]) == [buf[i]] + Unescape(buf[i + 1..hi])
  {
    var r := buf[i..hi];
    assert r[0] == buf[i];
    if buf[i] == ESC && i + 1 < hi {
      assert r[1] == buf[i + 1] && r[2..] == buf[i + 2..hi];
    } else if buf[i] != ESC {
      assert r[1..] == buf[i + 1..hi];
    }
  }

  lemma Assoc<T>(a: seq<T>, b: seq<T>, c: seq<T>)
    ensures a + b + c == a + (b + c)
  {
  }

  lemma SnocRegroup(a: seq<Byte>, x: Byte, b: seq<Byte>)
    ensures a + [x] + b == a + ([x] + b)
  {
  }

  /** The octets of a finished frame, grouped as `FrameBytes` groups them. */
  lemma FinishRegroup(before: seq<Byte>, e: seq<Byte>, e1: seq<Byte>, e2: seq<Byte>)
    ensures before + [START_OF_FRAME] + e + e1 + e2 + [END_OF_FRAME] ==
            before + ([START_OF_FRAME] + e + e1 + e2 + [END_OF_FRAME])
  {
  }

  lemma SumsSnoc(bs: seq<Byte>, b: Byte)
    ensures Sum1(bs + [b]) == (Sum1(bs) + b) % 256
    ensures Sum2(bs + [b]) == (Sum2(bs) + Sum1(bs + [b])) % 256
  {
    assert (bs + [b])[..|bs|] == bs;
  }
}
