/** Random access to the frames of a .zus stream: walking the frame boundaries, decompressing
    one frame, and building an index of frame starts. */
module Reader {
  import opened Wrappers
  import opened Bytes
  import opened Align
  import opened Header
  import opened Zstd

  /** The reader's return codes, ZUS_ERR_NONE and the three errors. */
  datatype Status = Success | InvalidFrame | InvalidData | BufferTooSmall

  function StatusOf<T>(r: Result<T, Status>): Status {
    match r
    case Ok(_) => Success
    case Err(e) => e
  }

  /** Offset of frame 0: the header, then the user data, then padding to a boundary. The
      frame region never overlaps the header or the user data. */
  function FirstFrameStart(h: ZusHeader): (r: nat)
    ensures r % ALIGNMENT == 0
    ensures HEADER_SIZE + h.userDataSize <= r < HEADER_SIZE + h.userDataSize + ALIGNMENT
  {
    AlignUp(HEADER_SIZE + h.userDataSize)
  }

  /** Where the walk is after skipping k frames from the frame at start: each skip asks for
      the frame's compressed size and rounds the end up to the next boundary. None when some
      size query on the way fails. */
  function SkipFrames(z: Codec, data: seq<byte>, start: nat, k: nat): (r: Option<nat>)
    ensures r.Some? ==> start <= r.value
    ensures r.Some? && start % ALIGNMENT == 0 ==> r.value % ALIGNMENT == 0
    decreases k
  {
    if k == 0 then Some(start)
    else match FrameSizeAt(z, data, start)
      case None => None
      case Some(n) => SkipFrames(z, data, AlignUp(start + n), k - 1)
  }

  /** The starts of k consecutive frames beginning with the one at start, each of which
      answers the size query; None when some frame among them does not. */
  function FrameStarts(z: Codec, data: seq<byte>, start: nat, k: nat): (r: Option<seq<nat>>)
    ensures r.Some? ==> |r.value| == k
    ensures r.Some? && k > 0 ==> r.value[0] == start
    ensures r.Some? ==> forall i :: 0 <= i < k ==> FrameSizeAt(z, data, r.value[i]).Some?
    ensures r.Some? ==> forall i :: 0 < i < k ==>
      r.value[i] == AlignUp(r.value[i - 1] + FrameSizeAt(z, data, r.value[i - 1]).value)
    ensures r.Some? ==> forall i :: 0 < i < k ==> r.value[i] % ALIGNMENT == 0
    decreases k
  {
    if k == 0 then Some([])
    else match FrameSizeAt(z, data, start)
      case None => None
      case Some(n) =>
        match FrameStarts(z, data, AlignUp(start + n), k - 1)
        case None => None
        case Some(rest) => Some([start] + rest)
  }

  /** zus_get_frame_at: the decompressed frame found directly at off. The size query comes
      first, then the declared content size is compared with cap, then the frame is
      decompressed. */
  function FrameAt(z: Codec, data: seq<byte>, off: nat, cap: nat): (r: Result<seq<byte>, Status>)
    ensures r.Err? ==> r.error == InvalidData || r.error == BufferTooSmall
    ensures r == Err(BufferTooSmall) <==>
      ContentSizeAt(z, data, off).Some? && ContentSizeAt(z, data, off).value > cap
    ensures r.Ok? <==>
      ContentSizeAt(z, data, off).Some? && ContentSizeAt(z, data, off).value <= cap
      && DecompressAt(z, data, off).Some?
    ensures r.Ok? ==> DecompressAt(z, data, off) == Some(r.value) && |r.value| <= cap
  {
    match ContentSizeAt(z, data, off)
    case None => Err(InvalidData)
    case Some(n) =>
      if n > cap then Err(BufferTooSmall)
      else match DecompressAt(z, data, off)
        case None => Err(InvalidData)
        case Some(d) => Ok(d)
  }

  /** zus_get_frame: frame idx (counting from 0), walked to from frame 0 and decompressed into
      at most cap bytes. */
  function Frame(z: Codec, h: ZusHeader, data: seq<byte>, idx: nat, cap: nat): (r: Result<seq<byte>, Status>)
    ensures r == Err(InvalidFrame) <==> idx >= h.frameCount
    ensures r.Err? ==> r.error != Success
    ensures r.Ok? ==> |r.value| <= cap
  {
    if idx >= h.frameCount then Err(InvalidFrame)
    else match SkipFrames(z, data, FirstFrameStart(h), idx)
      case None => Err(InvalidData)
      case Some(p) => FrameAt(z, data, p, cap)
  }

  /** zus_extract_frame_pointers: the start of every frame, for an output array of slots
      entries. */
  function FramePointers(z: Codec, h: ZusHeader, data: seq<byte>, slots: nat): (r: Result<seq<nat>, Status>)
    ensures r == Err(BufferTooSmall) <==> slots < h.frameCount
    ensures r.Err? ==> r.error == BufferTooSmall || r.error == InvalidData
    ensures r.Ok? <==> slots >= h.frameCount && SkipFrames(z, data, FirstFrameStart(h), h.frameCount).Some?
    ensures r.Ok? ==> |r.value| == h.frameCount
    ensures r.Ok? ==> forall i :: 0 <= i < h.frameCount ==>
      SkipFrames(z, data, FirstFrameStart(h), i) == Some(r.value[i])
    ensures r.Ok? ==> forall i :: 0 <= i < h.frameCount ==> r.value[i] % ALIGNMENT == 0
  {
    FrameStartsSkip(z, data, FirstFrameStart(h), h.frameCount);
    if slots < h.frameCount then Err(BufferTooSmall)
    else match FrameStarts(z, data, FirstFrameStart(h), h.frameCount)
      case None => Err(InvalidData)
      case Some(ps) => Ok(ps)
  }

  // ---------------------------------------------------------------------------------------
  // Properties of the walk

  /** Frame k+1 starts at the boundary after the end of frame k. */
  lemma {:induction false} SkipFramesSucc(z: Codec, data: seq<byte>, start: nat, k: nat)
    ensures SkipFrames(z, data, start, k + 1) ==
      match SkipFrames(z, data, start, k)
      case None => None
      case Some(p) =>
        match FrameSizeAt(z, data, p)
        case None => None
        case Some(n) => Some(AlignUp(p + n))
    decreases k
  {
    if k > 0 {
      match FrameSizeAt(z, data, start)
      case None =>
      case Some(n) => SkipFramesSucc(z, data, AlignUp(start + n), k - 1);
    }
  }

  /** Skipping i > 0 frames from start is skipping i - 1 frames from the frame after it. */
  lemma SkipFramesFrom(z: Codec, data: seq<byte>, start: nat, i: nat, n: nat)
    requires i > 0 && FrameSizeAt(z, data, start) == Some(n)
    ensures SkipFrames(z, data, start, i) == SkipFrames(z, data, AlignUp(start + n), i - 1)
  {
  }

  /** The index walk succeeds exactly when skipping all k frames does, and entry i of the
      index is where skipping i frames lands. */
  lemma {:induction false} FrameStartsSkip(z: Codec, data: seq<byte>, start: nat, k: nat)
    ensures FrameStarts(z, data, start, k).Some? <==> SkipFrames(z, data, start, k).Some?
    ensures FrameStarts(z, data, start, k).Some? ==>
      forall i :: 0 <= i < k ==> SkipFrames(z, data, start, i) == Some(FrameStarts(z, data, start, k).value[i])
    decreases k
  {
    if k > 0 {
      match FrameSizeAt(z, data, start)
      case None =>
      case Some(n) =>
        var next := AlignUp(start + n);
        FrameStartsSkip(z, data, next, k - 1);
        assert FrameStarts(z, data, start, k) == PrependTo([start], FrameStarts(z, data, next, k - 1));
        assert SkipFrames(z, data, start, k) == SkipFrames(z, data, next, k - 1);
        if FrameStarts(z, data, start, k).Some? {
          var r := FrameStarts(z, data, start, k).value;
          var rest := FrameStarts(z, data, next, k - 1).value;
          assert r == [start] + rest;
          forall i | 0 <= i < k ensures SkipFrames(z, data, start, i) == Some(r[i]) {
            if i > 0 {
              SkipFramesFrom(z, data, start, i, n);
              assert r[i] == rest[i - 1];
            }
          }
        }
    }
  }

  /** Frame starts never go backwards, and strictly increase when every frame takes at
      least one byte. */
  lemma {:induction false} FrameStartsOrdered(z: Codec, data: seq<byte>, start: nat, k: nat)
    requires FrameStarts(z, data, start, k).Some?
    ensures var r := FrameStarts(z, data, start, k).value;
      forall i, j :: 0 <= i < j < k ==> r[i] <= r[j]
    ensures var r := FrameStarts(z, data, start, k).value;
      (forall i :: 0 <= i < k ==> FrameSizeAt(z, data, r[i]).value > 0) ==>
      forall i, j :: 0 <= i < j < k ==> r[i] < r[j]
    decreases k
  {
    if k > 1 {
      var n := FrameSizeAt(z, data, start).value;
      var next := AlignUp(start + n);
      FrameStartsOrdered(z, data, next, k - 1);
      var r := FrameStarts(z, data, start, k).value;
      var rest := FrameStarts(z, data, next, k - 1).value;
      assert r == [start] + rest;
      assert forall i :: 0 < i < k ==> r[i] == rest[i - 1];
      if forall i :: 0 <= i < k ==> FrameSizeAt(z, data, r[i]).value > 0 {
        assert forall i :: 0 <= i < k - 1 ==> FrameSizeAt(z, data, rest[i]).value > 0 by {
          forall i | 0 <= i < k - 1 ensures FrameSizeAt(z, data, rest[i]).value > 0 {
            assert rest[i] == r[i + 1];
          }
        }
        assert start < rest[0] by {
          assert FrameSizeAt(z, data, r[0]).value > 0;
        }
      }
    }
  }

  /** Every start the index records lies on a 256-byte boundary, the first one included. */
  lemma FramePointersAligned(z: Codec, h: ZusHeader, data: seq<byte>, slots: nat)
    requires FramePointers(z, h, data, slots).Ok?
    ensures var ps := FramePointers(z, h, data, slots).value;
      |ps| == h.frameCount &&
      (h.frameCount > 0 ==> ps[0] == FirstFrameStart(h)) &&
      forall i :: 0 <= i < |ps| ==> ps[i] % ALIGNMENT == 0 && FrameSizeAt(z, data, ps[i]).Some?
  {
  }

  /** Reading entry idx of the index with zus_get_frame_at gives what zus_get_frame(idx) gives. */
  lemma PointerIndexConsistency(z: Codec, h: ZusHeader, data: seq<byte>, slots: nat, idx: nat, cap: nat)
    requires FramePointers(z, h, data, slots).Ok?
    requires idx < h.frameCount
    ensures Frame(z, h, data, idx, cap) == FrameAt(z, data, FramePointers(z, h, data, slots).value[idx], cap)
  {
    // Entry idx is where skipping idx frames lands, by FramePointers' contract.
  }

  /** zus_get_frame fails with InvalidData when the size query fails at any boundary up to and
      including the one of frame idx. */
  lemma FrameInvalidData(z: Codec, h: ZusHeader, data: seq<byte>, idx: nat, cap: nat)
    requires idx < h.frameCount
    requires SkipFrames(z, data, FirstFrameStart(h), idx + 1).None?
    ensures Frame(z, h, data, idx, cap) == Err(InvalidData)
  {
    SkipFramesSucc(z, data, FirstFrameStart(h), idx);
  }

  /** zus_get_frame fails with BufferTooSmall exactly when frame idx exists and declares more
      than cap decompressed bytes, and succeeds exactly when it declares at most cap bytes and
      decompresses to them; the result is then that frame's content. */
  lemma FrameOutcome(z: Codec, h: ZusHeader, data: seq<byte>, idx: nat, cap: nat)
    requires idx < h.frameCount
    ensures var p := SkipFrames(z, data, FirstFrameStart(h), idx);
      && (Frame(z, h, data, idx, cap) == Err(BufferTooSmall) <==>
          p.Some? && ContentSizeAt(z, data, p.value).Some? && ContentSizeAt(z, data, p.value).value > cap)
      && (Frame(z, h, data, idx, cap).Ok? <==>
          p.Some? && ContentSizeAt(z, data, p.value).Some? && ContentSizeAt(z, data, p.value).value <= cap
          && DecompressAt(z, data, p.value).Some?)
      && (Frame(z, h, data, idx, cap).Ok? ==> Some(Frame(z, h, data, idx, cap).value) == DecompressAt(z, data, p.value))
  {
  }

  /** o with prefix put in front of its value. */
  function PrependTo(prefix: seq<nat>, o: Option<seq<nat>>): Option<seq<nat>> {
    match o
    case None => None
    case Some(rest) => Some(prefix + rest)
  }

  lemma PrependToAssoc(a: seq<nat>, b: seq<nat>, o: Option<seq<nat>>)
    ensures PrependTo(a, PrependTo(b, o)) == PrependTo(a + b, o)
    ensures PrependTo([], o) == o
  {
    if o.Some? {
      assert a + (b + o.value) == (a + b) + o.value;
      assert [] + o.value == o.value;
    }
  }

  /** One step of the index walk: the frame at cur, then the frames after it. */
  lemma FrameStartsStep(z: Codec, data: seq<byte>, cur: nat, k: nat)
    requires k > 0 && FrameSizeAt(z, data, cur).Some?
    ensures FrameStarts(z, data, cur, k) ==
      PrependTo([cur], FrameStarts(z, data, AlignUp(cur + FrameSizeAt(z, data, cur).value), k - 1))
  {
  }

  // ---------------------------------------------------------------------------------------
  // The reader's entry points, writing into the caller's buffers

  /** zus_get_frame_at: decompresses the frame at off into out. */
  method GetFrameAt(z: Codec, data: seq<byte>, off: nat, out: array<byte>) returns (status: Status)
    modifies out
    ensures var r := FrameAt(z, data, off, out.Length);
      && status == StatusOf(r)
      && (r.Ok? ==> out[..|r.value|] == r.value && out[|r.value|..] == old(out[|r.value|..]))
      && (r.Err? ==> out[..] == old(out[..]))
  {
    var size := FrameSizeAt(z, data, off);
    if size.None? {
      return InvalidData;
    }
    var frame := data[off..off + size.value];
    var contentSize := z.decompressedSize(frame);
    if contentSize.None? {
      return InvalidData;
    }
    if contentSize.value > out.Length {
      return BufferTooSmall;
    }
    var content := z.decompress(frame);
    if content.None? || |content.value| != contentSize.value {
      return InvalidData;
    }
    var d := content.value;
    for k := 0 to |d|
      invariant out[..k] == d[..k]
      invariant out[k..] == old(out[k..])
    {
      out[k] := d[k];
      assert out[..k + 1] == out[..k] + [d[k]];
    }
    status := Success;
  }

  /** zus_get_frame: walks from frame 0 to frame idx and decompresses it into out. */
  method GetFrame(z: Codec, h: ZusHeader, data: seq<byte>, idx: u32, out: array<byte>) returns (status: Status)
    modifies out
    ensures var r := Frame(z, h, data, idx, out.Length);
      && status == StatusOf(r)
      && (r.Ok? ==> out[..|r.value|] == r.value && out[|r.value|..] == old(out[|r.value|..]))
      && (r.Err? ==> out[..] == old(out[..]))
  {
    if idx >= h.frameCount {
      return InvalidFrame;
    }
    var first := FirstFrameStart(h);
    var cur := first;
    var i := 0;
    while i < idx
      invariant 0 <= i <= idx
      invariant SkipFrames(z, data, first, idx) == SkipFrames(z, data, cur, idx - i)
    {
      var size := FrameSizeAt(z, data, cur);
      if size.None? {
        return InvalidData;
      }
      cur := AlignUp(cur + size.value);
      i := i + 1;
    }
    status := GetFrameAt(z, data, cur, out);
  }

  /** zus_extract_frame_pointers: writes the start of every frame into out, one slot per frame
      from slot 0; the slots past the last frame are left as they were. */
  method ExtractFramePointers(z: Codec, h: ZusHeader, data: seq<byte>, out: array<nat>) returns (status: Status)
    modifies out
    ensures var r := FramePointers(z, h, data, out.Length);
      && status == StatusOf(r)
      && (r.Ok? ==> out[..h.frameCount] == r.value)
      && (status == BufferTooSmall ==> out[..] == old(out[..]))
      && (h.frameCount <= out.Length ==> out[h.frameCount..] == old(out[h.frameCount..]))
  {
    var count := h.frameCount;
    if out.Length < count {
      return BufferTooSmall;
    }
    var first := FirstFrameStart(h);
    var cur := first;
    PrependToAssoc([], [], FrameStarts(z, data, cur, count));
    assert out[..0] == [];
    for i := 0 to count
      invariant out[count..] == old(out[count..])
      invariant FrameStarts(z, data, first, count) == PrependTo(out[..i], FrameStarts(z, data, cur, count - i))
    {
      var size := FrameSizeAt(z, data, cur);
      if size.None? {
        return InvalidData;
      }
      var next := AlignUp(cur + size.value);
      ghost var before := out[..i];
      out[i] := cur;
      assert out[..i + 1] == before + [cur];
      FrameStartsStep(z, data, cur, count - i);
      PrependToAssoc(before, [cur], FrameStarts(z, data, next, count - i - 1));
      cur := next;
    }
    assert out[..count] + [] == out[..count];
    status := Success;
  }
}
