/** The r-display example driver: an in-memory image session that the
    renderer opens, fills rectangle by rectangle, and closes, at which point
    the premultiplied pixels are turned into straight alpha and handed to a
    PNG encoder. */
module RDisplay {
  import opened Ndspy

  /*************************************************************************
   * User parameters
   *************************************************************************/

  /** Index `i` holds the first parameter called `name`. */
  ghost predicate IsFirstMatch<T>(name: string, parameters: seq<UserParameter<T>>, i: int) {
    0 <= i < |parameters| && parameters[i].name == name &&
    forall j :: 0 <= j < i ==> parameters[j].name != name
  }

  /** get_parameter: the value of the first parameter called `name`; no
      value when nothing is called `name` or when that first entry's value
      pointer is null (the search stops there). */
  function GetParameter<T>(name: string, parameters: seq<UserParameter<T>>): (r: Option<T>)
    ensures (forall i :: 0 <= i < |parameters| ==> parameters[i].name != name) ==> r == None
    ensures forall i :: IsFirstMatch(name, parameters, i) ==> r == parameters[i].value
    ensures r.Some? ==> exists i :: IsFirstMatch(name, parameters, i) && parameters[i].value == r
  {
    if parameters == [] then None
    else if parameters[0].name == name then parameters[0].value
    else
      var r := GetParameter(name, parameters[1..]);
      assert forall i :: IsFirstMatch(name, parameters[1..], i) ==> IsFirstMatch(name, parameters, i + 1);
      assert forall i :: IsFirstMatch(name, parameters, i) ==> IsFirstMatch(name, parameters[1..], i - 1);
      r
  }

  /*************************************************************************
   * The image session
   *************************************************************************/

  /** `buffer` with `bytes` written over it starting at index `at`. */
  function Spliced(buffer: seq<Byte>, at: nat, bytes: seq<Byte>): (r: seq<Byte>)
    requires at + |bytes| <= |buffer|
    ensures |r| == |buffer|
    ensures forall i :: 0 <= i < |bytes| ==> r[at + i] == bytes[i]
    ensures forall i :: 0 <= i < |buffer| && !(at <= i < at + |bytes|) ==> r[i] == buffer[i]
  {
    buffer[..at] + bytes + buffer[at + |bytes|..]
  }

  /** Channel value `c` of a pixel with alpha `alpha`, converted from
      premultiplied to straight alpha: `((c << 8) - c) / alpha` in unsigned
      32-bit arithmetic (which cannot overflow for byte operands),
      truncated to a byte by `as u8`. */
  function UnassociateChannel(c: Byte, alpha: Byte): (r: Byte)
    requires alpha != 0
    ensures alpha == 255 ==> r == c
    ensures c == 0 ==> r == 0
  {
    ((c as int * 256 - c as int) / alpha as int % 256) as Byte
  }

  /** One RGBA pixel after disassociation: untouched when alpha is 0, else
      R, G and B rescaled and alpha kept. */
  function DisassociatePixel(p: seq<Byte>): (q: seq<Byte>)
    requires |p| == 4
    ensures |q| == 4 && q[3] == p[3]
    ensures p[3] == 0 || p[3] == 255 ==> q == p
  {
    if p[3] == 0 then p
    else [UnassociateChannel(p[0], p[3]), UnassociateChannel(p[1], p[3]),
          UnassociateChannel(p[2], p[3]), p[3]]
  }

  /** A whole RGBA buffer after disassociation, pixel by pixel. */
  function Disassociated(s: seq<Byte>): (r: seq<Byte>)
    requires |s| % 4 == 0
    ensures |r| == |s|
    decreases |s|
  {
    if s == [] then [] else DisassociatePixel(s[..4]) + Disassociated(s[4..])
  }

  /** Channel `j` of pixel `p` of an RGBA buffer after disassociation,
      stated on its own: the alpha channel and every channel of a pixel
      whose alpha is 0 stay, the others are rescaled by the pixel's alpha. */
  function DisassociatedByte(s: seq<Byte>, p: int, j: int): Byte
    requires 0 <= p && 4 * p + 4 <= |s| && 0 <= j < 4
  {
    var alpha := s[4 * p + 3];
    if j == 3 || alpha == 0 then s[4 * p + j] else UnassociateChannel(s[4 * p + j], alpha)
  }

  /** A pixel's result depends only on that pixel's bytes. */
  lemma DisassociatedByteLocal(s: seq<Byte>, t: seq<Byte>, p: int, j: int)
    requires 0 <= p && 4 * p + 4 <= |s| && 4 * p + 4 <= |t| && 0 <= j < 4
    requires s[4 * p + j] == t[4 * p + j] && s[4 * p + 3] == t[4 * p + 3]
    ensures DisassociatedByte(s, p, j) == DisassociatedByte(t, p, j)
  {
  }

  lemma {:induction false} DisassociatedAt(s: seq<Byte>, p: int, j: int)
    requires |s| % 4 == 0 && 0 <= p && 4 * p + 4 <= |s| && 0 <= j < 4
    ensures Disassociated(s)[4 * p + j] == DisassociatedByte(s, p, j)
    decreases p
  {
    var head, rest := DisassociatePixel(s[..4]), Disassociated(s[4..]);
    assert Disassociated(s) == head + rest;
    if p > 0 {
      DisassociatedAt(s[4..], p - 1, j);
      assert s[4..][4 * (p - 1) + j] == s[4 * p + j] && s[4..][4 * (p - 1) + 3] == s[4 * p + 3];
      assert (head + rest)[4 * p + j] == rest[4 * (p - 1) + j];
    } else {
      assert s[..4][j] == s[j] && s[..4][3] == s[3];
      assert (head + rest)[j] == head[j];
    }
  }

  /** One more pixel disassociated in place: if the bytes before pixel `p`
      are already done and the rest still hold the input, rewriting pixel
      `p` alone extends the finished prefix by that pixel. */
  lemma DisassociatedStep(was: seq<Byte>, before: seq<Byte>, after: seq<Byte>, p: nat)
    requires |was| % 4 == 0 && 4 * p + 4 <= |was| && |before| == |was| && |after| == |was|
    requires before[..4 * p] == Disassociated(was)[..4 * p] && before[4 * p..] == was[4 * p..]
    requires forall k :: 0 <= k < |after| && (k < 4 * p || 4 * p + 4 <= k) ==> after[k] == before[k]
    requires forall j :: 0 <= j < 4 ==> after[4 * p + j] == DisassociatedByte(before, p, j)
    ensures after[..4 * p + 4] == Disassociated(was)[..4 * p + 4] && after[4 * p + 4..] == was[4 * p + 4..]
  {
    forall k | 0 <= k < 4 * p + 4
      ensures after[k] == Disassociated(was)[k]
    {
      if k < 4 * p {
        assert after[k] == before[..4 * p][k];
      } else {
        var j := k - 4 * p;
        assert before[4 * p..][j] == was[4 * p..][j] && before[4 * p..][3] == was[4 * p..][3];
        DisassociatedByteLocal(before, was, p, j);
        DisassociatedAt(was, p, j);
      }
    }
    forall k | 4 * p + 4 <= k < |after|
      ensures after[k] == was[k]
    {
      assert before[4 * p..][k - 4 * p] == was[4 * p..][k - 4 * p];
    }
  }

  /** ImageData: the session behind an image handle. */
  class ImageData {
    var data: array<Byte>
    var offset: nat
    var width: nat
    var height: nat
    var channels: nat
    var fileName: string

    /** The buffer is sized for the whole image and the append cursor
        stays inside it. */
    ghost predicate Valid()
      reads this
    {
      data.Length == width * height * channels && offset <= data.Length
    }

    constructor (width: nat, height: nat, channels: nat, fileName: string)
      ensures Valid() && fresh(data)
      ensures data.Length == width * height * channels
      ensures forall i :: 0 <= i < data.Length ==> data[i] == 0
      ensures offset == 0
      ensures this.width == width && this.height == height && this.channels == channels
      ensures this.fileName == fileName
    {
      data := new Byte[width * height * channels](_ => 0);
      offset := 0;
      this.width, this.height, this.channels := width, height, channels;
      this.fileName := fileName;
    }

    /** The copy at the heart of DspyImageData: `size` bytes of `pixels`
        go to the cursor, and the cursor moves past them. */
    method Append(size: nat, pixels: seq<Byte>)
      requires Valid()
      requires offset + size <= data.Length && size <= |pixels|
      modifies this`offset, data
      ensures Valid()
      ensures offset == old(offset) + size
      ensures data[..] == Spliced(old(data[..]), old(offset), pixels[..size])
    {
      forall i | 0 <= i < size {
        data[offset + i] := pixels[i];
      }
      offset := offset + size;
    }

    /** The body of disassociate_alpha's loop for pixel `p` (bytes
        `i .. i+3`, with `i == 4p`): unless alpha is 0, R, G and B are rescaled in place
        one channel at a time. */
    method DisassociatePixelAt(i: nat, ghost p: nat)
      requires i == 4 * p && i + 4 <= data.Length
      modifies data
      ensures forall k :: 0 <= k < data.Length && (k < 4 * p || 4 * p + 4 <= k) ==> data[k] == old(data[k])
      ensures forall j :: 0 <= j < 4 ==> data[4 * p + j] == DisassociatedByte(old(data[..]), p, j)
    {
      var alpha := data[i + 3];
      if alpha != 0 {
        for c := i to i + 3
          invariant forall k :: 0 <= k < data.Length && (k < i || c <= k) ==> data[k] == old(data[k])
          invariant forall k :: i <= k < c ==> data[k] == UnassociateChannel(old(data[k]), alpha)
        {
          data[c] := UnassociateChannel(data[c], alpha);
        }
      }
    }

    /** disassociate_alpha: rewrites the buffer, read as RGBA pixels, from
        premultiplied to straight alpha in place. The source indexes
        `data[i + 3]` for every `i` that is a multiple of 4, so a length
        that is not a multiple of 4 panics. */
    method DisassociateAlpha()
      requires data.Length % 4 == 0
      modifies data
      ensures data[..] == Disassociated(old(data[..]))
    {
      ghost var was := data[..];
      ghost var pixel := 0;
      var i := 0;
      while i < data.Length
        invariant 0 <= i <= data.Length && i == 4 * pixel
        invariant data[..i] == Disassociated(was)[..i] && data[i..] == was[i..]
      {
        ghost var before := data[..];
        DisassociatePixelAt(i, pixel);
        DisassociatedStep(was, before, data[..], pixel);
        i, pixel := i + 4, pixel + 1;
      }
      assert data[..] == data[..i];
    }
  }

  /*************************************************************************
   * The entry points
   *************************************************************************/

  /** The location `*image_handle_ptr` through which Open hands the new
      session to the renderer. */
  class HandleSlot {
    var handle: ImageData?

    constructor ()
      ensures handle == null
    {
      handle := null;
    }
  }

  /** The output flags with the scanline-order bit set, every other bit
      kept (`flags |= PkDspyFlagsWantsScanLineOrder`). */
  function WithScanLineOrder(flags: bv32): (r: bv32)
    ensures r & WantsScanLineOrder == WantsScanLineOrder
    ensures r & !WantsScanLineOrder == flags & !WantsScanLineOrder
  {
    flags | WantsScanLineOrder
  }

  /** The channel formats as Open leaves them: same channels, same order,
      same names, every element type 8-bit unsigned. */
  function ForcedUnsigned8(formats: seq<DevFormat>): (r: seq<DevFormat>)
    ensures |r| == |formats|
    ensures forall i :: 0 <= i < |r| ==> r[i].name == formats[i].name && r[i].dataType == Unsigned8
  {
    seq(|formats|, i requires 0 <= i < |formats| => formats[i].(dataType := Unsigned8))
  }

  /** The dimensions are C ints that are not negative (the source casts
      them to u32), and the i32 products Open computes for the buffer size
      do not overflow. */
  predicate OpenSizesFit(width: int, height: int, formatCount: int) {
    0 <= width <= MaxInt32 && 0 <= height <= MaxInt32 && 0 <= formatCount <= MaxInt32 &&
    IsInt32(width * height) && IsInt32(width * height * formatCount)
  }

  /** DspyImageOpen. A null handle location or a null file name is refused
      before anything else happens. Otherwise every channel is switched to
      8-bit unsigned, a zero-filled session for `width * height *
      format_count` bytes is stored through the handle location, and the
      scanline-order flag is set. `parameters` is searched for
      "associatealpha", whose value the source computes and then ignores. */
  method DspyImageOpen(imageHandlePtr: HandleSlot?, driverName: string, outputFilename: Option<string>,
                       width: int, height: int, parameters: seq<UserParameter<int>>,
                       formats: array<DevFormat>, flagStuff: FlagStuff)
    returns (err: DspyError)
    requires imageHandlePtr != null && outputFilename.Some? ==> OpenSizesFit(width, height, formats.Length)
    modifies imageHandlePtr, formats, flagStuff
    ensures imageHandlePtr == null || outputFilename.None? ==>
              err == ErrorBadParams && formats[..] == old(formats[..]) && flagStuff.flags == old(flagStuff.flags)
    ensures imageHandlePtr != null && outputFilename.None? ==> imageHandlePtr.handle == old(imageHandlePtr.handle)
    ensures imageHandlePtr != null && outputFilename.Some? ==>
              var image := imageHandlePtr.handle;
              err == ErrorNone && image != null && fresh(image) && fresh(image.data) && image.Valid() &&
              image.data.Length == width * height * formats.Length &&
              (forall i :: 0 <= i < image.data.Length ==> image.data[i] == 0) &&
              image.offset == 0 && image.width == width && image.height == height &&
              image.channels == formats.Length && image.fileName == outputFilename.value &&
              formats[..] == ForcedUnsigned8(old(formats[..])) &&
              flagStuff.flags == WithScanLineOrder(old(flagStuff.flags))
  {
    if imageHandlePtr == null || outputFilename.None? {
      return ErrorBadParams;
    }

    for i := 0 to formats.Length
      modifies formats
      invariant forall k :: 0 <= k < i ==> formats[k] == old(formats[k]).(dataType := Unsigned8)
      invariant forall k :: i <= k < formats.Length ==> formats[k] == old(formats[k])
    {
      formats[i] := formats[i].(dataType := Unsigned8);
    }

    var associateAlpha := GetParameter("associatealpha", parameters).GetOr(0) == 1;

    var image := new ImageData(width, height, formats.Length, outputFilename.value);
    imageHandlePtr.handle := image;
    flagStuff.flags := flagStuff.flags | WantsScanLineOrder;
    err := ErrorNone;
  }

  /** What a query hands back besides its status. */
  datatype QueryRecord = Size(size: SizeInfo) | Overwrite(overwrite: OverwriteInfo)

  datatype QueryReply = QueryReply(status: DspyError, record: Option<QueryRecord>)

  /** The size reported when no session exists yet. */
  const DefaultSize: SizeInfo := SizeInfo(1920, 1080)

  /** DspyImageQuery, returning the record it builds together with the
      status. A null result pointer is refused unless the query is a stop
      query; a size query reports the session's dimensions or, without a
      session, 1920x1080; an overwrite query allows overwriting; every
      other kind, the stop query included, is unsupported. */
  function DspyImageQuery(imageHandle: ImageData?, queryType: QueryType, dataPresent: bool): (r: QueryReply)
    reads imageHandle
    ensures r.status == ErrorNone <==> dataPresent && (queryType.SizeQuery? || queryType.OverwriteQuery?)
    ensures r.status == ErrorBadParams <==> !dataPresent && !queryType.StopQuery?
    ensures r.status != ErrorUndefined
    ensures r.record.Some? <==> r.status == ErrorNone
    ensures r.status == ErrorNone && queryType.SizeQuery? ==>
              r.record == Some(Size(if imageHandle == null then DefaultSize
                                    else SizeInfo(imageHandle.width, imageHandle.height)))
    ensures r.status == ErrorNone && queryType.OverwriteQuery? ==>
              r.record == Some(Overwrite(OverwriteInfo(1, 0)))
  {
    if !dataPresent && !queryType.StopQuery? then QueryReply(ErrorBadParams, None)
    else
      match queryType
      case SizeQuery =>
        var info := if imageHandle == null then SizeInfo(1920, 1080)
                    else SizeInfo(imageHandle.width, imageHandle.height);
        QueryReply(ErrorNone, Some(Size(info)))
      case OverwriteQuery =>
        QueryReply(ErrorNone, Some(Overwrite(OverwriteInfo(1, 0))))
      case _ =>
        QueryReply(ErrorUnsupported, None)
  }

  /** Number of bytes in the rectangle `[xMin, xMaxPlusOne) x [yMin, yMaxPlusOne)`. */
  function RegionSize(channels: int, xMin: int, xMaxPlusOne: int, yMin: int, yMaxPlusOne: int): (r: int)
    ensures xMaxPlusOne == xMin || yMaxPlusOne == yMin || channels == 0 ==> r == 0
    ensures 0 <= channels && xMin <= xMaxPlusOne && yMin <= yMaxPlusOne ==> 0 <= r
  {
    channels * (xMaxPlusOne - xMin) * (yMaxPlusOne - yMin)
  }

  /** What DspyImageData relies on without checking: the i32 arithmetic
      for the size does not overflow, the size is not negative, and both
      the session buffer (from the cursor on) and the renderer's pixels
      hold that many bytes. */
  predicate RegionFits(channels: int, offset: int, capacity: int,
                       xMin: int, xMaxPlusOne: int, yMin: int, yMaxPlusOne: int, pixelCount: int)
  {
    IsInt32(channels) && IsInt32(xMaxPlusOne - xMin) && IsInt32(yMaxPlusOne - yMin) &&
    IsInt32(channels * (xMaxPlusOne - xMin)) &&
    IsInt32(RegionSize(channels, xMin, xMaxPlusOne, yMin, yMaxPlusOne)) &&
    0 <= RegionSize(channels, xMin, xMaxPlusOne, yMin, yMaxPlusOne) &&
    offset + RegionSize(channels, xMin, xMaxPlusOne, yMin, yMaxPlusOne) <= capacity &&
    RegionSize(channels, xMin, xMaxPlusOne, yMin, yMaxPlusOne) <= pixelCount
  }

  /** DspyImageData, with the null check done first: the rectangle's bytes
      are appended at the cursor, with no use of its position. */
  method DspyImageData(imageHandle: ImageData?, xMin: int, xMaxPlusOne: int, yMin: int, yMaxPlusOne: int,
                       entrySize: int, pixels: seq<Byte>)
    returns (err: DspyError)
    requires imageHandle != null ==>
               imageHandle.Valid() &&
               RegionFits(imageHandle.channels, imageHandle.offset, imageHandle.data.Length,
                          xMin, xMaxPlusOne, yMin, yMaxPlusOne, |pixels|)
    modifies imageHandle, if imageHandle == null then {} else {imageHandle.data}
    ensures imageHandle == null ==> err == ErrorBadParams
    ensures imageHandle != null ==>
              var size := RegionSize(old(imageHandle.channels), xMin, xMaxPlusOne, yMin, yMaxPlusOne);
              err == ErrorNone && imageHandle.Valid() &&
              imageHandle.offset == old(imageHandle.offset) + size &&
              imageHandle.data[..] == Spliced(old(imageHandle.data[..]), old(imageHandle.offset), pixels[..size])
    ensures imageHandle != null ==>
              imageHandle.data == old(imageHandle.data) &&
              imageHandle.width == old(imageHandle.width) && imageHandle.height == old(imageHandle.height) &&
              imageHandle.channels == old(imageHandle.channels) && imageHandle.fileName == old(imageHandle.fileName)
  {
    if imageHandle == null {
      return ErrorBadParams;
    }
    var dataSize := RegionSize(imageHandle.channels, xMin, xMaxPlusOne, yMin, yMaxPlusOne);
    imageHandle.Append(dataSize, pixels);
    err := ErrorNone;
  }

  /** What write_image gives the PNG encoder: the file name, the
      dimensions, RGBA colour at 8 bits per channel, and the buffer. */
  datatype PngImage = PngImage(fileName: string, width: nat, height: nat, pixels: seq<Byte>)

  /** DspyImageDelayClose: disassociates alpha in place, then reports
      success or failure of the PNG write (`encoded`) as ErrorNone or
      ErrorUndefined. `written` is what the encoder was given. */
  method DspyImageDelayClose(imageHandle: ImageData, encoded: bool) returns (err: DspyError, written: PngImage)
    requires imageHandle.data.Length % 4 == 0
    modifies imageHandle.data
    ensures imageHandle.data[..] == Disassociated(old(imageHandle.data[..]))
    ensures written == PngImage(imageHandle.fileName, imageHandle.width, imageHandle.height, imageHandle.data[..])
    ensures err == if encoded then ErrorNone else ErrorUndefined
  {
    imageHandle.DisassociateAlpha();
    written := PngImage(imageHandle.fileName, imageHandle.width, imageHandle.height, imageHandle.data[..]);
    err := if encoded then ErrorNone else ErrorUndefined;
  }

  /** DspyImageClose: the same as DspyImageDelayClose. */
  method DspyImageClose(imageHandle: ImageData, encoded: bool) returns (err: DspyError, written: PngImage)
    requires imageHandle.data.Length % 4 == 0
    modifies imageHandle.data
    ensures imageHandle.data[..] == Disassociated(old(imageHandle.data[..]))
    ensures written == PngImage(imageHandle.fileName, imageHandle.width, imageHandle.height, imageHandle.data[..])
    ensures err == if encoded then ErrorNone else ErrorUndefined
  {
    err, written := DspyImageDelayClose(imageHandle, encoded);
  }
}
