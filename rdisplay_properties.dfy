/** What the r-display driver guarantees across its entry points: how user
    parameters are found, how Data calls accumulate into the frame, what
    alpha disassociation does to each pixel, and what Query reports. */
module RDisplayProperties {
  import opened Ndspy
  import opened RDisplay

  /*************************************************************************
   * User parameters
   *************************************************************************/

  /** A null value on the first parameter with the name hides any later
      parameter of the same name, even one that has a value. */
  lemma NullFirstMatchHidesLater<T>(name: string, parameters: seq<UserParameter<T>>, i: int, j: int)
    requires IsFirstMatch(name, parameters, i) && parameters[i].value.None?
    requires i < j < |parameters| && parameters[j].name == name && parameters[j].value.Some?
    ensures GetParameter(name, parameters).None?
  {
  }

  /** The lookup only looks at entries up to and including the first one
      with the name: whatever follows it does not matter. */
  lemma {:induction false} GetParameterIgnoresTail<T>(name: string, parameters: seq<UserParameter<T>>,
                                                      i: int, rest: seq<UserParameter<T>>)
    requires IsFirstMatch(name, parameters, i)
    ensures GetParameter(name, parameters[..i + 1] + rest) == GetParameter(name, parameters)
  {
    var front := parameters[..i + 1] + rest;
    assert IsFirstMatch(name, front, i) by {
      assert forall k :: 0 <= k <= i ==> front[k] == parameters[k];
    }
  }

  lemma AssociateAlphaLookup()
    ensures GetParameter("associatealpha", [UserParameter("associatealpha", Some(1))]) == Some(1)
    ensures GetParameter("associatealpha", [UserParameter("gamma", Some(2))]) == None
  {
  }

  /*************************************************************************
   * Data calls accumulate into the frame
   *************************************************************************/

  /** The bytes of several rectangles, in delivery order. */
  function Concat(chunks: seq<seq<Byte>>): seq<Byte> {
    if chunks == [] then [] else chunks[0] + Concat(chunks[1..])
  }

  /** The buffer after one DspyImageData call per chunk, starting with the
      cursor at `at`. */
  function Delivered(buffer: seq<Byte>, at: nat, chunks: seq<seq<Byte>>): seq<Byte>
    requires at + |Concat(chunks)| <= |buffer|
    decreases |chunks|
  {
    if chunks == [] then buffer
    else Delivered(Spliced(buffer, at, chunks[0]), at + |chunks[0]|, chunks[1..])
  }

  /** Two appends in a row are one append of both, one after the other. */
  lemma SplicedSequential(buffer: seq<Byte>, at: nat, first: seq<Byte>, second: seq<Byte>)
    requires at + |first| + |second| <= |buffer|
    ensures Spliced(Spliced(buffer, at, first), at + |first|, second) == Spliced(buffer, at, first + second)
  {
  }

  /** Successive Data calls write the delivered bytes back to back from
      the starting cursor and leave the rest of the buffer alone. */
  lemma {:induction false} DeliveredIsSplicedConcat(buffer: seq<Byte>, at: nat, chunks: seq<seq<Byte>>)
    requires at + |Concat(chunks)| <= |buffer|
    ensures Delivered(buffer, at, chunks) == Spliced(buffer, at, Concat(chunks))
    decreases |chunks|
  {
    if chunks == [] {
      assert Spliced(buffer, at, []) == buffer;
    } else {
      DeliveredIsSplicedConcat(Spliced(buffer, at, chunks[0]), at + |chunks[0]|, chunks[1..]);
      SplicedSequential(buffer, at, chunks[0], Concat(chunks[1..]));
    }
  }

  /** Rectangles that exactly fill the frame from an empty cursor leave the
      frame holding their bytes in delivery order, whatever their positions. */
  lemma FullFrameDelivered(buffer: seq<Byte>, chunks: seq<seq<Byte>>)
    requires |Concat(chunks)| == |buffer|
    ensures Delivered(buffer, 0, chunks) == Concat(chunks)
  {
    DeliveredIsSplicedConcat(buffer, 0, chunks);
  }

  /*************************************************************************
   * Alpha disassociation
   *************************************************************************/

  /** The four bytes of pixel `p`. */
  function Pixel(s: seq<Byte>, p: int): seq<Byte>
    requires 0 <= p && 4 * p + 4 <= |s|
  {
    s[4 * p..4 * p + 4]
  }

  /** The alpha byte of every pixel is left as it was. */
  lemma AlphaNeverChanges(s: seq<Byte>, p: int)
    requires |s| % 4 == 0 && 0 <= p && 4 * p + 4 <= |s|
    ensures Disassociated(s)[4 * p + 3] == s[4 * p + 3]
  {
    DisassociatedAt(s, p, 3);
  }

  /** A pixel whose alpha is 0 is left as it was (no division by zero). */
  lemma TransparentPixelUntouched(s: seq<Byte>, p: int)
    requires |s| % 4 == 0 && 0 <= p && 4 * p + 4 <= |s| && s[4 * p + 3] == 0
    ensures Pixel(Disassociated(s), p) == Pixel(s, p)
  {
    forall j | 0 <= j < 4
      ensures Pixel(Disassociated(s), p)[j] == Pixel(s, p)[j]
    {
      DisassociatedAt(s, p, j);
    }
  }

  /** Every channel of a fully opaque pixel keeps its value. */
  lemma OpaqueChannelUnchanged(s: seq<Byte>, p: int, j: int)
    requires |s| % 4 == 0 && 0 <= p && 4 * p + 4 <= |s| && s[4 * p + 3] == 255 && 0 <= j < 4
    ensures Disassociated(s)[4 * p + j] == s[4 * p + j]
  {
    DisassociatedAt(s, p, j);
  }

  /** A fully opaque pixel is left as it was. */
  lemma OpaquePixelUnchanged(s: seq<Byte>, p: int)
    requires |s| % 4 == 0 && 0 <= p && 4 * p + 4 <= |s| && s[4 * p + 3] == 255
    ensures Pixel(Disassociated(s), p) == Pixel(s, p)
  {
    forall j | 0 <= j < 4
      ensures Pixel(Disassociated(s), p)[j] == Pixel(s, p)[j]
    {
      OpaqueChannelUnchanged(s, p, j);
    }
  }

  /** Any other pixel has R, G and B rescaled by its alpha. */
  lemma ColourChannelRescaled(s: seq<Byte>, p: int, j: int)
    requires |s| % 4 == 0 && 0 <= p && 4 * p + 4 <= |s| && 0 <= j < 3 && s[4 * p + 3] != 0
    ensures Disassociated(s)[4 * p + j] == UnassociateChannel(s[4 * p + j], s[4 * p + 3])
  {
    DisassociatedAt(s, p, j);
  }

  /** Floor division of a non-negative numerator by a positive divisor,
      when the numerator is at most 255 times the divisor: the quotient is
      a byte and brackets the numerator between two multiples. */
  lemma ByteQuotient(n: int, a: int)
    requires 0 < a && 0 <= n <= 255 * a
    ensures 0 <= n / a <= 255
    ensures n / a * a <= n < (n / a + 1) * a
  {
    var q, r := n / a, n % a;
    assert q * a + r == n && 0 <= r < a;
    assert q * a <= 255 * a;
    assert (q + 1) * a == q * a + a;
  }

  /** For properly premultiplied input (channel at most alpha) the byte
      truncation never bites: the result is the floor of
      `channel * 255 / alpha`, the largest straight value whose
      premultiplication by alpha does not exceed the stored channel. */
  lemma PremultipliedChannelIsFloorQuotient(c: Byte, alpha: Byte)
    requires 0 < alpha && c <= alpha
    ensures UnassociateChannel(c, alpha) as int == c as int * 255 / alpha as int
    ensures UnassociateChannel(c, alpha) as int * alpha as int <= c as int * 255
    ensures c as int * 255 < (UnassociateChannel(c, alpha) as int + 1) * alpha as int
  {
    var n, a := c as int * 255, alpha as int;
    assert c as int * 256 - c as int == n;
    ByteQuotient(n, a);
    var q := n / a;
    assert q % 256 == q;
    assert UnassociateChannel(c, alpha) as int == q;
  }

  /** The driver's worked example: (128, 64, 32, 128) becomes (255, 127, 63, 128). */
  lemma DisassociateExample()
    ensures DisassociatePixel([128, 64, 32, 128]) == [255, 127, 63, 128]
  {
  }

  /** Input that is not properly premultiplied wraps around: 200 under
      alpha 100 gives 510, which `as u8` turns into 254. */
  lemma ChannelAboveAlphaWraps()
    ensures UnassociateChannel(200, 100) == 254
  {
  }

  /*************************************************************************
   * Query
   *************************************************************************/

  /** Before any session exists a size query reports 1920x1080. */
  lemma SizeQueryWithoutSession()
    ensures DspyImageQuery(null, SizeQuery, true) == QueryReply(ErrorNone, Some(Size(SizeInfo(1920, 1080))))
  {
  }

  /** Every kind other than size and overwrite, the stop query included,
      is unsupported whatever the handle, once a result location exists. */
  lemma UnrecognizedQueryUnsupported(imageHandle: ImageData?, queryType: QueryType)
    requires !queryType.SizeQuery? && !queryType.OverwriteQuery?
    ensures DspyImageQuery(imageHandle, queryType, true) == QueryReply(ErrorUnsupported, None)
    ensures queryType.StopQuery? ==> DspyImageQuery(imageHandle, queryType, false) == QueryReply(ErrorUnsupported, None)
  {
  }

  /** A size query on the handle Open returned reports the dimensions
      Open was given. */
  method SizeQueryAfterOpen(width: int, height: int, fileName: string,
                            formats: array<DevFormat>, flagStuff: FlagStuff)
    returns (reply: QueryReply)
    requires OpenSizesFit(width, height, formats.Length)
    modifies formats, flagStuff
    ensures reply == QueryReply(ErrorNone, Some(Size(SizeInfo(width, height))))
  {
    var slot := new HandleSlot();
    var err := DspyImageOpen(slot, "r-display", Some(fileName), width, height, [], formats, flagStuff);
    reply := DspyImageQuery(slot.handle, SizeQuery, true);
  }

  /** A whole frame delivered in one rectangle between Open and Close
      reaches the encoder disassociated, with the dimensions Open was given
      and the file name it was given. */
  method FullFrameLifecycle(width: int, height: int, fileName: string, formats: array<DevFormat>,
                            flagStuff: FlagStuff, pixels: seq<Byte>, encoded: bool)
    returns (err: DspyError, written: PngImage)
    requires formats.Length == 4 && OpenSizesFit(width, height, 4) && IsInt32(4 * width)
    requires |pixels| == width * height * 4
    modifies formats, flagStuff
    ensures err == if encoded then ErrorNone else ErrorUndefined
    ensures written == PngImage(fileName, width, height, Disassociated(pixels))
  {
    var slot := new HandleSlot();
    var openErr := DspyImageOpen(slot, "r-display", Some(fileName), width, height, [], formats, flagStuff);
    var image := slot.handle;
    var size := width * height * 4;
    assert RegionSize(4, 0, width, 0, height) == 4 * width * height == size;
    var dataErr := DspyImageData(image, 0, width, 0, height, 4, pixels);
    assert image.data[..] == pixels;
    err, written := DspyImageClose(image, encoded);
  }
}
