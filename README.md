# r-display: a verified model of the example display driver

The `r-display` example is a display-driver plugin for a RenderMan-style
renderer (the ndspy interface). The renderer calls four entry points:

- **Open** validates its pointers and forces every channel to 8-bit
  unsigned. It allocates a zero-filled image session of
  `width * height * channels` bytes, hands it back as the image handle, and
  asks for scanline-ordered delivery.
- **Query** answers size and overwrite queries.
- **Data** appends each delivered rectangle's bytes at the session's cursor.
- **Close** (and **DelayClose**) turn the premultiplied RGBA pixels into
  straight alpha in place and give the buffer to a PNG encoder.

The model has three modules:

- `Ndspy` (`ndspy.dfy`) holds the interface types. These are the status
  codes, query kinds, channel formats, user parameters, size and overwrite
  records, and the output flags. The flags have `PkDspyFlagsWantsScanLineOrder`
  as bit 0. Bytes are the newtype `Byte` (0..255).
- `RDisplay` (`rdisplay.dfy`) holds the driver itself:
  - `ImageData` is a class whose `data` is an `array<Byte>`. Its `Append`
    is the copy in Data. `DisassociateAlpha` is the in-place outer loop over
    pixels, and `DisassociatePixelAt` is one pass of it, holding the inner
    loop over channels.
  - `HandleSlot` is the `*image_handle_ptr` location that Open writes to.
  - The five entry points, and `GetParameter`.
  - The functions that specify the methods: `Spliced`, `Disassociated`,
    `WithScanLineOrder` and `ForcedUnsigned8`.
- `RDisplayProperties` (`rdisplay_properties.dfy`) holds the lemmas about
  these: parameter lookup, how Data calls accumulate, per-pixel
  disassociation, and Query.

Null pointers are modelled as follows:

- The handle location is a `HandleSlot?`.
- The file name is an `Option<string>`.
- A parameter's value pointer is an `Option<T>`.
- Query's result pointer is a boolean `dataPresent`.
- A session handle is an `ImageData?`.

Query is a function. It returns the status together with the record it
builds.

## Where the model departs from the source

The source has three defects that the model does not copy:

- `DspyImageData` builds a `Box` from the raw handle before checking it
  for null (examples/r-display/src/lib.rs:201-205). On a null handle the
  early return then drops a `Box` made from a null pointer. The model checks
  for null first and returns `ErrorBadParams` without touching anything.
- The size query in `DspyImageQuery` reclaims the session with
  `Box::from_raw` and drops it (examples/r-display/src/lib.rs:155). The
  model only reads the session's width and height.
- `DspyImageQuery` stores the record it builds only in its local `data`
  variable (examples/r-display/src/lib.rs:169,180), so the caller never sees
  it. The model returns that record beside the status.

The model follows the code at three points where the driver's purpose
could be read differently:

- Premultiplied-to-straight conversion is often described as rounding
  `channel * 255 / alpha`. The code
  computes `((channel << 8) - channel) / alpha` with unsigned truncating
  division and then truncates the quotient to a byte. The code's comment
  says `channel * 256 / alpha`, but the value computed is `channel * 255`.
  The model computes what the code computes.
- One might expect Open to reject an empty output path. The code rejects
  only a null one (examples/r-display/src/lib.rs:75). The model rejects
  `None` and accepts the empty string.
- Open's second check of the file name (examples/r-display/src/lib.rs:99,
  125-128) can never fail after the first one, so the model has no branch
  for it.

## Model

| member | source | states |
|---|---|---|
| `RDisplay.GetParameter` | examples/r-display/src/lib.rs:42-60 | If no parameter has the name, the result is None. Otherwise the result is exactly the value of the FIRST entry with the name (None if that pointer is null), and any value returned belongs to that first entry |
| `RDisplayProperties.NullFirstMatchHidesLater` | examples/r-display/src/lib.rs:46-59 | A null value on the first entry with the name gives None, even when a later entry with the same name has a value (the `break`) |
| `RDisplayProperties.GetParameterIgnoresTail` | examples/r-display/src/lib.rs:46-59 | Entries after the first one with the name never influence the result |
| `RDisplayProperties.AssociateAlphaLookup` | examples/r-display/src/lib.rs:36-41 | `[("associatealpha", 1)]` gives Some(1); a list without that name gives None |
| `RDisplay.ForcedUnsigned8` | examples/r-display/src/lib.rs:83-91 | The rewritten format list has the same length as the original. Each entry keeps its name and position, and every element type is Unsigned8 |
| `RDisplay.WithScanLineOrder` | examples/r-display/src/lib.rs:120-122 | The scanline-order bit is set and every other flag bit is as it was |
| `RDisplay.ImageData.constructor` | examples/r-display/src/lib.rs:100-112 | The new session's buffer is fresh, has length width*height*channels and is all zeros. The cursor is 0, the dimensions and file name are those given, and the session is Valid |
| `RDisplay.DspyImageOpen` | examples/r-display/src/lib.rs:62-129 | A null handle location or null file name gives BadParams and leaves formats, flags and the handle location unchanged. Otherwise the result is None and the location holds a fresh, Valid, zero-filled session of width*height*format_count bytes, with cursor 0, channels = format_count, and the given dimensions and name. The formats become ForcedUnsigned8 of the old ones and the flags become WithScanLineOrder of the old ones |
| `RDisplay.DspyImageQuery` | examples/r-display/src/lib.rs:131-189 | The status is None exactly when the result pointer is present and the query is a size or overwrite query. It is BadParams exactly when the pointer is null and the query is not a stop query, and it is never Undefined. A record is returned exactly on success: the session's size (1920x1080 without a session), or overwrite = 1 |
| `RDisplayProperties.SizeQueryWithoutSession` | examples/r-display/src/lib.rs:146-153 | A size query with a null handle reports 1920x1080 |
| `RDisplayProperties.UnrecognizedQueryUnsupported` | examples/r-display/src/lib.rs:183-185 | When the result pointer is present, every kind other than size and overwrite is Unsupported with no record, whatever the handle. The stop query is Unsupported even with a null result pointer |
| `RDisplayProperties.SizeQueryAfterOpen` | examples/r-display/src/lib.rs:146-163 | A size query on the session that Open created reports the width and height that Open was given |
| `RDisplay.Spliced` | examples/r-display/src/lib.rs:207-218 | Writing bytes at a position keeps the buffer length. The written range holds exactly the new bytes and every byte outside it is unchanged |
| `RDisplay.ImageData.Append` | examples/r-display/src/lib.rs:207-218 | The buffer becomes the old buffer with `size` source bytes spliced in at the old cursor. The cursor advances by `size` and the session stays Valid |
| `RDisplay.DspyImageData` | examples/r-display/src/lib.rs:191-225 | A null handle gives BadParams. Otherwise the result is None, the rectangle's `channels*(x1-x0)*(y1-y0)` bytes are spliced in at the old cursor, the cursor advances by that size, and the session stays Valid. The buffer array, dimensions, channel count and file name are unchanged |
| `RDisplay.RegionSize` | examples/r-display/src/lib.rs:207-208 | An empty rectangle, or zero channels, gives 0 bytes. A rectangle whose bounds are in order gives a non-negative size |
| `RDisplayProperties.SplicedSequential` | examples/r-display/src/lib.rs:207-218 | Two back-to-back appends equal one append of their concatenation |
| `RDisplayProperties.DeliveredIsSplicedConcat` | examples/r-display/src/lib.rs:207-218 | Any run of Data calls writes the concatenation of their bytes from the starting cursor and leaves the rest of the buffer alone |
| `RDisplayProperties.FullFrameDelivered` | examples/r-display/src/lib.rs:207-218 | Rectangles whose sizes add up to the buffer length, delivered from cursor 0, leave the buffer equal to their bytes in delivery order, whatever their x/y positions |
| `RDisplay.DisassociatedAt` | examples/r-display/src/lib.rs:229-238 | The pixel-by-pixel transform agrees byte for byte with the per-byte reference. Alpha bytes, and all bytes of pixels with alpha 0, are kept; every other byte is `UnassociateChannel(byte, alpha)` |
| `RDisplay.ImageData.DisassociatePixelAt` | examples/r-display/src/lib.rs:229-236 | One pass of the outer loop: the four bytes of pixel p become their per-byte reference values, computed from the bytes before the call, and every other byte is unchanged |
| `RDisplay.DisassociatedStep` | examples/r-display/src/lib.rs:228-238 | The outer loop's invariant is kept: if the bytes before pixel p are finished and the rest still hold the input, rewriting pixel p extends the finished prefix by one pixel |
| `RDisplay.ImageData.DisassociateAlpha` | examples/r-display/src/lib.rs:228-241 | The buffer becomes Disassociated of the old buffer |
| `RDisplayProperties.AlphaNeverChanges` | examples/r-display/src/lib.rs:229-238 | The alpha byte of every pixel is unchanged |
| `RDisplayProperties.TransparentPixelUntouched` | examples/r-display/src/lib.rs:229-238 | A pixel with alpha 0 is unchanged |
| `RDisplayProperties.ColourChannelRescaled` | examples/r-display/src/lib.rs:229-238 | R, G and B of a pixel with nonzero alpha become `((c*256 - c) / alpha) mod 256` |
| `RDisplay.UnassociateChannel` | examples/r-display/src/lib.rs:233-235 | With alpha 255 a channel value is unchanged, and a zero channel stays zero |
| `RDisplay.DisassociatePixel` | examples/r-display/src/lib.rs:230-237 | A pixel stays four bytes and keeps its alpha. A pixel with alpha 0 or 255 is returned unchanged |
| `RDisplay.Disassociated` | examples/r-display/src/lib.rs:229-238 | The transformed buffer has the same length as the original |
| `RDisplayProperties.OpaqueChannelUnchanged` | examples/r-display/src/lib.rs:229-238 | Every byte of a pixel with alpha 255 is unchanged |
| `RDisplayProperties.OpaquePixelUnchanged` | examples/r-display/src/lib.rs:229-238 | A pixel with alpha 255 is unchanged |
| `RDisplayProperties.PremultipliedChannelIsFloorQuotient` | examples/r-display/src/lib.rs:233-235 | When channel <= alpha the byte truncation never changes the value. The result r is floor(c*255/alpha), so r*alpha <= 255*c < (r+1)*alpha |
| `RDisplayProperties.DisassociateExample` | examples/r-display/src/lib.rs:229-238 | (128, 64, 32, 128) becomes (255, 127, 63, 128) |
| `RDisplayProperties.ChannelAboveAlphaWraps` | examples/r-display/src/lib.rs:235 | A channel above its alpha wraps around: 200 under alpha 100 gives 254 |
| `RDisplay.DspyImageDelayClose` | examples/r-display/src/lib.rs:272-286 | The buffer is disassociated in place. The encoder receives the file name, the dimensions and the disassociated buffer. A successful write gives None and a failed one gives Undefined |
| `RDisplayProperties.FullFrameLifecycle` | examples/r-display/src/lib.rs:62-286 | Open of a 4-channel image, then one Data call covering the whole frame, then Close hands the encoder the file name and the dimensions given to Open and the disassociated pixels. The status follows the encoder outcome |
| `RDisplay.DspyImageClose` | examples/r-display/src/lib.rs:265-270 | Same contract as DspyImageDelayClose |

## Left out

- PNG encoding and file creation (`write_image`, examples/r-display/src/lib.rs:243-263) are an external library plus file I/O. Close takes the encoder's outcome as the boolean `encoded` and returns the `PngImage` it hands over. The RGBA colour type and 8-bit depth are implied rather than recorded.
- Raw-pointer ownership is not modelled: `Box::into_raw`/`Box::from_raw`, `CVec` wrapping and freeing the session at Close. Sessions are garbage-collected objects.
- C-string conversion is not modelled: names and file names are already strings, so the `to_str().unwrap()` panic on invalid UTF-8 is not modelled.
- Reinterpreting an untyped parameter value as `T` is modelled by giving the parameter list the caller's value type.
- The floating-point `aspectRatio` field (always 1.0) is not part of `SizeInfo`. Query's `data_len` and its `debug_assert!` are dropped.
- The `eprintln!` diagnostics are observability only.
- Open computes the "associatealpha" lookup and then ignores it. The model performs the lookup, and nothing depends on it. `driverName` is unused, as in the source.
- Threading and the order in which the renderer calls the entry points are outside the model.
- build.rs and src/lib.rs are not part of this model: they are a binding-generation script and a generated-bindings include.
- DspyImageOpen: when the handle location and the file name are both present, requires non-negative dimensions and that `width * height` and `width * height * format_count` fit in a C `int`. The source casts the dimensions to `u32` and computes the size in `i32`, which panics (debug) or wraps (release) on overflow. A refused call has no such requirement.
- DspyImageOpen: `format` and `flag_stuff` are used without a null check (examples/r-display/src/lib.rs:81-87, 121). The model's `array<DevFormat>` and `FlagStuff` parameters are non-null, so a null format array or flag location is not modelled.
- DspyImageData: requires what the source assumes without checking, because otherwise the copy corrupts memory. The `i32` size computation must not overflow and must not be negative. The bytes must fit in the buffer from the cursor on, and the renderer's pixels must hold at least that many bytes.
- DspyImageData: `_entry_size` is ignored, as in the source.
- DspyImageDelayClose: requires a non-null handle, which the source dereferences without a check. It also requires a buffer length that is a multiple of 4; otherwise `data[i + 3]` panics in the source.
- DspyImageClose: same requirements as DspyImageDelayClose.
