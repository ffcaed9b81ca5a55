# Sender-side encoder of the e-paper image transfer format

The sender script `image_converter_sender.py` turns an image into 4-bit grayscale
and sends it over Bluetooth LE to an ESP32 e-paper board. This project models the
part that builds the bytes on the wire, and proves what those bytes contain.

- **Quantise and pack** (`convert_to_4bit_grayscale`). Each 8-bit gray sample is
  divided by 16, giving one of 16 levels. Two horizontally adjacent samples go into
  one byte, the first in the high nibble and the second in the low nibble. The
  bytes are written into a `height` x `width // 2` array, which is then flattened
  in row-major order. The model keeps the source's nested loops over a
  two-dimensional array (`Grayscale.ConvertTo4BitGrayscale`, with the row loop in
  `Grayscale.PackRowInto`). They are proved equal to a pure packing function,
  `Grayscale.PackImage`. A reference unpacker, `Grayscale.UnpackImage`, shows
  that the packing loses nothing.
- **Header** (`struct.pack('<II', width, height)`). Width, then height, each as an
  unsigned 32-bit little-endian integer, which makes 8 bytes. A value outside
  [0, 2^32) makes `struct.pack` raise. `send_image` catches that and returns
  `False`; the model returns `Failure(StructError)`.
- **Slicing** (`send_image`). The first packet is the header followed by up to 492
  payload bytes. The rest of the payload goes out in 500-byte chunks, numbered
  from 1. The script also reports the chunk count and the total size. The chunk
  loop is a method (`Transfer.SendChunks`), proved against a recursive chunking
  function (`Transfer.Chunks`).

Bytes are the newtype `Bytes.byte` over the integers 0..255. The source's bit
operations become arithmetic:

- `(hi << 4) | lo` is `hi * 16 + lo`;
- `b >> 4` is `b / 16`;
- `b & 0xF` is `b % 16`.

`Grayscale.NibbleArithmeticIsBitwise` proves the three identities on 8-bit
bit-vectors. `Grayscale.ShiftOrIsPackPair`, `Grayscale.ShiftIsHigh` and
`Grayscale.MaskIsLow` carry them over to the integers: the source's shift-or,
shift and mask on an 8-bit value give the same number as `PackPair`, `High` and
`Low` on that value.

An odd width is an error path in the model, not a precondition. With an odd width,
the last step of each row writes `result[y, x // 2]` with `x // 2 == width // 2`,
one column past the array. numpy raises `IndexError`, which nothing in
`convert_to_4bit_grayscale` catches. So the model returns
`Failure(IndexOutOfBounds)` exactly when the width is odd and the height is not
zero. With zero rows the loop body never runs and the call succeeds.

Three facts about the code:

- The payload is `height * (width // 2)` bytes. That equals `width * height / 2`
  only for an even width; an odd width fails.
- The `<` prefix in `struct.pack('<II', ...)` makes the header little-endian on
  every platform.
- A comment in the source mentions Floyd–Steinberg dithering. The code only calls
  `convert('L')` and divides by 16, so the model quantises by plain division.

Lengths of row-major layouts are written `GridSize(rows, n)`, the product
`rows * n` counted row by row; `Sequences.GridSizeIsProduct` proves it equals the
product. So a requirement such as `|data| == GridSize(height, width / 2)` reads
as `|data| == height * (width / 2)`.

Modules:

- `Wrappers` holds `Result`.
- `Bytes` holds the byte type and the 32-bit little-endian encoding.
- `Sequences` holds concatenation and row-major layout.
- `Grayscale` holds quantising, packing, flattening and the conversion method.
- `Transfer` holds the header, the first packet, the chunks and `send_image`.

## Model

| member | source | states |
|---|---|---|
| Bytes.EncodeU32 | image_converter_sender.py:92 | the `I` code with the `<` prefix: a 32-bit value as 4 bytes, least significant first; its meaning is stated by `Bytes.DecodeEncodeU32` and `Bytes.EncodeDecodeU32` |
| Bytes.DecodeEncodeU32 | image_converter_sender.py:92 | decoding the four little-endian bytes written for any unsigned 32-bit value gives that value back |
| Bytes.EncodeDecodeU32 | image_converter_sender.py:92 | every four bytes are the encoding of the value they decode to, so the encoding is a bijection onto 4-byte strings |
| Grayscale.Quantize | image_converter_sender.py:36 | `gray // 16` keeps the image's shape; every quantised sample is in 0..15 and is the band `q * 16 <= g < q * 16 + 16` containing its gray value |
| Grayscale.PackPair | image_converter_sender.py:49 | the packed byte's high nibble is the first pixel and its low nibble is the second pixel |
| Grayscale.NibbleArithmeticIsBitwise | image_converter_sender.py:49 | on 8-bit values, the shift-or of two nibbles `hi << 4` and `lo` equals `hi * 16 + lo`, and `b >> 4 == b / 16` and `b & 0xF == b % 16` |
| Grayscale.ShiftOrIsPackPair | image_converter_sender.py:49 | for 8-bit nibbles, the source's bitwise or of `pixel1 << 4` with `pixel2`, read as an integer, is `PackPair(pixel1, pixel2)` |
| Grayscale.ShiftIsHigh | image_converter_sender.py:49 | for an 8-bit value, `b >> 4` read as an integer is `High(b)`, the high nibble |
| Grayscale.MaskIsLow | image_converter_sender.py:49 | for an 8-bit value, `b & 0xF` read as an integer is `Low(b)`, the low nibble |
| Grayscale.NibblesDetermineByte | image_converter_sender.py:46-49 | two bytes with the same high and low nibbles are equal |
| Grayscale.PackRow | image_converter_sender.py:43-49 | a row of `w` samples (with `w` even) packs to `w / 2` bytes |
| Grayscale.PackRowAt | image_converter_sender.py:43-49 | byte `j` of a packed row has sample `2j` in its high nibble and sample `2j + 1` in its low nibble |
| Grayscale.UnpackPackRow | image_converter_sender.py:46-49 | unpacking a packed row, high nibble first, gives back the row of samples |
| Grayscale.PackUnpackRow | image_converter_sender.py:46-49 | every byte string is the packing of the row it unpacks to |
| Grayscale.PackImage | image_converter_sender.py:42-55 | the packed rows of the image laid end to end, which is what the loops and `flatten` produce; its length and contents are stated by `Grayscale.PackImageLength` and `Grayscale.PackImageAt` |
| Grayscale.PackImageLength | image_converter_sender.py:40 | the packed image of `height` rows of `width` samples has exactly `height * (width / 2)` bytes |
| Grayscale.PackImageAt | image_converter_sender.py:42-49 | for every row `y` and every even `x`, the byte at index `y * (width / 2) + x / 2` is samples `(y, x)` and `(y, x + 1)` packed, the first in the high nibble |
| Grayscale.UnpackPackImage | image_converter_sender.py:42-49 | for an even width, unpacking the packed image recovers the quantised image exactly |
| Grayscale.PackUnpackImage | image_converter_sender.py:42-49 | every byte string of length `height * (width / 2)` is the packing of the image it unpacks to |
| Sequences.RowMajorSplit | image_converter_sender.py:55 | the row-major position of cell `(r, c)` in rows of `n` cells is `r * n + c`, and dividing it by `n` gives back `r` and `c` |
| Grayscale.Flatten | image_converter_sender.py:55 | `result.flatten()`: the array's rows laid end to end; where each cell lands is stated by `Grayscale.FlattenAt` |
| Grayscale.FlattenAt | image_converter_sender.py:55 | `flatten` yields `Length0 * Length1` bytes, and cell `(r, c)` lands at the row-major position of `(r, c)` |
| Grayscale.FlattenPacked | image_converter_sender.py:40-55 | an array whose every cell `(i, j)` holds samples `2j` and `2j + 1` of row `i` packed flattens to the packed image |
| Grayscale.PackRowInto | image_converter_sender.py:43-52 | the row loop succeeds exactly when the width is even; then every cell of row `y` holds its pair packed, and the other rows are unchanged |
| Grayscale.ConvertTo4BitGrayscale | image_converter_sender.py:36-55 | fails (IndexError) exactly when the width is odd and the height is not zero; otherwise it returns the input width and height and the `height * (width / 2)` bytes of the quantised image packed in row-major order |
| Transfer.EncodeHeader | image_converter_sender.py:92 | succeeds exactly when width and height both fit in an unsigned 32-bit integer, and then yields 8 bytes whose first four decode to the width and last four to the height |
| Transfer.EncodeDecodeHeader | image_converter_sender.py:92 | every 8 bytes are the header of the dimensions they decode to |
| Transfer.FirstPacket | image_converter_sender.py:98 | `header + image_bytes[:492]`; its bounds and how it rejoins the rest are stated by `Transfer.FirstPacketSplit` |
| Transfer.Remaining | image_converter_sender.py:105 | `image_bytes[492:]`, the payload the first packet does not carry; stated with the first packet by `Transfer.FirstPacketSplit` |
| Transfer.FirstPacketSplit | image_converter_sender.py:98-105 | the first packet is at most 500 bytes and starts with the header; it is exactly 500 bytes when the payload has at least 492; it followed by the remaining data is the header followed by the whole payload |
| Transfer.Chunks | image_converter_sender.py:108-109 | the slices `remaining_data[i:i+500]` for `i` in `range(0, len, 500)`, in order; stated by `Transfer.ChunksConcat`, `Transfer.ChunksSizes` and `Transfer.ChunksCount` |
| Transfer.ChunksConcat | image_converter_sender.py:108-109 | the chunks, concatenated in order, are the remaining data |
| Transfer.ChunksSizes | image_converter_sender.py:104-109 | no chunk is empty or longer than 500 bytes, and every chunk but the last is exactly 500 bytes |
| Transfer.ChunksCount | image_converter_sender.py:106 | `total_chunks = (len + 499) // 500` is the number of chunks the loop sends |
| Transfer.ChunksFrom | image_converter_sender.py:108-109 | the chunks from offset `i` on are the slice `data[i:i + 500]` followed by the chunks after it |
| Transfer.SendChunks | image_converter_sender.py:108-111 | the loop's slices are the chunks of the remaining data, in order, and chunk `k` is numbered `k + 1` (`i // 500 + 1`) |
| Transfer.TransmissionCarriesPayload | image_converter_sender.py:98-116 | a first packet plus the chunks of the remaining data puts exactly the header and the payload on the link, in order, and the announced count is the number of chunks |
| Transfer.SendImage | image_converter_sender.py:91-116 | fails (struct.error) exactly when a dimension is outside the unsigned 32-bit range; otherwise the first packet is at most 500 bytes, the chunks are the 500-byte slices numbered from 1, the bytes sent are the header followed by the payload, `total_chunks` is the number of chunks, and the total size is the payload size plus 8 |
| Transfer.DefaultSizeTransfer | image_converter_sender.py:15-16 | at the default 300 x 396 size the payload is 59400 bytes, the first packet is a full 500 bytes, 118 chunks follow, and the total is 59408 bytes |
| Transfer.WireFormatRoundTrip | image_converter_sender.py:92-98 | for an even width, the header followed by the packed image is `8 + height * (width / 2)` bytes; its first 8 bytes decode to the dimensions and the rest unpacks to the quantised image |

## Left out

- Image loading, resizing, colour conversion and the PIL round trip (`cv2.imread`, `cv2.resize`, `cv2.cvtColor`, `Image.fromarray(...).convert('L')`, image_converter_sender.py:21-33). These are calls into cv2 and PIL, and the resize interpolates in floating point. The conversion method takes the already-resized gray image as a grid of bytes. The `ValueError` for an unreadable file is not modelled, and neither is cv2's rejection of a zero or negative target size.
- Bluetooth discovery, connection and service or characteristic lookup (`find_device`, `BleakClient`, `get_services`, image_converter_sender.py:57-90), including the `return False` when the characteristic is missing. These are network I/O.
- The GATT writes (image_converter_sender.py:99, 110). They are commented out in the source. The model records the packets that would be written (`Transmission`) instead of sending them.
- The `asyncio.sleep` pauses and every `print` (image_converter_sender.py:100-116). These are timing and console output. The values printed (packet length, chunk numbers, `total_chunks`, total size) are kept as data.
- The `except Exception` in `send_image`, which turns any error into `False`. Only `struct.error` from the header can arise in the modelled part, and it is the `Failure` result.
- Argument parsing and `main` (image_converter_sender.py:122-159). This is process plumbing. The default size appears only as the constants `TargetWidth` and `TargetHeight`.
- `main.c` is not part of this model. It holds the display driver, BLE advertising and start-up code, and no logic works on its receive buffer.
- Grayscale.ConvertTo4BitGrayscale: on an odd width the result is only the failure. The cells written before the `IndexError` are not observable, because the array is discarded when the exception propagates.
- Grayscale.PackPair: states the bit operations in arithmetic form over 0..255. Their agreement with the shifts and masks on 8-bit values is proved separately, by `Grayscale.ShiftOrIsPackPair`, `Grayscale.ShiftIsHigh` and `Grayscale.MaskIsLow`.
