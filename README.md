# Image transfer over TCP: framing and name rewrite

A Dafny model of the byte-level protocol in the two scripts of an image
transfer tool. `client.py` reads the server's RSA public key, encrypts the
first 20 bytes of a JPEG file and sends the file in this order: the name
length as a '!I' header, the ASCII name, the body length as a '!I' header,
and then the body in 4096-byte chunks. `server.py` reads a '!I' image size,
reads a name with a single `recv(100)`, reads the body, renames `base.ext`
to `base_server.ext` and stores a non-empty image.

The two scripts belong to different generations of the protocol and do not
interoperate. The client's first four bytes are the name length, but the
server reads them as the image size. The server never sends the key the
client waits for. Each side is therefore modelled on its own. The partner of
the client's framing is a decoder of that framing (`Client.DecodeImageMessage`),
not the server.

Files and modules:

- `wire.dfy` (`Wire`): bytes, the '!I' header as `Pack`/`Unpack` with a
  reference big-endian reading, and the ASCII codec. Python exceptions
  become `Err` values: `struct.error`, `UnicodeEncodeError`,
  `UnicodeDecodeError` and `IndexError`.
- `transport.dfy` (`Transport`): a socket as a class with two fields.
  - `inbox` is the queue of pending inbound segments. A segment is never
    empty, and the empty queue means the peer has closed.
  - `outbox` holds the argument of every `send`, one entry per call.
  - `recv(n)` (`Deliver`) returns the head segment when it fits in `n`
    bytes. Otherwise it returns the segment's first `n` bytes and leaves
    the tail at the head of the queue.
  - Any sequence of reads in which each returns between 1 and `n` bytes is
    produced by some queue.
- `client.dfy` (`Client`): `get_jpeg_image_header`, `receive_key_size`,
  `receive_public_key`, `send_image` and the client's main sequence.
- `server.dfy` (`Server`): `receive_image_size`, `receive_name`,
  `receive_image`, the output-name rewrite and the write decision.

The loops that read until a count is reached (`while length`,
`while image_size`) never end once the peer closes early. The server's body
loop also never ends once a block overshoots the count. The methods that
model these loops require input on which they end (`HeaderSize <=
|Stream()|`, `BodyArrives`). `Server.BodyLoopExits` proves that the body
loop ends exactly on such input and otherwise runs forever.

## Model

| member | source | states |
|---|---|---|
| Wire.Unpack | client.py:35 | `HEADER.unpack` of exactly 4 bytes is a number below 2^32 |
| Wire.Pack | client.py:52-55 | `HEADER.pack(n)` succeeds iff 0 <= n < 2^32; it then gives 4 bytes that unpack to n, and otherwise it raises struct.error |
| Wire.PackUnpack | client.py:13 | every 4-byte header is the packing of its unpacked value, so pack and unpack are inverse bijections between 0..2^32-1 and 4-byte strings |
| Wire.UnpackIsBigEndian | server.py:7 | '!I' is network byte order: unpacking equals the reference big-endian reading, first byte most significant |
| Wire.UnpackInjective | server.py:28 | distinct 4-byte size fields declare distinct sizes |
| Wire.EncodeAscii | client.py:53 | `str.encode('ascii')` succeeds iff every character is below 128; it then gives one equal byte per character, and otherwise it raises UnicodeEncodeError |
| Wire.DecodeAscii | server.py:23 | `bytes.decode('ascii')` succeeds iff every byte is below 128; it then gives one equal ASCII character per byte, and otherwise it raises UnicodeDecodeError |
| Wire.DecodeEncodeAscii | client.py:53 | decoding the encoded name gives the name back |
| Wire.EncodeDecodeAscii | server.py:23 | encoding a decoded name gives the bytes back |
| Transport.JoinedAppend | client.py:29-31 | appending a block to `blocks` appends its bytes to `b''.join(blocks)` |
| Transport.Deliver | client.py:27 | `recv(n)` returns at most n bytes, the next ones in stream order, with nothing lost; it is empty only for n = 0 or after the peer closed |
| Transport.DropDrop | server.py:13-14 | reading a bytes and then b more leaves the stream that reading a + b bytes leaves |
| Transport.Socket.Recv | server.py:13 | `sock.recv(n)` hands back the delivered block and leaves the rest of the queue |
| Transport.Socket.Send | client.py:52 | `sock.send(data)` appends all of data to what was written |
| Client.JpegImageHeader | client.py:17-21 | the header and rest concatenate to the image; the header has min(20, len) bytes |
| Client.ReceiveKeySize | client.py:23-31 | returns exactly 4 bytes, the first 4 of the stream in order, and consumes exactly those; `length` plus the bytes joined so far stays 4 |
| Client.KeyRead | client.py:37 | the key read returns at most `key_size` bytes, those right after the size field, and at least one when any are pending and key_size > 0 |
| Client.KeyMayBeShort | client.py:37 | a stream whose key arrives in two segments yields a 1-byte key for a declared size of 2 |
| Client.ReceivePublicKey | client.py:33-37 | reads the size with the exact loop, then one `recv(key_size)`; the key and the remaining stream are those of KeyRead |
| Client.Chunks | client.py:62-75 | the chunks, joined, are the body |
| Client.ChunkShape | client.py:67-75 | every chunk has 1..4096 bytes, all but the last exactly 4096; there are ceil(len/4096) chunks, none for an empty body, and never more than len(byte_image) |
| Client.ChunksStep | client.py:67-75 | each pass moves the next 4096 bytes, or all that are left, from the unsent to the sent chunks, and keeps their concatenation equal to the chunking |
| Client.SendBody | client.py:57-77 | the chunk loop writes exactly Chunks(byte_image) within `range(image_size)` passes, with `sent + remaining == image_size` before the last short chunk and `remaining >= 0` throughout |
| Client.ImageTransmission | client.py:46-79 | success iff both lengths fit '!I' and the name is ASCII; it then makes 3 header sends plus the chunks and returns len(byte_image); a failure leaves fewer than 3 sends; UnicodeEncodeError iff the name length fits and the name is not ASCII |
| Client.SendImage | client.py:46-79 | the sends and the result are those of ImageTransmission, with nothing read |
| Client.ImageTransmissionWire | client.py:52-55 | a successful send writes pack(len(name)), the ASCII name, pack(len(body)) and then the body, in this order |
| Client.DecodeTransmission | client.py:46-79 | what a successful send writes decodes back to its name and body |
| Client.TransmissionOfDecoded | client.py:46-79 | every byte string the decoder accepts is exactly what a successful send writes for the decoded name and body, so the framing is unambiguous |
| Client.EncryptedImageRecoverable | client.py:99-110 | the sent body is the ciphertext of the first 20 bytes followed by image[20:] unchanged; a decryption that inverts the encryption recovers the image |
| Client.SendEncryptedImage | client.py:96-111 | reads the key as ReceivePublicKey does, then sends E(key, header) + image[20:] as ImageTransmission does |
| Server.ReceiveImageSize | server.py:9-17 | returns exactly 4 bytes, the first 4 of the stream in order, and consumes exactly those; `length` plus the bytes joined so far stays 4 |
| Server.ReceiveName | server.py:19-23 | one `recv(100)` decoded as ASCII; the name has at most 100 characters, and a byte >= 128 raises UnicodeDecodeError |
| Server.NameRead | server.py:21 | the name read takes at most 100 bytes, the ones right after the size field, in order |
| Server.BodyArrivesBytes | server.py:30-35 | a body loop that ends has at least the declared number of bytes pending |
| Server.OvershootNeverExits | server.py:32-34 | once a block overshoots, `image_size` is negative after any number of further passes |
| Server.ClosedNeverExits | server.py:32-34 | once the client has closed, every pass leaves the state unchanged |
| Server.NeverExits | server.py:32-34 | on a stream without BodyArrives, `image_size` is never 0 after any number of passes |
| Server.EventuallyExits | server.py:32-34 | on a stream with BodyArrives, some number of passes brings `image_size` to 0 |
| Server.BodyLoopExits | server.py:30-35 | the body loop ends iff every `recv(4096)` returns at least one byte and no more than are still owed |
| Server.ReceiveBody | server.py:30-35 | the image has exactly the declared size and is the next bytes of the stream in arrival order; `len(image) + image_size` stays the declared size |
| Server.ReceiveImage | server.py:25-37 | consumes 4 size bytes, the name block and then the body, in this order; it fails iff the name is not ASCII, and otherwise the image has the size the first 4 bytes declare |
| Server.Split | server.py:65 | `split` gives at least one piece, and more than one iff the separator occurs |
| Server.SplitPieces | server.py:65 | no piece contains the separator |
| Server.JoinSplit | server.py:65 | joining the pieces with the separator rebuilds the string |
| Server.SplitOfParts | server.py:65 | splitting `base sep ext` followed by nothing or by a further separator gives `base` and `ext` as the first two pieces |
| Server.ServerFileName | server.py:65-69 | the rename raises IndexError iff the name has no '.' |
| Server.ServerFileNameOfParts | server.py:65-69 | `base.ext` (plus anything after a second dot) becomes `base_server.ext` |
| Server.SaveDecision | server.py:65-74 | a dotless name raises before the write check; otherwise a file is written iff the image is non-empty, with the image as contents and the rewritten name |
| Server.HandleConnection | server.py:64-74 | one accepted connection: the received image and name of ReceiveImage, then the save decision |

## Left out

- Socket setup and teardown are not modelled: `socket`, `connect`, `bind`, `listen`, `accept`, `shutdown`, `setsockopt`, `settimeout` and `close`. The model starts from a connected `Transport.Socket`.
- The server's endless accept loop and its `KeyboardInterrupt` handler are not modelled; `Server.HandleConnection` is one pass of that loop.
- An exception inside that loop ends the server process. The model returns it as an `Err` value instead.
- The argument parsing and the reading of the image file are not modelled; the image bytes and name are parameters.
- RSA-OAEP encryption and PEM key parsing are calls into the cryptography library. Encryption is the parameter `encrypt`, and the key is the raw bytes read.
- The client's status read with a 10-second timeout (client.py:115-121) is not modelled, since it depends on a clock.
- The `tqdm` progress bar, `time.sleep` and the `print` calls are not modelled; they do not affect the bytes sent.
- The opening, writing and closing of the output file are not modelled; only the decision to write, and with what name and contents, is kept.
- filter_operator.py is not part of this model; it consists of OpenCV calls and floating-point filters.
- Transport.Socket.Send: every `send` is taken to write its whole argument. The source ignores the count `send` returns.
- Transport.Deliver: a `recv` never joins bytes from two segments. Every pattern of reads that return between 1 and `n` bytes is still produced by some queue.
- Client.ReceiveKeySize: requires at least 4 pending bytes. On a shorter stream the source loops forever after the server closes.
- Server.ReceiveImageSize: requires at least 4 pending bytes. On a shorter stream the source loops forever after the client closes.
- Server.ReceiveBody: requires `BodyArrives`. Without it the source loop never ends, which `Server.BodyLoopExits` proves.
- Server.ReceiveImage: requires `ImageArrives`, for the same reason as the two loops it calls.
- Client.SendBody: `remaining` is not lowered after the last, short chunk, as in the source. So `sent + remaining == image_size` is stated only while `sent < image_size`.
- Python's `int` lengths are unbounded and are modelled as such; only the '!I' packing limits them.
- Strings are sequences of code points; the ASCII check is `< 128` on each one.
