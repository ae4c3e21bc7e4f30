# Craftland UID editor: varint field locator and splice

The tool takes a `.bytes` file, finds the UID stored in it, and
writes out a copy in which the UID is replaced by a new number, or by 0 when
the user clears it. The UID is an unsigned little-endian base-128 varint. This
is the "Base 128 Varint" of Protocol Buffers, the same format as unsigned
LEB128 in section 7.6 of DWARF 4. The varint sits between a start marker byte
0x38 and an end marker byte 0x42.

This project models the engine behind that edit, in `BOT.py`:

- `wrappers.dfy`, module `Wrappers`: the `Option` type. It stands for
  Python's IndexError in the decoder and the `None` result of the locator.
- `varint.dfy`, module `Varint`: `decode_varint` and `encode_varint`. Each
  `while` loop is a method (`Decode`, `Encode`) proved equal to a recursive
  reference definition (`DecodeSpec`, `EncodeSpec`). Lemmas about those
  definitions state what the format promises: the byte shape, value bounds,
  locality, minimality and both round trips.
- `locator.dfy`, module `FieldLocator`: `find_uid`. The per-index check is
  the function `Candidate`. `FindFrom` and `FindSpec` are the first-match
  reference. The method `Find` is the `for` loop. It calls `TryCandidate`, the `try` block, which
  calls `Decode`.
- `splice.dfy`, module `SpliceEngine`: the expression
  `data[:start] + encode_varint(new_uid) + data[start+ln:]` from `apply_uid`,
  as the function `Splice`, with lemmas about splicing a located field.

Bytes are the subset type `byte` (0..255). Numbers are `nat`. The source's
bit operations are written as arithmetic on bytes:

- `b & 0x7F` is `b % 128`.
- `b & 0x80` is non-zero exactly when `b >= 128`.
- `(num & 0x7F) | 0x80` is `num % 128 + 128`.
- `num >>= 7` is `num / 128`.
- `value |= x << shift` is `value + x * 2^shift`. The two agree because
  every byte's payload fills a fresh group of 7 bits.

Behaviour of `BOT.py` that the model keeps as written:

- The decoder has no shift bound. Its only failure is running off the end of
  the buffer.
- The scan tries only the marker indices `0 .. len(data) - 7`, so a
  well-formed field whose start marker lies in the last six bytes is not
  found (`TailFieldNotFound`).
- The filter `length >= 3 and value > 100000` is fixed. The length test adds
  nothing to the value test (`LengthFilterImplied`).
- Decoding accepts non-minimal encodings, so splicing a field with its own
  value is a no-op only when the field holds the minimal encoding
  (`SpliceSameValue`; `NonMinimalSelfSpliceShortens` shows a located field
  where it is not). It never makes the buffer longer
  (`SpliceSameValueNoLonger`).
- `ShrinkingEdit` uses `E5 B6 26`, the encoding of 629605.

## Model

| member | source | states |
|---|---|---|
| `Varint.Decode` | BOT.py:18-29 | The decoder loop returns the reference result. On success, every consumed byte but the last has 0x80 set and the last has it clear. The value is the sum of payload_k * 2^(7k). It fails exactly when no byte from `start` to the end has 0x80 clear, and it never reads outside the buffer. |
| `Varint.DecodeSpec` | BOT.py:18-29 | The reference decode: a result never reaches past the end of the buffer, its length is at least 1, and its last byte has 0x80 clear. |
| `Varint.DecodeSpecSound` | BOT.py:18-29 | A successful decode consumed exactly one complete varint, and its value is the base-128 reading of those bytes. A failed decode means every byte from `start` on has 0x80 set. |
| `Varint.DecodeSpecComplete` | BOT.py:22-28 | Any complete varint at `start` is decoded, with its own length and its base-128 value. |
| `Varint.DecodeFailsIff` | BOT.py:22-28 | The decode fails if and only if no terminating byte (0x80 clear) exists from `start` to the end of the buffer. |
| `Varint.DecodeBound` | BOT.py:18-29 | A decoded length is at least 1, and the value is below 2^(7*length). |
| `Varint.DecodeLocal` | BOT.py:22-29 | The result depends only on the consumed bytes. Any buffer that agrees on `start .. start+length-1` decodes to the same pair. |
| `Varint.LEValueAppend` | BOT.py:24-27 | One loop step: adding a byte at the high end adds its payload shifted left by 7 bits per byte already read. |
| `Varint.EncodeSpec` | BOT.py:31-37 | The encoding is one complete varint: non-empty, 0x80 on every byte but the last, the last byte below 0x80. A number of at most 127 encodes as the single byte `[n]`, so 0 encodes as `[0x00]`. |
| `Varint.Encode` | BOT.py:31-37 | The append-and-shift loop produces exactly the reference encoding. |
| `Varint.EncodeValue` | BOT.py:31-37 | Reading the encoding back as base-128 digits gives the number. |
| `Varint.EncodeLength` | BOT.py:31-37 | The encoding is minimal (no trailing zero continuation byte). Its length is the least number of 7-bit groups that holds the number, so it depends only on the magnitude. |
| `Varint.ReencodeNoLonger` | BOT.py:18-37 | Re-encoding a decoded value never takes more bytes than the field it was read from. |
| `Varint.EncodeRoundTrip` | BOT.py:18-37 | Decoding the encoding at offset 0 gives the number and the encoding's length. |
| `Varint.EncodeRoundTripIn` | BOT.py:18-37 | The same holds for an encoding placed anywhere inside a buffer, whatever bytes surround it. |
| `Varint.DecodeEncode` | BOT.py:18-37 | For a complete, minimal varint, encoding its decoded value gives back exactly its bytes. |
| `FieldLocator.InScanRange` | BOT.py:40 | Every marker index the scan tries is a valid index of the buffer, so `data[i]` never raises. |
| `FieldLocator.Candidate` | BOT.py:41-46 | A candidate at marker index `i` is accepted only with all of these: `data[i] == 0x38`; the varint at `i+1` decodes; the end-marker index is inside the buffer and holds 0x42; length >= 3; value > 100000. The match is `(i+1, length, value)`. A rejected candidate whose decode succeeded failed one of the last three tests. |
| `FieldLocator.FindFrom` | BOT.py:40-49 | The scan from index `i` returns the candidate at the smallest qualifying index in the scan range, and nothing earlier qualifies. It returns None exactly when no index from `i` on in the range qualifies. |
| `FieldLocator.FindSpec` | BOT.py:39-49 | The properties of a found `(off, ln, val)`: `off >= 1`; `data[off-1] == 0x38`; decoding at `off` gives `(val, ln)`; `off+ln < len(data)` and `data[off+ln] == 0x42`; `ln >= 3` and `val > 100000`; `off-1` is the first qualifying index. The result is None exactly when no index in `0 .. len-7` qualifies, so buffers of at most 6 bytes give None. |
| `FieldLocator.TryCandidate` | BOT.py:41-48 | The `try` block at one marker index gives exactly the per-candidate result. A decode that runs off the buffer or an end-marker index out of range gives None instead of an exception. |
| `FieldLocator.Find` | BOT.py:39-49 | The scan loop returns the first-match reference result. A rejected candidate does not stop the scan. |
| `FieldLocator.LengthFilterImplied` | BOT.py:45 | A decoded value above 100000 always has length >= 3. |
| `FieldLocator.TailFieldNotFound` | BOT.py:40 | A 6-byte buffer holding a well-formed qualifying field at index 0 yields None, because index 0 lies outside `range(len(data) - 6)`. |
| `SpliceEngine.Clamp` | BOT.py:117 | A Python slice bound beyond the buffer is cut down to its length; one within it is kept. |
| `SpliceEngine.Splice` | BOT.py:116-117 | When the span fits in the buffer, the result has length `len(data) - ln + len(encode(new))`. Its bytes before `start` are the original prefix, then the new encoding, then the original bytes from `start+ln` on. A start at or past the end appends the encoding, as Python's slice clamping does. |
| `SpliceEngine.SpliceLocated` | BOT.py:113-117 | For the field the locator found, the splice keeps the start marker before the field and puts the end marker right after the new encoding. The new field decodes to the new UID with the encoding's length. Every other byte is the original one, shifted by the change in length. |
| `SpliceEngine.SpliceSpan` | BOT.py:116-117 | For any span with a byte on each side, those two bytes stay next to the new encoding. The encoding decodes in place to the new value. All other bytes are kept, shifted by the change in length. |
| `SpliceEngine.SpliceKeepsOutside` | BOT.py:116-117 | Every byte before the replaced span is the original byte, and every byte after the new encoding is the original byte shifted by the change in length. |
| `SpliceEngine.ReplaceKeepsOutside` | BOT.py:117 | The same for a span replaced by any bytes. |
| `SpliceEngine.SpliceOwnValue` | BOT.py:116-117 | Splicing a decoded varint with its own value reproduces the buffer if and only if its bytes are the minimal encoding. |
| `SpliceEngine.SpliceSameValue` | BOT.py:113-117 | Splicing the located field with its own value returns the original buffer if and only if the field's bytes are the minimal encoding of that value. |
| `SpliceEngine.SpliceSameValueNoLonger` | BOT.py:113-117 | Splicing the located field with its own value never makes the buffer longer. |
| `SpliceEngine.SpliceOverwrite` | BOT.py:113-117 | Splicing again over the field written by an earlier splice gives the same buffer as splicing the original once: only the last value remains. So re-splicing the stored original on every edit, as `apply_uid` does, gives the same bytes as editing the edited buffer. |
| `SpliceEngine.SpliceClear` | BOT.py:102-103 | The clear action (new UID 0) replaces the field with the single byte 0x00, and the buffer becomes `ln - 1` bytes shorter. |
| `SpliceEngine.NonMinimalSelfSpliceShortens` | BOT.py:116-117 | A located 4-byte non-minimal field holding 629605, spliced with its own value, gives a buffer one byte shorter. |
| `SpliceEngine.ShrinkingEdit` | BOT.py:116-117 | The 3-byte field `E5 B6 26` (629605) is located. Replacing it by 5 gives a buffer 2 bytes shorter, with every other byte unchanged. |

## Left out

- The Telegram shell is not modelled: `start`, `file_handler`, `buttons`, `text_uid`, the rest of `apply_uid`, the application setup and `run_polling` (BOT.py:62-138). It is asynchronous network I/O through a library that is not part of this model.
- Downloading and uploading documents and reading the banner image (BOT.py:63, 79-80, 119-123) are I/O and are not modelled.
- `main_keyboard` (BOT.py:52-59) only builds the UI.
- The per-user session store `context.user_data` (BOT.py:87-88, 109-114) is not modelled. The splice lemmas instead assume that `(start, ln)` came from the locator on the same buffer.
- The digit-string check and `int(...)` parse in `text_uid` (BOT.py:126-128) are not modelled. The new UID is taken as a `nat`.
- `Varint.Encode`: a negative number makes `bytes()` raise ValueError in the source. The model takes only `nat`, since callers pass 0 or a parsed digit string.
- Python's negative indexing never arises here (every index is a `nat`), so it is not modelled.
