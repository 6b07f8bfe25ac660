# Vessel Narrative: the stego codec, the metadata validator and the chapter generator

This Dafny project models three parts of the Vessel Narrative chapter
pipeline and proves properties of them.

- **The LSB stego codec** (`src/stego.py`) carries a chapter's metadata
  record inside an RGB image. The record is framed as:
  - the 5-byte magic `VMRP\0`;
  - a version byte, 1;
  - the payload length as a big-endian unsigned 32-bit integer;
  - the payload itself.

  Each frame bit goes, most significant first, into the least significant
  bit of one colour channel. The channels are walked row by row, and R, G, B
  within a pixel. Decoding reads the bits back in the same order and rejects,
  in this order: a wrong magic, a wrong version, and a stream shorter than the
  declared length.
- **The metadata validator** (`src/validator.py`) has three checks:
  - the narrator rotation rule: no two consecutive chapters share a
    narrator, and each of Limnus, Garden and Kira narrates at least 6
    chapters;
  - the parser of the `R …, G …, B …` flags line of a chapter page;
  - the shape check of the metadata against the chapter schema.
- **The chapter generator** (`src/generate_chapters.py`) produces:
  - the narrator of each of the 20 chapters;
  - the `FLAGS_MAP` channel flags and the three glyphs of a chapter;
  - the filled template placeholders;
  - the minimal markdown renderer;
  - the previous and next links of a page;
  - the metadata record of each chapter.

Modules:

| module | file | models |
|---|---|---|
| `Common` | common.dfy | `Option`/`Result`, bytes and bits, a few arithmetic facts |
| `Json` | json.dfy | JSON values; dicts as insertion-ordered key/value lists |
| `Text` | text.dfy | the Python `str` operations used: `isspace`, `strip`, `split`, `splitlines`, `join`, `replace`, `f"{n:02d}"`, `sorted` of strings |
| `BitCodec` | bitcodec.dfy | `_bits_from_bytes`, `_read_bytes`; a `BitCursor` class stands for the one-shot bit iterator |
| `Frame` | frame.dfy | the header and `struct.pack(">I")` / `struct.unpack` |
| `Carrier` | carrier.dfy | a `Carrier` class (width, height, row-major pixel array); `_embed_bits`, `_lsb_bit_stream`, `_prepare_image` |
| `Doc` | doc.dfy | `StegoDoc`, `from_dict` with its `int()` / `str()` / `dict()` coercions, `as_dict` |
| `Stego` | stego.dfy | `_payload_bytes`, `encode_chapter_payload`, `decode_chapter_payload` |
| `Validator` | validator.py's core | `check_rotation`, `parse_flags_text`, `basic_validate_against_schema` |
| `Generator` | generate_chapters.py's core | the narrator choice, flags, glyphs, placeholders, links and records of `main` |
| `Markdown` | markdown.dfy | `render_markdown_min` |

Where the code does work step by step, the model is imperative and is proved
against a specification function. These are:
- the bit iterator and the byte loop;
- the pixel loops of `_embed_bits`;
- the two loops of `check_rotation`;
- the loop of `parse_flags_text`;
- the chapter loop of `basic_validate_against_schema`;
- the line loop of `render_markdown_min`;
- the chapter loop of `main`.

The rest is functions and lemmas.

Some behaviours of the code are easy to miss, and the model keeps them:
- `from_dict` does not check that `flags` holds exactly R, G and B, nor that
  `chapter` is an integer. It converts with `int()`, `str()` and `dict()`, so
  `"7"`, `"1_000"` and `True` are accepted as chapter numbers (`Doc.IntOf`,
  `Doc.StrOf`, `Doc.DictOf`).
- A stream that runs dry raises a plain `ValueError`. The model calls it
  `ReadFailed(NotEnoughData)`.
- The record goes through `json.dumps(..., sort_keys=True)`, so the decoded
  dict has its keys, and those of `flags`, in code-point order rather than in
  `as_dict`'s order. A decoded record is therefore equal to the original as
  Python compares records (dicts regardless of key order), not entry by entry
  (`Doc.SameRecord`, `Stego.DecodeDocEmbedded`).
- The rotation check compares narrators with Python's `==` and hashing: a
  missing narrator and an explicit `null` are both `None`, and `True` equals
  `1` (`Validator.Narrator`, `Validator.PyEq`).

## Model

| member | source | states |
|---|---|---|
| Json.Put | src/validator.py:102 | storing under a key makes the lookup return the value; an existing key keeps its place (the key order is unchanged) and an absent key is appended |
| Json.GetPutOther | src/validator.py:102 | storing under one key leaves every other key's lookup as it was |
| Json.PutDistinct | src/validator.py:102 | storing keeps the keys of a dict distinct |
| Json.GetSnoc | src/validator.py:102 | looking up in a dict with one more entry at the end finds the old value if the key was there, and the new entry otherwise |
| Json.ProperField | src/stego.py:48 | a dict nested in a well-formed JSON value (no repeated key at any level, as `json.loads` builds it) has distinct keys |
| Text.LStrip | src/validator.py:97 | `lstrip` removes exactly the leading whitespace: the result is a suffix, starts with a non-space, and only whitespace was cut |
| Text.RStrip | src/generate_chapters.py:84 | `rstrip` removes exactly the trailing whitespace: the result is a prefix, ends with a non-space, and only whitespace was cut |
| Text.Strip | src/generate_chapters.py:73 | `strip` never lengthens the text, and what it leaves neither starts nor ends with whitespace |
| Text.StripEmptyIffBlank | src/generate_chapters.py:85 | `not line.strip()` holds exactly when every character is whitespace |
| Text.SplitOn | src/validator.py:97 | `split(",")` yields at least one part |
| Text.SplitOnCons | src/validator.py:97 | splitting at a first separator gives the part before it followed by the split of the rest |
| Text.Tokens | src/validator.py:100 | `split()` yields only non-empty runs of non-whitespace |
| Text.TokensOfPair | src/validator.py:100 | two words separated by whitespace split into exactly those two tokens |
| Text.TokensSkipSpace | src/validator.py:100 | leading whitespace does not change the tokens |
| Text.SplitLines | src/generate_chapters.py:73 | `splitlines` yields lines without line boundaries, none for empty text, and no more lines than characters |
| Text.Pad2TwoDigits | src/generate_chapters.py:55 | `f"{i:02d}"` for 0 ≤ i < 100 is two digits whose decimal value is i |
| Text.Pad2Injective | src/generate_chapters.py:105 | distinct chapter numbers below 100 have distinct padded forms |
| Text.DigitsValueOfNatDecimal | src/generate_chapters.py:63 | the decimal digits of `str(n)` read back as n |
| Text.ReplaceAllAbsent | src/generate_chapters.py:63-67 | `replace` of a pattern that does not occur leaves the text unchanged |
| Text.ReplaceAllLeading | src/generate_chapters.py:63-67 | `replace` of a pattern that occurs only at the start substitutes that one occurrence |
| Text.InsertSorted | src/validator.py:66 | inserting into a strictly sorted list keeps it strictly sorted and adds exactly the new element |
| Text.SortedSet | src/validator.py:66 | `sorted(set)` is strictly sorted and holds exactly the set's elements |
| Text.StrictlySortedUnique | src/validator.py:66 | two strictly sorted lists with the same elements are equal, so `sorted` of a set is determined by the set |
| Text.StrLtTransitive | src/validator.py:66 | Python's string order is transitive |
| Text.StrLtTotal | src/validator.py:66 | any two distinct strings are ordered one way or the other |
| BitCodec.BitsOf | src/stego.py:88-91 | the bit stream of n bytes has 8n bits |
| BitCodec.BitsOfAt | src/stego.py:88-91 | bit k of byte j sits at position 8j+k and is `(byte >> (7-k)) & 1`, most significant first |
| BitCodec.BitsOfAppend | src/stego.py:88-91 | the stream of a concatenation is the concatenation of the streams |
| BitCodec.PackByteBits | src/stego.py:97-104 | shift-accumulating a byte's eight bits gives the byte back |
| BitCodec.BytesOfBitsOf | src/stego.py:88-105 | packing the bit stream of a byte string gives the byte string back |
| BitCodec.AccShift | src/stego.py:97-104 | shifting the accumulated value right by j drops the last j bits fed in |
| BitCodec.ByteBitsPack | src/stego.py:88-104 | the bits of a byte packed from eight bits are those eight bits |
| BitCodec.BitsOfBytesOf | src/stego.py:88-105 | every stream of whole bytes is the bit stream of the bytes packed from it, so the decoder lemmas cover every stream |
| BitCodec.Read | src/stego.py:94-105 | reading `count` bytes fails exactly when fewer than 8·count bits are left, and otherwise yields count bytes |
| BitCodec.ReadPrefix | src/stego.py:94-105 | bits beyond the ones read do not affect the bytes read |
| BitCodec.ReadBitsOf | src/stego.py:88-105 | reading n bytes from the stream of n bytes, followed by anything, yields those bytes |
| BitCodec.BitCursor.constructor | src/stego.py:108-113 | a fresh iterator is at the start of its stream |
| BitCodec.BitCursor.Next | src/stego.py:99-102 | `next` yields the next bit and advances, or signals exhaustion and stays exhausted |
| BitCodec.BitsFromBytes | src/stego.py:88-91 | the generator's output, collected, is the bit stream of the bytes |
| BitCodec.ReadByte | src/stego.py:97-104 | eight `next` calls pack the next eight bits into a byte, or fail once the iterator runs dry |
| BitCodec.ReadBytes | src/stego.py:94-105 | the loop returns what `Read` specifies for the unread bits; it consumes 8·count bits on success and exhausts the iterator on failure |
| Frame.BE32 | src/stego.py:84 | `struct.pack(">I", n)` is four bytes |
| Frame.FromBE32OfBE32 | src/stego.py:84 | unpacking a packed length gives the length back |
| Frame.BE32OfFromBE32 | src/stego.py:179 | packing an unpacked field gives the four bytes back |
| Frame.BuildFrame | src/stego.py:84-85 | the frame exists exactly when the length fits 32 bits, and is then the magic, the version, the length field and the payload |
| Carrier.SetLsb | src/stego.py:134 | `(c & ~1) \| bit` has LSB bit and the same upper seven bits |
| Carrier.CeilSqrt | src/stego.py:145 | the integer ceiling square root: its square covers m, its predecessor's does not |
| Carrier.Lsbs | src/stego.py:108-113 | the LSB stream has three bits per pixel, and pixel i gives its red, green and blue LSBs at positions 3i, 3i+1 and 3i+2 |
| Carrier.Side | src/stego.py:143-145 | a synthesised square carrier is at least 32 wide and holds the frame's bits; a larger side than 32 is the least that does |
| Carrier.ChannelsAt | src/stego.py:109-113 | the traversal visits pixels row-major and R, G, B within each pixel |
| Carrier.EmbeddedChannel | src/stego.py:125-136 | after embedding, every channel keeps its upper bits; a channel within the payload carries its bit, and one beyond it is unchanged |
| Carrier.EmbeddedLsbs | src/stego.py:108-136 | the LSB stream of an embedded carrier starts with the embedded bits |
| Carrier.FullCapacity | src/stego.py:121-136 | a payload of exactly full capacity fills every LSB |
| Carrier.EmbedPixelBeyond | src/stego.py:127-128 | pixels past the last bit are left exactly as they were |
| Carrier.EmbeddedUpTo | src/stego.py:125-128 | stopping once the bits run out leaves the whole image embedded |
| Carrier.EmbedIntoPixel | src/stego.py:129-136 | one pixel step writes up to three bits into R, G, B and advances the index past them |
| Carrier.Carrier.Open | src/stego.py:141 | an opened image keeps its size and its pixel data |
| Carrier.Carrier.Synthesize | src/stego.py:143-146 | a new carrier is square with the computed side and filled with (12, 12, 12) |
| Carrier.Carrier.EmbedBits | src/stego.py:116-136 | it succeeds exactly when the bits fit; on failure no pixel changes; on success the pixels are the embedding of the payload's bits |
| Carrier.Carrier.WriteBits | src/stego.py:125-136 | the nested row and column loops leave exactly the embedding of the bits into the old pixels |
| Carrier.Carrier.LsbStream | src/stego.py:108-113 | the generator's output, collected, is the LSB stream of the pixels |
| Doc.IntOf | src/stego.py:46 | `int()` of an integer is that integer; a failure is reported as "not an int" for the key read |
| Doc.ParseIntDecimal | src/stego.py:46 | `int(str(i)) == i` for every integer |
| Doc.ParseUnsigned | src/stego.py:46 | `int()` of a run of ASCII digits is their decimal value |
| Doc.ParseNegative | src/stego.py:46 | `int()` of a minus sign and a run of digits is the negated value |
| Doc.UnderscoreIgnored | src/stego.py:46 | one underscore between two runs of digits leaves the value unchanged; two in a row, or one at either end, make `int()` raise |
| Doc.ParseThousand | src/stego.py:46 | `int("1_000") == 1000`, while `int("1__000")` raises |
| Doc.StrOf | src/stego.py:47 | `str()` of a string is that string; only lists and dicts, whose repr is out of the model, fail |
| Doc.StrAll | src/stego.py:49 | `str()` over a list keeps its length, and a failure is never a missing key |
| Doc.StrValues | src/stego.py:48 | `{k: str(v)}` keeps the keys and their order |
| Doc.PairOf | src/stego.py:48 | an element of `dict(list)` fails only as "not a dict" or as outside the model, never as a missing key |
| Doc.DictOfPairs | src/stego.py:48 | `dict(pairs)` has distinct keys |
| Doc.DictOf | src/stego.py:48 | `dict()` of a dict is that dict |
| Doc.StrsOf | src/stego.py:49 | `tuple(str(g) for g in …)` fails only for a reason other than a missing key |
| Doc.Field | src/stego.py:46-52 | `data[key]` succeeds exactly when the key is present, and otherwise raises a missing-key error for that key |
| Doc.IntField | src/stego.py:46 | reading "chapter" fails with a missing key exactly when it is absent |
| Doc.StrField | src/stego.py:47 | reading a string field fails with a missing key exactly when it is absent |
| Doc.StrDictField | src/stego.py:48 | reading "flags" fails with a missing key exactly when it is absent |
| Doc.StrsField | src/stego.py:49 | reading "glyphs" fails with a missing key exactly when it is absent |
| Doc.FromDict | src/stego.py:44-53 | a record is built only from a dict holding all seven keys; a missing-key failure names a field that is absent |
| Doc.AsDict | src/stego.py:55-64 | `as_dict` is a dict with exactly the seven keys, in order |
| Doc.StrAllOfStrings | src/stego.py:49 | `str()` over a list of strings gives the strings back |
| Doc.StrValuesOfStrDict | src/stego.py:48 | `{k: str(v)}` over a dict of strings gives the dict back |
| Doc.FromDictAsDict | src/stego.py:44-64 | `from_dict(as_dict(doc)) == doc` for every record |
| Doc.StrValuesOfStrings | src/stego.py:48 | `{k: str(v)}` over a dict whose values are all strings succeeds and looks up each key as the original string |
| Doc.FlagsReordered | src/stego.py:48 | reading back a reordering of a record's flags gives flags that look up exactly as the original |
| Doc.FromDictReordered | src/stego.py:44-53 | `from_dict` of any reordering of `as_dict(doc)`, also inside `flags`, succeeds and is equal to doc as Python compares records |
| Doc.ReorderedFlags | src/stego.py:48 | `{k: str(v) ...}` of the reordered flags succeeds and has the record's lookups |
| Doc.SortedRecord | src/stego.py:55-64 | the record laid out with sorted keys has its keys in strictly increasing code-point order |
| Doc.SortedRecordReordered | src/stego.py:55-64 | for a record whose flags hold exactly the keys R, G and B, in any order, that sorted layout is a reordering of `as_dict(doc)` yet differs from it, so equality only up to key order can be expected |
| Stego.DecodeFrame | src/stego.py:172-180 | a decoded payload was fully present in the stream after the ten header bytes |
| Stego.HeaderOfStream | src/stego.py:172-173 | the ten header bytes read back from a frame's stream are its first ten bytes, and the rest of the stream follows them |
| Stego.DecodeBadMagic | src/stego.py:174-175 | a frame whose first five bytes are not the magic fails with a header mismatch |
| Stego.DecodeBadVersion | src/stego.py:176-178 | with the right magic and another version byte, decoding fails with that version |
| Stego.DecodeDeclared | src/stego.py:179-180 | with a good header, decoding yields exactly the declared number of payload bytes, whatever follows |
| Stego.DecodeTruncated | src/stego.py:180 | a stream shorter than the declared length fails with "not enough data" |
| Stego.DecodeEmbedded | src/stego.py:158-180 | decoding any carrier with a frame embedded in it returns the framed payload |
| Stego.DropExcluded | src/stego.py:81 | the "stego_png" key is dropped and no entry is added |
| Stego.GetDropExcluded | src/stego.py:81 | every other key keeps its value |
| Stego.DropExcludedAbsent | src/stego.py:81 | a record without "stego_png" is unchanged |
| Stego.PayloadBytes | src/stego.py:80-85 | the frame exists exactly when the serialized record's length fits 32 bits, and is then the header followed by the serialized record |
| Stego.EmbedFrame | src/stego.py:139-160 | embedding into a synthesised carrier always succeeds; into a given one it succeeds exactly when the frame fits, and otherwise changes nothing; a success decodes back to the payload |
| Stego.EncodeChapterPayload | src/stego.py:149-163 | encoding fails first on unavailability, then on framing, then on capacity, with no pixel changed on failure; a success is a valid carrier from which decoding returns the serialized record |
| Stego.ReadFrame | src/stego.py:171-180 | reading the header from a fresh cursor, checking its magic and version, then reading the declared number of bytes, gives exactly `DecodeFrame` of the stream, fault for fault |
| Stego.DecodeChapterPayload | src/stego.py:166-182 | decoding, when available, returns the frame checks, JSON parse and `from_dict` of the image's LSB stream |
| Stego.DecodeDoc | src/stego.py:166-182 | a frame fault comes first; "not JSON" is reported exactly when the frame is sound and parsing fails; a record error is `from_dict`'s error on the parsed payload; a record is returned only when every stage succeeds |
| Stego.DecodeDocEmbedded | src/stego.py:149-182 | for any record whose serialization parses back to a reordering of its dict, decoding a carrier it was embedded in returns a record equal to it |
| Stego.DecodeDocSorted | src/stego.py:149-182 | the same when the text parses to the sorted layout `sort_keys=True` writes, for flags holding exactly R, G and B in any order |
| Validator.Narrator | src/validator.py:83 | `ch.get("narrator")` is the stored value, or `None` when the key is absent |
| Validator.Narrators | src/validator.py:83 | one entry per chapter, each that chapter's `ch.get("narrator")` |
| Validator.PyEqStr | src/validator.py:84-88 | under Python's `==`, a value equals a string exactly when it is that string |
| Validator.Count | src/validator.py:88 | a voice's count, by Python's `==`, never exceeds the number of chapters |
| Validator.CountErrors | src/validator.py:89-91 | no more findings than names, each a "too few" finding for a counted name |
| Validator.RotationErrors | src/validator.py:81-92 | at most four findings: a repetition can only come first, every later finding is a "too few" one; repetition is reported exactly when two neighbouring narrators are equal by Python's `==` |
| Validator.Rotation | src/validator.py:81-92 | the check raises `AttributeError` exactly when some chapter is not a dict (its `ch.get` fails first); otherwise it raises exactly when some narrator is a list or dict, which cannot be hashed; otherwise it returns the specified findings for the chapters' dicts |
| Validator.NoGetBeforeUnhashable | src/validator.py:83-88 | a chapter that is not a dict raises before `Counter` sees an unhashable narrator |
| Validator.NullRepeatsAbsent | src/validator.py:83-86 | a missing narrator next to an explicit `null` counts as a repetition |
| Validator.TrueRepeatsOne | src/validator.py:84-86 | a narrator `true` next to a narrator `1` counts as a repetition |
| Validator.CountErrorsExact | src/validator.py:89-91 | a name is reported exactly when its count is below 6, and the reported number is its count |
| Validator.RotationErrorsShape | src/validator.py:81-92 | repetition is reported exactly when two neighbours are equal by Python's `==`, at most once and first; every voice is reported exactly when below 6, with its count |
| Validator.RotationErrorsEmpty | src/validator.py:88-91 | with no chapters, the three voices are reported with count 0, in order |
| Validator.FindRepeat | src/validator.py:84-87 | the pair scan finds a repeat exactly when two neighbours are equal by Python's `==`, where `None` stands for a missing narrator and `True == 1` |
| Validator.CountVoices | src/validator.py:88 | `Counter` raises exactly on an unhashable narrator, and otherwise holds every value's count under its hash class, so `True` and `1` share one entry |
| Validator.CheckRotation | src/validator.py:81-92 | the method, which collects the narrators chapter by chapter and stops at the first chapter that is not a dict, returns the specified findings or the fault |
| Validator.CountErrorsSnoc | src/validator.py:89-91 | the names loop appends each name's finding after the earlier ones |
| Validator.FlagsOf | src/validator.py:98-103 | the parsed dict has distinct keys |
| Validator.ParseFlags | src/validator.py:95-103 | `parse_flags_text` returns a dict with distinct keys |
| Validator.LastValue | src/validator.py:99-102 | a key is absent exactly when no two-token part names it, and otherwise comes from the last such part: no later two-token part names it |
| Validator.FlagsOfLastWins | src/validator.py:99-102 | every key holds the value of the last two-token part naming it |
| Validator.ParseFlagsLastWins | src/validator.py:95-103 | the same, stated for the text: a later part overrides an earlier one |
| Validator.FlagsOfSnoc | src/validator.py:99-102 | each part stores its pair only when it has exactly two tokens |
| Validator.ParseFlagsText | src/validator.py:95-103 | the loop returns the specified dict |
| Validator.GetOr | src/validator.py:56-58 | `.get(key, default)` raises exactly on a non-dict, and yields the default for an absent key |
| Validator.ChapterSchema | src/validator.py:56 | `schema.get("$defs", {}).get("chapter", {})` raises exactly when the schema, or a present `$defs`, is not a dict; with no `$defs` it is the empty dict |
| Validator.Required | src/validator.py:57 | a chapter schema with no "required" gives no required fields; a list of strings always succeeds and gives exactly those strings, in order |
| Validator.PropTypes | src/validator.py:58 | no "properties" gives no types; otherwise the types have exactly the properties' keys |
| Validator.TypesOf | src/validator.py:58 | the property types keep the properties' keys in order |
| Validator.Absent | src/validator.py:64 | `required - set(ch.keys())` holds exactly the required names the chapter lacks |
| Validator.TypeError | src/validator.py:69-77 | at most one type finding per property, present exactly when the chapter has the key and its value has the wrong type, tagged with the chapter |
| Validator.TypeErrors | src/validator.py:68-77 | type findings are only for keys both declared and present |
| Validator.TypeErrorsComplete | src/validator.py:68-77 | every property's finding is reported |
| Validator.SchemaErrors | src/validator.py:43-78 | a non-object root gives exactly the root finding; a missing or non-array "chapters" gives exactly the array finding; either is then the only finding |
| Validator.ArrayErrors | src/validator.py:51-78 | once "chapters" is an array, no finding about the root or the array is reported |
| Validator.SchemaFaults | src/validator.py:56-58 | with a chapters array, the check raises exactly when reading the chapter schema, its required names or its property types raises |
| Validator.SchemaErrorsOfArray | src/validator.py:51-78 | when it does not raise, it reports a count finding exactly when there are not 20 chapters, followed by every chapter's findings in order |
| Validator.ChapterErrors | src/validator.py:60-77 | a non-object chapter gives exactly its position finding; an object chapter gives only missing-field and type findings labelled with its "chapter" value or position |
| Validator.AllChapterErrors | src/validator.py:60-77 | a position finding names a chapter, by 1-based index, that is not an object |
| Validator.ChapterChecked | src/validator.py:60-77 | every finding of each chapter is among the findings of the loop |
| Validator.ChapterPrefix | src/validator.py:60-77 | the findings of the chapters up to and including one chapter, in order, begin the findings of the whole loop |
| Validator.ChapterErrorsKinds | src/validator.py:60-77 | a chapter yields only chapter-level findings |
| Validator.AllChapterErrorsKinds | src/validator.py:60-77 | the chapter loop never yields a root, array or count finding |
| Validator.NonObjectChapterReported | src/validator.py:60-63 | a chapter that is not an object is reported with its 1-based position |
| Validator.MissingFieldsExact | src/validator.py:64-66 | a missing-fields finding appears exactly when a required field is absent, and lists exactly the absent ones, sorted and without repeats |
| Validator.CheckChapter | src/validator.py:60-77 | one turn of the chapter loop returns the specified findings |
| Validator.CheckArray | src/validator.py:51-78 | the count check, the schema reads and the chapter loop return the array's specified findings, or the fault |
| Validator.CheckChapters | src/validator.py:60-77 | the loop over the chapters, numbered from 1, collects exactly every chapter's findings in order |
| Validator.BasicValidate | src/validator.py:43-78 | the method returns the specified findings, or the fault |
| Generator.Name | src/generate_chapters.py:14 | every voice's name is one the rotation check counts |
| Generator.NamesAreCounted | src/generate_chapters.py:14 | `VOICES` and the validator's names agree, in order |
| Generator.NarratorOf | src/generate_chapters.py:153-164 | the bespoke narrators of chapters 1 to 3 coincide with the rotation `VOICES[(i-1) % 3]` |
| Generator.PageOf | src/generate_chapters.py:154-165 | every recorded page is an HTML file, and exactly the generated chapters 4 to 20 have numbered "chapter" pages |
| Generator.PagesDistinct | src/generate_chapters.py:154-165 | distinct chapters record distinct files |
| Generator.FlagsFor | src/generate_chapters.py:15-19 | a `FLAGS_MAP` entry has three flags, the first the voice's own channel marked "active" and the other two "latent" |
| Generator.FlagsMapShape | src/generate_chapters.py:15-19 | every `FLAGS_MAP` entry has R, G and B once each; the voice's own channel is "active" and the others "latent" |
| Generator.FlagsForSorted | src/generate_chapters.py:15-19 | each of the three `FLAGS_MAP` entries, in its own key order (R,G,B; G,R,B; B,R,G), holds exactly R, G and B, so a record carrying it meets the premise of `Doc.SortedRecordReordered` and its sorted layout is a reordering of its `as_dict` |
| Generator.GlyphsFor | src/generate_chapters.py:48-55 | three glyphs, each the voice's base, the padded chapter and a dash, the k-th ending with k (from `range(1, 4)`) |
| Generator.BaseInjective | src/generate_chapters.py:49-53 | distinct voices have distinct glyph bases |
| Generator.GlyphsInjective | src/generate_chapters.py:48-55 | a glyph determines its voice, its chapter and its position |
| Generator.FlagsLine | src/generate_chapters.py:58-60 | the flags line fails exactly when R, G or B is missing, naming the first one missing |
| Generator.FlagsLineOrderFree | src/generate_chapters.py:58-60 | the flags line depends only on the R, G and B values, not on the dict's order |
| Generator.SplitFlagsLine | src/generate_chapters.py:58-60 | the flags line splits at its commas into the three parts |
| Generator.ParseFlagsLine | src/validator.py:95-103 | parsing a flags line of three single-word values yields those three values under R, G, B |
| Generator.FlagsLineRoundTrip | src/generate_chapters.py:58-60 | parsing the flags line written for a dict gives back its R, G and B values |
| Generator.RGBReordered | src/generate_chapters.py:15-19 | a dict keyed by R, G and B only is looked up like its R, G, B reordering |
| Generator.FlagsForValues | src/generate_chapters.py:15-19 | every `FLAGS_MAP` value is a single word under R, G or B |
| Generator.FlagsForRoundTrip | src/generate_chapters.py:167 | the flags line written for a narrator parses back to that narrator's `FLAGS_MAP` entry |
| Generator.GlyphsLine | src/generate_chapters.py:60 | the glyphs line starts with "Glyphs: " |
| Generator.FillPlaceholders | src/generate_chapters.py:58-69 | filling fails exactly when the flags lack R, G or B |
| Generator.FillPlainText | src/generate_chapters.py:58-69 | a template with no placeholder comes back unchanged |
| Generator.FillFlagsPlaceholder | src/generate_chapters.py:58-69 | a template whose only placeholder is `{{flags}}` gets exactly the flags line in its place |
| Generator.FlagsPlaceholderReplaced | src/generate_chapters.py:66 | replacing `{{flags}}` substitutes the line and introduces no new placeholder |
| Generator.ReplaceAfterPlain | src/generate_chapters.py:63-67 | replacing a placeholder leaves text without braces untouched |
| Generator.OtherPlaceholder | src/generate_chapters.py:63-67 | the other four placeholders do not disturb a `{{flags}}` placeholder |
| Generator.PrevLink | src/generate_chapters.py:106 | chapters up to 2 link back to "kira_ch1.html"; from chapter 5 on the link is the previous chapter's page; chapter 4 links to "chapter03.html", which is not chapter 3's page |
| Generator.PrevLinkFixed | src/generate_chapters.py:106 | with the bound corrected, every generated chapter links back to the page of the chapter before it, and the link differs from the one as written only at chapters 3 and 4 |
| Generator.NextLink | src/generate_chapters.py:107 | every chapter from 3 on links on to the page of the chapter after it, and exactly chapter 20 and later link to the index |
| Generator.PrevLinkDangles | src/generate_chapters.py:106 | as written, chapter 4 links back to "chapter03.html", which no chapter records |
| Generator.Summary | src/generate_chapters.py:181 | the summary starts with the narrator's name and ends with the padded chapter number |
| Generator.SummaryInjective | src/generate_chapters.py:181 | a summary determines its narrator and its chapter |
| Generator.Record | src/generate_chapters.py:174-183 | the record's narrator is the rotation's voice for that chapter |
| Generator.Metadata | src/generate_chapters.py:151-184 | the metadata has one record per chapter, 20 in all |
| Generator.RecordOfChoice | src/generate_chapters.py:153-183 | the record `main` assembles from its choice of narrator and file is the specified record |
| Generator.ChooseChapter | src/generate_chapters.py:152-165 | the if/elif chain picks the rotation's narrator and the page recorded for that chapter |
| Generator.BuildMetadata | src/generate_chapters.py:151-184 | the chapter loop builds the specified metadata |
| Generator.RecordNarrator | src/generate_chapters.py:177 | the "narrator" entry of each record is the rotation's voice name |
| Generator.RotationCount | src/generate_chapters.py:164 | in a rotating list, the first n entries hold voice j exactly (n + 2 - j) / 3 times |
| Generator.MetadataVoices | src/generate_chapters.py:153-177 | the narrators of the metadata follow the rotation from chapter 1 |
| Generator.RotationNoRepeat | src/generate_chapters.py:164 | a rotating list of three distinct names has no back-to-back repeat |
| Generator.RotationCounts | src/generate_chapters.py:153-164 | over 20 chapters Limnus and Garden narrate 7 each and Kira 6 |
| Generator.CountErrorsNone | src/validator.py:89-91 | counts of at least 6 yield no count finding |
| Generator.MetadataHashable | src/generate_chapters.py:177 | every generated narrator is a string, so counting succeeds |
| Generator.GeneratedRotationClean | src/generate_chapters.py:151-184 | the generated metadata passes the rotation check with no finding, with counts 7, 7 and 6 |
| Markdown.Classify | src/generate_chapters.py:85-98 | a line that joins a paragraph is not blank |
| Markdown.Render | src/generate_chapters.py:72-100 | a blank text renders to nothing |
| Markdown.FlushParagraph | src/generate_chapters.py:77-81 | closing the paragraph emits one `<p>` if the buffer is non-empty, and empties the buffer |
| Markdown.RenderMarkdownMin | src/generate_chapters.py:72-100 | the line loop, with its final flush and newline join, returns the specified rendering |
| Markdown.SpecialSplits | src/generate_chapters.py:88-96 | a heading, flags or glyphs line closes the paragraph before it and emits its own block; the text before and after render independently |
| Markdown.BlankSplits | src/generate_chapters.py:85-87 | a blank line closes the paragraph, emits nothing, and the text before and after render independently |
| Markdown.PlainRunIsOneParagraph | src/generate_chapters.py:97-99 | consecutive plain lines make exactly one paragraph of those lines, right-stripped, in order |
| Markdown.GoodParaHtml | src/generate_chapters.py:80 | a paragraph of non-blank lines never renders as an empty `<p></p>` |
| Markdown.NoEmptyParagraph | src/generate_chapters.py:77-99 | every emitted paragraph has lines, none blank, and is never an empty `<p></p>` |
| Markdown.ParagraphsHoldPlainLines | src/generate_chapters.py:77-99 | the paragraphs hold exactly the plain lines, each once, in input order |
| Markdown.SpecialBlocksInOrder | src/generate_chapters.py:88-96 | the heading, flags and glyphs lines each become exactly one block, in input order |

## Left out

- Image I/O through Pillow is not modelled: opening, `convert("RGB")`, saving as PNG and creating the output directory. A carrier is an in-memory `Carrier` object, and the encoder returns it rather than a path.
- `is_available` / `_ensure_available` become a boolean parameter `available`, because the import-time probe is environment state.
- `json.dumps(…, sort_keys=True)` and UTF-8 encoding become a parameter `dumps`. UTF-8 decoding and `json.loads` become a parameter `loads`. JSON text and Unicode encoding are outside the model.
- `_prepare_image` uses floating-point `math.ceil` and `math.sqrt`. The model uses exact integer ceilings. The two agree except where float rounding differs, which needs payloads far beyond any record.
- JSON floats are not part of the `Json` type, so `int()` of a float and float-valued chapter fields are not modelled.
- Doc.StrOf: for a list or dict value it returns `OutOfModel` where Python returns the value's repr, because Python's repr format is not modelled.
- Doc.PairOf: a two-item list whose first item is a number, bool or None gives `OutOfModel`, where Python would build a dict with a non-string key.
- Validator.Required: a required list holding non-strings gives `OutOfModel`, where Python would compare those values with the chapter's keys.
- Validator.FindRepeat: two list or dict narrators are compared structurally, while Python compares dicts regardless of key order and lists element by element with `True == 1`. The result is the same, because `Counter` then raises on such a narrator and the check reports the fault (`Validator.Rotation`).
- Doc.IntOf: `int()` of a string accepts only ASCII digits, while Python also accepts other Unicode decimal digits (Arabic-Indic, full-width and so on), because Unicode digit classes are not modelled.
- Json: the `Json` type allows a repeated key in an object, which `json.loads` never builds. The decoding lemmas assume a well-formed value (`Json.Proper`) where they need one.
- Text.Strip: states that the result is no longer than the text and has no whitespace at either end, but not that it is the text with only its leading and trailing whitespace removed. That fact follows from the definition as `RStrip(LStrip(s))` but is not stated as a contract.
- The timestamp `ts_now()` is the parameter `now`, since it reads the clock.
- `read_template` is not modelled; the template text is the parameter `tpl`, because it is read from disk.
- `default_body` is not modelled; the body is the parameter `body`, because it is fixed prose with no logic.
- `wrap_html` is modelled only for its two links. The rest of the page is literal HTML text.
- `write_text`, `try_write_yaml`, the JSON dump of the metadata and `print` are not modelled, because they are file output.
- An unknown narrator cannot reach `glyphs_for` or `FLAGS_MAP`, so the `KeyError` they would raise is absent. Narrators are the `Voice` type.
- The validator's `load_metadata`, `load_schema`, `extract_flags_from_html`, `check_files_and_flags`, `check_stego_payloads` and `main` are not part of this model. They read files and a regular expression and feed the three modelled checks.
- `str.lower()` is modelled as ASCII lower-casing (`Text.LowerAscii`). For the prefix "glyphs:" the two agree: no other character lower-cases to one of those seven characters, and the one that lower-cases to two characters lower-cases to an `i`.

## Findings

| source | as written | input that shows it | evidently intended | confidence | as-written member | corrected member |
|---|---|---|---|---|---|---|
| src/generate_chapters.py:106 | the previous link is `chapter{chapter-1:02d}.html` whenever `chapter > 2` | chapter 4, the first generated page, links back to `chapter03.html`; chapter 3 is the bespoke `kira_ch1.html` and no `chapter03.html` is written | `chapter > 4`, so that chapter 4 links back to `kira_ch1.html` | not executed | Generator.PrevLink, Generator.PrevLinkDangles | Generator.PrevLinkFixed |
