# Verified model of an RDB reader and writer

This project models the parts of an RDB tool written in Go that carry unbounded correctness
properties, and proves those properties with Dafny: the LZF codec, the CRC-64 checksum, the RDB
encoder and decoder with their packed formats, the stream node listpack, and the two indexes that
aggregate keys by prefix (a radix tree with a bounded top list, and a flat map). Verify everything with
`dafny verify dfyconfig.toml`.

Code that changes state is modelled as it is written: loops over arrays, classes whose methods update
their fields, a heap of tree nodes that are split in place. Each such method is proved against a
specification, and what the code is for is proved about the specification.

| files | contents |
|---|---|
| `Bytes`, `Decimal` | byte strings, fixed-width integers, two's complement, decimal numerals |
| `Crc64` | bit-serial, table-driven and slicing-by-8 CRC, the running digest, the reflected polynomial |
| `Lzf` | decompressor and compressor |
| `Strings`, `Ziplist`, `Lists`, `Sets`, `Hashes` | the layouts of values: what may be written, how it is read, and that the two agree |
| `Objects`, `Document` | one object; a whole file, its grammar, and what a sequence of encoder calls means |
| `Encoder` | the encoder, a class whose invariant ties its output to the calls made so far |
| `Parser`, `Decoder` | what decoding a byte sequence reports, and the decoder, a class with a cursor |
| `Items` | what the decoder makes of items the encoder never writes |
| `RoundTrip`, `Exactness`, `Truncation` | whole files, refusing callbacks, and where TTLs end up; which files are reported right; files cut short, and dropped errors |
| `Listpack`, `Streams`, `StreamContent` | stream nodes |
| `Samples` | the formats on concrete bytes |
| `Radix`, `RadixTree`, `TopList`, `PrefixTop`, `PrefixRows`, `FlatPrefix` | prefix aggregation |

How the pieces fit:

* A writer's output is described by a relation (`StringForm`, `ZipListForm`, `PayloadForm`, ...), because
  the compressor may fail and a Go map may be ranged over in any order. Readers are functions from a byte
  sequence and a position to a value and the next position, or an error. Reading lemmas hold wherever
  the written bytes stand and whatever follows them.
* `Document.Step` says what each public encoder call does, accepted or rejected, and `Document.Run` folds it
  over any sequence of calls. The encoder's invariant `Valid` says that its output is the byte image of
  `Run` of exactly the calls made, that its checksum covers that output, and that its state and its set of
  databases are those of the document. `RunRoundTrip` then holds for every completed encoder whose values the
  formats carry, and `RunExact` says that what is reported is right exactly then.
* The radix tree's invariant is stated over a snapshot, a map from nodes to field values, so that each
  in-place update is one function on snapshots with its own preservation lemma.

## What turned out not to hold

The code is modelled as it is. Where a promise fails, the condition under which it holds is proved.

* A TTL is reported as the instant asked for exactly from 1 to 9223372036854 ms: the conversion to
  nanoseconds wraps above that. Zero and values from 2^63 are not reported at all (`TTLReported`,
  `TTLOverflows`).
* A write call with two TTL options writes the first, then fails; the TTL stays in the file and attaches
  to the next object. Every object has its own TTL exactly if no call leaks one (`OwnTTLsIffLeakFree`,
  `CompletedOwnTTLs`, `LeakExample`).
* A ziplist entry is read back and consumed exactly if it is at most 16383 bytes long, as canonical
  numbers always are (`EntryRoundTrip`): longer ones are written with an eight-byte length of which the
  reader takes four bytes, in the other byte order. Readable entries come back up to the 16-bit count
  (`BlobRoundTrip`). For any list: it comes back exactly if it has at most 65535 entries, and either all
  are at most 16383 bytes long, or the first longer one is all zeros, has a length that reads the same
  in both byte orders, and only empty strings follow it; the reader then stops four bytes early
  (`LongValue`, `BlobComesBack`, `ZipListComesBack`). A quicklist comes back exactly if each of its pages
  does (`QuickListComesBack`).
* An intset comes back up to its 32-bit count, so whole exactly below 2^32 members (`IntSetRoundTrip`,
  `ReadIntSetForm`).
* The listpack writer's 7-bit and 13-bit integer ranges are wider than the reader's. An integer comes
  back exactly outside -127..-1, -8191..-4097 and 4096..8191 (`IntRoundTrip`). Empty strings come back as
  "0". A message with as many fields as the master has names, and each of those names among them, is
  written as sharing the names; where the master's list repeats a name, the message has another field
  that is lost. A stream node comes back exactly if it avoids all three (`CleanNode`, `NodeRoundTrip`).
* Field TTLs come back exactly if the layout carries them (`TTLRoundTrip`): in the Redis layout a TTL of
  -1 is lost when no field has a live TTL, and TTLs above the maximum are refused; in the Valkey
  layout negative TTLs become 0. Empty hashes with field TTLs are refused by both readers.
* The listpack writer's back lengths mark their width in the first byte (`BacklenIs`), so stepping back from
  behind an element finds its start exactly up to a size of 127 (`BackStep`).
* `Compress` indexes out of range on one byte. Its positions are 32 bits wide, so its result is proved to
  decompress for inputs up to 2^32 bytes.
* `parse` drops the error of the second read of an AUX or RESIZEDB item, because an inner variable shadows
  the outer one: a twelve-byte file that ends inside an AUX item is read without an error
  (`SwallowedError`). A panic is not dropped: with a value of declared length 2^63 in place of the end, the
  same item is reported as an error (`PanicReported`). On every byte sequence, no error is reported exactly
  if the header is good and the loop stops at an event the callback refuses, at the end mark, or at an AUX
  or RESIZEDB item whose first half can be read and whose second half cannot and does not panic
  (`NoErrorIff`). Of any beginning of a file, a beginning of the events is reported. Cut before its end
  mark, a completed file is reported as an error exactly unless the cut falls in the second string of an
  AUX item or the second length of a RESIZEDB item (`FileTruncated`, `RunTruncated`). Behind the end mark
  nothing is checked: the checksum may be anything, or be missing (`ChecksumIgnored`).
* The comment in `helper/prefix.go` calls depth 2 the level of databases. The nodes of depth 2 are those of
  the databases present exactly if every database present has an empty key or two keys with different
  first bytes, and no two of them have numerals with the same first byte (`DatabaseLevel`). With databases
  1 and 10, depth 2 holds "1", and the node of database 1 is handed to the top list as a prefix
  (`SharedNumeral`); with one database whose keys share their first byte, the prefix they share is not
  (`SharedKeyByte`). For any keys: a prefix of a database is printed exactly if it is a key there or two
  keys there part right after it, at least two of its proper prefixes, and at most one less than the
  limit, are empty, inserted or parting, and fewer candidates than the list holds rank ahead of it, being
  larger, or as large and later in the walk (`PrefixRow`).
* `parseNodeKey` gives back database and prefix of every such row (`ParseGenKey`), but it slices out of range
  on a node without a space. Some row is such a node exactly if numerals of databases part after some
  characters and already after a part of those, within the limit, and fewer candidates than the list
  holds rank ahead (`RowsUnprintable`). With one key each in databases 1, 10 and 100, "10" is printed
  whatever the length of the list if the sizes in 10 and 100 together outweigh that in 1
  (`ThreeNumerals`); with sizes 5, 1 and 1 and a list of one, it is not (`OutrankedNumeral`).
* A depth limit of 2^63-2 or 2^63-1 wraps when two levels are added, and then no prefix is reported
  (`DepthLimitReaches`).
* The comment in `crc64jones/crc64.go` gives an initial value of all ones; the code, and so this model,
  starts from zero.

## Model

| member | source | states |
|---|---|---|
| Lzf.Decompress | lzf/lzf.go:20-87 | decompresses to exactly what the stream means token by token, overlapping references included, or reports its error |
| Lzf.ReadReference | lzf/lzf.go:51-68 | decodes length and distance of a back reference with all its truncation errors |
| Lzf.CopyOverlapping | lzf/lzf.go:79-82 | the byte-by-byte copy repeats its own output when source and destination overlap |
| Lzf.Compress | lzf/lzf.go:90-228 | every success decompresses to the input (up to 2^32 bytes) and is strictly shorter; failure is only lack of space, or one input byte; an input that repeats a block to the end, 16 or more equal bytes among them, succeeds within `Budget`; an input in which no three bytes stand twice fails; no index leaves a buffer |
| Lzf.Pack | lzf/lzf.go:109-203 | the main loop: its table holds passed positions with the slot of their three bytes, so that a repeated block is found again and every reference but the last is as long as can be |
| Lzf.Find | lzf/lzf.go:110-120 | looks up the slot of the three bytes at the position, enters the position there and changes no other slot |
| Lzf.Rehash | lzf/lzf.go:176-188 | enters the last two matched positions, and leaves the rolling value at the next one |
| Lzf.EqualRepeats | lzf/lzf.go:90-228 | 16 to 2^32 equal bytes are such an input |
| Lzf.EncodeMatch | lzf/lzf.go:122-184 | refuses exactly where closing the run and a longest token would not fit; otherwise the match extends a stream for a prefix of the input to a stream for a longer prefix, with room kept for the tail |
| Lzf.MatchLength | lzf/lzf.go:123-151 | both positions agree over the length found, which is the longest such one below the encodable length and two bytes short of the end |
| Lzf.EmitRef | lzf/lzf.go:154-167 | the token written makes the stream expand by the matched bytes, in at most four bytes of output |
| Lzf.OneLiteral | lzf/lzf.go:192-201 | one literal extends the open run; a full run is closed and a new header reserved |
| Lzf.CloseRun | lzf/lzf.go:139-142 | the patched run header turns the open run into a complete stream; an empty run is undone |
| Lzf.Finish | lzf/lzf.go:205-227 | at most two trailing literals and a header fit, and the result stays below the input length |
| Lzf.ExpandPrefix | lzf/lzf.go:31-84 | a complete stream followed by more bytes means its own output followed by what those add |
| Lzf.AppendLiterals | lzf/lzf.go:35-48 | appending a literal run appends its bytes |
| Lzf.AppendRef | lzf/lzf.go:50-83 | appending a back reference repeats earlier output |
| Lzf.RefuseLiterals | lzf/lzf.go:35-48 | a literal run too long for the buffer or cut short is refused, each with its error |
| Lzf.RefuseRef | lzf/lzf.go:50-76 | a reference that reaches back before the start or copies beyond the buffer is refused |
| Lzf.WithinCap | lzf/lzf.go:20-87 | nothing is written beyond the buffer |
| Lzf.CopyMatch | lzf/lzf.go:79-81 | repeating matched bytes reproduces the input, even where the match overlaps its own copy |
| Crc64.Reflect | crc64jones/crc64.go:30-38 | bit 63 - i of the result is bit i of the polynomial, for all sixty-four bits |
| Crc64.MirrorBit | crc64jones/crc64.go:30-38 | the closed form of the loop moves bit i to bit 63 - i |
| Crc64.MirrorTwice | crc64jones/crc64.go:30-38 | reflecting twice gives the polynomial back |
| Crc64.MirrorJones | crc64jones/crc64.go:22-27 | the reflected Jones polynomial is 0x95ac9329ac4bc9b5 |
| Crc64.MakeTable | crc64jones/crc64.go:27 | entry i is i divided through eight bits by the polynomial |
| Crc64.MakeSlicingBy8Table | crc64jones/crc64.go:53-65 | helper table j holds j further fold steps of each entry |
| Crc64.FillColumn | crc64jones/crc64.go:57-62 | one column of the helper tables holds successive fold steps over zero bytes |
| Crc64.Update | crc64jones/crc64.go:83-117 | for every start value, string and table of a polynomial, slicing-by-8 equals the byte-at-a-time fold |
| Crc64.SliceBy8 | crc64jones/crc64.go:98-110 | the eight-byte loop consumes whole blocks without changing the fold |
| Crc64.SliceIsFold | crc64jones/crc64.go:99-108 | eight table lookups on a word equal eight fold steps |
| Crc64.SliceStep | crc64jones/crc64.go:98-109 | the same on the first eight bytes of a longer string |
| Crc64.ShiftsLinear | crc64jones/crc64.go:83-117 | division by the polynomial is linear in the word |
| Crc64.RollIsSliceSum | crc64jones/crc64.go:101-108 | dividing a word through is the sum of its bytes' helper entries |
| Crc64.StepIsSerial | crc64jones/crc64.go:113-115 | one table step equals eight bit steps |
| Crc64.FoldIsSerial | crc64jones/crc64.go:113-115 | the table fold equals bit-serial division, for every string and start value |
| Crc64.FoldConcat | crc64jones/crc64.go:124-127 | feeding a string in two pieces gives the one-shot checksum |
| Crc64.Residue | crc64jones/crc64.go:131-135 | a string followed by its little-endian checksum has checksum zero |
| Crc64.CheckValue | crc64jones/crc64.go:13 | the checksum of "123456789" is 0xe9c6d914c4b8d9ca |
| Crc64.SerialInjective | crc64jones/crc64.go:83-117 | from different states, the same bytes lead to different states |
| Crc64.BurstDetected | crc64jones/crc64.go:83-117 | strings of equal length that differ only inside eight consecutive bytes have different checksums |
| Crc64.Digest.constructor | crc64jones/crc64.go:67-75 | a new digest has seen nothing and uses the table of the reflected polynomial |
| Crc64.Digest.Reset | crc64jones/crc64.go:81 | forgets everything written |
| Crc64.Digest.Write | crc64jones/crc64.go:124-127 | after any sequence of writes the state is the bit-serial checksum of all bytes written |
| Crc64.Digest.Sum64 | crc64jones/crc64.go:129 | the checksum of everything written |
| Crc64.Digest.Sum | crc64jones/crc64.go:131-135 | appends the eight bytes that bring the checksum of everything to zero |
| Decimal.Numeral | core/string.go:229-255 | the canonical numeral of a number, without leading zeros, with that value |
| Decimal.NumeralOfValue | core/string.go:340-357 | a canonical digit string is the numeral of its value, so integer forms lose no string |
| Decimal.ItoaInjective | helper/radix.go:119-121 | different numbers have different numerals |
| Decimal.ItoaChars | helper/radix.go:119-121 | a numeral holds digits and a minus sign only |
| Decimal.AtoiItoa | helper/radix.go:128 | a numeral is parsed back as its number, negative ones included |
| Decimal.Encodable | core/ziplist.go:165-182 | exactly the canonical numerals up to the bound have an integer form |
| Decimal.IsEncodable | core/string.go:340-357 | the scan accepts exactly those strings and returns their value |
| Strings.ReadLengthBytes | core/string.go:199-219 | every length below 2^64 is read back, wherever it stands, and the reader stops after it |
| Strings.ShortestLength | core/string.go:199-219 | no other form of a length is shorter than the one written |
| Strings.ShortestInteger | core/string.go:229-255 | nor any other integer form of a number |
| Strings.LengthRefused | core/string.go:41-101 | first bytes that stand for no length, and kinds of string that do not exist, are refused |
| Strings.ReadPlainForm | core/string.go:221-227 | a plain string is read back |
| Strings.ReadIntForm | core/string.go:85-100 | the 8, 16 and 32-bit integer forms are read back as the numeral they stand for |
| Strings.ReadSignedForm | core/string.go:87-98 | whoever wrote it, every signed value of 8, 16 and 32 bits is read as its numeral and consumed |
| Strings.ReadPackedForm | core/string.go:182-197 | an LZF string whose stream expands to it is read back |
| Strings.ReadBlobForm | core/string.go:299-307 | whichever of the plain and packed forms was chosen, the reader returns the string and stops at its end |
| Strings.ReadStringForm | core/string.go:279-296 | the same with the integer forms |
| Strings.ReadStringForms | core/list.go:24-39 | a run of strings is read back in order |
| Ziplist.EncodeEntry | core/ziplist.go:110-163 | writes back length, header and content of an entry |
| Ziplist.ReadIntBody | core/ziplist.go:121-147 | every number up to 2^63 - 1 is read back as its numeral from the integer form it is written in, and consumed |
| Ziplist.ReadStringBody | core/ziplist.go:148-161 | every string up to 16383 bytes is read back behind the header it is written with, and consumed |
| Ziplist.ReadSignedBody | core/ziplist.go:60-102 | whoever wrote it, every signed value of 8, 16, 24, 32 and 64 bits behind the header of its width is read as its numeral and consumed |
| Ziplist.ReadTinyBody | core/ziplist.go:103-106 | the same for the four-bit form, 0 to 12 |
| Ziplist.ReadBigBody | core/ziplist.go:50-58 | a string behind the 32-bit header with its length in big-endian order is read back |
| Ziplist.HeaderRefused | core/ziplist.go:107 | headers of no string and no integer are refused |
| Ziplist.ShortestBody | core/ziplist.go:121-147 | no other integer form but the unused 16-bit one is shorter than the one written |
| Ziplist.BuildZipList | core/list.go:178-195 | patches total length, tail offset and count in front of the entries, each entry carrying its predecessor's length |
| Ziplist.ReadZipListEntry | core/ziplist.go:30-108 | reads one entry with every width, header form and error |
| Ziplist.ReadZipListBlob | core/ziplist.go:12-28 | reads as many entries as the header counts |
| Ziplist.EntryRoundTrip | core/ziplist.go:30-163 | an entry is read back and consumed exactly if it is at most 16383 bytes long, wherever it stands |
| Ziplist.BlobRoundTrip | core/ziplist.go:12-28 | readable entries come back up to the count modulo 2^16, so all of them exactly up to 65535 |
| Ziplist.LongValue | core/ziplist.go:50-58 | the value of an entry above 16383 bytes comes back exactly if it is all zeros and its length reads the same in both byte orders, and then four bytes are left over |
| Ziplist.BlobComesBack | core/ziplist.go:12-28 | every list: it comes back whole exactly if the count fits sixteen bits and all entries are readable, or the first that is not is such a string with only empty strings behind it |
| Ziplist.HeaderFields | core/list.go:189-193 | the header fields are the buffer length, the start of the last entry and the count, in their widths |
| Ziplist.BackwardWalk | core/list.go:178-197 | stepping back from the tail by each entry's back length visits the entry starts in reverse and ends at offset 10 |
| Ziplist.StartsDownEnd | core/list.go:183-188 | that walk lists every start, from the last entry to the first at offset 10 |
| Lists.BuildPages | core/list.go:142-156 | pages are non-empty, concatenate to the input, and each but the last is the shortest run reaching the threshold |
| Lists.PagingUnique | core/list.go:142-156 | there is only one such paging |
| Lists.PageCount | core/list.go:142-156 | non-empty values give at most as many entries a page as the byte threshold, so the 16-bit count is exact |
| Lists.ReadZipListForm | core/list.go:178-197 | a ziplist stored as a string is read back as the list |
| Lists.ZipListComesBack | core/list.go:178-197 | every ziplist stored as a string: it comes back exactly under that condition, and whatever is read, all of it is consumed |
| Lists.ReadQuickListForm | core/list.go:41-57 | the pages are read back as the original list |
| Lists.QuickListComesBack | core/list.go:41-57 | every quicklist: it comes back exactly if each of its pages does, and whatever is read, all of it is consumed |
| Sets.ScanInts | core/set.go:131-147 | the scan accepts exactly sets of canonical numbers and finds least and greatest |
| Sets.BuildIntSet | core/set.go:148-187 | writes width, count and the sorted numbers |
| Sets.ReadIntSetBuf | core/set.go:35-65 | reads the numbers back as numerals, with every error of the reader |
| Sets.SortedSorts | core/set.go:154-156 | sorting gives an ascending permutation, duplicates kept |
| Sets.WidthHolds | core/set.go:148-153 | the chosen width holds every number as a signed value |
| Sets.IntSetRoundTrip | core/set.go:30-66 | the stored numbers are read back in order up to the count modulo 2^32, so all of them exactly below 2^32 |
| Sets.ReadSignedIntSet | core/set.go:35-65 | whoever wrote it, an intset of signed numbers in any of the three widths is read as their numerals |
| Sets.WidthRefused | core/set.go:36-46 | any other width is refused |
| Sets.ReadIntSetForm | core/set.go:30-66 | a set of canonical numbers comes back as an ascending permutation, whole exactly below 2^32 members |
| Sets.ReadSetForm | core/set.go:13-28 | any other set comes back in order |
| Hashes.TTLRoundTrip | core/hash.go:38-124 | a field TTL survives a layout exactly if the layout carries it |
| Hashes.LostTTLs | core/hash.go:64-117 | what becomes of the others: refused above the maximum, and read as none where negative in the absolute layout or one below the minimum in the relative one |
| Hashes.RelativeRoundTrip | core/hash.go:68-74 | relative to the minimum, a TTL is stored as zero only if it is one below the minimum, and otherwise recovered |
| Hashes.LiveIsMarked | core/hash.go:413-422 | a live TTL is never stored as the mark for no TTL |
| Hashes.CarriedByRedis | core/hash.go:381-437 | the minimum found is storable, and all TTLs are carried exactly under the Redis condition |
| Hashes.ReadFieldForm | core/hash.go:60-88 | one field with its TTL is read back, or its TTL refused, in each layout |
| Hashes.ReadFieldForms | core/hash.go:60-88 | all fields are read back in the order they were ranged over |
| Hashes.GatherIs | core/hash.go:58-89 | collecting the fields of any order gives each its value and recovered TTL |
| Hashes.ReadHashForm | core/hash.go:16-34 | a plain hash is read back, whatever the order |
| Hashes.ReadRedisForm | core/hash.go:38-90 | the min-relative layout is read back exactly if the hash is non-empty and its TTLs are carried |
| Hashes.ReadAnyMin | core/hash.go:38-90 | the same for any minimum another writer stores, exactly if the hash is non-empty and the layout carries its TTLs |
| Hashes.MinRefused | core/hash.go:43-56 | a minimum above the mark for none is refused, and so is an empty hash |
| Hashes.ReadValkeyForm | core/hash.go:95-124 | the absolute layout is read back exactly if the hash is non-empty and no TTL is negative |
| Hashes.PairsOfEntries | core/hash.go:225-248 | pairing up ziplist entries gives the map they pair up to |
| Hashes.ZipHashPairs | core/hash.go:230-246 | any ziplist whose counted entries can be read gives the map they pair up to, an odd count taking one more entry |
| Hashes.PairMapFlat | core/hash.go:232-246 | alternating fields and values in any order give the map |
| Hashes.ReadZipHashForm | core/hash.go:225-248 | a ziplist hash is read back |
| Objects.MeaningKeeps | core/decoder.go:174-384 | what is reported of an object is its value; of a set, the same multiset |
| Objects.ReadableFaithful | core/list.go:141-176 | lists of values of at most 16383 bytes are faithful if they are short, or go in pages and have no empty value |
| Objects.ReadPayloadForm | core/decoder.go:174-384 | every layout the encoder may choose for a value is dispatched to its reader, which gives the value back exactly if it is carried: ziplists that come back, number sets below 2^32, TTLs the layout carries |
| Objects.ReadOtherTypes | core/decoder.go:178-214 | a run of strings is a list under type 1 and a set under type 2 |
| Objects.ReadValkeyHash | core/decoder.go:352-370 | in a Valkey file, types 22 and 24 are the absolute layout |
| Document.Step | core/encoder.go:65-93 | every call, accepted or rejected, keeps the document in the grammar header aux* (db (ttl? object)+)* eof, cut off anywhere, without a repeated database |
| Document.Run | core/encoder.go:167-294 | so does any sequence of calls |
| Document.EndIsFinal | core/encoder.go:65-93 | nothing is added after the end |
| Document.FileResidue | core/encoder.go:238-253 | an ended file has checksum zero over all its bytes |
| Document.FileCorrupted | core/encoder.go:238-253 | change up to eight consecutive bytes of an ended file, and its checksum is no longer zero |
| Document.PhaseAllows | core/encoder.go:65-93 | what a document must be like for each kind of item to be allowed |
| Document.HeaderStep | core/encoder.go:167-181 | a header is accepted exactly at the start |
| Document.AuxStep | core/encoder.go:184-202 | an aux field is accepted exactly before the first database |
| Document.DbStep | core/encoder.go:205-235 | a database is accepted exactly where the phase allows one (after header, aux field or object) and it is new |
| Document.EndStep | core/encoder.go:238-253 | the end is accepted exactly where the phase allows it (after header, aux field or object) |
| Document.ObjectRejected | core/encoder.go:280-294 | a rejected write may still leave its first TTL waiting |
| Document.ObjectAccepted | core/encoder.go:280-294 | an accepted write appends one object with the TTL that waits for it |
| Encoding.Iterate | core/hash.go:368 | ranging over a map visits each key once, in any order |
| Encoding.MinExpire | core/hash.go:393-402 | finds the least live TTL, or zero if there is none |
| Encoding.Encoder.constructor | core/encoder.go:96-113 | a new encoder is in step with the empty run |
| Encoding.Encoder.Write | core/encoder.go:147-157 | bytes reach the writer and the checksum alike |
| Encoding.Encoder.WriteLength | core/string.go:199-219 | writes the shortest of the four length forms, at their exact bounds |
| Encoding.Encoder.TryWriteIntString | core/string.go:229-255 | writes an integer form exactly for canonical numerals up to 2^31-1 |
| Encoding.Encoder.WriteLZFString | core/string.go:257-277 | either writes a stream that expands to the string, or writes nothing |
| Encoding.Encoder.WriteString | core/string.go:279-296 | writes one of the forms the reader undoes |
| Encoding.Encoder.WriteNanString | core/string.go:299-307 | the same without integer forms: with compression on, a string above 20 bytes that is sure to shrink is written packed, and one without a repetition plain |
| Encoding.Encoder.WriteZipList | core/list.go:178-197 | writes a ziplist of the values as a string |
| Encoding.Encoder.TryWriteListZipList | core/list.go:114-139 | chooses the ziplist exactly within both limits |
| Encoding.Encoder.WriteQuickList | core/list.go:141-176 | writes the unique paging of the list |
| Encoding.Encoder.TryWriteIntSetEncoding | core/set.go:130-188 | chooses the intset exactly for sets of canonical numbers, and otherwise writes nothing |
| Encoding.Encoder.WriteSetEncoding | core/set.go:108-128 | writes the members in order |
| Encoding.Encoder.TryWriteZipListHashMap | core/hash.go:475-502 | chooses the ziplist exactly within both limits, fields in any order |
| Encoding.Encoder.WriteRun | core/hash.go:355-473 | the field loop writes a run the reader undoes, for any map order and layout |
| Encoding.Encoder.WriteHashEncoding | core/hash.go:355-379 | writes a plain hash |
| Encoding.Encoder.WriteHashWithTTLs | core/hash.go:381-473 | writes the layout of the server kind with the minimum over live TTLs |
| Encoding.Encoder.WriteHeader | core/encoder.go:167-181 | does to the output what the call means for the document, accepted or not |
| Encoding.Encoder.WriteAux | core/encoder.go:184-202 | likewise for aux fields |
| Encoding.Encoder.WriteDBHeader | core/encoder.go:205-235 | likewise for databases |
| Encoding.Encoder.WriteTTL | core/encoder.go:255-270 | a TTL is written exactly where the state allows, and then waits |
| Encoding.Encoder.BeforeWriteObject | core/encoder.go:280-294 | accepts exactly when the state allows an object after the TTLs given, and what it leaves behind when it does not |
| Encoding.Encoder.WriteStringObject | core/string.go:309-328 | does to the output what the call means for the document |
| Encoding.Encoder.WriteListObject | core/list.go:95-112 | likewise for lists |
| Encoding.Encoder.WriteSetObject | core/set.go:89-106 | likewise for sets |
| Encoding.Encoder.WriteHashMapObject | core/hash.go:318-335 | likewise for hashes |
| Encoding.Encoder.WriteHashMapObjectEx | core/hash.go:337-353 | likewise for hashes with field TTLs |
| Encoding.Encoder.WriteEnd | core/encoder.go:238-253 | ends with the checksum of all bytes before it, so that the whole file sums to zero |
| Encoding.Encoder.EnableCompress | core/encoder.go:142-145 | changes only what later calls write |
| Encoding.Encoder.SetListZipListOpt | core/encoder.go:115-122 | changes only what later list calls write |
| Encoding.Encoder.SetHashZipListOpt | core/encoder.go:124-131 | changes only what later hash calls write |
| Parser.ParseExtends | core/decoder.go:386-587 | parsing never takes back an event |
| Parser.CallbackStops | core/decoder.go:386-587 | a callback that refuses cuts the events off right after the refused one, without an error |
| Decoding.Decoder.ReadFull | core/utils.go:54-61 | consumes exactly what it returns, or fails |
| Decoding.Decoder.ReadLength | core/string.go:41-79 | reads the four forms and the special bit |
| Decoding.Decoder.ReadString | core/string.go:81-108 | reads every string form, with every error |
| Decoding.Decoder.ReadLZF | core/string.go:182-197 | reads both lengths and expands the stream |
| Decoding.Decoder.ReadZipList | core/ziplist.go:12-28 | reads a ziplist stored as a string |
| Decoding.Decoder.ReadQuickList | core/list.go:41-57 | reads the pages in order |
| Decoding.Decoder.ReadIntSet | core/set.go:30-66 | reads an intset stored as a string |
| Decoding.Decoder.ReadHashMap | core/hash.go:16-34 | reads a plain hash |
| Decoding.Decoder.ReadHashMapEx | core/hash.go:38-90 | reads the min-relative layout |
| Decoding.Decoder.ReadHashMapExValkey | core/hash.go:95-124 | reads the absolute layout |
| Decoding.Decoder.ReadZipListHash | core/hash.go:225-248 | reads a ziplist hash |
| Decoding.Decoder.ReadObject | core/decoder.go:174-384 | dispatches on the type byte |
| Decoding.Decoder.CheckHeader | core/decoder.go:141-172 | recognises both magic strings and their versions |
| Decoding.Decoder.Turn | core/decoder.go:393-587 | one turn of the loop, as specified |
| Decoding.Decoder.Parse | core/decoder.go:386-602 | the whole loop reports the specified events and error |
| RoundTrip.HeaderReads | core/decoder.go:141-172 | both headers the encoder writes are recognised, with their versions |
| Items.HeaderVersions | core/decoder.go:141-172 | of four-digit Redis versions exactly 1 to 12 are accepted, of three-digit Valkey versions exactly 80 |
| Items.NoHeader | core/decoder.go:141-163 | too few bytes, another magic string, or a version that is no number are refused |
| RoundTrip.TurnTTL | core/decoder.go:412-418 | a TTL item only sets the waiting expiry, to the 64 bits as a signed number |
| RoundTrip.TurnObject | core/decoder.go:556-582 | an object item reports database, key, expiry, idle data and contents, and clears what waited, if its value is carried; otherwise it ends the loop or reports something else |
| RoundTrip.TurnAux | core/decoder.go:442-464 | an AUX item is reported exactly if special items are asked for |
| RoundTrip.TurnSelect | core/decoder.go:398-404 | a SELECTDB item sets the database, wrapped to 64 bits |
| RoundTrip.TurnResize | core/decoder.go:419-441 | a RESIZEDB item is reported exactly if special items are asked for |
| Items.TurnSeconds | core/decoder.go:405-411 | an EXPIRETIME item sets the waiting expiry to its seconds in milliseconds |
| Items.TurnFreq | core/decoder.go:465-472 | a FREQ item sets the frequency, and nothing else |
| Items.TurnIdle | core/decoder.go:473-480 | an IDLE item sets the idle time, and nothing else |
| Items.TurnFunctions | core/decoder.go:487-505 | a FUNCTION2 item is reported exactly if special items are asked for |
| Items.TurnSlotInfo | core/decoder.go:506-525 | slot information is passed over in a Valkey file and refused in a Redis file |
| Items.TurnSlotImport | core/decoder.go:526-554 | so is the import of slots, with its job and ranges |
| Items.ParseItems | core/decoder.go:398-480 | any run of expiry, idle, frequency and SELECTDB items: the last of each kind is what waits |
| Items.ParseBehind | core/decoder.go:556-582 | an object behind them is reported with exactly these values, and nothing waits for the next |
| Items.FreqFive | core/decoder.go:465-472 | f9 05 in front of an object: frequency 5 and no idle time |
| RoundTrip.FileRoundTrip | core/decoder.go:386-587 | a completed file, whatever follows it, is reported object by object in order with database, key, contents and own TTL |
| RoundTrip.FileStops | core/decoder.go:386-587 | the same up to the first event a callback refuses |
| RoundTrip.RunRoundTrip | core/encoder.go:167-294 | the output of every encoder that has been ended, after any sequence of calls, is reported as the objects those calls wrote |
| Exactness.FileExact | core/decoder.go:386-587 | a completed file is reported in full, in order and without an error exactly if all of its values are carried |
| Exactness.RunExact | core/encoder.go:167-294 | after any sequence of calls, the output of an ended encoder is reported as what the calls wrote exactly if all of the values are carried |
| Truncation.NoErrorIff | core/decoder.go:386-602 | every byte sequence: no error is reported exactly if the header is good and the loop stops at a refused event, at the end mark, or at an AUX or RESIZEDB item whose first read succeeds and whose second fails without a panic |
| Truncation.SwallowedError | core/decoder.go:442-451 | a file that ends inside an AUX item: no event and no error |
| Truncation.PanicReported | core/string.go:105 | the same item with a value of declared length 2^63: the panic is reported as an error |
| Truncation.HaltsQuietly | core/decoder.go:393-587 | a turn ends the loop without an error exactly at the end mark or at such an item |
| Truncation.CutTurn | core/decoder.go:393-587 | a turn over a beginning of the input and over all of it agree wherever one goes on within that beginning |
| Truncation.CutInside | core/decoder.go:393-587 | a turn cut off in its middle ends the loop, without an error exactly in the second half of such an item |
| Truncation.ParseCut | core/decoder.go:386-587 | any input cut before its last turn: the events are a beginning of what they would have been, and the error is dropped exactly in a second half |
| Truncation.FileTruncated | core/decoder.go:386-587 | a completed file cut before its end mark: a beginning of its events, and an error exactly unless the cut is in the second string of an AUX item or the second length of a RESIZEDB item |
| Truncation.ChecksumIgnored | core/decoder.go:584-587 | whatever follows the end mark, the file is reported whole and without an error |
| Truncation.RunTruncated | core/encoder.go:167-294 | the same for any beginning of the output of any ended encoder |
| RoundTrip.TTLReported | core/decoder.go:564-568 | a TTL is reported as the same instant exactly from 1 to 9223372036854 ms, and not at all for 0 and from 2^63 |
| RoundTrip.TTLOverflows | core/decoder.go:564-568 | the first TTL beyond is reported as an instant before the epoch |
| RoundTrip.OwnTTLsIffLeakFree | core/encoder.go:255-294 | after any calls, every object has its own TTL and none waits exactly if no call leaked one |
| RoundTrip.CompletedOwnTTLs | core/encoder.go:255-294 | in an ended file, every object has its own TTL exactly if no call leaked one |
| RoundTrip.LeakExample | core/encoder.go:280-294 | two TTL options on one object: the call fails, and the next object gets its first TTL |
| Listpack.EncodeListPackInt | core/stream.go:762-813 | the six integer forms at the writer's bounds |
| Listpack.LowBytes | core/stream.go:805-811 | the byte loop writes eight little-endian bytes |
| Listpack.BacklenAgrees | core/listpack.go:43-55 | the reader skips as many back-length bytes as the writer appends |
| Listpack.BacklenIs | core/stream.go:605-640 | a back length is the size, high byte first, with its width marked in the first byte |
| Listpack.BackStep | core/stream.go:605-640 | a step back by the last byte finds the start of an element exactly up to a size of 127 |
| Listpack.ReadStrItem | core/stream.go:816-836 | every non-empty string below 2^32 - 5 bytes is read back |
| Listpack.ReadIntValue | core/listpack.go:59-181 | an integer outside -127..-1 is read with the right width, changed only beyond twelve bits |
| Listpack.ReadNegative | core/stream.go:763-765 | an integer in -127..-1 is never read back, whatever follows |
| Listpack.IntRoundTrip | core/listpack.go:59-181 | an integer is read back exactly outside the three gaps |
| Listpack.ReadShown | core/listpack.go:185-195 | a string below 2^32 - 5 bytes is read back, the empty one as "0" |
| Listpack.EncodeItems | core/stream.go:568-578 | the first pass lays the encodings end to end with their sizes |
| Listpack.Append | core/stream.go:592 | appending to a slice with room overwrites only what follows the slice |
| Listpack.BuildListpackWithBacklen | core/stream.go:564-602 | the in-place second pass loses nothing: each item with its back length, behind the header |
| Listpack.ElementsConcat | core/stream.go:564-602 | items written one after the other |
| Streams.ReadNamesOf | core/stream.go:143-150 | the master's names are read back, empty ones as "0" |
| Streams.ZipIsMap | core/stream.go:190-206 | values in the master's order give the map back exactly if names agree and no value is empty |
| Streams.PairsAreMap | core/stream.go:190-206 | names and values of any order give the map back exactly if none is empty |
| Streams.UndeltaExact | core/stream.go:172-175 | an id is recovered from its wrapped difference and from no other |
| Streams.ReadMessageOf | core/stream.go:159-211 | a message comes back exactly if it is clean, and otherwise something else does |
| Streams.ReadMessagesOf | core/stream.go:156-212 | so do all messages of a node |
| Streams.NodeRoundTrip | core/stream.go:126-217 | for any map order and whatever follows, a node comes back exactly if its counts, names and messages are clean |
| StreamContent.SubInt64 | core/stream.go:517-518 | the difference of two converted unsigned ids wraps like their own difference |
| StreamContent.AddMessage | core/stream.go:492-544 | the entries of one message, in some map order |
| StreamContent.NodeEntries | core/stream.go:467-545 | the entries of a node, master first |
| StreamContent.WriteStreamEntryContent | core/stream.go:465-556 | writes the node's listpack as a string |
| StreamContent.ReadFieldLoop | core/stream.go:176-206 | the field loop of a message, with names shared or its own |
| StreamContent.ReadStreamEntryContent | core/stream.go:126-217 | the node reader with its loops and panics |
| StreamContent.ContentRoundTrip | core/stream.go:106-118 | written as a string and read back behind six header bytes, a node comes back exactly if it is clean |
| Samples.Lengths | core/string.go:199-219 | lengths in one, two, five and nine bytes |
| Samples.Integers | core/string.go:229-255 | the three integer forms of strings |
| Samples.SignedNumerals | core/ziplist.go:69-105 | numerals of either sign |
| Samples.TwoAndFive | core/list.go:178-197 | the ziplist of "2" and "5", byte by byte |
| Samples.OneTwoThree | core/set.go:148-187 | the intset of 1, 2 and 3, byte by byte |
| Samples.References | lzf/lzf.go:154-167 | the longest reference at the least distance and the shortest at the greatest |
| Samples.SmallListpack | core/stream.go:564-602 | the listpack of 1 and "ab", byte by byte |
| Samples.TypeNumbers | core/decoder.go:77-107 | the numbers of the layouts |
| Samples.Headers | core/encoder.go:159-160 | both headers, byte by byte |
| Samples.DefaultLimits | core/encoder.go:34-57 | without options, a ziplist holds up to 512 entries with values up to 64 bytes |
| Samples.Limits | core/decoder.go:109 | the byte threshold of a page and the largest field TTL |
| Samples.TwentyBytes | core/string.go:299-307 | with compression on, twenty equal bytes are written plain and more are packed |
| Samples.AbcdShrinks | lzf/lzf.go:90-228 | "abcd" over and over is packed from 22 bytes on |
| Samples.SmallFile | core/encoder.go:167-294 | a whole file with an aux field, a database and a string with a TTL, byte by byte, and what is reported of it |
| Samples.SmallNode | core/stream.go:467-545 | the entries of a node with one deleted message, one by one |
| RadixTrees.CommonPrefixLen | helper/radix.go:28-34 | the longest common prefix |
| Radix.PrefixIsAncestor | helper/radix.go:36-91 | full paths decide ancestry |
| Radix.InsideEdge | helper/radix.go:43-58 | a prefix that ends inside an edge leads to that edge's node only |
| Radix.SplitKeeps | helper/radix.go:43-58 | splitting a node keeps shape, marks and every total, for the new shorter prefix too |
| Radix.BumpKeeps | helper/radix.go:60-63 | counting the word at a node accounts for exactly one more prefix of it |
| Radix.MarkKeeps | helper/radix.go:64-68 | when the word ends at a node the tree is that of one more word |
| Radix.LeafKeeps | helper/radix.go:80-88 | so it is when the rest of the word becomes a leaf |
| RadixTrees.RadixTree.constructor | helper/radix.go:22-26 | an empty tree |
| RadixTrees.RadixTree.SplitNode | helper/radix.go:43-58 | the new child takes the rest of the path and everything below, the node is shortened |
| RadixTrees.RadixTree.FindChild | helper/radix.go:73-78 | finds the child starting with a byte, or there is none |
| RadixTrees.RadixTree.Insert | helper/radix.go:36-91 | after any sequence of inserts: totals at every node are the naive sums over words with its full path as prefix; full paths are concatenated paths, siblings differ in the first byte, marks are exactly the inserted words, unmarked nodes below the root have two children |
| Radix.NodesAre | helper/radix.go:36-91 | the nodes are the empty prefix, the inserted words and the prefixes after which two of them part, whatever the order of the inserts |
| TopLists.SelectsUnique | helper/toplist.go:16-26 | a ranking by size, later first among equals, is unique |
| TopLists.SplicedSelects | helper/toplist.go:17-22 | inserting before the first item that is no larger keeps the ranking |
| TopLists.DroppedSelects | helper/toplist.go:23-25 | an item behind a full list is rightly dropped |
| TopLists.RankingExists | helper/toplist.go:16-26 | every log has a whole ranking |
| TopLists.RankingPermutes | helper/toplist.go:16-26 | the whole ranking is a permutation in descending size |
| TopLists.TopIsTake | helper/toplist.go:23-25 | the top n are the first n of the whole ranking, and nothing else is |
| TopLists.AmongTop | helper/toplist.go:16-26 | an item is among the top n exactly if fewer than n rank ahead of it |
| TopLists.TopList.constructor | helper/toplist.go:28-32 | an empty list |
| TopLists.TopList.Search | helper/toplist.go:17-19 | separates the larger items from the rest |
| TopLists.TopList.Add | helper/toplist.go:16-26 | after any sequence of adds the list is the top of the ranking of everything added |
| PrefixTop.DepthCounts | helper/radix.go:93-113 | a node's depth is the number of nodes whose full path is a prefix of its own |
| PrefixTop.WalkStep | helper/radix.go:101-112 | one turn of the queue keeps the visit breadth first, each node once, depths never falling |
| PrefixTop.Unseen | helper/radix.go:101-112 | what has not been visited is at least as deep as the head of the queue |
| PrefixTop.Callback.Call | helper/prefix.go:59-69 | collects exactly the depths from 3 to the limit and stops beyond |
| PrefixTop.Traverse | helper/radix.go:93-113 | visits distinct nodes with depths never falling, misses none within the limit, and changes nothing in the tree |
| PrefixTop.ChosenLists | helper/prefix.go:59-69 | stopping early still lists every node of depth 3 to the limit exactly once |
| PrefixTop.BuildTree | helper/prefix.go:46-55 | the tree of all keys, each tagged with its database |
| PrefixTop.DepthLimitReaches | helper/prefix.go:27-31 | a depth limit of d levels reaches exactly depth d + 2, zero everything; the two largest wrap and reach nothing |
| PrefixTop.PrefixAnalyse | helper/prefix.go:22-69 | the result is the top of the ranking of exactly the nodes of depth 3 to the limit, each with the totals of the keys below it; which prefixes those are, by the keys alone, is PrefixRows.PrefixRow |
| PrefixTop.PrefixNodes | helper/prefix.go:30-66 | a database's prefix has a node exactly if it is a key there or two keys there part right after it; its depth is PrefixRows.DepthIs |
| PrefixTop.GenKeyPrefix | helper/radix.go:119-121 | a tagged prefix is a prefix of a tagged key exactly if database and prefix agree |
| PrefixRows.DepthIs | helper/radix.go:93-113 | a node's depth is one more than the number of proper prefixes of its path that are empty, inserted or parting |
| PrefixRows.CandidateIs | helper/prefix.go:59-69 | a path is handed to the top list exactly if it is such a path with at least two, and at most limit - 1, properly before it |
| PrefixRows.RowIs | helper/prefix.go:59-95 | a path is printed exactly if it is such a path with at least two, and at most limit - 1, properly before it, and fewer candidates than the list holds rank ahead of it |
| PrefixRows.RoomForAll | helper/prefix.go:24-25 | if the list holds all candidates, as with topN 0, each of them is printed |
| PrefixRows.RowCount | helper/prefix.go:22-26 | there are topN rows, but no more than candidates, and all of them for 0 |
| PrefixRows.PrefixRow | helper/prefix.go:46-95 | the same for a prefix in a database and any topN, stated over the keys |
| PrefixRows.DatabaseLevel | helper/prefix.go:30 | the nodes of depth 2 are the databases present exactly if each has an empty key or keys with different first bytes, and no two numerals share their first byte |
| PrefixRows.SharedNumeral | helper/prefix.go:63-66 | databases 1 and 10: depth 2 holds "1", and database 1 is handed to the top list from limit 3 on |
| PrefixRows.SharedKeyByte | helper/prefix.go:63-66 | one database whose keys share their first byte: depth 2 holds that byte, and it is not handed to the top list |
| PrefixRows.ParseGenKey | helper/radix.go:119-134 | parseNodeKey gives back the database and prefix genKey joined |
| PrefixRows.RowsUnprintable | helper/prefix.go:78-95 | parseNodeKey slices out of range on some printed row exactly if numerals part after digits that themselves have a parting before them, within the limit, and fewer candidates than the list holds rank ahead |
| PrefixRows.ThreeNumerals | helper/prefix.go:78-95 | databases 1, 10 and 100 with one key each, the one in 1 smaller than the others together: "10" is printed from limit 3 on, whatever topN, and parseNodeKey cannot split it |
| PrefixRows.OutrankedNumeral | helper/prefix.go:78-95 | with sizes 5, 1 and 1, limit 3 and topN 1, "10" is a candidate that is not printed, and every row can be split |
| FlatPrefix.JoinSplit | helper/prefix_stream.go:67 | the parts of a split, joined by the separator, are the string, for every limit |
| FlatPrefix.PartsApart | helper/prefix_stream.go:67 | no part contains the separator, but for the last where the limit has been reached |
| FlatPrefix.ReplaceIsJoin | helper/prefix_stream.go:64 | replacing is joining the parts by something else, so every occurrence is replaced |
| FlatPrefix.NormalizedIs | helper/prefix_stream.go:61-65 | with separators of one byte, each of those bytes becomes the first separator and no other byte changes |
| FlatPrefix.HeadStable | helper/prefix_stream.go:67 | every key that starts with a prefix ending at its d-th separator splits the same way up to there |
| FlatPrefix.EndsOnce | helper/prefix_stream.go:76-86 | a prefix ends at one separator count only, so no key counts twice under it |
| FlatPrefix.PartsAreHeads | helper/prefix_stream.go:67-77 | the prefixes rejoined from the parts are the beginnings of the key up to each separator, all of them up to the limit |
| FlatPrefix.MapKeyInjective | helper/prefix_stream.go:78 | different databases or prefixes never share a map key |
| FlatPrefix.MapKeySplits | helper/prefix_stream.go:78-110 | the output splits a map key at its first zero byte into the database and the prefix with a star |
| FlatPrefix.Increment | helper/prefix_stream.go:80-86 | one increment moves exactly one prefix from the totals without to those with the object |
| FlatPrefix.Normalize | helper/prefix_stream.go:61-65 | all separators become the first, in order |
| FlatPrefix.AddObject | helper/prefix_stream.go:56-90 | the callback keeps the map in agreement with naive counting, with no other keys |
| FlatPrefix.CountPrefixes | helper/prefix_stream.go:51-90 | for every database and every prefix ending at its d-th separator: if the depth is not positive or d is at most the depth, size and count are those of the keys there that start with it; otherwise it is not in the map |
| FlatPrefix.DashesToo | helper/prefix_stream.go:61-86 | separators ":" and "-" and the key "a-b-c": both "a:" and "a:b:" are counted |
| FlatPrefix.RadixAgrees | helper/prefix_stream.go:56-90 | with one separator, map and radix tree agree wherever both have the prefix |

## Left out

- Files, buffering, CSV and JSON output, flags, the web server, goroutines, regular expressions and clocks: the writer is a byte sequence that never fails, the reader a byte sequence that may end anywhere.
- Sorted sets, floating-point scores and the formats with no writer here (zipmap, listpack hashes, sets and sorted sets, quicklist 2, module values): the parser reports them as outside the model.
- Streams outside the content of a node: ids, groups, consumers and the surrounding counts of core/stream.go.
- Hash type 22 in a Redis file, as release candidates wrote it, and the module aux opcode: outside the model in the parser.
- Sizes from `memprofiler` are heuristic; object sizes are parameters of the prefix analyses, and sums over them are unbounded integers.
- CSV rows and the sorting of the flat map (`sort.Slice` is not stable): output only.
- The flame graph and the hot key list, which repeat simpler forms of the trees and lists here.
- Scratch buffers `enc.buffer` and `dec.buffer`: values are passed directly; the capacity of a slice beyond its length is modelled only where an append overwrites in place.
- Memory exhaustion on a huge declared length. A declared length from 2^63 is modelled as the panic it causes; one below it but above what the allocator grants panics in the same way, and is modelled as input that ends too early.
- Error messages: they are collapsed into a few kinds of error.
- The table cache behind `sync.Once`: tables are computed where they are used.
- Separators of the flat map are non-empty: an empty one makes the string functions split between UTF-8 characters.
- Lzf.Compress: which inputs shrink is stated for those that repeat a block to the end (`Repeats`) and those that repeat nothing (`NoRepeat`), not for all. Its result is proved to decompress for inputs up to 2^32 bytes, because its positions are 32-bit numbers; all other clauses hold for every length.
- Strings.ReadPackedForm: strings up to 2^32 bytes, as far as the result of `Compress` is proved to decompress.
- Strings.ReadBlobForm: with compression on, strings up to 2^32 bytes, for the same reason.
- Strings.ReadStringForm: likewise.
- Strings.ReadStringForms: likewise.
- Sets.ReadSetForm: likewise for the members.
- Sets.ReadIntSetForm: with compression on, the stored intset is up to 2^32 bytes, for the same reason.
- Encoding.Encoder.WriteNanString: which form is written is stated for the strings Lzf.Compress is sure to shrink or to refuse; for others either form may be.
- Items.TurnFunctions: with compression on, strings up to 2^32 bytes, as for Strings.ReadStringForm.
- Items.TurnSlotImport: likewise.
- Items.ParseBehind: the object must be faithful, as for RoundTrip.FileRoundTrip.
- FlatPrefix.NormalizedIs: separators of one byte; for longer ones FlatPrefix.ReplaceIsJoin says what each replacement does.
- Lists.ZipListComesBack: likewise for the stored ziplist.
- Lists.QuickListComesBack: likewise for each stored page.
- Lists.ReadZipListForm: readable ziplists only; any other list is covered by Lists.ZipListComesBack.
- Lists.ReadQuickListForm: readable pages only; any other list is covered by Lists.QuickListComesBack.
- Hashes.ReadZipHashForm: readable fields and values only; which longer ones happen to come back is not stated, since it depends on the map order.
- Ziplist.BlobRoundTrip: readable entries only; any other list is covered by Ziplist.BlobComesBack.
- Ziplist.BackwardWalk: ziplists below 4 GiB, since the header fields it reads have 32 bits.
- Ziplist.ReadZipListBlob: a slice beyond the length of a short buffer panics; in Go it may succeed within spare capacity.
- Sets.ReadIntSetBuf: likewise.
- Objects.ReadPayloadForm: values must be within reach (`Reach`): strings and counts of Go slices, packed strings and blobs up to 2^32 bytes, and in a ziplist hash only readable fields and values, for the reason given for Hashes.ReadZipHashForm.
- RoundTrip.FileRoundTrip: the values must be within reach and carried (`Faithful`); Exactness.FileExact says that the latter is needed.
- RoundTrip.FileStops: likewise.
- RoundTrip.RunRoundTrip: the same condition on every object the calls wrote; Exactness.RunExact says that being carried is needed.
- Exactness.FileExact: values must be within reach, as for Objects.ReadPayloadForm.
- Exactness.RunExact: likewise.
- RoundTrip.TurnObject: the value must be within reach, as for Objects.ReadPayloadForm.
- RoundTrip.TurnAux: with compression on, strings up to 2^32 bytes.
- Truncation.FileTruncated: every value must be faithful, as for RoundTrip.FileRoundTrip; Truncation.ParseCut holds for any input.
- Truncation.RunTruncated: likewise.
- Truncation.NoErrorIff: at an object or module aux field outside the model, the model stops with an error and the source may go on; a second string of an AUX item that declares a length below 2^63 which the allocator refuses is reported as an error by the source.
- Truncation.HaltsQuietly: likewise.
- Truncation.ChecksumIgnored: as RoundTrip.FileRoundTrip.
- Decoding.Decoder.ReadObject: formats without a writer end as outside the model.
- Decoding.Decoder.Turn: likewise, and so does a module aux field.
- Decoding.Decoder.Parse: likewise.
- Encoding.Encoder.WriteZipList: values are shorter than 2^32 bytes and fit in memory together, as in a ziplist's 32-bit fields; on a longer one the source panics.
- Listpack.ReadStrItem: strings from 2^32 - 5 bytes on are excluded: with their header they do not fit the 32-bit sizes, which wrap.
- Listpack.ReadShown: likewise.
- Listpack.EncodeItems: likewise.
- Listpack.Append: the result is a value; that it shares memory with the data is expressed only by what it overwrites.
- Listpack.BuildListpackWithBacklen: strings as for Listpack.EncodeItems; whether an append finds room is a parameter (the room left behind the data), since the growth policy of slices is not specified.
- StreamContent.WriteStreamEntryContent: strings as for Listpack.EncodeItems.
- StreamContent.ContentRoundTrip: with compression on, listpacks up to 2^32 bytes.
