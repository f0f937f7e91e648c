# A verified model of the RDB reader and writer

This Dafny project models the byte-level codec of an RDB (Redis database dump) reader and writer written in
Go, and the index structures built on its output: the LZF coder, the CRC-64 checksum, strings and lengths,
ziplists, quicklists, intsets, hashes with field expirations, stream entries in listpacks, the encoder's
state machine, the decoder's main loop, the radix tree of key prefixes with its bounded top list, the flame
graph, and the RESP writer.

The codec has two layers. `Enc…` functions give the bytes of a value and `P…` functions read a value off the
front of a byte sequence; all laws (round trips, exact conditions where a round trip fails) are lemmas about
them. The classes `RdbEncoder.Encoder`, `RdbDecoder.Decoder` and `Crc64.Digest`, and the loop methods beside
them, work step by step on buffers, cursors and fields as the original does, and each is proved to do exactly
what those functions say. The radix tree, the flame graph and the compressor work in place on heap objects
and arrays. The top theorem of the codec is `RdbFile.FileRoundTripIff`: over every run of accepted encoder
calls, the decoder delivers exactly the objects written, in order, if and only if each of them comes back by
itself, and reports no error exactly when the run has ended the file. `Sessions.SessionRoundTripIff` extends it
to any sequence of calls, refused ones included. `Objects.ReadsBack` says which objects come back, and
`Objects.Survives` which do whatever order maps are ranged over.

| file | contents |
|---|---|
| `Bytes.dfy`, `Parsing.dfy`, `Tally.dfy` | integers as bytes, decimal text, parse results; prefix sums |
| `Lzf.dfy`, `LzfRepeat.dfy` | compression; one turn of it in plain numbers, and what it always shortens |
| `Crc64.dfy`, `Reflect.dfy`, `CheckValue.dfy` | checksum, and the value it is published with |
| `RdbString.dfy`, `ZipList.dfy`, `Lists.dfy`, `Sets.dfy`, `Hashes.dfy`, `Objects.dfy` | encodings of values and objects |
| `ZipHash.dfy` | which maps come back through a ziplist in every order |
| `EncoderModel.dfy`, `DecoderModel.dfy`, `RdbFile.dfy` | the encoder protocol, the decoder loop, whole files |
| `Session.dfy` | calls made one after the other, some of them refused |
| `Encoder.dfy`, `Decoder.dfy` | the encoder and decoder objects |
| `ListPack.dfy`, `Stream.dfy`, `StreamCoder.dfy` | listpack entries, stream nodes, their writer and reader |
| `Radix.dfy`, `RadixLevels.dfy`, `RadixTree.dfy`, `TopList.dfy` | prefix tree, its traversal, the bounded list |
| `Flame.dfy`, `FlameTree.dfy` | flame graph |
| `Resp.dfy` | RESP command lines |
| `Opcodes.dfy`, `Format.dfy` | opcodes, forms and versions in bytes and numbers, those only read among them |
| `Example.dfy`, `StreamExample.dfy` | small objects, a file, a command and a stream node in literal bytes |

## Where the code loses something

The model keeps the code as it is, and the lemmas say exactly when a value survives.

- A ziplist string over 16383 bytes is written with eight low-first length bytes where the reader takes four,
  high first. It is read as itself only if it is a run of zeros in a number whose four length bytes are the same
  both ways, such as 65792, and then reading goes on four bytes too early: `ZipList.LongStrIff`. An entry comes
  out right together with its end only for integers and shorter strings: `ZipList.EntryRoundTripIff`.
- So a ziplist reads back exactly when its 16-bit count does not wrap and every value is an integer, at most
  16383 bytes long, or such a run with only empty strings behind it: `ZipList.BufRoundTripIff`. In a quicklist a
  long value ends its page, and runs survive anywhere: `Lists.QuickListRoundTripIff`. With the default settings a
  list of one value of 16384 bytes goes out as a quicklist that cannot be read: `Objects.LongValueUnread`.
- With the default settings a hash with one field name of 16384 bytes goes out as a ziplist that cannot be read,
  since the writer looks at the values only: `Objects.LongFieldUnread`. More than 32767 pairs never read back:
  `ZipHashes.TooManyPairs`. Exactly which maps read back in every order of their fields is
  `ZipHashes.EveryOrderIff`; a map outside that condition can still come back in some order by coincidence, and
  is lost in another: `ZipHashes.OneOrderSaves`.
- Field expirations of a Redis hash survive up to 48 bits, and a -1 only beside a positive one; those of a
  Valkey hash survive when none is negative; and the writer accepts an empty hash with expirations, which the
  reader rejects: `Hashes.HashExRoundTripIff`, `Hashes.HashValkeyRoundTripIff`.
- A database index is written unsigned and delivered signed: from 2^63 on it comes out negative. TTLs of 2^63
  and more, and 0, are delivered as no expiration: `RdbFile.FileRoundTripIff`.
- An object call with two TTL options is refused after the first TTL was written:
  `EncoderModel.RefusedUnchangedIff`, `EncoderModel.SecondTTLRefused`. The next object without a TTL of its own
  gets it, and objects with one are refused until then: `Sessions.LeftTTL`. Other refused calls leave no trace:
  `Sessions.RefusedLeaveNothing`.
- Listpack integers in -127..-1, -8191..-4097 and 4096..8191 do not read back, and an empty string reads as
  "0": `ListPack.IntRoundTripIff`, `ListPack.LostInts`, `ListPack.StringRoundTrip`.
- A stream node survives exactly under `Streams.EntryOk`: `Streams.ContentIff`; `Streams.RepeatedName` shows
  a master entry with a repeated name and the field it loses.
- Repetitions of two different bytes are compressed exactly from eleven bytes on:
  `LzfRepeats.TwoBytesCompressedIff`; those of other words with places of their own in the hash table from nine
  bytes beyond the word: `LzfRepeats.RepetitionCompressedIff`.
- An auxiliary field whose value cannot be read, or a second database size, ends the reading of a file without an
  error: `Opcodes.Unreadable`.
- Trimming the flame graph overwrites a big child named "others": `FlameModel.TrimConservesIff`. At the fixed
  threshold of 1048576, two keys of sizes 1048576 and 5, the first named "others", add up to 1048581 before and to 5
  after: `FlameModel.OthersOverwritten`. Trimming runs from `TrimThreshold` keys on, 1000 unless a caller sets it.
- A depth limit for the prefix report within two of the largest int wraps around, and nothing is listed:
  `RadixTrees.DepthLimitIff`.

## Model

| member | source | states |
|---|---|---|
| `Lzf.Decompress` | lzf/lzf.go:20-87 | on arbitrary bytes every index is in bounds and the result, or the error, is that of playing the tokens left to right within outLen |
| `Lzf.Compress` | lzf/lzf.go:90-228 | the in-place compressor with its hash table and back-patched run headers, all indices in bounds, computes `Compressed`, the specification by tokens |
| `Lzf.CompressOne` | lzf/lzf.go:109-203 | one turn of the main loop keeps the output array, hash table and rolling hash in step with the token state |
| `Lzf.PutMatch` | lzf/lzf.go:129-165 | a match is emitted in place as the reference token that the specification takes, for short and long lengths |
| `Lzf.Reenter` | lzf/lzf.go:173-184 | after a match the two positions before its end are hashed into the table as the specification says |
| `Lzf.CopyOverlapping` | lzf/lzf.go:76-84 | the byte-by-byte copy from the output into itself repeats the referenced text even when source and target overlap |
| `Lzf.TakeMatchInv` | lzf/lzf.go:122-184 | taking a match keeps the invariant: the tokens and the open run spell exactly the input read so far |
| `Lzf.ExpandFlat` | lzf/lzf.go:20-87 | decompressing the bytes of any playable tokens gives what the tokens play |
| `Lzf.RoundTrip` | lzf/lzf.go:90-228 | whenever compression succeeds its result decompresses to the input for every outLen of at least its length, and is strictly shorter than a nonempty input |
| `LzfRepeats.MatchTurn` | lzf/lzf.go:110-188 | a candidate at most 8192 back that agrees on three bytes becomes a reference, if there is room, of 3 to 264 bytes that agree and end only at 264, two bytes before the end, or at a difference; otherwise the result is the error |
| `LzfRepeats.LiteralTurn` | lzf/lzf.go:189-203 | any other candidate makes the byte a literal, runs being closed at 32, or is the error when the output is full |
| `LzfRepeats.ProbeFinds` | lzf/lzf.go:110-113 | the candidate is the last position entered for the slot of the next three bytes, whatever was hashed before |
| `LzfRepeats.LastBytes` | lzf/lzf.go:206-227 | behind the main loop the rest joins the open run, or the result is the error |
| `LzfRepeats.RepetitionCompressedIff` | lzf/lzf.go:90-228 | a text that repeats a word of at most 31 bytes, no two places of which share a slot, is compressed exactly from nine bytes beyond the word on, to the word, three bytes for each 264, and eight more at most |
| `LzfRepeats.OneMatch` | lzf/lzf.go:90-228 | up to one longest match, byte for byte what it is compressed to |
| `LzfRepeats.TwoBytesCompressedIff` | lzf/lzf.go:90-228 | every repetition of two different bytes is compressed exactly from eleven bytes on, within a stated size, and from 14 to 269 bytes to exactly the bytes stated |
| `LzfRepeats.OneByteCompressedIff` | lzf/lzf.go:90-228 | every repetition of one byte is compressed exactly from ten bytes on, within a stated size |
| `LzfRepeats.DigitsCompressedIff` | lzf/lzf.go:90-228 | the ten digits over and over are compressed exactly from nineteen bytes on, within a stated size |
| `LzfRepeats.ExpandRun` | lzf/lzf.go:36-50 | a literal run is copied, or fails for want of room or, if cut off, as corrupt |
| `LzfRepeats.ExpandReference` | lzf/lzf.go:52-85 | a reference makes each new byte equal to the one a fixed distance before it, or fails when cut off, too long for the output or from before its start |
| `Crc64Reflect.Reflect` | crc64jones/crc64.go:30-38 | the result has the bits of the polynomial in reverse order |
| `Crc64.MakeTable` | crc64jones/crc64.go:45-51 | entry i of the table is eight shift-and-xor rounds of i, for any polynomial |
| `Crc64.MakeSlicingBy8Table` | crc64jones/crc64.go:53-64 | row j of the eight tables is a byte followed by j more zero bytes |
| `Crc64.TableStep` | crc64jones/crc64.go:110-115 | one table lookup is eight bitwise rounds, by linearity |
| `Crc64.FoldWord` | crc64jones/crc64.go:96-108 | folding bytes one by one is shifting the crc xored with the word they make |
| `Crc64.EightLookups` | crc64jones/crc64.go:100-107 | shifting a word by eight bytes is the xor of one lookup per byte |
| `Crc64.EightBytes` | crc64jones/crc64.go:96-108 | one turn of the slicing loop equals eight bitwise byte steps |
| `Crc64.Update` | crc64jones/crc64.go:83-117 | on every path (no table at hand, short input, the prepared table, any other table) the result is the bitwise fold over the bytes |
| `Crc64.FoldConcat` | crc64jones/crc64.go:83-117 | folding a concatenation is folding its parts in turn |
| `Crc64.Digest.Write` | crc64jones/crc64.go:124-127 | the digest folds the bytes written into its crc and keeps its tables |
| `Crc64.Digest.Sum` | crc64jones/crc64.go:131-135 | appends the crc low byte first and changes nothing |
| `Crc64.SelfCheck` | crc64jones/crc64.go:131-135 | bytes followed by their own checksum have checksum 0 |
| `CheckValues.CheckValue` | crc64jones/crc64.go:12 | the text 123456789 has the published checksum |
| `CheckValues.JonesReflected` | crc64jones/crc64.go:22-38 | the polynomial of that checksum is the published one backwards, bit by bit |
| `Bytes.UnsignedRoundTrip` | core/string.go:199-219 | fixed-width integers in both byte orders read back |
| `Bytes.SignedRoundTrip` | core/string.go:110-138 | two's complement integers read back |
| `Bytes.NatTextCanonical` | core/string.go:340-357 | decimal text is canonical and has the number as its value |
| `Bytes.IntTextDecimal` | core/string.go:89-106 | decimal text of any integer: canonical digits with its absolute value, behind a minus sign exactly when it is negative |
| `RdbString.LengthRoundTrip` | core/string.go:199-219 | every 64-bit length reads back and reading stops exactly at its end |
| `RdbString.EncodableIff` | core/string.go:340-357 | a text is encodable exactly when Go prints it for some number in range |
| `RdbString.StringRoundTrip` | core/string.go:279-296 | every byte string reads back through the integer, LZF, fallback and plain forms, consuming exactly what was written |
| `RdbString.NanStringRoundTrip` | core/string.go:299-307 | the same without the integer forms |
| `RdbString.SignedStringRead` | core/string.go:89-106 | a string stored as a signed integer of 8, 16 or 32 bits reads as its decimal text, over the whole range, and reading stops at its end |
| `Formats.LengthForms` | core/string.go:199-219 | lengths up to 63, 16383 and 2^32 - 1 take 1, 2 and 5 bytes, others 9 |
| `Formats.LengthForms14` | core/string.go:55-61 | two-byte lengths read, high bits first, also when one byte would do |
| `Formats.LengthForms64` | core/string.go:62-77 | so do five- and nine-byte lengths |
| `Formats.IntForms` | core/string.go:229-255 | texts of numbers up to 127, 32767 and 2^31 - 1 take 2, 3 and 5 bytes |
| `Formats.TextForms` | core/string.go:257-307 | any other string is compressed when it is asked for, longer than 20 bytes and shortened by it, and is plain otherwise |
| `Examples.CompressedExample` | core/string.go:257-277 | a hundred bytes compress to fourteen given ones, which read as them |
| `ZipList.EntryRoundTripIff` | core/ziplist.go:110-163 | an entry reads back exactly when it is a canonical integer or at most 16383 bytes long |
| `ZipList.SignedEntryRead` | core/ziplist.go:67-100 | an integer entry of 8, 16, 24, 32 or 64 bits, of either sign and behind any back link, reads as its decimal text and stops at its end |
| `ZipList.SmallEntryRead` | core/ziplist.go:103-106 | a four-bit entry reads as one of 0 to 12 |
| `ZipList.TextEntryRead` | core/ziplist.go:38-58 | a string entry with a 6-, 14- or 32-bit length reads as itself |
| `Formats.EntryForms` | core/ziplist.go:121-148 | which header each canonical integer takes |
| `Formats.ZipOkMeans` | core/ziplist.go:165-182 | what survives in a ziplist: texts of numbers up to 2^63 - 1, and strings of at most 16383 bytes |
| `ZipList.LongStrIff` | core/ziplist.go:153-157 | a string over 16383 bytes is read as itself exactly when it is a zero run, and reading then stops four bytes early |
| `ZipList.LongStrEntry` | core/ziplist.go:153-157 | of a string over 16383 bytes, value and end of entry do not both come out right |
| `ZipList.BufRoundTrip` | core/list.go:178-197 | a written ziplist reads back as its entries cut to the 16-bit count |
| `ZipList.BufRoundTripIff` | core/ziplist.go:12-28 | a list reads back as itself exactly up to 65535 entries of which each is an integer, at most 16383 bytes long, or a zero run with only empty strings behind it |
| `ZipList.EntriesIff` | core/ziplist.go:19-26 | the entry loop gives back the entries written exactly under that condition on them |
| `ZipList.RunComesBack` | core/ziplist.go:153-157 | 65792 zero bytes read back as a list of one, though no header for that length is read right |
| `ZipList.HeaderFields` | core/list.go:192-195 | the size field is the buffer length and the tail field the start of the last entry |
| `ZipList.WalkBackwards` | core/ziplist.go:113-120 | from the tail, stepping back by each stored length visits every entry start in reverse and stops at offset 10 |
| `Lists.PagesShape` | core/list.go:141-176 | pages concatenate to the input, none is empty, each but the last first reaches 4096 bytes at its final value |
| `Lists.PageCount` | core/list.go:141-176 | with nonempty values no page has more than 4096 entries |
| `Lists.QuickListRoundTripIff` | core/list.go:41-57 | a quicklist reads back as the list exactly when every page has at most 65535 entries and each value is an integer, at most 16383 bytes long, or a zero run |
| `Lists.PagesIff` | core/list.go:41-57 | pages read in turn give the whole list exactly when each comes back by itself |
| `Lists.PagesOkIff` | core/list.go:142-156 | since a long value ends its page, all pages come back exactly under that condition on the values |
| `Lists.QuickListRoundTrip` | core/list.go:141-176 | a simple sufficient condition on the values alone, under which writing is defined too |
| `Formats.PageBounds` | core/list.go:141-156 | pages concatenate to the list, and each but the last reaches 4096 bytes, with its last value only |
| `Formats.ListForm` | core/list.go:114-123 | at the default settings a list is a ziplist exactly up to 512 values of up to 64 bytes |
| `Examples.PlainListRead` | core/list.go:24-39 | a plain list, which is only read, reads as its values |
| `Sets.SetRoundTrip` | core/set.go:108-128 | plain sets read back in order |
| `Sets.WidthFits` | core/set.go:148-153 | the chosen width truncates no member |
| `Sets.IntSetRoundTrip` | core/set.go:130-188 | intsets read back as the sorted members in decimal |
| `Sets.IntSetRoundTripIff` | core/set.go:130-188 | they do exactly when the number of members fits in the 32-bit count |
| `Sets.ReadBackPermutes` | core/set.go:30-66 | what is read is the ascending permutation of the members written, as the same strings |
| `Sets.SignedIntSetRead` | core/set.go:30-66 | an intset of any signed members at 2, 4 or 8 bytes reads as their decimal texts, in order |
| `Formats.NarrowestWidth` | core/set.go:148-153 | the width is the least of 2, 4 and 8 bytes that holds all members |
| `Hashes.HashRoundTrip` | core/hash.go:355-379 | plain hashes read back for every map order |
| `Hashes.ZipHashRead` | core/hash.go:225-248 | what any written ziplist hash reads as: its entries, as far as the count goes, paired up |
| `Hashes.ZipHashEntriesIff` | core/hash.go:475-502 | the entries of a ziplist hash are read as written exactly up to 32767 pairs under the condition on lists |
| `Hashes.ZipHashRoundTrip` | core/hash.go:475-502 | under that condition the map reads back |
| `ZipHashes.TooManyPairs` | core/hash.go:225-248 | more than 32767 pairs never read back, whatever the strings |
| `ZipHashes.ZipHashCountIff` | core/hash.go:225-248 | with every string an integer or at most 16383 bytes long, a map reads back exactly up to 32767 pairs |
| `ZipHashes.EveryOrderIff` | core/hash.go:475-502 | a map reads back in every order of its fields exactly when it has at most 32767 pairs and all its strings are integers or at most 16383 bytes long, or else one readable pair that is as good as alone |
| `ZipHashes.RunAlone` | core/hash.go:225-248 | if a pair with a zero run always reads back, nothing but the empty pair is beside it |
| `ZipHashes.NoStray` | core/ziplist.go:30-58 | a map with a long field name that is no zero run, whatever else it holds, is lost in some order |
| `ZipHashes.OneOrderSaves` | core/hash.go:225-248 | a family of maps that read back in one order and are lost in another |
| `Hashes.MinExpireIsLeast` | core/hash.go:393-402 | the base is the least positive expiration, or 0 |
| `Hashes.RelativeIff` | core/hash.go:413-422 | an expiration survives the offset by the base exactly up to 48 bits, and a -1 only when the base is not 0 |
| `Hashes.HashExRoundTripIff` | core/hash.go:381-437 | a Redis hash with expirations reads back with fields, values and expirations exactly when it is not empty and meets that condition on each |
| `Hashes.AbsoluteIff` | core/hash.go:439-473 | an absolute expiration survives exactly when it is not negative |
| `Hashes.HashValkeyRoundTripIff` | core/hash.go:95-124 | a Valkey hash reads back exactly when it is not empty and no expiration is negative |
| `Formats.HashForm` | core/hash.go:475-485 | at the default settings a hash is a ziplist exactly up to 512 fields with values of up to 64 bytes |
| `Formats.ExpiresMean` | core/hash.go:413-422 | the condition on expirations in numbers |
| `Formats.BaseRejected` | core/hash.go:48-51 | a base beyond 48 bits is refused |
| `Formats.RcHashObject` | core/hash.go:38-90 | a release-candidate hash, which is only read, reads as its fields with their expirations, unless it is empty or one of these is wider than 48 bits; in a Redis file only |
| `Objects.ObjectRoundTripIff` | core/decoder.go:174-384 | through the encoding the writer picked for it, an object reads back exactly under the condition listed for its kind, and the reader stops at its end; for a hash written as a ziplist in a given order that condition is the reading of its buffer itself |
| `Objects.EveryHashIff` | core/hash.go:475-502 | for a hash written as a ziplist, a condition a caller can check, without the order, is exact over all orders |
| `Objects.ObjectRoundTrip` | core/decoder.go:174-384 | every object that survives, whatever the order of its map, reads back |
| `Objects.LongValueUnread` | core/list.go:141-176 | with the default settings, the list of one value of 16384 bytes fails to read |
| `Objects.LongFieldUnread` | core/hash.go:475-502 | with the default settings, the object whose one field name has 16384 bytes fails to read |
| `Examples.StringExample` | core/string.go:309-328 | a string object in literal bytes, written and read |
| `Examples.SetExample` | core/set.go:108-128 | a plain set, likewise |
| `Examples.IntSetExample` | core/set.go:130-188 | an intset, likewise |
| `Examples.ZipListExample` | core/list.go:114-139 | a ziplist, likewise |
| `Examples.QuickListExample` | core/list.go:141-176 | a quicklist, likewise |
| `Examples.HashExample` | core/hash.go:355-379 | a plain hash, likewise |
| `Examples.ZipHashExample` | core/hash.go:475-502 | a ziplist hash, likewise |
| `Examples.ExpiringExample` | core/hash.go:381-473 | a hash with a field expiration, likewise, for Redis and for Valkey |
| `EncoderModel.RefusedUnchangedIff` | core/encoder.go:280-294 | a refused call leaves bytes and state alone unless it carried two TTLs where a TTL is allowed |
| `EncoderModel.SecondTTLRefused` | core/encoder.go:280-294 | the concrete refused call that leaves nine bytes behind |
| `EncoderModel.AcceptedIffGrammar` | core/encoder.go:65-93 | with at most one TTL per object a run is accepted exactly when it is a prefix of Header Aux* (DBHeader Object+)* End with distinct databases |
| `EncoderModel.FileCheckSum` | core/encoder.go:238-253 | a finished file, its checksum included, has checksum 0 |
| `RdbFile.DecodesCall` | core/decoder.go:386-587 | reading the bytes of one call delivers its events exactly when its object comes back, and leaves the loop as it was but for the database |
| `RdbFile.DecodesRun` | core/decoder.go:386-587 | the same over any accepted run from any reachable encoder state, ended or not: no lost object is made up for by another, and the verdict is an error exactly when the file is not ended |
| `RdbFile.FileRoundTripIff` | core/decoder.go:591-602 | the decoder delivers exactly the objects of any accepted run, in order, with database, key and TTL, and no error exactly when it was ended, if and only if each object comes back by itself; for a ziplist hash this is the reading of its buffer in the order taken |
| `RdbFile.FileRoundTrip` | core/decoder.go:591-602 | in particular when all survive, whatever the orders of their maps |
| `Examples.SmallFile` | core/decoder.go:591-602 | five calls write the literal bytes stated and the checksum of them, which read as what was written |
| `Sessions.SessionIsRun` | core/encoder.go:280-294 | any calls, refused or not, write what the run of those that take effect writes, and at the end the TTL that still waits |
| `Sessions.RefusedLeaveNothing` | core/encoder.go:65-93 | with at most one TTL per object, bytes and state are those of the accepted calls alone |
| `Sessions.LeftTTL` | core/encoder.go:280-294 | the TTL left by a refused object goes to the next object that has none; objects that have one are refused until then |
| `Sessions.SessionRoundTripIff` | core/decoder.go:386-587 | for any calls from the start, the decoder delivers exactly what those that take effect have written, if and only if each of their objects comes back by itself |
| `RdbEncoder.IsEncodable` | core/ziplist.go:165-182 | the digit test and conversion agree with the specification of encodable integers |
| `RdbEncoder.EncodeZipListEntry` | core/ziplist.go:110-163 | builds the entry's bytes by appending |
| `RdbEncoder.BuildZipList` | core/list.go:178-197 | the loop with running size, tail and previous length, and the patched header, build the ziplist |
| `RdbEncoder.BuildPages` | core/list.go:142-156 | the paging loop computes the pages |
| `RdbEncoder.ScanInts` | core/set.go:131-147 | the scan finds the members' integers and extremes, or that some member is none |
| `RdbEncoder.BuildIntSet` | core/set.go:148-182 | width choice, sort and append build the intset |
| `RdbEncoder.FindMinExpire` | core/hash.go:393-402 | the loop computes the base |
| `RdbEncoder.Encoder.Put` | core/encoder.go:147-157 | bytes reach the writer and the running checksum together |
| `RdbEncoder.Encoder.WriteLength` | core/string.go:199-219 | writes the length through the scratch buffer |
| `RdbEncoder.Encoder.TryWriteIntString` | core/string.go:229-255 | writes the integer form exactly for encodable texts |
| `RdbEncoder.Encoder.WriteLZFString` | core/string.go:257-277 | writes the compressed form exactly when compression succeeds |
| `RdbEncoder.Encoder.WriteString` | core/string.go:279-296 | appends the string's encoding and keeps the checksum of all bytes written |
| `RdbEncoder.Encoder.WriteNanString` | core/string.go:299-307 | the same without the integer forms |
| `RdbEncoder.Encoder.TryWriteListZipList` | core/list.go:114-139 | takes the ziplist form exactly within its limits and writes nothing otherwise |
| `RdbEncoder.Encoder.WriteQuickList` | core/list.go:141-176 | writes the pages of the list |
| `RdbEncoder.Encoder.TryWriteIntSet` | core/set.go:130-188 | takes the intset form exactly when all members are integers |
| `RdbEncoder.Encoder.WriteSetEncoding` | core/set.go:108-128 | writes the members in order |
| `RdbEncoder.Encoder.TryWriteZipListHash` | core/hash.go:475-502 | takes the ziplist form exactly within its limits, which look at values only |
| `RdbEncoder.Encoder.WriteHashEncoding` | core/hash.go:355-379 | writes the pairs in map order |
| `RdbEncoder.Encoder.WriteHashEncodingEx` | core/hash.go:381-437 | writes base, count and the fields with relative expirations |
| `RdbEncoder.Encoder.WriteHash2Encoding` | core/hash.go:439-473 | writes count and the fields with absolute expirations |
| `RdbEncoder.Encoder.WriteHeader` | core/encoder.go:167-181 | does what the protocol says, refusals included, and the checksum covers every byte |
| `RdbEncoder.Encoder.WriteAux` | core/encoder.go:184-202 | the same for auxiliary fields |
| `RdbEncoder.Encoder.WriteDBHeader` | core/encoder.go:205-235 | the same for database headers, a repeated database refused |
| `RdbEncoder.Encoder.WriteTTL` | core/encoder.go:255-270 | the same for a TTL |
| `RdbEncoder.Encoder.BeforeWriteObject` | core/encoder.go:280-294 | writes the TTL options until one is refused |
| `RdbEncoder.Encoder.WriteStringObject` | core/string.go:309-328 | the whole call on a string object is the protocol's |
| `RdbEncoder.Encoder.WriteListObject` | core/list.go:95-112 | the whole call on a list object is the protocol's |
| `RdbEncoder.Encoder.WriteSetObject` | core/set.go:89-106 | the whole call on a set object is the protocol's |
| `RdbEncoder.Encoder.WriteHashMapObject` | core/hash.go:318-335 | the whole call on a hash object is the protocol's |
| `RdbEncoder.Encoder.WriteHashMapObjectEx` | core/hash.go:337-353 | the whole call on a hash with field expirations is the protocol's |
| `RdbEncoder.Encoder.WriteEnd` | core/encoder.go:238-253 | appends the end byte and then the checksum of all bytes before it |
| `DecoderModel.UntilStops` | core/decoder.go:579-582 | nothing is delivered after the callback first says no, nothing is left out before it, and the verdict is then no error |
| `Opcodes.Seconds` | core/decoder.go:405-411 | an expiration in seconds counts a thousand times over in the rest of the file |
| `Opcodes.Milliseconds` | core/decoder.go:412-418 | and one in milliseconds as it is |
| `Opcodes.Frequency` | core/decoder.go:465-472 | a frequency is one byte |
| `Opcodes.IdleTime` | core/decoder.go:473-480 | an idle time is one length |
| `Opcodes.ObjectWithSeconds` | core/decoder.go:405-411 | behind an expiration in seconds, the object written is delivered with a thousand times as many milliseconds, and the expiration is used up by it |
| `Opcodes.ObjectWithAll` | core/decoder.go:538-583 | an object behind an expiration, a frequency and an idle time is delivered with all three, and they are used up by it |
| `Opcodes.SlotInfo` | core/decoder.go:506-524 | slot information is three lengths, skipped in Valkey files and refused in others |
| `Opcodes.SlotImport` | core/decoder.go:525-556 | a slot import is a string and pairs of lengths, skipped in Valkey files and refused in others |
| `Opcodes.Functions` | core/decoder.go:487-505 | a function library is one string, delivered when special opcodes are asked for |
| `Opcodes.Ends` | core/decoder.go:392-397 | 255 ends the file without an error, and the end of the input with one |
| `Opcodes.Unreadable` | core/decoder.go:398-480 | what cannot be read is an error, but for the value of an auxiliary field and the second database size, which end the reading without one |
| `Opcodes.UnreadableObject` | core/decoder.go:538-583 | an unknown type byte or an unreadable object is an error |
| `Formats.Versions` | core/decoder.go:141-172 | of the files that begin with REDIS exactly versions 1 to 12 are read, and of the Valkey files exactly version 80 |
| `Formats.OtherHeader` | core/decoder.go:152-160 | any other beginning is refused |
| `RdbDecoder.ReadBytesAt` | core/utils.go:11-22 | a cursor read returns the bytes and moves on, or fails and stays |
| `RdbDecoder.ReadZipListEntry` | core/ziplist.go:30-108 | agrees with the parsing function on every buffer and cursor |
| `RdbDecoder.ReadZipListBuf` | core/ziplist.go:12-28 | the entry loop returns exactly the counted entries or fails |
| `RdbDecoder.ReadZipHashBuf` | core/hash.go:225-248 | the pair loop builds exactly the specified map or fails |
| `RdbDecoder.ReadIntSetBuf` | core/set.go:30-66 | the member loop returns exactly the specified decimals or fails |
| `RdbDecoder.Decoder.ReadLength` | core/string.go:41-79 | agrees with the parsing function on value, flag, bytes consumed and failure |
| `RdbDecoder.Decoder.ReadLZF` | core/string.go:182-197 | reads both lengths and the block and decompresses it |
| `RdbDecoder.Decoder.ReadString` | core/string.go:81-108 | agrees with the parsing function on every input |
| `RdbDecoder.Decoder.ReadQuickList` | core/list.go:41-57 | the pages read are the concatenation specified |
| `RdbDecoder.Decoder.ReadHashMap` | core/hash.go:16-34 | the map read is the one specified |
| `RdbDecoder.Decoder.ReadHashMapEx` | core/hash.go:38-90 | both relative and release-candidate forms, with their rejections |
| `RdbDecoder.Decoder.ReadHashMapExValkey` | core/hash.go:95-124 | the absolute form with negatives as 0 |
| `RdbDecoder.Decoder.ReadObject` | core/decoder.go:174-384 | the dispatch on the type byte |
| `RdbDecoder.Decoder.CheckHeader` | core/decoder.go:141-172 | kind and version of the file or failure |
| `RdbDecoder.Decoder.OnByte` | core/decoder.go:392-584 | one turn of the loop on any opcode or type byte |
| `RdbDecoder.Decoder.ParseLoop` | core/decoder.go:386-587 | on every input and for every callback, the events delivered and the verdict are those of the loop's specification, up to the first no of the callback |
| `RdbDecoder.Decoder.Parse` | core/decoder.go:591-602 | the same for a whole file |
| `ListPack.IntRoundTripIff` | core/stream.go:762-813 | an integer entry reads back exactly outside three ranges, and what counts in the third become |
| `ListPack.LostInts` | core/stream.go:762-813 | one concrete integer of each range |
| `ListPack.StringRoundTrip` | core/stream.go:816-836 | a string entry reads back unless empty, and then as "0" |
| `ListPack.SignedLpRead` | core/listpack.go:59-181 | an integer of 7, 13, 16, 24, 32 or 64 bits, of either sign, reads as itself, as a number and as its decimal text |
| `ListPack.ShortLpRead` | core/listpack.go:59-181 | a string with a 6-bit length reads as itself up to behind its back length |
| `ListPack.MiddleLpRead` | core/listpack.go:59-181 | so does one with a 12-bit length |
| `ListPack.LongLpRead` | core/listpack.go:59-181 | and one with a 32-bit length |
| `ListPack.SkipBack` | core/listpack.go:43-55 | the reader skips exactly the length that the writer put behind an entry |
| `ListPack.BuildListpackWithBacklen` | core/stream.go:564-602 | the backward build, overwriting its own array or not, is the in-order concatenation of entries with lengths |
| `ListPack.PackHeader` | core/stream.go:595-601 | the header holds the size of the whole pack and the 16-bit count |
| `ListPack.AppendTo` | core/stream.go:592 | an append that overwrites leaves everything before the slice alone |
| `Streams.DiffRoundTrip` | core/stream.go:517-518 | adding the first ID back undoes the 64-bit difference |
| `Streams.FieldsIff` | core/stream.go:522-540 | the fields of a message come back exactly when no value is empty and names are counted once, or its own names are nonempty in a number that is not lost |
| `Streams.MsgIff` | core/stream.go:492-544 | a message comes back, and reading stops at its end, exactly under MsgOk |
| `Streams.HeadDecode` | core/stream.go:126-159 | what the counts and the master entry read as, for all nodes |
| `Streams.ContentIff` | core/stream.go:126-217 | a node comes back as itself exactly under EntryOk |
| `Streams.RepeatedName` | core/stream.go:500-512 | under a master entry with a repeated name a message with two fields comes back with one |
| `Streams.NamedFieldsKept` | core/stream.go:522-540 | written under the names of the master entry, a message keeps the fields named there and no others |
| `Streams.StreamEntriesRoundTripIff` | core/stream.go:438-462 | writing and reading all nodes is the identity exactly when each satisfies EntryOk |
| `StreamExamples.NodeExample` | core/stream.go:465-544 | a node of two deleted messages in literal bytes, as packed and as read |
| `StreamExamples.IdBytes` | core/stream.go:445-452 | an ID in literal bytes, as written and as read |
| `StreamCoder.BuildEntries` | core/stream.go:465-544 | the loops collect exactly the listpack entries of the node |
| `StreamCoder.WriteStreamEntries` | core/stream.go:438-462 | writes count, IDs and listpacks through the encoder |
| `StreamCoder.ReadListPackEntry` | core/listpack.go:59-181 | agrees with the parsing function at every cursor, also past the end |
| `StreamCoder.ReadAsInt` | core/listpack.go:197-206 | the integer, or failure on a string |
| `StreamCoder.ReadAsString` | core/listpack.go:185-195 | the string, or the integer's text |
| `StreamCoder.ReadStreamEntryContent` | core/stream.go:126-217 | the nested loops return exactly the specified node or fail, on every buffer |
| `StreamCoder.ReadStreamEntries` | core/stream.go:81-123 | agrees with the parsing function on every input |
| `RadixTrees.CommonPrefixLen` | helper/radix.go:28-34 | the length of the longest common prefix |
| `RadixTrees.RadixTree.Insert` | helper/radix.go:36-91 | keeps the tree good: counters equal the naive sums over all words with the node's prefix, end marks exactly the inserted words, the shape is a compact tree |
| `RadixTrees.RadixTree.Meaning` | helper/radix.go:9-16 | the invariant in terms of the fields: counters, end marks, distinct full paths, children continuing their parent and differing in their first byte, at least two below a node that ends no word |
| `RadixTrees.RadixTree.Visit` | helper/radix.go:42-63 | one turn of the walk: the split and the count |
| `RadixModel.Through` | helper/radix.go:69-78 | at most one child can lead towards a word |
| `RadixModel.SplitShape` | helper/radix.go:43-58 | splitting keeps the tree's shape |
| `RadixModel.SplitSums` | helper/radix.go:43-58 | the upper half has the same words below it as the old node, and is no inserted word |
| `RadixModel.AdoptGood` | helper/radix.go:80-88 | adding the leaf finishes an insertion |
| `RadixModel.BumpTallied` | helper/radix.go:59-63 | counting the node reached accounts for every prefix up to it |
| `RadixModel.FinishGood` | helper/radix.go:64-68 | marking the node finishes an insertion |
| `RadixLevels.OneParent` | helper/radix.go:12 | no node is the child of two nodes or twice of one |
| `RadixLevels.ChildDepth` | helper/radix.go:108-111 | the depth passed on is one more than the number of nodes above |
| `RadixLevels.TurnKeeps` | helper/radix.go:101-112 | the queue stays the frontier of the nodes taken, each once, in rising depth |
| `RadixLevels.LeftDeep` | helper/radix.go:105-107 | when the callback stops at the head, nothing less deep is left |
| `RadixLevels.VisitStep` | helper/radix.go:101-112 | a turn keeps the visited nodes and the queue the root and the children of the visited nodes, in order |
| `RadixLevels.LevelOrderUnique` | helper/radix.go:101-112 | the order of visits depends on the tree alone |
| `RadixLevels.ListedUnique` | helper/prefix.go:57-68 | and so does what is listed, so equally large prefixes are cut by their place in the tree |
| `RadixTrees.RadixTree.Traverse` | helper/radix.go:93-113 | nodes are visited breadth first, children in order, and exactly those of depth 3 up to the limit are added to the list, once each, in that order |
| `RadixTrees.RadixTree.LargestPrefixes` | helper/prefix.go:18-69 | the reported list, order included, for every topN and maxDepth, with the depths listed in plain numbers and the size reported for each |
| `RadixTrees.DepthLimitIff` | helper/prefix.go:27-31 | the depth limit is two more than asked for but for the two largest ints, with which nothing is listed |
| `RadixTrees.ListedDepths` | helper/prefix.go:27-31 | for maxDepth 0 exactly the nodes of depth 3 and more are listed, as far as depths are ints; up to 2^63 - 3 exactly those of depth 3 to maxDepth + 2; otherwise none |
| `RadixTrees.ReportedSums` | helper/prefix.go:57-69 | each is reported with the size of all words that begin with its full path |
| `TopLists.TopList.Add` | helper/toplist.go:16-26 | after any additions the list is the first elements of their ranking |
| `TopLists.TopList.Search` | helper/toplist.go:17-19 | the binary search finds the first element not larger |
| `TopLists.RankedIs` | helper/toplist.go:16-26 | the ranking lists every addition once by size, later ones first among equals |
| `TopLists.RankingUnique` | helper/hotkey.go:26-36 | that order determines the ranking |
| `TopLists.TopList.LargestKept` | helper/toplist.go:16-26 | what the list holds: as many of the largest additions as there is room for, by size, later ones first among equals |
| `TopLists.CutInsert` | helper/toplist.go:23-25 | cutting after every addition loses nothing that belongs in the list |
| `FlameTrees.FlameTree.AddObject` | helper/flamegraph.go:77-92 | values are the sizes of all objects at or below a node, and the nodes are the prefixes of their paths |
| `FlameModel.Conservation` | helper/flamegraph.go:77-92 | a node's value is the size of what ends there plus its children's values |
| `FlameTrees.FlameTree.SetTotal` | helper/flamegraph.go:51-55 | the root's total is everything added |
| `FlameTrees.FlameTree.TrimNode` | helper/flamegraph.go:104-120 | one node's small leaves are merged, and all its children queued |
| `FlameTrees.FlameTree.Trim` | helper/flamegraph.go:97-122 | every node's children are trimmed, once, by the state before, and no value changes |
| `FlameTrees.FlameTree.TrimmedSums` | helper/flamegraph.go:97-122 | every node's children then add up to what they did, exactly unless a child named "others" with some size was overwritten |
| `FlameTrees.FlameTree.TrimmedFields` | helper/flamegraph.go:104-120 | by the fields before: a child stays, as the same item, exactly if it had children or at least the threshold; only one named "others" gives way, to a new one with the sum of those that went, when they had a size |
| `FlameModel.TrimmedMeans` | helper/flamegraph.go:104-120 | the same for one node |
| `FlameModel.TrimConservesIff` | helper/flamegraph.go:114-120 | the same for one node |
| `FlameModel.OthersOverwritten` | helper/flamegraph.go:94-120 | the graph of two keys of sizes 1048576 and 5, the first named "others": trimmed at the threshold 1048576, children that added up to 1048581 add up to 5 |
| `Resp.MakeMultiBulkResp` | helper/resp.go:21-33 | builds the bytes of one command |
| `Resp.CmdLinesToResp` | helper/resp.go:235-242 | builds the bytes of all commands |
| `Resp.WriteCommand` | helper/resp.go:249-270 | the piecewise writer writes the same bytes |
| `Resp.CmdsRoundTrip` | helper/resp.go:235-242 | any commands read back as themselves by a reader that follows the lengths, nil arguments included |
| `Examples.CommandExample` | helper/resp.go:21-33 | a command with an empty and a nil argument in literal bytes |

## Left out

- Floats: sorted sets, their scores and `formatfloat` conversions rest on Go's float formatting.
- Encodings that the decoder reads and the encoder never writes (zipmaps, listpack lists, sets and hashes, quicklist 2), other than the plain list and the release-candidate hash; their type bytes fail in the model.
- Modules and module handlers; the module opcode and type fail in the model.
- Stream groups, consumers and the ID fields around the entries: fixed sequences of lengths, strings and eight-byte fields.
- What a callback does with an object: its answer is any function of the objects it has been given.
- Writer and reader failures other than the end of the input, and error texts; a panic that is recovered counts as a failure.
- `SizeOfObject`, details of struct dumps, filters by pattern, size and expiry, CSV, JSON and web output.
- Times: an expiration stays in milliseconds; the conversion to a time value and its overflow are not modelled.
- The order in which Go ranges over a map is a parameter, any order that enumerates the map.
- Builder calls on the encoder are one configuration given at construction. The tables built once are parameters: the checksum holds for every polynomial and every table made from it.
- Go's `int` counters and sizes in the radix tree and the flame graph are unbounded integers.
- Spare capacity behind a decoded string: where Go reslices a too short buffer up to its capacity, the model fails.
- RdbDecoder.ReadZipListBuf: a buffer under ten bytes is a failure; in Go it can be the front of a larger array made by decompression, and then reads as an empty list.
- RdbDecoder.ReadZipHashBuf: a buffer under ten bytes is a failure, where Go can read such an array as an empty map.
- RdbDecoder.ReadIntSetBuf: a buffer under eight bytes is a failure, where Go can read on into such an array.
- `genKey`, `parseNodeKey` and `split` are not modelled: words and paths are given.
- `ObjectToCmd`: which command an object becomes; the RESP layer takes the commands.
- Lzf.Compress: not defined on one-byte inputs, where the original indexes out of range, nor on inputs of 2^32 bytes and more; its callers only pass longer and shorter ones.
- ListPack.EncLpString: strings of 2^32 - 5 bytes and more, whose lengths would wrap, are excluded from listpacks.
- RdbDecoder.Decoder.ReadObject: the type bytes of sorted sets, streams, zipmaps, modules and of the listpack and quicklist 2 encodings read as failures.
- RdbDecoder.Decoder.OnByte: the same, and the opcode of module data reads as a failure.
- RdbDecoder.Decoder.ParseLoop: the same, on files that hold such objects or opcodes.
- RdbDecoder.Decoder.Parse: the same, on files that hold such objects or opcodes.
- Hashes.ZipHashRoundTrip: for one order the condition on the entries is enough but not needed for the map, as ZipHashes.OneOrderSaves shows; over all orders ZipHashes.EveryOrderIff is exact.
- Lists.QuickListRoundTrip: looks at one value at a time and leaves out zero runs; Lists.QuickListRoundTripIff is exact.
- Objects.ObjectRoundTrip: asks for what holds in every order of a map; Objects.ObjectRoundTripIff is exact for the order taken.
- Objects.ObjectRoundTripIff: for a ziplist hash in one given order the condition is the reading itself; Objects.EveryHashIff has a checkable one over all orders.
- RdbFile.FileRoundTrip: asks for what holds in every order of the maps; RdbFile.FileRoundTripIff is exact for the orders taken.
