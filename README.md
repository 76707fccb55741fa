# revision: a chunk-hash delta encoder and its decoder, in Dafny

`revision.cpp` computes a revision: a script that turns an old content into a
new content. `createRevision` indexes every 8-byte chunk of the old content in
a hash table of 10007 buckets, keyed by the djb2 hash `hashString`. It then
walks the new content and emits two kinds of instruction:

- `#pos,len` copies the longest match it finds through the index;
- `+<d>bytes<d>` is a literal, framed by '/' or, when the literal holds a
  '/', by ';'.

`revise` reads such a script back against the old content. It writes the new
content on success and returns false on a malformed script or an
out-of-range copy.

The model, file by file:

- `bytes.dfy`: bytes as `0..255`, the ASCII constants of the format, `Option`.
- `hashing.dfy`: `Hash`, the djb2 fold modulo 2^64 as a function, and
  `HashString`, the loop of `hashString` with the shift written out, proved
  equal to it.
- `chunk_index.dfy`: the class `HashTable`, whose field `table` is a sequence
  of buckets that `Insert` reassigns. `GetPositions` is the filtering loop.
  `IndexedBucket` and `Offsets` say what the table holds once the build loop
  has run, and what a lookup then answers.
- `instructions.dfy`: the instruction datatype, the bytes the encoder writes
  (`Serialize`), and the reader (`Parse`). The reader walks an index over the
  script as `revise` does. It is proved to read back every script that
  `Serialize` writes from instructions whose literals can be framed, that is,
  lack '/' or lack ';'.
- `decoder.dfy`: `Apply` and `Decode` as functions, and `Revise`, the loop of
  `revise`, proved to compute `Decode`.
- `encoder.dfy`: the step the main loop takes at an offset, as written
  (`StepAsWritten`) and with the literal scan taking at least one byte
  (`EncodeStep`). `Encode` walks the table of steps. `CreateRevision` builds
  the index and runs the loop, and is proved to write `Serialize(Encode(..))`.
  The round trip `Decode(old, Serialize(Encode(old, new))) == Some(new)` is
  proved for every new content whose literals can be framed.
- `encoder_facts.dfy`: encoding a content against itself, encoding against a
  short old content, and the three findings below.

`runtest` asserts that `revise` succeeds on the script `createRevision` has
just written, and that it gives back the new content (revision.cpp:215 and
226-231). The code as written departs from that intent in three places. The
model states each one as written, then proves its results about the intended
behaviour (see the findings):

- The main loop is meant to move on after every instruction. After a lookup
  whose candidates match no byte, the literal scan starts at the current
  offset. It looks up the same chunk again and stops there at once
  (`StallRepeats`). `StepAsWritten` is that step.
  `EncodeStep` scans from the next offset, so it always takes a byte, and
  `Encode` walks it. The two agree wherever the loop makes progress
  (`StepsAgree`). `CreateRevision` is proved for every input on which each
  offset the loop visits makes progress.
- The build loop is meant to index the full chunks of the old content. Below
  8 bytes, its bound wraps around and `substr` throws at revision.cpp:65
  (`ShortOldOverrun`). `BuildIndex`, and with it `Encode` and
  `CreateRevision`, index no chunk there, and the new content becomes one
  literal.
- A revision is meant to read back whole. A literal holding both '/' and ';'
  does not (`UnframableLiteralBreaks`). `RoundTrip` is proved for framable
  literals, and `FramedRoundTrip` for a corrected framing.

## Model

| member | source | states |
|---|---|---|
| Hashing.Hash | revision.cpp:14-20 | the hash fits in a 64-bit unsigned long |
| Hashing.HashRange | revision.cpp:14-20 | folding the bytes of a range in place stays a 64-bit value |
| Hashing.HashRangeIsHash | revision.cpp:14-20 | folding the bytes of a range in place gives the hash of that slice |
| Hashing.ShiftAddIsTimes33 | revision.cpp:17 | `(h << 5) + h + c` in 64-bit unsigned arithmetic is `h * 33 + c` modulo 2^64 |
| Hashing.HashString | revision.cpp:14-20 | the loop returns the djb2 hash of the chunk, seeded with 5381, modulo 2^64 |
| ChunkIndex.Matching | revision.cpp:44-48 | every offset kept comes from an entry of the bucket with that full hash; no more offsets than entries |
| ChunkIndex.MatchingConcat | revision.cpp:44-48 | the filter keeps bucket order: filtering a concatenation is concatenating the filtered parts |
| ChunkIndex.MatchingComplete | revision.cpp:44-48 | every entry of the bucket with the full hash has its offset in the result |
| ChunkIndex.HashTable.constructor | revision.cpp:28-30 | 10007 buckets, all empty |
| ChunkIndex.HashTable.Insert | revision.cpp:33-36 | appends (hash, position) to bucket hash mod 10007, leaves every other bucket unchanged, and keeps each entry in its hash's bucket |
| ChunkIndex.HashTable.GetPositions | revision.cpp:39-51 | the positions of the entries of the chunk's bucket whose full hash is the chunk's, in insertion order |
| ChunkIndex.Offsets | revision.cpp:59-67 | each offset it lists is below the bound and its chunk has the given hash |
| ChunkIndex.BucketEntries | revision.cpp:64-67 | after the build loop, each entry of a bucket records an indexed offset with the full hash of its chunk, and that hash selects the bucket |
| ChunkIndex.OffsetsComplete | revision.cpp:59-67 | every indexed offset whose chunk has the hash is listed |
| ChunkIndex.OffsetsAscending | revision.cpp:64-67 | the offsets come out strictly ascending, since the build loop inserts left to right |
| ChunkIndex.IndexedLookup | revision.cpp:39-67 | looking a hash up in the bucket the build loop fills gives exactly the offsets whose chunk has that hash |
| ChunkIndex.LookupInIndex | revision.cpp:76 | a lookup in a table that indexes the old content answers with the offsets of the old chunks that share the hash |
| Instructions.Decimal | revision.cpp:94 | a number is printed as at least one digit; as exactly one digit iff it is below 10 |
| Instructions.DecimalRoundTrip | revision.cpp:131-133 | accumulating `v * 10 + digit` over a printed number gives the number back |
| Instructions.DigitsValueZero | revision.cpp:131-133 | a digit run accumulates to 0 iff every digit in it is '0' |
| Instructions.DigitsEnd | revision.cpp:131-133 | the digit run from `i` ends at the first non-digit or at the end of the script |
| Instructions.Find | revision.cpp:147-149 | the scan stops at the first delimiter at or after `i`, or at the end of the script |
| Instructions.Delimiter | revision.cpp:106-112 | the delimiter is '/' iff the literal holds no '/', otherwise ';' |
| Instructions.DelimiterNotInFramable | revision.cpp:106-112 | a literal lacking '/' or lacking ';' never holds its own delimiter |
| Instructions.SerializeInstr | revision.cpp:94-113 | an instruction is written as at least two bytes, starting with '#' for a copy and '+' for a literal |
| Instructions.Serialize | revision.cpp:72-114 | the script is empty iff there are no instructions |
| Instructions.SerializeCons | revision.cpp:72-114 | writing an instruction in front writes its bytes in front of the rest |
| Instructions.SerializeSnoc | revision.cpp:72-114 | writing one more instruction appends its bytes to the script |
| Instructions.ParseInstrAt | revision.cpp:126-155 | an instruction that is read takes at least one byte and ends within the script |
| Instructions.ParseCopyAt | revision.cpp:127-139 | a written `#pos,len` followed by a non-digit reads back as that copy, ending right after it |
| Instructions.ParseAddAt | revision.cpp:142-152 | a written framable literal reads back as that literal, ending right after its closing delimiter |
| Instructions.ParseFromLength | revision.cpp:126-156 | reading from `i` yields at most one instruction per byte left in the script |
| Instructions.Parse | revision.cpp:126-156 | the empty script reads as no instructions, and a script never reads as more instructions than it has bytes |
| Instructions.ParseSerializeAt | revision.cpp:126-156 | a script that holds written framable instructions followed by a non-digit reads as those instructions, then as the rest |
| Instructions.RoundTripFormat | revision.cpp:126-156 | reading a script written from framable instructions gives back exactly those instructions |
| Decoder.Step | revision.cpp:140-151 | a copy succeeds iff `pos + len` is within the old content, and gives that slice; a literal gives its bytes |
| Decoder.Apply | revision.cpp:126-156 | applying a list of instructions succeeds iff each of its instructions can be applied |
| Decoder.Decode | revision.cpp:117-161 | `revise` succeeds iff the script reads and every instruction in it can be applied, that is, every copy lies within the old content |
| Decoder.ApplyConcat | revision.cpp:126-156 | applying two scripts in a row is applying their concatenation; a failure in either fails the whole |
| Decoder.StepFails | revision.cpp:140 | an instruction that cannot be applied, such as a copy out of range, fails the whole decode, whatever follows it |
| Decoder.ReadFails | revision.cpp:134 | a malformed instruction makes the whole script unreadable |
| Decoder.EmptyRevision | revision.cpp:126 | the empty revision succeeds with the empty content |
| Decoder.UnknownTagFails | revision.cpp:153-154 | a byte other than `#` or `+` where an instruction starts fails the revision, whatever was read before it |
| Decoder.MissingCommaFails | revision.cpp:134 | a copy whose offset digits run to the end or are followed by a byte other than `,` fails the revision |
| Decoder.TrailingPlusFails | revision.cpp:144 | a `+` that is the last byte of the revision fails it, for want of a delimiter |
| Decoder.UnclosedLiteralFails | revision.cpp:146-150 | a literal whose delimiter does not occur again after it fails the revision |
| Decoder.ReadExamples | revision.cpp:128-141 | `#,5` reads both empty numbers as 0 and copies the first five bytes; `#5,1000` against ten bytes is out of range; `+`, `#5` and `X` are malformed |
| Decoder.ReadNumber | revision.cpp:131-133 | returns the digit run at `i`, with the value accumulated over it and the index after it |
| Decoder.ReadCopy | revision.cpp:128-139 | succeeds with the copy the reader reads at `start`, or fails exactly when the comma is missing |
| Decoder.ReadLiteral | revision.cpp:142-152 | succeeds with the literal the reader reads at `start`, or fails exactly when the delimiter or the closing delimiter is missing |
| Decoder.ReviseStep | revision.cpp:127-155 | on success, returns the instruction read at `i` and the bytes it rebuilds; on failure, the instruction is malformed or cannot be applied |
| Decoder.Revise | revision.cpp:117-161 | returns true iff the script decodes against the old content; then it writes exactly the decoded content, and otherwise nothing |
| Encoder.ChunkEnd | revision.cpp:73 | the chunk at `i` is 8 bytes, or cut short at the end of the new content |
| Encoder.Candidates | revision.cpp:73-76 | every offset the lookup at `i` returns starts a full chunk of the old content whose hash is that of the new content's chunk at `i` |
| Encoder.CandidateTable | revision.cpp:72-76 | one lookup answer per offset of the new content |
| Encoder.MatchAt | revision.cpp:82-85 | the match stays within both contents and stops at the first mismatch or at an end |
| Encoder.MatchAgrees | revision.cpp:83 | the bytes a match covers are equal on both sides |
| Encoder.MatchSelf | revision.cpp:82-85 | a content matched against itself at the same offset matches to its end |
| Encoder.Longest | revision.cpp:79-90 | the kept match is at least as long as every candidate's; a kept offset is a candidate with that match; -1 when nothing matched |
| Encoder.LongestIsLeftmost | revision.cpp:86-89 | with ascending candidates, the strict comparison keeps the smallest offset among the longest matches |
| Encoder.LongestCopyRebuilds | revision.cpp:93-96 | the copy of the longest match rebuilds exactly the bytes of the new content it covers |
| Encoder.LiteralEnd | revision.cpp:101-104 | the literal scan stops at the first offset whose lookup finds candidates, or at the end; every offset before it found none |
| Encoder.StepAsWritten | revision.cpp:72-114 | the instruction the loop emits at `i` as written stays within the new content and rebuilds exactly the bytes it covers |
| Encoder.EncodeStep | revision.cpp:72-114 | with the literal scan starting past `i`, the instruction covers at least one byte and rebuilds exactly the bytes it covers |
| Encoder.EncodeStepChoice | revision.cpp:77-105 | a copy is of a candidate and at least as long as every candidate's match; a literal is emitted only when no candidate matches a byte, and runs to the next offset with candidates |
| Encoder.StepTable | revision.cpp:72-114 | the steps at all offsets tile the new content and each rebuilds the bytes it covers |
| Encoder.Walk | revision.cpp:72-114 | from `i`, the loop emits at most one instruction per byte left, the first being the step at `i` |
| Encoder.Encode | revision.cpp:54-115 | at most one instruction per byte of the new content, and none iff the new content is empty |
| Encoder.VisitedBounds | revision.cpp:72 | every offset the loop visits lies within the new content |
| Encoder.VisitedNext | revision.cpp:72-114 | the loop visits the offset where the instruction at a visited offset ends, unless that is the end of the new content |
| Encoder.StallRepeats | revision.cpp:100-105 | where the loop makes no progress, the step as written is the empty literal, so the loop stays at that offset |
| Encoder.StepsAgree | revision.cpp:100-105 | wherever the loop makes progress, the step as written and the corrected step are the same |
| Encoder.WalkApplies | revision.cpp:72-114 | applying the instructions emitted from `i` rebuilds the new content from `i` on |
| Encoder.EncodeApplies | revision.cpp:54-115 | applying the encoder's instructions to the old content gives the new content |
| Encoder.LiteralsAreSlices | revision.cpp:105 | a byte missing from the new content is missing from every literal |
| Encoder.WalkFramable | revision.cpp:105-113 | a new content lacking '/' or lacking ';' gives only framable literals |
| Encoder.RoundTrip | revision.cpp:54-161 | revising the old content with the script created from it gives back the new content, whenever every literal is framable |
| Encoder.RoundTripFramable | revision.cpp:54-161 | the round trip holds for every new content that lacks '/' or lacks ';' |
| Encoder.BuildIndex | revision.cpp:59-67 | a fresh table holding the chunk at every offset that starts a full chunk of the old content |
| Encoder.ExtendMatch | revision.cpp:82-85 | the loop reaches the match length of the candidate |
| Encoder.FindLongestMatch | revision.cpp:79-90 | the loop over the positions ends with the longest match and its offset |
| Encoder.ChooseDelimiter | revision.cpp:106-112 | the loop picks '/' unless the literal holds a '/', then ';' |
| Encoder.IndexAnswersTable | revision.cpp:73-76 | a table that indexes the old content answers every offset of the new content with its candidates |
| Encoder.CreateRevision | revision.cpp:54-115 | on contents where no offset the loop visits stalls it, writes the script of the encoder's instructions |
| Encoder.WriteInstructions | revision.cpp:69-114 | given progress at every offset it visits, the main loop writes the script of the walk from offset 0 |
| Encoder.WriteStep | revision.cpp:72-114 | one pass emits the step as written at `i`, writes its bytes and moves on by its width (at a stall, the empty literal `+//` of width 0) |
| Encoder.ScanLiteral | revision.cpp:101-104 | the scan stops where the literal ends |
| EncoderFacts.SelfEncode | revision.cpp:54-115 | a content of at least 8 bytes encoded against itself is one copy of all of it from offset 0 |
| EncoderFacts.ShortOldNoCandidates | revision.cpp:76 | with an old content shorter than a chunk, no lookup finds candidates |
| EncoderFacts.ShortOldAllLiteral | revision.cpp:100-113 | against an old content shorter than a chunk, a non-empty new content is one literal holding all of it |
| EncoderFacts.NoCandidatesAllLiteral | revision.cpp:100-113 | when no lookup finds candidates, a non-empty new content is one literal holding all of it, and the loop never stalls |
| EncoderFacts.BuildBound | revision.cpp:61-64 | the bound `oldSize - 8` in `size_t` is the difference from 8 bytes on, and below 8 bytes wraps to 2^64 minus the shortfall |
| EncoderFacts.ShortOldOverrun | revision.cpp:64-65 | below 8 bytes the wrapped bound lies past the end of the old content, so `substr` is reached with a position beyond it |
| EncoderFacts.BuildBoundAgrees | revision.cpp:64 | from 8 bytes on, the loop visits exactly the offsets that BuildIndex indexes |
| EncoderFacts.CollidingHashes | revision.cpp:14-20 | the two chunks `Ad AAAAAA` and `BC AAAAAA` share their djb2 hash |
| EncoderFacts.CollidingCandidates | revision.cpp:76-90 | the lookup of the colliding chunk finds old offset 0, and no candidate matches a byte |
| EncoderFacts.CollisionStallsEncoder | revision.cpp:77-113 | as written, the step at offset 0 of the colliding content is the empty literal `+//`, which does not move the loop on |
| EncoderFacts.ZeroChunkMisses | revision.cpp:73-76 | against a chunk of eight zero bytes, neither lookup for the new content `/;` finds candidates |
| EncoderFacts.UnframableLiteralBreaks | revision.cpp:106-113 | as written, against eight zero bytes the new content `/;` is one literal framed by ';', the loop does not stall, and revising the script fails |
| EncoderFacts.Singles | revision.cpp:106-113 | one literal per byte gives literals that are all framable |
| EncoderFacts.SinglesApply | revision.cpp:106-113 | one literal per byte rebuilds the same bytes |
| EncoderFacts.FrameLiteralsFramable | revision.cpp:106-113 | after the corrected framing every literal is framable |
| EncoderFacts.FrameLiteralsApply | revision.cpp:106-113 | the corrected framing changes how literals are cut, not what they rebuild |
| EncoderFacts.FramedRoundTrip | revision.cpp:54-161 | with the corrected framing the round trip holds for every old and new content |

## Left out

- Streams: `createRevision` and `revise` read and write `istream` and
  `ostream`. The model takes the contents as byte sequences and returns what
  is written. `Revise` returns nothing written on failure, as `revise` writes
  only after the whole script is read.
- `runtest` and `main` (revision.cpp:171 on) are file handling and test
  driving; they are not part of this model.
- Signed `char`: bytes are `0..255`. On a platform where `char` is signed,
  `hashString` adds bytes above 127 as negative values, and `isdigit` sees
  them negative. Neither is modelled.
- Decoder.ReadNumber: `pos` and `len` are unbounded naturals. The `int`
  overflow of `pos * 10 + digit` on long digit runs is not modelled. Neither
  is the overflow of `pos + len`, nor the guard `pos < 0 || len < 0`, which
  naturals make vacuous.
- Encoder.CreateRevision: requires that every offset the loop visits makes
  progress. At the first visited offset that does not, the loop as written
  writes `+//` and stays there for ever (`StallRepeats`), so there is no
  result to model (see the findings).
- Encoder.BuildIndex: indexes the offsets that start a full chunk. An old
  content shorter than a chunk makes the loop as written throw
  `out_of_range` from `substr`; this is shown by `ShortOldOverrun` and not
  modelled in the method.
- Encoder.RoundTrip: requires every literal to be framable, as the code only
  escapes '/'. `UnframableLiteralBreaks` shows the failing case.
- The `int`/`size_t` mix of the offsets in `createRevision` is modelled as
  naturals. Contents are taken to be shorter than 2^31 bytes.
- Memory exhaustion and other exceptions of the standard library are not
  modelled.

## Findings

| source | as written | input that shows it | evidently intended | confidence | as-written member | corrected member |
|---|---|---|---|---|---|---|
| revision.cpp:64 | the bound `oldSize - CHUNK_SIZE` is computed in `size_t`, so an old content below 8 bytes wraps it, and `substr` is reached with a position past the end | an old content of 4 bytes, such as `AAAA` | no chunk is indexed and the new content is one literal | high (not executed) | EncoderFacts.ShortOldOverrun | EncoderFacts.ShortOldAllLiteral |
| revision.cpp:102 | after a lookup that finds candidates but no match of even one byte, the literal scan starts at the same offset, stops at once, writes `+//` and leaves the loop where it was | old `Ad` followed by six `A`, new `BC` followed by six `A` (33 * 'A' + 'd' == 33 * 'B' + 'C') | the literal takes at least the byte at the current offset | high (not executed) | EncoderFacts.CollisionStallsEncoder | Encoder.EncodeStep |
| revision.cpp:106-113 | a literal holding both '/' and ';' is framed by ';', which `revise` takes as the end of the literal | old content of eight zero bytes, new content `/;` | every literal reads back whole | high (not executed) | EncoderFacts.UnframableLiteralBreaks | EncoderFacts.FramedRoundTrip |
