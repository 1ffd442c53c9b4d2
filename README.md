# Matroska, AVI and MPEG video metadata readers of TagLib, in Dafny

This project models the readers that TagLib's extended video support uses to
get metadata out of three container formats. It proves properties of each one.

- **Matroska**: the files are EBML documents. EBML (RFC 8794) is a binary tree
  format in which every element is an ID, a size and a payload, and the first
  two are variable-length integers ("VINTs").
  - `EBMLReader` decodes one element header. It also checks the header against
    the ID and size that an index claimed for it.
  - `EBMLElement` gives a payload as a string or as an unsigned integer.
  - `Matroska::File` does the rest of the work:
    - it finds the 0x1A lead byte and walks the top-level elements;
    - it accepts the EBML header only when its DocType is "matroska";
    - it resolves the top-level children of each Segment through the SeekHead
      index, falling back to one linear scan;
    - it builds the `Properties` (the length), the collection of `Tag`s with
      their `SimpleTag`s, and the "unified" tag that merges the COLLECTION and
      MOVIE tags.
  - `Matroska::Tag` answers look-ups in its own SimpleTags and in those of its
    parent tags. A tag's parent is the nearest earlier tag of the collection
    that covers all of its UIDs.
- **AVI** (`RIFF::AVI::Properties`): the length comes from the main AVI header
  (`avih`) inside an `hdrl` LIST chunk. The header's HASINDEX flag repairs a
  RIFF parse that failed on an unnamed index chunk.
- **MPEG program streams** (`MPEG_VIDEO::File`):
  - the start time is the system clock reference (SCR) of the first pack
    header. It follows ISO/IEC 11172-1 section 2.4.3.2 for MPEG-1 and
    ISO/IEC 13818-1 section 2.5.3.3 for MPEG-2;
  - the walk over packets is capped at 100 steps;
  - the average bit rate comes from the bit_rate field of the first sequence
    header.

How the source's entities are represented:

- **Files** are immutable byte sequences (`seq<byte>`). `seek` followed by
  `readBlock` is a clamped slice (`Bytes.Take`).
- **Value types and pointers**: an EBMLReader, which the source copies by value
  into vectors, is the datatype `EbmlReader.Element`. Objects that the source
  updates in place through pointers or references are classes:
  - `MatroskaFile.Document`, `MatroskaTags.Tag`, `SimpleTags.SimpleTag`;
  - `MatroskaProperties.Properties`, `AviProperties.Properties`,
    `AviProperties.RiffFile`;
  - `MpegVideo.File`.
- **Specifications**: each reader method is proved against a function of the
  file image and the old state, for example `MatroskaFile.FileEffect` and
  `MpegVideo.Walk`. The lemmas state what the source promises about those
  functions.
- **Loops**: a loop of the source is a `while` loop with invariants. Every walk
  over an element's children is `EbmlWalk.ChildrenFrom`.

Integer widths are modelled where they matter:

- 64-bit `size()` and SeekPosition arithmetic;
- the 32-bit unsigned Matroska length;
- the `-1u` sentinel of `readLeadText`;
- the `static_cast<int>` of the AVI length and the truncating C++ division;
- the 18-bit MPEG bit_rate field.

## Model

| member | source | states |
|---|---|---|
| EbmlElement.GetString | taglib/matroska/ebmlelement.cpp:18-26 | the string is the payload up to its first NUL: no character of it is NUL, it is a prefix of the payload, and the payload byte after it, if any, is NUL |
| EbmlElement.GetUInt | taglib/matroska/ebmlelement.cpp:28-31 | 0 for an empty payload, the big-endian value of a payload of up to four bytes, and always below 2^32 |
| EbmlElement.GetStringIgnoresPadding | taglib/matroska/ebmlelement.cpp:18-24 | NUL padding after NUL-free text is cut off: the string is exactly the text |
| EbmlElement.GetStringWithoutNul | taglib/matroska/ebmlelement.cpp:25 | a payload without a NUL becomes a string as a whole |
| EbmlElement.GetUIntRoundTrip | taglib/matroska/ebmlelement.cpp:28-31 | getUInt recovers any value from its big-endian encoding in one to four bytes |
| EbmlReader.Size | taglib/matroska/ebmlreader.cpp:39-42 | size() is header length plus data size reduced modulo 2^64, and equals the exact sum whenever that sum fits |
| EbmlReader.FirstSetBit | taglib/matroska/ebmlreader.cpp:193-209 | the marker position of a VINT's first byte: 9 exactly for a zero byte, and otherwise the byte lies between the marker mask and twice it |
| EbmlReader.VintLength | taglib/matroska/ebmlreader.cpp:193-209 | the value getVINTLength answers: -1 without data, otherwise the first set bit capped at maxSize + 1. GetVintLength proves the loop equal to it |
| EbmlReader.GetVintLength | taglib/matroska/ebmlreader.cpp:193-209 | the scanning loop returns -1 for no data; otherwise it returns the position of the most significant set bit capped at maxSize + 1, and the mask of that position |
| EbmlReader.IdVint | taglib/matroska/ebmlreader.cpp:134-150 | an ID field is one to four bytes with a value below 2^32; a first byte below 0x10, which declares more than four bytes, yields no ID |
| EbmlReader.SizeWidth | taglib/matroska/ebmlreader.cpp:156-159 | a size field is one to eight bytes wide; a zero first byte, which has no marker, counts as a one-byte field |
| EbmlReader.ClearMarker | taglib/matroska/ebmlreader.cpp:161 | clearing the marker takes the marker bit's value off the first size byte, and a zero byte, which has no marker, stays zero |
| EbmlReader.SizeVint | taglib/matroska/ebmlreader.cpp:152-169 | a size field decodes exactly when its first byte exists; it is one to eight bytes wide and its value is below 2^64 |
| EbmlReader.IsAbstract | taglib/matroska/ebmlreader.cpp:188-191 | a reader is abstract while its data offset still equals its offset, that is before its header has been decoded |
| EbmlReader.Decoded | taglib/matroska/ebmlreader.cpp:177-183 | assigning the decoded fields keeps the reader's offset, bound and validity, and puts the payload right after the two fields |
| EbmlReader.DecodedElem | taglib/matroska/ebmlreader.cpp:169-183 | the reader with the decoded ID and size, the data right after the header, and an unknown size resolved against the bound. Offset, bound and validity are kept |
| EbmlReader.Consistent | taglib/matroska/ebmlreader.cpp:179-183 | the verdict: the declared ID, when non-zero, equals the decoded one, and the declared size(), when non-zero, equals the decoded one |
| EbmlReader.Read | taglib/matroska/ebmlreader.cpp:113-186 | read() succeeds without change on a decoded reader. It fails without change at an offset at or past length - 1, and when the first byte declares an ID longer than four bytes. A header it decodes takes 2 to 12 bytes. On success the reader has changed and agrees with every non-zero declared ID and size |
| EbmlReader.ReadIdField | taglib/matroska/ebmlreader.cpp:134-150 | reading the header byte and the rest of the ID field yields IdVint |
| EbmlReader.ReadSizeField | taglib/matroska/ebmlreader.cpp:152-169 | reading the size byte, clearing its marker and reading the rest yields SizeVint |
| EbmlReader.ReadHeader | taglib/matroska/ebmlreader.cpp:113-186 | the step-by-step read() gives the same reader and verdict as the specification Read |
| EbmlReader.DecodeHeader | taglib/matroska/ebmlreader.cpp:129-185 | the decoding half of read(), on an undecoded reader inside the file, agrees with Read |
| EbmlReader.AssignFields | taglib/matroska/ebmlreader.cpp:169-185 | the field assignments and the consistency check agree with Decoded |
| EbmlReader.ReadIsDecoded | taglib/matroska/ebmlreader.cpp:129-185 | when both fields decode, read() is the assignment of their values followed by the consistency check |
| EbmlReader.Open | taglib/matroska/ebmlreader.cpp:7-16 | the top-level constructor places the reader at the position, bounded by the file length |
| EbmlReader.Child | taglib/matroska/ebmlreader.cpp:18-27 | the child constructor places the reader at the position, bounded by the end of the parent |
| EbmlReader.ReadBytes | taglib/matroska/ebmlreader.cpp:61-74 | nothing for an empty element, the payload bytes when they are all in the file, and never more than the data size |
| EbmlReader.ReadUInt | taglib/matroska/ebmlreader.cpp:76-85 | 0 for an empty element, the big-endian payload value for a payload of up to four bytes, and always below 2^32 |
| EbmlReader.ReadString | taglib/matroska/ebmlreader.cpp:49-59 | "" for an empty element, and otherwise getString of the payload: the text before its first NUL, or the whole payload when it holds none |
| EbmlReader.ReadStringCutsAtNul | taglib/matroska/ebmlreader.cpp:49-59 | a payload whose first NUL is at k reads as exactly its first k bytes |
| EbmlReader.SizeVintRoundTrip | taglib/matroska/ebmlreader.cpp:152-169 | the size decoder recovers any value from its VINT encoding of any width that can hold it |
| EbmlReader.IdVintRoundTrip | taglib/matroska/ebmlreader.cpp:134-150 | an ID field whose marker matches its length decodes to its big-endian value, marker bit included |
| EbmlReader.ReadEncodedHeader | taglib/matroska/ebmlreader.cpp:113-186 | reading a well-formed encoded ID and a known size yields exactly that ID, data offset and size. The read succeeds if and only if both agree with the declared ID and size, each check applying only when the declared value is non-zero |
| EbmlReader.ReadKnownSize | taglib/matroska/ebmlreader.cpp:169-183 | once both fields have decoded with a known size, the reader carries their values, and the verdict is exactly the consistency check |
| EbmlReader.DecodedKnownSize | taglib/matroska/ebmlreader.cpp:177-183 | with a known size, the decoded reader holds the values as read, and the verdict is the agreement with the declared ID and size |
| EbmlReader.ReadUnknownSize | taglib/matroska/ebmlreader.cpp:171-176 | a size byte 0xFF means "unknown": the payload then runs to the end of the parent, or of the file for a top-level element |
| EbmlReader.ReadZeroSizeByte | taglib/matroska/ebmlreader.cpp:158-159 | a zero size byte is read as a one-byte size of value 0, so the element is empty |
| EbmlReader.OneByteSize | taglib/matroska/ebmlreader.cpp:156-172 | a size byte 0xFF decodes as the all-ones value 0x7F, and 0x00 decodes as 0 |
| EbmlReader.ReadTwice | taglib/matroska/ebmlreader.cpp:115-117 | a second read() leaves the reader as the first left it, and it succeeds exactly when the first succeeded or changed the reader |
| EbmlWalk.ChildAt | taglib/matroska/matroskafile.cpp:184 | the child reader of a walk sits at the parent's data offset plus i |
| EbmlWalk.Walk | taglib/matroska/matroskafile.cpp:183-197 | the readers a child loop visits from offset i on: the reader at i, then the walk from i + size(), up to the end or after a reader of size 0. WalkLayout gives its layout |
| EbmlWalk.ChildrenFrom | taglib/matroska/matroskafile.cpp:183-197 | the children an element's loop visits from payload offset i on, in document order. ChildrenLayout and ChildrenStep state its layout and its unfolding |
| EbmlWalk.WalkLayout | taglib/matroska/matroskafile.cpp:183-197 | a walk is non-empty exactly when it starts before the end. Its readers lie inside the payload in increasing order, back to back, and only the last one may have size 0 |
| EbmlWalk.ChildrenLayout | taglib/matroska/matroskafile.cpp:183-197 | the children of an element lie inside its payload, in increasing offset order, back to back, and only the last may have size 0 |
| EbmlWalk.ChildrenStep | taglib/matroska/matroskafile.cpp:183-197 | one step of a child walk is the child at i followed by the walk from i + size() |
| EbmlWalk.NextChild | taglib/matroska/matroskafile.cpp:184-196 | one loop iteration of a child walk: the child at i, and a stop signal exactly when its size is 0. Otherwise the next i is larger, and the rest of the walk continues from it |
| EbmlWalk.ChildrenEnd | taglib/matroska/matroskafile.cpp:183 | a walk that starts at or past the data size visits nothing |
| EbmlWalk.WalkStuckPastEnd | taglib/matroska/matroskafile.cpp:183-196 | a child that starts at or past length - 1 while i is below the data size leaves i unchanged as written |
| EbmlWalk.WalkStuckOnTruncatedHeader | taglib/matroska/matroskafile.cpp:183-196 | the five-byte file 1A 45 DF A3 84 decodes as an EBML header with a 4-byte payload, and readHeader's loop never leaves i = 0 |
| MatroskaSegment.LeadOffset | taglib/matroska/matroskafile.cpp:154-176 | the index of the first 0x1A byte of the file. It is the sentinel -1u when there is none, and also when the only first 0x1A sits at offset 2^32 - 1 |
| MatroskaSegment.LeadSentinelCollides | taglib/matroska/matroskafile.cpp:168-173 | a file whose first 0x1A byte is at offset 2^32 - 1 gets the "missing" answer |
| MatroskaSegment.LeadOffsetIs | taglib/matroska/matroskafile.cpp:154-176 | the first 0x1A byte is what readLeadText answers |
| MatroskaSegment.LeadBlock | taglib/matroska/matroskafile.cpp:161-166 | each 64-byte block either holds the first 0x1A of the file or extends the 0x1A-free prefix |
| MatroskaSegment.TopLevel | taglib/matroska/matroskafile.cpp:118-151 | the top-level readers read() visits from an offset: EBMLReader(this, offset), then the one at offset + size(), to the end of the file or after a reader of size 0 (TopLevelStep) |
| MatroskaSegment.TopLevelStep | taglib/matroska/matroskafile.cpp:118-151 | the top-level walk is the element at the offset, then the walk from offset + size(), and it ends after an element of size 0 |
| MatroskaSegment.DocTypeAcceptedExactly | taglib/matroska/matroskafile.cpp:199-202 | the DocType is accepted if and only if it is "matroska"; "webm" is rejected |
| MatroskaSegment.LastDocType | taglib/matroska/matroskafile.cpp:183-197 | the DocType string after readHeader's loop: every DocType child overwrites it. LastDocTypeAppend and NoDocTypeKeeps state this |
| MatroskaSegment.LastDocTypeAppend | taglib/matroska/matroskafile.cpp:183-197 | the last DocType child decides: a later DocType replaces the string, and any other child leaves it |
| MatroskaSegment.NoDocTypeKeeps | taglib/matroska/matroskafile.cpp:180-202 | a header without a DocType child keeps the empty string |
| MatroskaSegment.DocTypeCons | taglib/matroska/matroskafile.cpp:186-196 | one step of readHeader's walk applies the first child, then continues |
| MatroskaSegment.ChildDecoded | taglib/matroska/ebmlreader.cpp:18-27 | a child reader is built with ID 0, so a non-zero ID means its header was decoded inside the file |
| MatroskaSegment.ApplySeekField | taglib/matroska/matroskafile.cpp:367-376 | a SeekID sets the entry's ID; a SeekPosition sets its position to the value plus the SeekHead's offset, modulo 2^64; any other child changes nothing |
| MatroskaSegment.SeekFieldsCons | taglib/matroska/matroskafile.cpp:362-379 | the inner loop over a Seek's children applies them in order |
| MatroskaSegment.InsertionPoint | taglib/matroska/matroskafile.cpp:385-391 | the backward scan stops one past the last entry whose offset is below the position. Every entry from there on has an offset at or above it |
| MatroskaSegment.Insert | taglib/matroska/matroskafile.cpp:392 | the insert adds exactly the new entry: the result is the old list plus it, as a multiset |
| MatroskaSegment.InsertLayout | taglib/matroska/matroskafile.cpp:385-392 | entries before the insertion point stay in place, the new entry lands there, and later entries shift by one |
| MatroskaSegment.InsertSorted | taglib/matroska/matroskafile.cpp:386-392 | inserting into a list sorted by offset keeps it sorted |
| MatroskaSegment.InsertFront | taglib/matroska/matroskafile.cpp:385-392 | the front of the list never moves to a larger offset |
| MatroskaSegment.InsertKeeps | taglib/matroska/matroskafile.cpp:385-392 | an insert loses no entry, keeps a sorted list sorted and never moves the front to a larger offset |
| MatroskaSegment.SeekEntries | taglib/matroska/matroskafile.cpp:348-406 | the walk over a SeekHead's children: CRC32 skipped, any non-Seek child a failure, and each Seek updating the persisting entry. SeekEntriesKeep states what it keeps |
| MatroskaSegment.SeekAdd | taglib/matroska/matroskafile.cpp:381-392 | after a Seek: a target entry gets a Segment child reader with its ID at its position, inserted by offset (SeekAddKeep, SeekTargetRule) |
| MatroskaSegment.SeekChain | taglib/matroska/matroskafile.cpp:394-400 | an entry for a SeekHead must read, and then that SeekHead is expanded into the list, its verdict ignored, at most depth levels deep (SeekChainKeep) |
| MatroskaSegment.SeekHeadRead | taglib/matroska/matroskafile.cpp:342-407 | readSeekHead: the walk over the SeekHead's children from an entry of ID 0 at position 0 (SeekHeadReadKeep) |
| MatroskaSegment.SeekEntriesKeep | taglib/matroska/matroskafile.cpp:348-406 | the whole SeekHead expansion, including the chained reads and early failures, loses no entry, keeps sortedness and never moves the front to a larger offset |
| MatroskaSegment.SeekAddKeep | taglib/matroska/matroskafile.cpp:381-401 | adding one Seek entry, with its chained read, keeps the list in the same sense |
| MatroskaSegment.SeekChainKeep | taglib/matroska/matroskafile.cpp:394-400 | a chained SeekHead read keeps the list in the same sense |
| MatroskaSegment.SeekHeadReadKeep | taglib/matroska/matroskafile.cpp:342-407 | readSeekHead keeps the list in the same sense |
| MatroskaSegment.SeekTargetRule | taglib/matroska/matroskafile.cpp:381 | a Seek entry of ID 0, of an ID negative as an int, or at position 0 adds nothing |
| MatroskaSegment.FirstChildAtStart | taglib/matroska/matroskafile.cpp:274-277 | the first child of a Segment sits at its data offset |
| MatroskaSegment.ScanChildren | taglib/matroska/matroskafile.cpp:274-331 | readSegments' loop from the current child. An invalid child ends it with failure, and a SeekHead that reads replaces the list. Every other child is kept, except the Clusters after the first. ScanWithoutIndex and KeptOneCluster state it |
| MatroskaSegment.SegmentList | taglib/matroska/matroskafile.cpp:268-333 | readSegments: the scan of all the Segment's children from an empty list |
| MatroskaSegment.Kept | taglib/matroska/matroskafile.cpp:278-329 | the linear scan's independent reference: the children up to the first invalid one, without the Clusters after the first. ScanWithoutIndex proves the scan equal to it |
| MatroskaSegment.ScanWithoutIndex | taglib/matroska/matroskafile.cpp:268-333 | the linear scan keeps the children up to the first invalid one, without the Clusters after the first, and its verdict is true if and only if every child was valid |
| MatroskaSegment.KeptOneCluster | taglib/matroska/matroskafile.cpp:309-312 | at most one Cluster survives the linear scan, and none once a Cluster has already been found |
| MatroskaFile.TopFold | taglib/matroska/matroskafile.cpp:118-151 | read()'s loop over the top-level readers: an invalid one marks the file invalid and ends it; an EBML header is checked and a Segment read (TopFoldCons, TopFoldAt, TopNeverRestores) |
| MatroskaFile.FileRun | taglib/matroska/matroskafile.cpp:108-152 | read(): invalid with nothing read when there is no 0x1A lead byte, and otherwise the top-level loop from it (NoLeadInvalid). Document.Read is proved against it |
| MatroskaFile.TopFoldCons | taglib/matroska/matroskafile.cpp:118-151 | read()'s loop applies a valid element and continues; an invalid element marks the file invalid and stops |
| MatroskaFile.TopFoldAt | taglib/matroska/matroskafile.cpp:118-151 | read()'s loop at an offset: it stops invalid, stops after an element of size 0, or applies the element and continues past it |
| MatroskaFile.TopFoldInvalid | taglib/matroska/matroskafile.cpp:121-128 | an element whose header does not decode marks the file invalid and ends the loop |
| MatroskaFile.TopFoldLast | taglib/matroska/matroskafile.cpp:130-150 | a valid element of size zero ends the loop after its effect |
| MatroskaFile.TopFoldNext | taglib/matroska/matroskafile.cpp:130-150 | any other valid element takes effect, and the loop continues just past it |
| MatroskaFile.PassKeepsValid | taglib/matroska/matroskafile.cpp:213-249 | the loop of readSegment never changes the file's valid flag |
| MatroskaFile.PassStep | taglib/matroska/matroskafile.cpp:218-248 | one child of readSegment's loop: SeekHead and CRC32 are only read; SegmentInfo and Tags are read and then processed; other IDs keep the verdict |
| MatroskaFile.RunPass | taglib/matroska/matroskafile.cpp:213-249 | readSegment's loop over the list, stopping at the first failing verdict (PassKeepsValid, PassKeepsTiming, EmptyOrForeignFails) |
| MatroskaFile.SegmentPass | taglib/matroska/matroskafile.cpp:208-249 | the list from readSegments, which may clear the valid flag, then the loop over it |
| MatroskaFile.SegmentEffect | taglib/matroska/matroskafile.cpp:205-266 | readSegment: the pass, and on failure the file marked invalid and, with retry, the collection cleared and one linear pass (SegmentNeverRestores, SegmentKeepsTiming) |
| MatroskaFile.SegmentNeverRestores | taglib/matroska/matroskafile.cpp:205-266 | readSegment never sets the file valid again, and a failed pass leaves it invalid, with or without the retry |
| MatroskaFile.EmptyOrForeignFails | taglib/matroska/matroskafile.cpp:212-249 | an empty list, or one whose first element is not a SeekHead, SegmentInfo, Tags or CRC32, fails and changes nothing |
| MatroskaFile.TopNeverRestores | taglib/matroska/matroskafile.cpp:108-152 | the valid flag of the whole read only ever goes from true to false |
| MatroskaFile.NoLeadInvalid | taglib/matroska/matroskafile.cpp:110-115 | a file without a 0x1A byte is invalid, and nothing is read from it |
| MatroskaFile.PassKeepsTiming | taglib/matroska/matroskafile.cpp:335-340 | once Properties exist, the loop of readSegment leaves them as they are |
| MatroskaFile.SegmentKeepsTiming | taglib/matroska/matroskafile.cpp:335-340 | once Properties exist, a whole readSegment, with its retry, leaves them as they are |
| MatroskaFile.TagsAppend | taglib/matroska/matroskafile.cpp:230-236 | the Tags case appends one tag per Tag child, keeps the tags already there, and sets a unified tag |
| MatroskaFile.Document.constructor | taglib/matroska/matroskafile.cpp:65-81 | opening a file reads it at once; the document then holds exactly what read() produces from the fresh state |
| MatroskaFile.Document.Save | taglib/matroska/matroskafile.cpp:98-101 | save() reports failure |
| MatroskaFile.Document.Read | taglib/matroska/matroskafile.cpp:108-152 | read() leaves the document in the state FileRun specifies: the lead byte, then the top-level walk and its effects |
| MatroskaFile.Document.ReadTopStep | taglib/matroska/matroskafile.cpp:119-150 | one loop pass: it either ends the walk with its final state, or moves to a larger offset from which the rest of the walk continues |
| MatroskaFile.Document.ReadTopElement | taglib/matroska/matroskafile.cpp:130-148 | the two switches of the loop apply exactly the element's effect: readHeader for an EBML header, readSegment for a Segment |
| MatroskaFile.Document.ReadSegment | taglib/matroska/matroskafile.cpp:205-266 | readSegment leaves the state SegmentEffect specifies: the indexed pass, and when it fails the file marked invalid, the tags cleared and one linear pass |
| MatroskaFile.Document.ReadSegmentPass | taglib/matroska/matroskafile.cpp:208-249 | readSegments followed by the loop gives the state and the verdict of SegmentPass |
| MatroskaFile.Document.ReadPass | taglib/matroska/matroskafile.cpp:213-249 | the loop over the list stops at the first failing verdict, with the state and verdict of RunPass |
| MatroskaFile.Document.PassChild | taglib/matroska/matroskafile.cpp:218-244 | the switch for one listed element: SeekHead and CRC32 read the element; SegmentInfo and Tags read it and, on success, are processed |
| MatroskaFile.Document.ReadTagsCase | taglib/matroska/matroskafile.cpp:231-235 | readTags followed by makeUnifiedTag gives the state of TagsEffect |
| MatroskaFile.Document.ReadSegmentInfo | taglib/matroska/matroskafile.cpp:335-340 | Properties are built from the first SegmentInfo only |
| MatroskaFile.Document.MakeUnifiedTag | taglib/matroska/matroskafile.cpp:547-581 | the new unified tag is a fresh tag of the collection whose fields are the merge of the collection's tags in order |
| MatroskaFile.Document.NewUnifiedTag | taglib/matroska/matroskafile.cpp:549-550 | the new tag read without SimpleTags keeps the initial fields; its map holds only the four looked-up keys, with empty lists |
| MatroskaFile.Document.UnifyInto | taglib/matroska/matroskafile.cpp:551-580 | the merge loop folds the tags of the collection into the unified tag, in order, and leaves its SimpleTags alone |
| MatroskaFile.Document.MergeInto | taglib/matroska/matroskafile.cpp:554-579 | the switch for one tag: COLLECTION and MOVIE tags merge their fields, and any other tag changes nothing |
| MatroskaFile.Document.ReadLeadText | taglib/matroska/matroskafile.cpp:154-176 | the block-by-block search returns the first 0x1A offset, or the -1u sentinel |
| MatroskaFile.Document.ReadDocType | taglib/matroska/matroskafile.cpp:180-197 | the walk over the header's children yields the last DocType string |
| MatroskaFile.Document.ReadHeader | taglib/matroska/matroskafile.cpp:178-203 | the file stays valid only if it was valid and its DocType is "matroska"; nothing else changes |
| MatroskaFile.Document.InsertEntry | taglib/matroska/matroskafile.cpp:385-392 | the sort loop and insert place the entry at the insertion point |
| MatroskaFile.Document.ReadSeekFields | taglib/matroska/matroskafile.cpp:362-379 | the inner loop over a Seek's children gives the entry SeekFields specifies |
| MatroskaFile.Document.ReadSeekHead | taglib/matroska/matroskafile.cpp:342-407 | readSeekHead returns the verdict and the expanded list of SeekHeadRead. CRC32 children are skipped. A non-Seek child fails, and so does a chained SeekHead that does not read |
| MatroskaFile.Document.AddSeekEntry | taglib/matroska/matroskafile.cpp:381-401 | one Seek entry: it is added when it is a target, with its chained read; the expansion continues from the following Seek |
| MatroskaFile.Document.ChainSeekHead | taglib/matroska/matroskafile.cpp:394-400 | a chained SeekHead fails when it does not read; otherwise it is read recursively, its verdict ignored |
| MatroskaFile.Document.ReadSegments | taglib/matroska/matroskafile.cpp:268-333 | the list is that of SegmentList. The file stays valid exactly when it was and the list was built without failure |
| MatroskaFile.Document.ScanChild | taglib/matroska/matroskafile.cpp:277-329 | one child of readSegments. An invalid child ends the scan. A SeekHead that reads replaces the list and ends it, and one that does not is kept. Only the first Cluster is kept, and every other child is kept |
| MatroskaFile.Document.ReadTargets | taglib/matroska/matroskafile.cpp:459-504 | the tag's target type and UIDs change only as ApplyTargets of the collected values says; its SimpleTags are untouched |
| MatroskaFile.Document.CollectTargets | taglib/matroska/matroskafile.cpp:461-495 | the loop collects the last TargetTypeValue, cut to 32 bits, and the non-zero UIDs, in order |
| MatroskaFile.Document.ReadSimpleTag | taglib/matroska/matroskafile.cpp:506-545 | the SimpleTag read from the element is appended to its key's list in the owning tag or SimpleTag, only for a non-empty key; nothing else of the owner changes |
| MatroskaFile.Document.SimpleTagChild | taglib/matroska/matroskafile.cpp:515-534 | the switch for one child: a nested SimpleTag is read into the current one, and any other child updates the key, value or binary flag |
| MatroskaFile.Document.ReadTagChildren | taglib/matroska/matroskafile.cpp:437-453 | the loop of readTag gives the fields and SimpleTags of TagFold over the children |
| MatroskaFile.Document.ReadTag | taglib/matroska/matroskafile.cpp:430-457 | readTag appends exactly one tag, the one built from the element, to the collection |
| MatroskaFile.Document.AppendTag | taglib/matroska/matroskafile.cpp:456 | push_back appends the tag and its record |
| MatroskaFile.Document.BuildTag | taglib/matroska/matroskafile.cpp:435-455 | a fresh tag of the collection, filled from the element's children and read |
| MatroskaFile.Document.ReadTags | taglib/matroska/matroskafile.cpp:409-428 | every Tag child is read in document order, and its tag is appended after the existing ones |
| MatroskaFile.Document.ReadTagsChild | taglib/matroska/matroskafile.cpp:416-424 | a Tag child appends its tag, and any other child appends nothing |
| MatroskaProperties.LengthOf | taglib/matroska/matroskaproperties.cpp:95 | the length is an unsigned 32-bit value. It is 0 when the time scale is below 10^6, and the exact product when that product fits |
| MatroskaProperties.Apply | taglib/matroska/matroskaproperties.cpp:91-108 | a Duration sets the duration and recomputes the length only once a time scale is set. A TimeCodeScale does the same with the two roles swapped. Other children change nothing |
| MatroskaProperties.Properties.constructor | taglib/matroska/matroskaproperties.cpp:49-53 | fields start at 0, and the children of the SegmentInfo are applied in order |
| MatroskaProperties.Properties.Read | taglib/matroska/matroskaproperties.cpp:84-113 | the loop applies the events of the children in document order |
| MatroskaProperties.Properties.ReadChild | taglib/matroska/matroskaproperties.cpp:88-111 | the switch applies one child's event |
| MatroskaProperties.Properties.Length | taglib/matroska/matroskaproperties.cpp:60-63 | length() is the length in whole seconds, rounded down |
| MatroskaProperties.Properties.Bitrate | taglib/matroska/matroskaproperties.cpp:65-68 | the bit rate is reported as 0 |
| MatroskaProperties.Properties.SampleRate | taglib/matroska/matroskaproperties.cpp:70-73 | the sample rate is reported as 0 |
| MatroskaProperties.Properties.Channels | taglib/matroska/matroskaproperties.cpp:75-78 | the channel count is reported as 0 |
| MatroskaProperties.OrderIndependent | taglib/matroska/matroskaproperties.cpp:91-105 | a non-negative Duration and a TimeCodeScale give the same fields in either order |
| MatroskaProperties.OrderMattersForNegativeDuration | taglib/matroska/matroskaproperties.cpp:92-103 | with duration -1 the order matters: Duration first gives length 0, and TimeCodeScale first gives 2^32 - 1 |
| MatroskaProperties.NoScaleNoLength | taglib/matroska/matroskaproperties.cpp:94-96 | without a TimeCodeScale child the length never changes |
| MatroskaProperties.LengthBounded | taglib/matroska/matroskaproperties.cpp:39-42 | whatever the children, the length stays an unsigned 32-bit value |
| MatroskaTags.MakeTargetType | taglib/matroska/matroskatag.cpp:40-57 | a raw value gives a target type exactly when it is one of 70, 60, 50, 40, 30, 20 and 10. The type then is the enum member of that level, whose value rounds down to the raw value; any other raw value gives 0 |
| MatroskaTags.FirstIndex | taglib/matroska/matroskatag.cpp:276 | std::find: the first index holding the element, or none exactly when it is absent |
| MatroskaTags.SearchBack | taglib/matroska/matroskatag.cpp:277-310 | the backward search only answers an entry before its starting point |
| MatroskaTags.ParentIndex | taglib/matroska/matroskatag.cpp:270-313 | a parent is found only for a tag in the collection, and it is an earlier tag |
| MatroskaTags.SearchBackCharacterized | taglib/matroska/matroskatag.cpp:277-310 | the backward search answers the nearest earlier entry covering all the UIDs, and none exactly when no earlier entry covers them |
| MatroskaTags.ParentIndexCharacterized | taglib/matroska/matroskatag.cpp:270-313 | getParent is the nearest earlier tag covering all of this tag's UIDs. It is none exactly when the tag is not in the collection, has no UIDs, or no earlier tag covers them |
| MatroskaTags.Outermost | taglib/matroska/matroskatag.cpp:230-235 | the ancestor climb ends at the tag itself or at an earlier tag |
| MatroskaTags.OutermostStep | taglib/matroska/matroskatag.cpp:230-235 | the ancestor climb ends at the tag itself when it has no parent, and otherwise where the climb from its parent ends |
| MatroskaTags.Join | taglib/matroska/matroskatag.cpp:251-256 | the values of a nested list separated by "; " (JoinFront); Tag.JoinValues builds it with the source's loop |
| MatroskaTags.JoinFront | taglib/matroska/matroskatag.cpp:251-256 | two or more nested values are joined with "; " between them, and none after the last |
| MatroskaTags.SingleNestedIsEmpty | taglib/matroska/matroskatag.cpp:248-249 | a single nested SimpleTag renders through the SimpleTag string conversion. That is "" for one without a base string, the only kind the reader creates |
| MatroskaTags.NestedString | taglib/matroska/matroskatag.cpp:242-258 | the string for one SimpleTag under a subkey: "" without nested tags, the single nested value's string, or the join of several (SingleNestedIsEmpty, JoinFront) |
| MatroskaTags.Rendered | taglib/matroska/matroskatag.cpp:237-266 | get() returns one string per SimpleTag of the resolved list |
| MatroskaTags.TouchNested | taglib/matroska/matroskatag.cpp:246-247 | the subkey pass keeps the length of the list |
| MatroskaTags.FirstOrRendered | taglib/matroska/matroskatag.cpp:158-166 | without a subkey, the first string of get() is the first value |
| MatroskaTags.ToUnsigned | taglib/matroska/matroskatag.cpp:207 | the int from toInt() stored in an unsigned int: below 2^32, and unchanged when already in range |
| MatroskaTags.TouchedByRead | taglib/matroska/matroskatag.cpp:149-156 | read() adds the keys TITLE, GENRE, ARTIST and PART_NUMBER to the map, and no lookup sees a change |
| MatroskaTags.TouchKeepsLookupsAll | taglib/matroska/matroskatag.cpp:228 | looking up a key with operator[] changes what no later lookup sees |
| MatroskaTags.LastOfType | taglib/matroska/matroskatag.cpp:211-223 | get(TargetType) answers a position inside the collection |
| MatroskaTags.LastOfTypeCharacterized | taglib/matroska/matroskatag.cpp:211-223 | get(TargetType) answers the last tag of that type, despite the "first match" comment, and none exactly when no tag has it |
| MatroskaTags.Tag.constructor | taglib/matroska/matroskatag.cpp:23-33 | the type is DEFAULT unless a non-zero one is given; the tag holds the one given UID, if any; all fields are empty |
| MatroskaTags.Tag.Comment | taglib/matroska/matroskatag.cpp:74-77 | the comment is always "" |
| MatroskaTags.Tag.Year | taglib/matroska/matroskatag.cpp:84-87 | the year is always 0 |
| MatroskaTags.Tag.SetTitle | taglib/matroska/matroskatag.cpp:94-97 | only the title changes |
| MatroskaTags.Tag.SetArtist | taglib/matroska/matroskatag.cpp:99-102 | only the artist changes |
| MatroskaTags.Tag.SetAlbum | taglib/matroska/matroskatag.cpp:104-107 | only the album changes |
| MatroskaTags.Tag.SetComment | taglib/matroska/matroskatag.cpp:109-112 | nothing changes |
| MatroskaTags.Tag.SetGenre | taglib/matroska/matroskatag.cpp:114-117 | only the genre changes |
| MatroskaTags.Tag.SetYear | taglib/matroska/matroskatag.cpp:119-122 | nothing changes |
| MatroskaTags.Tag.SetTrack | taglib/matroska/matroskatag.cpp:124-127 | only the track number changes |
| MatroskaTags.Tag.SetTargetType | taglib/matroska/matroskatag.cpp:129-132 | only the target type changes |
| MatroskaTags.Tag.SetElements | taglib/matroska/matroskatag.cpp:134-137 | only the UID list changes |
| MatroskaTags.Tag.AppendSimpleTag | taglib/matroska/matroskatag.cpp:139-142 | appending through the simpleTags() reference adds the SimpleTag at the end of its key's list in this tag; the fields are untouched |
| MatroskaTags.Tag.ParentIdx | taglib/matroska/matroskatag.cpp:270-313 | the parent is a tag of the collection placed before this one |
| MatroskaTags.Tag.Resolve | taglib/matroska/matroskatag.cpp:228-235 | the list get() renders: the own list of the key, or, when that is non-empty and the lookup is recursive, the list of the outermost ancestor (OutermostStep, ParentIndexCharacterized) |
| MatroskaTags.Tag.Get | taglib/matroska/matroskatag.cpp:225-268 | get(key, subkey, recursive) renders the resolved list. The own entry of the key ends as that list, its nested maps touched by the subkey. Other tags can only gain the key, and only when this tag has a parent. Fields, UIDs and the parent relation stay |
| MatroskaTags.Tag.ResolveOwnList | taglib/matroska/matroskatag.cpp:228-235 | the own entry ends as the resolved list: the own list, or, when recursive and non-empty, the list of the outermost ancestor |
| MatroskaTags.Tag.ClimbAbove | taglib/matroska/matroskatag.cpp:232-234 | the climb from an earlier parent copies the list of the end of its chain of parents into the own entry |
| MatroskaTags.Tag.Climb | taglib/matroska/matroskatag.cpp:232-234 | the loop over the ancestors leaves the list of the outermost one in the own entry, and other tags only gain the key |
| MatroskaTags.Tag.CopyFrom | taglib/matroska/matroskatag.cpp:233 | `mtags = tag->...[key]` overwrites the own entry with the other tag's list and adds the key there |
| MatroskaTags.Tag.RenderList | taglib/matroska/matroskatag.cpp:237-266 | the render loop yields Rendered of the own entry. With a subkey, it inserts the subkey into each element's non-empty nested map |
| MatroskaTags.Tag.GetString | taglib/matroska/matroskatag.cpp:158-166 | getString is the first string of get(), or "". For a tag without a parent and without a subkey, it is the first own value and only the key is inserted |
| MatroskaTags.Tag.ReadTagAlbum | taglib/matroska/matroskatag.cpp:168-177 | only for a COLLECTION tag, the first string get("TITLE") resolves, through the parent tags for a tag of the collection, becomes the album when it is non-empty. No other field changes. For a tag outside the collection that string is the first own TITLE value, and only the key is inserted |
| MatroskaTags.Tag.ReadTagTitle | taglib/matroska/matroskatag.cpp:179-185 | the first string get("TITLE") resolves, through the parent tags for a tag of the collection, becomes the title when it is non-empty. No other field changes. For a tag outside the collection that string is the first own TITLE value, and only the key is inserted |
| MatroskaTags.Tag.ReadGenre | taglib/matroska/matroskatag.cpp:187-193 | the first string get("GENRE") resolves, through the parent tags for a tag of the collection, becomes the genre when it is non-empty. No other field changes. For a tag outside the collection that string is the first own GENRE value, and only the key is inserted |
| MatroskaTags.Tag.ReadArtist | taglib/matroska/matroskatag.cpp:195-201 | the first string get("ARTIST") resolves, through the parent tags for a tag of the collection, becomes the artist when it is non-empty. No other field changes. For a tag outside the collection that string is the first own ARTIST value, and only the key is inserted |
| MatroskaTags.Tag.ReadTrack | taglib/matroska/matroskatag.cpp:203-209 | the first string get("PART_NUMBER") resolves, through the parent tags for a tag of the collection, becomes the track when it is non-empty, via toInt and the unsigned conversion. No other field changes. For a tag outside the collection that string is the first own value |
| MatroskaTags.Tag.Read | taglib/matroska/matroskatag.cpp:149-156 | read() keeps the UIDs, the type, and every other tag's fields. For a tag outside the collection it fills album (COLLECTION only), title, genre, artist and track from the first values of their keys when non-empty, and inserts the four keys |
| MatroskaTags.Tag.ReadTitleFields | taglib/matroska/matroskatag.cpp:151-152 | readTagAlbum then readTagTitle: for a tag outside the collection, album and title from the first TITLE; the other fields stay |
| MatroskaTags.Tag.ReadOtherFields | taglib/matroska/matroskatag.cpp:153-155 | readGenre, readArtist and readTrack: for a tag outside the collection, genre, artist and track from their keys; album and title stay |
| MatroskaTags.Tag.ReadArtistTrack | taglib/matroska/matroskatag.cpp:154-155 | readArtist and readTrack: for a tag outside the collection, artist and track from their keys; the other fields stay |
| MatroskaTags.Tag.FindByType | taglib/matroska/matroskatag.cpp:211-223 | the loop returns the last tag of the collection with the type, or null |
| MatroskaTags.JoinValues | taglib/matroska/matroskatag.cpp:251-256 | the loop builds the "; "-separated join of the values |
| MatroskaTagRecords.AttachTo | taglib/matroska/matroskafile.cpp:539-544 | an empty key adds nothing; otherwise the SimpleTag is appended to its key's list |
| MatroskaTagRecords.LastWithId | taglib/matroska/matroskafile.cpp:517-534 | the last child with the given ID: none after it has it, and none is found exactly when no child has it |
| MatroskaTagRecords.LastPayload | taglib/matroska/matroskafile.cpp:521-528 | the last TagString or TagBinary child, or none when there is no such child |
| MatroskaTagRecords.StagFoldOne | taglib/matroska/matroskafile.cpp:517-534 | one child can change the key only when it is a TagName. It can set the value and the binary flag only when it is a TagString or TagBinary |
| MatroskaTagRecords.LastNameWins | taglib/matroska/matroskafile.cpp:518-520 | the key of a SimpleTag is its last TagName |
| MatroskaTagRecords.LastPayloadWins | taglib/matroska/matroskafile.cpp:521-528 | the value is the bytes of the last TagString or TagBinary, and the binary flag says which of the two it was |
| MatroskaTagRecords.StagFoldStep | taglib/matroska/matroskafile.cpp:512-537 | one loop step applies the first child, or reads and attaches a nested SimpleTag, then continues |
| MatroskaTagRecords.NestedInOrder | taglib/matroska/matroskafile.cpp:529-531 | every nested SimpleTag with a non-empty name is appended to its name's list in document order, and nothing else changes the nested map |
| MatroskaTagRecords.ApplyTargets | taglib/matroska/matroskafile.cpp:497-503 | a non-zero raw type is converted and set, and a non-empty UID list replaces the old one; no other field changes |
| MatroskaTagRecords.TargetsCollected | taglib/matroska/matroskafile.cpp:467-495 | the collected UIDs are all non-zero UID elements appended after the earlier ones. The raw type is the low 32 bits of the last TargetTypeValue, as the cast to unsigned int keeps |
| MatroskaTagRecords.ZeroUidDropped | taglib/matroska/matroskafile.cpp:483-487 | a UID of value 0 ("apply to all") adds nothing |
| MatroskaTagRecords.ReadIdempotent | taglib/matroska/matroskatag.cpp:149-156 | a second read() changes nothing |
| MatroskaTagRecords.ReadOfEmpty | taglib/matroska/matroskafile.cpp:549-550 | reading a tag without SimpleTags changes no field |
| MatroskaTagRecords.TagFoldCons | taglib/matroska/matroskafile.cpp:437-453 | one step of readTag's loop applies the first child, then continues |
| MatroskaTagRecords.TagChildren | taglib/matroska/matroskafile.cpp:413-427 | the Tag children kept are children of the element with ID TagID |
| MatroskaTagRecords.TagRecordsCount | taglib/matroska/matroskafile.cpp:409-428 | readTags creates one tag per Tag child |
| MatroskaTagRecords.TagRecordsInCons | taglib/matroska/matroskafile.cpp:414-426 | a Tag child contributes its tag, and any other child contributes nothing |
| MatroskaTagRecords.UnifiedAlbum | taglib/matroska/matroskafile.cpp:558-559 | the unified album is that of the last COLLECTION tag, even an empty one |
| MatroskaTagRecords.UnifiedTitle | taglib/matroska/matroskafile.cpp:572-573 | the unified title is the first non-empty MOVIE title, unless the unified tag already had one |
| MatroskaTagRecords.UnifiedArtist | taglib/matroska/matroskafile.cpp:569-570 | the unified artist is the first non-empty MOVIE artist, unless the unified tag already had one |
| MatroskaTagRecords.UnifiedGenre | taglib/matroska/matroskafile.cpp:558-577 | the unified genre is the first non-empty genre of a COLLECTION or MOVIE tag, unless one was already set |
| MatroskaTagRecords.UnifiedTrack | taglib/matroska/matroskafile.cpp:566-567 | the unified track is the first non-zero MOVIE track, unless one was already set |
| MatroskaTagRecords.UnifiedKeeps | taglib/matroska/matroskafile.cpp:547-581 | the merge never touches the unified tag's UIDs or type, and tags of other types contribute nothing |
| MatroskaTagRecords.StagFold | taglib/matroska/matroskafile.cpp:512-537 | readSimpleTag's loop over the children, one switch case per child, with nested SimpleTags read recursively (StagFoldStep, LastNameWins, LastPayloadWins, NestedInOrder) |
| MatroskaTagRecords.TargetsFold | taglib/matroska/matroskafile.cpp:467-495 | readTargets' loop over the children, one switch case per child (TargetsCollected, ZeroUidDropped) |
| MatroskaTagRecords.TagFold | taglib/matroska/matroskafile.cpp:437-453 | readTag's loop over the children: Targets and SimpleTag children are read, any other child is skipped (TagFoldCons) |
| MatroskaTagRecords.UnifyAll | taglib/matroska/matroskafile.cpp:553-580 | makeUnifiedTag's loop over the collection in order, with the COLLECTION and MOVIE merge rules (UnifiedAlbum, UnifiedTitle, UnifiedArtist, UnifiedGenre, UnifiedTrack, UnifiedKeeps) |
| SimpleTags.TouchKeepsLookups | taglib/matroska/matroskatag.cpp:228 | operator[] on a missing key inserts an empty list, which no lookup can tell apart |
| SimpleTags.AppendedLookups | taglib/matroska/matroskafile.cpp:541-543 | push_back adds the SimpleTag at the end of its key's list and changes no other list |
| SimpleTags.AppendedInOrder | taglib/matroska/matroskafile.cpp:540-543 | repeated appends to one key keep their order at the end of its list |
| SimpleTags.SimpleTag.constructor | taglib/matroska/simpletag.cpp:5-9 | a new SimpleTag is text, with no value and nothing nested |
| SimpleTags.SimpleTag.SetBinary | taglib/matroska/simpletag.cpp:11-14 | only the binary flag changes |
| SimpleTags.SimpleTag.SetValue | taglib/matroska/simpletag.cpp:16-24 | value() then returns exactly the new bytes; the flag and the nested map stay |
| SimpleTags.SimpleTag.AppendNested | taglib/matroska/simpletag.cpp:26-29 | appending through the simpleTags() reference lands in this object's own map; nothing else changes |
| SimpleTags.SimpleTag.Snapshot | taglib/matroska/matroskafile.cpp:543 | push_back stores a copy with the value, flag and nested map of the moment |
| AviProperties.Field | taglib/riff/avi/aviproperties.cpp:145-146 | a field is an unsigned 32-bit value, little-endian from four bytes when they exist |
| AviProperties.Int32 | taglib/riff/avi/aviproperties.cpp:148 | the int cast gives the value of the 32-bit int range congruent modulo 2^32, unchanged when already in range |
| AviProperties.Seconds | taglib/riff/avi/aviproperties.cpp:64-67 | length() truncates toward zero: the magnitudes obey the division bounds and the sign is kept |
| AviProperties.AcceptedHeader | taglib/riff/avi/aviproperties.cpp:111-122 | a header is read exactly when the block is named "avih" and its size field is 0x38; its fields are 32-bit |
| AviProperties.LastCounted | taglib/riff/avi/aviproperties.cpp:89-105 | the last chunk whose header read() accepts, and none exactly when no chunk qualifies |
| AviProperties.RejectedHeaderChangesNothing | taglib/riff/avi/aviproperties.cpp:111-122 | a block that is not named "avih", or whose size is not 0x38, changes nothing |
| AviProperties.AfterHeader | taglib/riff/avi/aviproperties.cpp:109-153 | readAVIHeader's effect: a rejected block changes nothing; an accepted one sets the length, and repairs the file exactly when Repairs holds (AcceptedHeaderEffect, RejectedHeaderChangesNothing) |
| AviProperties.Visit | taglib/riff/avi/aviproperties.cpp:93-103 | one iteration of read(): a LIST chunk starting with "hdrl" goes to readAVIHeader, and any other is ignored (UnselectedIgnored, VisitRepair) |
| AviProperties.AfterChunks | taglib/riff/avi/aviproperties.cpp:89-105 | read(): the chunks visited in order (LastHeaderWins, ValidityRepair); Properties.Read is proved against it |
| AviProperties.AcceptedHeaderEffect | taglib/riff/avi/aviproperties.cpp:124-148 | an accepted header sets the length to int(frames × µs/frame / 1000). It repairs the file (valid, NO_ERROR) exactly when HASINDEX is set and the error was an invalid chunk name |
| AviProperties.LastHeaderWins | taglib/riff/avi/aviproperties.cpp:89-105 | the length is that of the last accepted header, or unchanged when there is none |
| AviProperties.UnselectedIgnored | taglib/riff/avi/aviproperties.cpp:95-98 | a chunk that is not a LIST starting with "hdrl" has no effect |
| AviProperties.VisitRepair | taglib/riff/avi/aviproperties.cpp:137-140 | one chunk repairs the state exactly when its accepted header has HASINDEX and the error was an invalid chunk name |
| AviProperties.ValidityRepair | taglib/riff/avi/aviproperties.cpp:93-140 | after read(), the file is valid if and only if it was valid or it was repaired. It is repaired exactly when the error was an invalid chunk name and some accepted header has HASINDEX; the error then becomes NO_ERROR |
| AviProperties.ShortHeaderSeconds | taglib/riff/avi/aviproperties.cpp:148 | below 2^31 ms the cast is exact, and length() is the duration in whole seconds |
| AviProperties.LongHeaderWraps | taglib/riff/avi/aviproperties.cpp:148 | a header of 2^31 + 1000 frames of 1000 µs wraps to a negative length |
| AviProperties.ProductFits | taglib/riff/avi/aviproperties.cpp:148 | the product of two 32-bit fields never wraps in 64-bit size_t |
| AviProperties.HeaderProductFits | taglib/riff/avi/aviproperties.cpp:148 | the size_t product of an accepted header's frame count and frame duration never wraps, so the length computes it exactly |
| AviProperties.Properties.constructor | taglib/riff/avi/aviproperties.cpp:52-57 | all fields start at 0, then read(file) runs over all chunks |
| AviProperties.Properties.Read | taglib/riff/avi/aviproperties.cpp:89-105 | the loop applies readAVIHeader to every selected chunk in order; bit rate, sample rate and channels stay |
| AviProperties.Properties.ReadAviHeader | taglib/riff/avi/aviproperties.cpp:109-153 | the header's effect on the length and on the file's validity and error is AfterHeader |
| MpegVideo.Find | taglib/mpeg_video/mpegvideofile.cpp:106-125 | find(pattern, from) is the first occurrence at or after from, or -1 when there is none |
| MpegVideo.MarkerCode | taglib/mpeg_video/mpegvideofile.cpp:138-150 | Corrupt for a negative position; at a complete 00 00 01 prefix, the byte that follows it |
| MpegVideo.TicksLowV1 | taglib/mpeg_video/mpegvideofile.cpp:218-222 | the low 32 bits of an MPEG-1 SCR fit an unsigned int |
| MpegVideo.TicksLowV2 | taglib/mpeg_video/mpegvideofile.cpp:227-233 | the low 32 bits of an MPEG-2 SCR fit an unsigned int |
| MpegVideo.Ticks | taglib/mpeg_video/mpegvideofile.cpp:207-236 | the time stamp in ticks is a 33-bit value |
| MpegVideo.TimeStamp | taglib/mpeg_video/mpegvideofile.cpp:207-237 | readTimeStamp in ticks at a position is a 33-bit value |
| MpegVideo.ScrRoundTripV1 | taglib/mpeg_video/mpegvideofile.cpp:214-222 | readTimeStamp recovers every 33-bit SCR an MPEG-1 multiplexer writes |
| MpegVideo.ScrRoundTripV2 | taglib/mpeg_video/mpegvideofile.cpp:223-233 | readTimeStamp recovers every 33-bit SCR an MPEG-2 multiplexer writes, whatever the SCR extension |
| MpegVideo.PackSize | taglib/mpeg_video/mpegvideofile.cpp:186-198 | the pack header's length from its start code: 12 for MPEG-1, and 14 plus the stuffing length in the low three bits of byte 13 for MPEG-2 (PackHeaderV1, PackHeaderV2) |
| MpegVideo.SyncPacket | taglib/mpeg_video/mpegvideofile.cpp:182-205 | readSystemSyncPacket: the version from byte 4, the SCR as start time only when none is set, and the position past the pack header; an unknown version changes nothing (UnknownVersionStays, FirstPackWins) |
| MpegVideo.Step | taglib/mpeg_video/mpegvideofile.cpp:157-178 | one iteration of readSystemFile: the next start code at or after the position and the advance its marker prescribes, none at end of stream (StepPosition, StepSetsStart, OnlySyncSetsStart, EmptyMediaPacketStays) |
| MpegVideo.Walk | taglib/mpeg_video/mpegvideofile.cpp:152-180 | readSystemFile: steps until the 100 iterations run out, a start time is set, or the stream ends (StartTimeFromPack) |
| MpegVideo.StepPosition | taglib/mpeg_video/mpegvideofile.cpp:156-179 | a step of readSystemFile never leaves a negative position |
| MpegVideo.UnknownVersionStays | taglib/mpeg_video/mpegvideofile.cpp:195-198 | a pack header of unknown version changes nothing, not even the position |
| MpegVideo.FirstPackWins | taglib/mpeg_video/mpegvideofile.cpp:200-202 | a start time once set is never replaced, and the walk does not start |
| MpegVideo.PackHeaderV1 | taglib/mpeg_video/mpegvideofile.cpp:188-204 | an MPEG-1 pack header gives version 1, its SCR as start time when none is set, and the position 12 bytes on |
| MpegVideo.PackHeaderV2 | taglib/mpeg_video/mpegvideofile.cpp:191-204 | an MPEG-2 pack header gives version 2, its SCR when none is set, and the position past the 14 bytes and the stuffing |
| MpegVideo.EmptyMediaPacketStays | taglib/mpeg_video/mpegvideofile.cpp:168-172 | a video or audio packet of length 0 leaves the position unchanged, so the walk spends its iterations there |
| MpegVideo.StepSetsStart | taglib/mpeg_video/mpegvideofile.cpp:157-162 | a step that sets the start time decoded a pack start code at the found position |
| MpegVideo.OnlySyncSetsStart | taglib/mpeg_video/mpegvideofile.cpp:159-178 | every marker other than a pack start moves only the position |
| MpegVideo.StartTimeFromPack | taglib/mpeg_video/mpegvideofile.cpp:152-180 | a start time the walk sets is the SCR of a pack start code in the file, read with the final version |
| MpegVideo.SyncCodeOccurs | taglib/mpeg_video/mpegvideofile.cpp:138-150 | a marker read as SystemSyncPacket comes from a complete pack start code |
| MpegVideo.AverageBitrate | taglib/mpeg_video/mpegvideofile.cpp:250 | the bit rate is a multiple of 400 below 2^31 |
| MpegVideo.BitrateRoundTrip | taglib/mpeg_video/mpegvideofile.cpp:250 | the bit rate is 400 times the bit_rate field a multiplexer wrote, whatever follows it |
| MpegVideo.ClampStart | taglib/mpeg_video/mpegvideofile.cpp:73-75 | a negative start time becomes 0, and any other is kept |
| MpegVideo.SystemStart | taglib/mpeg_video/mpegvideofile.cpp:90-93 | the system walk from the first pack start code, or the state unchanged when the file has none (ReadStartTime) |
| MpegVideo.ReadStartTime | taglib/mpeg_video/mpegvideofile.cpp:68-94 | the start time read() leaves is 0 or the SCR of a pack start code in the file |
| MpegVideo.File.constructor | taglib/mpeg_video/mpegvideofile.cpp:7-28 | start time -1, bit rate 0, valid and without a tag |
| MpegVideo.File.ReadSystemSyncPacket | taglib/mpeg_video/mpegvideofile.cpp:182-205 | the version, start time and new position are those of SyncPacket; nothing else changes |
| MpegVideo.File.ReadSystemFile | taglib/mpeg_video/mpegvideofile.cpp:152-180 | the loop leaves the version and start time of the walk of at most 100 steps |
| MpegVideo.File.NextMarker | taglib/mpeg_video/mpegvideofile.cpp:157-178 | one iteration: end of stream exactly when Step says so, and otherwise the state Step gives |
| MpegVideo.File.ReadVideoHeader | taglib/mpeg_video/mpegvideofile.cpp:239-250 | the bit rate is read from the sequence header, and fewer than seven bytes mark the file invalid |
| MpegVideo.File.ReadStart | taglib/mpeg_video/mpegvideofile.cpp:82-94 | the version and start time are those of the system walk from the first pack start code. The bit rate and the valid flag are those readVideoHeader gives at the first sequence start code, and unchanged when there is none |
| MpegVideo.File.ReadFirstVideoHeader | taglib/mpeg_video/mpegvideofile.cpp:84-88 | the bit rate and the valid flag are those readVideoHeader gives at the first sequence start code, and unchanged when there is none; the version, start time and tag flag are kept |
| MpegVideo.File.Read | taglib/mpeg_video/mpegvideofile.cpp:68-80 | the start time is the clamped walk result and the version that of the walk. The bit rate and the valid flag are readVideoHeader's at the first sequence start code, and a tag exists once the file is valid |

## Left out

- Floating point is not modelled:
  - `EBMLElement::getDouble` and `EBMLReader::readDouble`;
  - the conversion of the Duration double into the int field. This becomes
    the parameter `durationOf` of the Matroska document;
  - the `/ 90000.0` of `readTimeStamp`, so time stamps stay in ticks;
  - `endTime` and the MPEG `Properties` built from it.
- MpegVideo: `readEnd` and `rfindMarker` (the end time) are not modelled. They
  only feed the floating-point end time.
- MpegVideo.File.ReadVideoHeader: the `dataLength` read and the position
  advance are not modelled; readStart discards the position.
- MpegVideo: the initial `version` is uninitialised in the source. It is a
  constructor parameter here.
- MpegVideo: reads past the end of the file give zero bytes (`ByteAt`). The
  source would index an empty or short ByteVector there.
- MpegVideo.MarkerCode: a position of -1 (marker not found) is taken as
  Corrupt without seeking.
- `String::toInt` is the parameter `toInt`, because TagLib's String class is
  not part of this model.
- TagLib Strings are built from bytes one character per byte (`Bytes.Decode`).
  This is exactly right for ASCII only; UTF-8 decoding is not modelled.
- MatroskaFile: SeekHead chaining is bounded by the fuel `depth`. A chain
  longer than that stops there.
- EbmlWalk.ChildrenFrom: every child walk stops after a child of size 0. The
  source loops forever there (see Findings).
- MatroskaSegment: `readSeekHead`'s `ebmlId` is uninitialised in the source
  and starts at 0 here.
- MatroskaFile: `readSegment`'s default for `retry` is taken as true, because
  matroskafile.h is not part of this model.
- EbmlReader.Read: a header truncated right after the ID is treated as a failed
  read that leaves the reader unchanged. The source indexes an empty buffer
  there.
- EbmlReader: offsets are unbounded naturals. Only `size()`, the SeekPosition
  sum and the `-1u` sentinel wrap.
- MatroskaFile: the `readProperties` and `propertiesStyle` arguments are
  ignored; properties are always read. `isOpen()` is taken as true.
- MatroskaFile: memory management is not modelled: the leaked tags after
  `m_tags.clear()` and the replaced unified tag. Null entries of `m_tags` never
  arise, because the reader never stores one.
- MatroskaFile.Document.CollectTargets: the TargetTypeID string is read but
  never used by the source, and is not collected.
- MatroskaTags.Tag.Read: the five field values are stated only for a tag that is not yet in the collection. Both callers read a tag before inserting it: readTag (matroskafile.cpp:455) and makeUnifiedTag (matroskafile.cpp:550). For a tag already in the collection, each single-field reader states its own value, resolved through the parent tags. The chained effect of all five is not stated.
- MatroskaTags.Tag.ReadTitleFields: album and title are stated only for a tag that is not yet in the collection, as for Tag.Read.
- MatroskaTags.Tag.ReadOtherFields: genre, artist and track are stated only for a tag that is not yet in the collection, as for Tag.Read.
- MatroskaTags.Tag.ReadArtistTrack: artist and track are stated only for a tag that is not yet in the collection, as for Tag.Read.
- MatroskaFile.Document.ReadSimpleTag: it requires an element whose header has
  decoded. Every caller passes a child with a non-zero ID, which guarantees
  this (MatroskaTagRecords.DecodedChild).
- AviProperties: avifile.cpp is not part of this model. The RIFF chunk list,
  `valid` and `lastError` are inputs of `RiffFile`. ParseStatus values other
  than NO_ERROR and ERROR_INVALID_CHUNK_NAME are one opaque case.
- AviProperties: format, bitsPerSample and sampleFrames are never set by the
  modelled code, and are not modelled.
- Debug messages are not modelled.

## Findings

| source | as written | input that shows it | evidently intended | confidence | as-written member | corrected member |
|---|---|---|---|---|---|---|
| taglib/matroska/matroskafile.cpp:183-197 | every child walk advances by `i += child.size()` without checking `child.isValid()`; a child whose header cannot be read has size 0, so `i` never advances | the 5-byte file `1A 45 DF A3 84`: an EBML header that declares a 4-byte payload and ends there; readHeader's loop stays at i = 0 forever | the walk ends after a child it cannot read, so it visits finitely many children, all inside the payload | not executed | EbmlWalk.WalkStuckOnTruncatedHeader | EbmlWalk.ChildrenLayout |
