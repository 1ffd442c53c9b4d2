/** Numeric constants of the EBML and Matroska schemas as the reader uses them:
    element identifiers (marker bits included, as stored after decoding) and
    the values of the TargetType enumeration. */
module MatroskaTypes {

  // EBML header level
  const EBMLHeader: nat := 0x1A45DFA3
  const EBMLDocType: nat := 0x4282

  // Top level of a Segment
  const Segment: nat := 0x18538067
  const SegmentInfo: nat := 0x1549A966
  const Tracks: nat := 0x1654AE6B
  const Cues: nat := 0x1C53BB6B
  const Tags: nat := 0x1254C367
  const SeekHead: nat := 0x114D9B74
  const Cluster: nat := 0x1F43B675
  const Attachments: nat := 0x1941A469
  const CRC32: nat := 0xBF

  // SegmentInfo children
  const TimeCodeScale: nat := 0x2AD7B1
  const Duration: nat := 0x4489

  // SeekHead children
  const Seek: nat := 0x4DBB
  const SeekID: nat := 0x53AB
  const SeekPosition: nat := 0x53AC

  // Tags children
  const TagID: nat := 0x7373
  const SimpleTagID: nat := 0x67C8
  const Targets: nat := 0x63C0
  const TagName: nat := 0x45A3
  const TagString: nat := 0x4487
  const TagBinary: nat := 0x4485
  const TargetTypeValue: nat := 0x68CA
  const TargetTypeID: nat := 0x63CA
  const TagTrackUID: nat := 0x63C5
  const TagEditionUID: nat := 0x63C9
  const TagChapterUID: nat := 0x63C4
  const TagAttachmentUID: nat := 0x63C6

  // TargetType enumeration values
  const COLLECTION: nat := 70
  const VOLUME: nat := 60
  const SEASON: nat := 64
  const ALBUM: nat := 50
  const MOVIE: nat := 53
  const DEFAULT: nat := 55
  const PART: nat := 40
  const TRACK: nat := 30
  const CHAPTER: nat := 32
  const SUBTRACK: nat := 20
  const SCENE: nat := 22
  const SHOT: nat := 10

  predicate IsUidKind(id: nat) {
    id == TagTrackUID || id == TagEditionUID || id == TagChapterUID || id == TagAttachmentUID
  }
}
