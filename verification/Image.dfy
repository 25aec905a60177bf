/// The image a reader is opened on: its bytes, which never change, and its codec.
module Image {
  import opened Bytes

  /// The reader's errors. Where the source carries a message, the model carries which one.
  datatype Error =
    | Block
    | BadSuperblock(what: SuperblockFault)
    | BadMetadata(metadata: MetadataFault)
    | BadInode(inode: InodeFault)
    | BadDirent(dirent: DirentFault)
    | UnsupportedCompression
    | NotFound
    | NotExportable
    | NotADirectory
    | OutOfRange

  datatype SuperblockFault =
    | BytesUsedPastDevice | TableOutsideImage | TablesOutOfOrder | RootOutsideInodeTable | TooManyInodes

  datatype MetadataFault =
    | BlockSize | BlockTooLarge | ReferencePastBlock | EmptyBlock | PastTableEnd | Codec
    | NoRoomForPointers | TableTooShort | ExportTooShort | ExportEntryPastBlock
    | XattrIndex | XattrCount | XattrNameTooLong | XattrNamespace | XattrReference | XattrValueTooLong
    | XattrTooLong | XattrTooShort
    | XattrTableOrder

  datatype InodeFault =
    | NotAFile | BlockShorterThanOffset | WrongLength | FragmentIndex | FragmentOverflow | FragmentPastEnd
    | OnDiskTooLarge | StoredTooLarge | TooManyBlocks | SymlinkTooLong | TypeZero | UnknownType

  datatype DirentFault =
    | TruncatedHeader | TooManyEntries | TruncatedEntry | NameTooLong | TruncatedName
    | ReservedName | SlashInName | NulInName

  /// A device no offset of which leaves a u64.
  type Device = d: seq<byte> | |d| <= U64_MAX witness []

  /// `read_at`: the bytes, or an error when the device does not hold them all.
  function ReadAt(dev: Device, offset: nat, n: nat): (r: Result<seq<byte>, Error>)
    ensures r.Ok? <==> offset + n <= |dev|
    ensures r.Ok? ==> |r.value| == n
  {
    if offset + n <= |dev| then Ok(dev[offset..offset + n]) else Err(Block)
  }

  /// `decode(raw, maxOut)` is the archive's compressor, opaque here.
  datatype Image = Image(dev: Device, decode: (seq<byte>, nat) -> Result<seq<byte>, Error>)

  /// No codec returns more than it is allowed to, and its errors are a codec's.
  ghost predicate SoundCodec(img: Image) {
    forall raw, maxOut ::
      match img.decode(raw, maxOut)
      case Ok(out) => |out| <= maxOut
      case Err(e) => e == BadMetadata(Codec) || e == UnsupportedCompression
  }
}
