/**
 * The indexed record store (storage.c / storage.h), built on the FDS
 * driver in four layers:
 *   1. byte arrays under (file id, index): setByteArray, getByteArray, delByteArray;
 *   2. the same with a one-byte status tag in front of the payload;
 *   3. records addressed by index alone (1..115), routed to a data section
 *      that fixes the file id, the payload size and the default value;
 *   4. initAllRecords and isAllRecordValid over every index.
 * Index i is stored under record key 0x1000 + i. A record's image on flash
 * is its tag byte followed by its payload, packed into words by Codec.
 */
module Storage {
  import opened Codec
  import opened Fds
  import opened DrvStorage
  import DataSettings
  import DataExtended
  import DataColors

  /** Tag of a record holding its default value. */
  const RecTagDefault: Byte := 0xAA
  /** Tag of a record written through setOneRecord. */
  const RecTagChanged: Byte := 0xBB

  const FileIdSettings: U16 := 0xAAAA
  const FileIdColor: U16 := 0xABBB
  const FileIdExtended: U16 := 0xACCC

  /** EXT_DATA_RESERVED_END_INDEX: the last index of the store. */
  const LastIndex: nat := DataExtended.ReservedEnd

  /** flash_status_t */
  datatype FlashStatus =
    | FlashSuccess | SetupErr | LookupErr | ReadErr | WriteErr | DelErr | GcErr
    | NotFoundErr | OutOfRangeErr | RecUnchanged | RecChanged | RecTagErr

  /** flash_section_t */
  datatype Section =
    | OutOfRange | DeviceInfo | DfuInfo | DeviceSettings | SysStatus | SensorSettings
    | Colors | Manufacture | User | Reserved

  /** A write or delete returns a status, or never returns (see DrvStorage.Step). */
  datatype StoreStep = Returned(drv: Driver, status: FlashStatus) | Hangs

  /** A read never blocks: it returns a status and, on success, the bytes read. */
  datatype ReadResult = ReadResult(drv: Driver, status: FlashStatus, bytes: seq<Byte>)

  datatype TaggedRead = TaggedRead(drv: Driver, status: FlashStatus, payload: seq<Byte>, tag: Byte)

  datatype Checked = Checked(drv: Driver, status: FlashStatus)

  datatype Verdict = Verdict(drv: Driver, valid: bool)

  predicate InRange(index: int)
  {
    1 <= index <= LastIndex
  }

  /**
   * MAP_INDEX_TO_REC_ID(index) passed as a uint16_t record key: 0x1000 +
   * index, wrapping at 2^16.
   */
  function MapIndexToRecId(index: U16): (key: U16)
    ensures index < 0xF000 ==> key == 0x1000 + index
    ensures index >= 0xF000 ==> key == index - 0xF000
  {
    (0x1000 + index) % 0x1_0000
  }

  /** Distinct indices get distinct record keys, wrap-around included. */
  lemma MapIndexInjective(a: U16, b: U16)
    requires a != b
    ensures MapIndexToRecId(a) != MapIndexToRecId(b)
  {
  }

  /** The keys of the store's indices are 0x1001..0x1073, all acceptable to FDS. */
  lemma StoreKeysValid(index: U16)
    requires InRange(index)
    ensures 0x1001 <= MapIndexToRecId(index) <= 0x1073
    ensures ValidKey(MapIndexToRecId(index))
  {
  }

  /** The three file ids are distinct and inside FDS's file id range. */
  lemma FileIdsValid()
    ensures ValidFileId(FileIdSettings) && ValidFileId(FileIdColor) && ValidFileId(FileIdExtended)
    ensures FileIdSettings != FileIdColor && FileIdColor != FileIdExtended && FileIdSettings != FileIdExtended
  {
  }

  /** First index of each section, from the data set headers. */
  function SectionStart(s: Section): nat
    requires s != OutOfRange
  {
    match s
    case DeviceInfo => DataSettings.DevInfoStart
    case DfuInfo => DataSettings.DfuStart
    case DeviceSettings => DataSettings.DevSetStart
    case SysStatus => DataSettings.SysStart
    case SensorSettings => DataSettings.SenrStart
    case Colors => DataColors.ColorStart
    case Manufacture => DataExtended.ManStart
    case User => DataExtended.UserStart
    case Reserved => DataExtended.ReservedStart
  }

  /** Last index of each section. */
  function SectionEnd(s: Section): nat
    requires s != OutOfRange
  {
    match s
    case DeviceInfo => DataSettings.DevInfoEnd
    case DfuInfo => DataSettings.DfuEnd
    case DeviceSettings => DataSettings.DevSetEnd
    case SysStatus => DataSettings.SysEnd
    case SensorSettings => DataSettings.SenrEnd
    case Colors => DataColors.ColorEnd
    case Manufacture => DataExtended.ManEnd
    case User => DataExtended.UserEnd
    case Reserved => DataExtended.ReservedEnd
  }

  /** getDataSection */
  function GetDataSection(index: U16): (s: Section)
    ensures s == OutOfRange <==> !InRange(index)
    ensures s != OutOfRange ==> SectionStart(s) <= index <= SectionEnd(s)
  {
    if DataSettings.DevInfoStart <= index <= DataSettings.DevInfoEnd then DeviceInfo
    else if DataSettings.DfuStart <= index <= DataSettings.DfuEnd then DfuInfo
    else if DataSettings.DevSetStart <= index <= DataSettings.DevSetEnd then DeviceSettings
    else if DataSettings.SysStart <= index <= DataSettings.SysEnd then SysStatus
    else if DataSettings.SenrStart <= index <= DataSettings.SenrEnd then SensorSettings
    else if DataColors.ColorStart <= index <= DataColors.ColorEnd then Colors
    else if DataExtended.ManStart <= index <= DataExtended.ManEnd then Manufacture
    else if DataExtended.UserStart <= index <= DataExtended.UserEnd then User
    else if DataExtended.ReservedStart <= index <= DataExtended.ReservedEnd then Reserved
    else OutOfRange
  }

  /** The sections partition 1..115: an index lies in a section's range exactly when it is routed there. */
  lemma SectionPartition(index: U16, s: Section)
    requires s != OutOfRange
    ensures GetDataSection(index) == s <==> SectionStart(s) <= index <= SectionEnd(s)
  {
  }

  /** The section holds 32-bit settings (indices 10..29). */
  predicate OneWordSection(s: Section)
  {
    s == DfuInfo || s == DeviceSettings || s == SysStatus || s == SensorSettings
  }

  /** The file every switch in storage.c picks for an index. */
  function RecordFile(index: U16): (f: U16)
    requires InRange(index)
    ensures 1 <= index <= 29 ==> f == FileIdSettings
    ensures 30 <= index <= 101 ==> f == FileIdColor
    ensures 102 <= index <= 115 ==> f == FileIdExtended
  {
    var s := GetDataSection(index);
    if s == Colors then FileIdColor
    else if s == Manufacture || s == User || s == Reserved then FileIdExtended
    else FileIdSettings
  }

  /** The payload size every switch in storage.c uses for an index (the tag excluded). */
  function RecordSize(index: U16): (n: nat)
    requires InRange(index)
    ensures 0 < n <= 40
    ensures 10 <= index <= 101 ==> n == 4
  {
    var s := GetDataSection(index);
    if s == DeviceInfo then DataSettings.GetDevSizeInfo()[index - DataSettings.DevInfoStart]
    else if s == Manufacture then DataExtended.GetManSizeInfo()[index - DataExtended.ManStart]
    else if s == User then DataExtended.GetUsrSizeInfo()[index - DataExtended.UserStart]
    else if s == Reserved then DataExtended.GetReservedSizeInfo()[index - DataExtended.ReservedStart]
    else 4
  }

  /** The record an index lives in. */
  function RecordOf(index: U16): RecordId
    requires InRange(index)
  {
    RecordId(RecordFile(index), MapIndexToRecId(index))
  }

  /** Distinct indices live in distinct records, so writing one never touches another. */
  lemma RecordOfInjective(i: U16, j: U16)
    requires InRange(i) && InRange(j) && i != j
    ensures RecordOf(i) != RecordOf(j)
  {
    MapIndexInjective(i, j);
  }

  /** The default payload initOneRecord writes for an index. */
  function DefaultPayload(index: U16, colors: seq<seq<Byte>>): (p: seq<Byte>)
    requires InRange(index) && DataColors.WellFormedColors(colors)
    ensures |p| == RecordSize(index)
    ensures 30 <= index <= 101 ==> p == colors[index - 30]
    ensures !(30 <= index <= 101) ==> forall k :: 0 <= k < |p| ==> p[k] == 0
  {
    var s := GetDataSection(index);
    if s == DeviceInfo then DataSettings.GetDevInfo()[index - DataSettings.DevInfoStart]
    else if s == Colors then colors[index - DataColors.ColorStart]
    else if s == Manufacture then DataExtended.GetManInfo()[index - DataExtended.ManStart]
    else if s == User then DataExtended.GetUsrInfo()[index - DataExtended.UserStart]
    else if s == Reserved then DataExtended.GetReservedInfo()[index - DataExtended.ReservedStart]
    else
      var w := DataSettings.GetOwSetInfo()[index - DataSettings.OneWordStart];
      ZeroWordBytes(w);
      DataSettings.UnionBytes(w)
  }

  lemma ZeroWordBytes(w: Word)
    requires w == 0
    ensures forall k :: 0 <= k < 4 ==> DataSettings.UnionBytes(w)[k] == 0
  {
  }

  /** The words a tagged record occupies on flash. */
  function TaggedWords(tag: Byte, payload: seq<Byte>): seq<Word>
    requires |payload| <= 254
  {
    Bytes2Words([tag] + payload)
  }

  /** Pages large enough for any record of at most 255 bytes. */
  predicate RoomyPages(d: Driver)
  {
    d.pageSize >= 5 + WordCount(255)
  }

  // ---------------------------------------------------------------------------
  // Layer 1: byte arrays

  datatype WriteKind = CreateRecord | UpdateRecord

  /** fdsRecWrite for a new record, fdsRecUpdate for an existing one. */
  function Store(d: Driver, kind: WriteKind): (r: Step)
    requires Configured(d)
    ensures r.Done? ==> SameSetup(d, r.drv) && r.drv.record == d.record
    ensures r.Done? && r.drv.ret == FdsSuccess ==> r.drv.env.flash == d.env.flash[Target(d) := d.record.data]
    ensures r.Done? && r.drv.ret != FdsSuccess ==> r.drv.env.flash == d.env.flash
    ensures d.env.script == [] && (kind == UpdateRecord ==> Target(d) in d.env.flash) ==>
      r.Done? && r.drv.ret == FdsSuccess && r.drv.env.script == []
  {
    match kind
    case CreateRecord => FdsRecWrite(d)
    case UpdateRecord => FdsRecUpdate(d)
  }

  /** The FDS call returned to its caller with an error code. */
  predicate Refused(s: Step)
  {
    s.Done? && s.drv.ret != FdsSuccess
  }

  /** The FDS call returned to its caller with success. */
  predicate Accepted(s: Step)
  {
    s.Done? && s.drv.ret == FdsSuccess
  }

  /** Write, and on failure collect garbage once and write again (storage.c, setByteArray). */
  function StoreWithGcRetry(d: Driver, kind: WriteKind): (r: StoreStep)
    requires Configured(d)
    ensures r.Returned? ==> SameSetup(d, r.drv) && r.drv.record == d.record
    ensures r.Returned? ==> r.status in {FlashSuccess, GcErr, WriteErr}
    ensures r.Returned? && r.status == FlashSuccess ==> r.drv.env.flash == d.env.flash[Target(d) := d.record.data]
    ensures r.Returned? && r.status != FlashSuccess ==> r.drv.env.flash == d.env.flash
    ensures d.env.script == [] && (kind == UpdateRecord ==> Target(d) in d.env.flash) ==>
      r.Returned? && r.status == FlashSuccess && r.drv.env.script == []
    ensures r.Returned? && r.status == GcErr <==>
      Refused(Store(d, kind)) && Refused(FdsGC(Store(d, kind).drv))
    ensures r.Returned? && r.status == WriteErr <==>
      Refused(Store(d, kind)) && Accepted(FdsGC(Store(d, kind).drv))
      && Refused(Store(FdsGC(Store(d, kind).drv).drv, kind))
  {
    match Store(d, kind)
    case Hang => Hangs
    case Done(d1) =>
      if d1.ret == FdsSuccess then Returned(d1, FlashSuccess)
      else
        match FdsGC(d1)
        case Hang => Hangs
        case Done(d2) =>
          if d2.ret != FdsSuccess then Returned(d2, GcErr)
          else
            match Store(d2, kind)
            case Hang => Hangs
            case Done(d3) =>
              if d3.ret != FdsSuccess then Returned(d3, WriteErr) else Returned(d3, FlashSuccess)
  }

  /** fdsRecConfig accepts every record of at most 255 bytes under a valid id on roomy pages. */
  predicate Accepts(d: Driver, fileId: U16, key: U16)
  {
    ValidFileId(fileId) && ValidKey(key) && RoomyPages(d)
  }

  /**
   * setByteArray: creates the record if the search does not find it,
   * updates it if it does, and reports a failed search as a lookup error.
   * The flash either takes the new image or stays as it was.
   */
  function SetByteArray(d: Driver, fileId: U16, index: U16, bytes: seq<Byte>): (r: StoreStep)
    requires |bytes| <= 255
    ensures r.Returned? ==> r.drv.pageSize == d.pageSize && r.drv.waitFn == d.waitFn
    ensures r.Returned? ==> r.status in {FlashSuccess, SetupErr, LookupErr, GcErr, WriteErr}
    ensures r.Returned? && r.status == FlashSuccess ==>
      r.drv.env.flash == d.env.flash[RecordId(fileId, MapIndexToRecId(index)) := Bytes2Words(bytes)]
    ensures r.Returned? && r.status != FlashSuccess ==> r.drv.env.flash == d.env.flash
    ensures !ValidFileId(fileId) || !ValidKey(MapIndexToRecId(index)) ==> r == Returned(d, SetupErr)
    ensures Accepts(d, fileId, MapIndexToRecId(index)) && d.env.script == [] ==>
      r.Returned? && r.status == FlashSuccess && r.drv.env.script == []
    ensures Accepts(d, fileId, MapIndexToRecId(index)) && Next(d.env).Fault? ==>
      r.Returned? && r.status == LookupErr && r.drv.env.flash == d.env.flash
    ensures r.Returned? && r.status == LookupErr ==> Next(d.env).Fault?
    ensures Accepts(d, fileId, MapIndexToRecId(index)) && Next(d.env) == Nominal ==>
      var f := FdsRecFind(FdsRecConfig(d, fileId, MapIndexToRecId(index), Bytes2Words(bytes)).drv);
      r == StoreWithGcRetry(f, if RecordId(fileId, MapIndexToRecId(index)) in d.env.flash then UpdateRecord else CreateRecord)
  {
    var words := Bytes2Words(bytes);
    var c := FdsRecConfig(d, fileId, MapIndexToRecId(index), words);
    if !c.ok then Returned(c.drv, SetupErr)
    else
      var f := FdsRecFind(c.drv);
      if f.ret == FdsErrNotFound then StoreWithGcRetry(f, CreateRecord)
      else if f.ret == FdsSuccess then StoreWithGcRetry(f, UpdateRecord)
      else Returned(f, LookupErr)
  }

  /** Words padded with the contents of the uninitialised buffer to n words. */
  function Pad(words: seq<Word>, n: nat, fill: Word): (p: seq<Word>)
    requires |words| <= n
    ensures |p| == n && p[..|words|] == words
  {
    words + seq(n - |words|, _ => fill)
  }

  /** The record fits a buffer of WordCount(size) words. */
  predicate Fits(flash: Flash, id: RecordId, size: nat)
  {
    id in flash ==> |flash[id]| <= WordCount(size)
  }

  /**
   * getByteArray: reads the record into a fresh buffer of WordCount(size)
   * words, whose initial contents are fill, and unpacks size bytes.
   */
  function GetByteArray(d: Driver, fileId: U16, index: U16, size: nat, fill: Word): (r: ReadResult)
    requires size <= 255
    requires Fits(d.env.flash, RecordId(fileId, MapIndexToRecId(index)), size)
    ensures r.drv.env.flash == d.env.flash
    ensures r.drv.pageSize == d.pageSize && r.drv.waitFn == d.waitFn
    ensures r.status in {FlashSuccess, SetupErr, NotFoundErr, ReadErr}
    ensures r.status == FlashSuccess ==>
      var id := RecordId(fileId, MapIndexToRecId(index));
      id in d.env.flash && r.bytes == Words2Bytes(size, Pad(d.env.flash[id], WordCount(size), fill))
    ensures !ValidFileId(fileId) || !ValidKey(MapIndexToRecId(index)) ==> r.drv == d && r.status == SetupErr
    ensures Accepts(d, fileId, MapIndexToRecId(index)) && d.env.script == [] ==>
      r.drv.env.script == []
      && (r.status == FlashSuccess <==> RecordId(fileId, MapIndexToRecId(index)) in d.env.flash)
      && (r.status == NotFoundErr <==> RecordId(fileId, MapIndexToRecId(index)) !in d.env.flash)
  {
    var c := FdsRecConfig(d, fileId, MapIndexToRecId(index), []);
    if !c.ok then ReadResult(c.drv, SetupErr, [])
    else
      var wordsSize := WordCount(size);
      var buf := seq(wordsSize, _ => fill);
      var rd := FdsRecRead(c.drv, buf);
      if rd.drv.ret == FdsErrNotFound then ReadResult(rd.drv, NotFoundErr, [])
      else if rd.drv.ret != FdsSuccess then ReadResult(rd.drv, ReadErr, [])
      else
        var id := RecordId(fileId, MapIndexToRecId(index));
        assert rd.buf == Pad(d.env.flash[id], wordsSize, fill);
        ReadResult(rd.drv, FlashSuccess, Words2Bytes(size, rd.buf))
  }

  /** delByteArray: a missing record is a deletion error, like any failure of fdsRecDelete. */
  function DelByteArray(d: Driver, fileId: U16, index: U16): (r: StoreStep)
    ensures r.Returned? ==> r.drv.pageSize == d.pageSize && r.drv.waitFn == d.waitFn
    ensures r.Returned? ==> r.status in {FlashSuccess, SetupErr, DelErr}
    ensures r.Returned? && r.status == FlashSuccess ==>
      RecordId(fileId, MapIndexToRecId(index)) in d.env.flash
      && r.drv.env.flash == d.env.flash - {RecordId(fileId, MapIndexToRecId(index))}
    ensures r.Returned? && r.status != FlashSuccess ==> r.drv.env.flash == d.env.flash
    ensures !ValidFileId(fileId) || !ValidKey(MapIndexToRecId(index)) ==> r == Returned(d, SetupErr)
    ensures Accepts(d, fileId, MapIndexToRecId(index)) && d.env.script == [] ==>
      r.Returned? && r.drv.env.script == []
      && (r.status == FlashSuccess <==> RecordId(fileId, MapIndexToRecId(index)) in d.env.flash)
  {
    var c := FdsRecConfig(d, fileId, MapIndexToRecId(index), []);
    if !c.ok then Returned(c.drv, SetupErr)
    else
      match FdsRecDelete(c.drv)
      case Hang => Hangs
      case Done(d1) => if d1.ret != FdsSuccess then Returned(d1, DelErr) else Returned(d1, FlashSuccess)
  }

  // ---------------------------------------------------------------------------
  // Layer 2: tagged byte arrays

  /** setOneByteArrayData: the tag goes in front of the payload. */
  function SetOneByteArrayData(d: Driver, fileId: U16, index: U16, payload: seq<Byte>, tag: Byte): (r: StoreStep)
    requires |payload| <= 254
    ensures r.Returned? ==> r.drv.pageSize == d.pageSize && r.drv.waitFn == d.waitFn
    ensures r.Returned? ==> r.status in {FlashSuccess, SetupErr, LookupErr, GcErr, WriteErr}
    ensures r.Returned? && r.status == FlashSuccess ==>
      r.drv.env.flash == d.env.flash[RecordId(fileId, MapIndexToRecId(index)) := TaggedWords(tag, payload)]
    ensures r.Returned? && r.status != FlashSuccess ==> r.drv.env.flash == d.env.flash
    ensures Accepts(d, fileId, MapIndexToRecId(index)) && d.env.script == [] ==>
      r.Returned? && r.status == FlashSuccess && r.drv.env.script == []
  {
    SetByteArray(d, fileId, index, [tag] + payload)
  }

  /** getOneByteArrayData: reads size + 1 bytes and splits off the tag. */
  function GetOneByteArrayData(d: Driver, fileId: U16, index: U16, size: nat, fill: Word): (r: TaggedRead)
    requires size <= 254
    requires Fits(d.env.flash, RecordId(fileId, MapIndexToRecId(index)), size + 1)
    ensures r.drv.env.flash == d.env.flash
    ensures r.drv.pageSize == d.pageSize && r.drv.waitFn == d.waitFn
    ensures r.status in {FlashSuccess, SetupErr, NotFoundErr, ReadErr}
    ensures r.status == FlashSuccess ==>
      var id := RecordId(fileId, MapIndexToRecId(index));
      id in d.env.flash && [r.tag] + r.payload == Words2Bytes(size + 1, Pad(d.env.flash[id], WordCount(size + 1), fill))
    ensures Accepts(d, fileId, MapIndexToRecId(index)) && d.env.script == [] ==>
      r.drv.env.script == []
      && (r.status == FlashSuccess <==> RecordId(fileId, MapIndexToRecId(index)) in d.env.flash)
      && (r.status == NotFoundErr <==> RecordId(fileId, MapIndexToRecId(index)) !in d.env.flash)
  {
    var g := GetByteArray(d, fileId, index, size + 1, fill);
    if g.status != FlashSuccess then TaggedRead(g.drv, g.status, [], 0)
    else TaggedRead(g.drv, g.status, g.bytes[1..], g.bytes[0])
  }

  /** Reading back a tagged record returns the tag and payload it was written with. */
  lemma TaggedRoundTrip(d: Driver, fileId: U16, index: U16, payload: seq<Byte>, tag: Byte, fill: Word)
    requires |payload| <= 254
    requires RecordId(fileId, MapIndexToRecId(index)) in d.env.flash
    requires d.env.flash[RecordId(fileId, MapIndexToRecId(index))] == TaggedWords(tag, payload)
    ensures var r := GetOneByteArrayData(d, fileId, index, |payload|, fill);
      r.status == FlashSuccess ==> r.tag == tag && r.payload == payload
    ensures Accepts(d, fileId, MapIndexToRecId(index)) && d.env.script == [] ==>
      GetOneByteArrayData(d, fileId, index, |payload|, fill).status == FlashSuccess
  {
    var words := TaggedWords(tag, payload);
    BytesRoundTrip([tag] + payload);
    assert Pad(words, WordCount(|payload| + 1), fill) == words;
  }

  // ---------------------------------------------------------------------------
  // Layer 3: records by index

  /** A stored record of this index fits the buffer its readers allocate. */
  predicate RecordFits(flash: Flash, index: U16)
  {
    InRange(index) ==> Fits(flash, RecordOf(index), RecordSize(index) + 1)
  }

  /** Every record of the store fits its readers' buffers. */
  predicate StoreFits(flash: Flash)
  {
    forall index: U16 :: RecordFits(flash, index)
  }

  /** The bytes a read of this index yields: tag first, then the payload. */
  function ReadImage(flash: Flash, index: U16, fill: Word): (b: seq<Byte>)
    requires InRange(index) && RecordOf(index) in flash && RecordFits(flash, index)
    ensures |b| == RecordSize(index) + 1
  {
    var n := RecordSize(index) + 1;
    Words2Bytes(n, Pad(flash[RecordOf(index)], WordCount(n), fill))
  }

  /** A record written with this tag and payload reads back as exactly that. */
  lemma ReadImageOfTagged(flash: Flash, index: U16, tag: Byte, payload: seq<Byte>, fill: Word)
    requires InRange(index) && |payload| == RecordSize(index)
    requires RecordOf(index) in flash && flash[RecordOf(index)] == TaggedWords(tag, payload)
    ensures RecordFits(flash, index)
    ensures ReadImage(flash, index, fill) == [tag] + payload
  {
    BytesRoundTrip([tag] + payload);
    assert Pad(TaggedWords(tag, payload), WordCount(|payload| + 1), fill) == TaggedWords(tag, payload);
  }

  /** The record status a tag byte stands for. */
  function TagStatus(tag: Byte): FlashStatus
  {
    if tag == RecTagDefault then RecUnchanged
    else if tag == RecTagChanged then RecChanged
    else RecTagErr
  }

  /**
   * getOneRecordStatus: reads the whole record and classifies its tag;
   * read errors pass through.
   */
  function GetOneRecordStatus(d: Driver, index: U16, fill: Word): (r: Checked)
    requires RecordFits(d.env.flash, index)
    ensures r.drv.env.flash == d.env.flash
    ensures r.drv.pageSize == d.pageSize && r.drv.waitFn == d.waitFn
    ensures !InRange(index) ==> r == Checked(d, OutOfRangeErr)
    ensures r.status in {OutOfRangeErr, SetupErr, NotFoundErr, ReadErr, RecUnchanged, RecChanged, RecTagErr}
    ensures r.status in {RecUnchanged, RecChanged, RecTagErr} ==>
      InRange(index) && RecordOf(index) in d.env.flash
      && r.status == TagStatus(ReadImage(d.env.flash, index, fill)[0])
    ensures InRange(index) && RoomyPages(d) && d.env.script == [] ==>
      r.drv.env.script == []
      && (RecordOf(index) in d.env.flash ==> r.status == TagStatus(ReadImage(d.env.flash, index, fill)[0]))
      && (RecordOf(index) !in d.env.flash ==> r.status == NotFoundErr)
  {
    if !InRange(index) then Checked(d, OutOfRangeErr)
    else
      StoreKeysValid(index);
      FileIdsValid();
      var g := GetOneByteArrayData(d, RecordFile(index), index, RecordSize(index), fill);
      if g.status != FlashSuccess then Checked(g.drv, g.status)
      else Checked(g.drv, TagStatus(g.tag))
  }

  /** initOneRecord: the section's default payload under the default tag. */
  function InitOneRecord(d: Driver, index: U16, colors: seq<seq<Byte>>): (r: StoreStep)
    requires DataColors.WellFormedColors(colors)
    ensures r.Returned? ==> r.drv.pageSize == d.pageSize && r.drv.waitFn == d.waitFn
    ensures !InRange(index) ==> r == Returned(d, OutOfRangeErr)
    ensures InRange(index) && r.Returned? ==> r.status in {FlashSuccess, SetupErr, LookupErr, GcErr, WriteErr}
    ensures r.Returned? && r.status == FlashSuccess ==>
      InRange(index)
      && r.drv.env.flash == d.env.flash[RecordOf(index) := TaggedWords(RecTagDefault, DefaultPayload(index, colors))]
    ensures r.Returned? && r.status != FlashSuccess ==> r.drv.env.flash == d.env.flash
    ensures InRange(index) && RoomyPages(d) && d.env.script == [] ==>
      r.Returned? && r.status == FlashSuccess && r.drv.env.script == []
  {
    if !InRange(index) then Returned(d, OutOfRangeErr)
    else
      StoreKeysValid(index);
      FileIdsValid();
      SetOneByteArrayData(d, RecordFile(index), index, DefaultPayload(index, colors), RecTagDefault)
  }

  /** setOneRecord: the first RecordSize(index) bytes of the caller's array under the changed tag. */
  function SetOneRecord(d: Driver, index: U16, bytes: seq<Byte>): (r: StoreStep)
    requires InRange(index) ==> |bytes| >= RecordSize(index)
    ensures r.Returned? ==> r.drv.pageSize == d.pageSize && r.drv.waitFn == d.waitFn
    ensures !InRange(index) ==> r == Returned(d, OutOfRangeErr)
    ensures r.Returned? && r.status == FlashSuccess ==>
      InRange(index)
      && r.drv.env.flash == d.env.flash[RecordOf(index) := TaggedWords(RecTagChanged, bytes[..RecordSize(index)])]
    ensures r.Returned? && r.status != FlashSuccess ==> r.drv.env.flash == d.env.flash
    ensures InRange(index) && RoomyPages(d) && d.env.script == [] ==>
      r.Returned? && r.status == FlashSuccess && r.drv.env.script == []
  {
    if !InRange(index) then Returned(d, OutOfRangeErr)
    else
      StoreKeysValid(index);
      FileIdsValid();
      SetOneByteArrayData(d, RecordFile(index), index, bytes[..RecordSize(index)], RecTagChanged)
  }

  /** getOneRecord: the payload only; the tag is read and dropped. */
  function GetOneRecord(d: Driver, index: U16, fill: Word): (r: ReadResult)
    requires RecordFits(d.env.flash, index)
    ensures r.drv.env.flash == d.env.flash
    ensures r.drv.pageSize == d.pageSize && r.drv.waitFn == d.waitFn
    ensures !InRange(index) ==> r.drv == d && r.status == OutOfRangeErr
    ensures r.status in {OutOfRangeErr, FlashSuccess, SetupErr, NotFoundErr, ReadErr}
    ensures r.status == FlashSuccess ==>
      InRange(index) && RecordOf(index) in d.env.flash && r.bytes == ReadImage(d.env.flash, index, fill)[1..]
    ensures InRange(index) && RoomyPages(d) && d.env.script == [] ==>
      r.drv.env.script == []
      && (r.status == FlashSuccess <==> RecordOf(index) in d.env.flash)
      && (r.status == NotFoundErr <==> RecordOf(index) !in d.env.flash)
  {
    if !InRange(index) then ReadResult(d, OutOfRangeErr, [])
    else
      StoreKeysValid(index);
      FileIdsValid();
      var g := GetOneByteArrayData(d, RecordFile(index), index, RecordSize(index), fill);
      ReadResult(g.drv, g.status, g.payload)
  }

  /** delOneRecord */
  function DelOneRecord(d: Driver, index: U16): (r: StoreStep)
    ensures r.Returned? ==> r.drv.pageSize == d.pageSize && r.drv.waitFn == d.waitFn
    ensures !InRange(index) ==> r == Returned(d, OutOfRangeErr)
    ensures r.Returned? && r.status == FlashSuccess ==>
      InRange(index) && RecordOf(index) in d.env.flash && r.drv.env.flash == d.env.flash - {RecordOf(index)}
    ensures r.Returned? && r.status != FlashSuccess ==> r.drv.env.flash == d.env.flash
    ensures InRange(index) && RoomyPages(d) && d.env.script == [] ==>
      r.Returned? && r.drv.env.script == []
      && (r.status == FlashSuccess <==> RecordOf(index) in d.env.flash)
      && (r.status == DelErr <==> RecordOf(index) !in d.env.flash)
  {
    if !InRange(index) then Returned(d, OutOfRangeErr)
    else
      StoreKeysValid(index);
      FileIdsValid();
      DelByteArray(d, RecordFile(index), index)
  }

  // ---------------------------------------------------------------------------
  // Layer 4: the whole store

  /** The record is left exactly as it was. */
  predicate Kept(before: Flash, after: Flash, id: RecordId)
  {
    (id in after <==> id in before) && (id in before ==> after[id] == before[id])
  }

  /** Every record whose key lies outside 0x1000 + index .. 0x1000 + LastIndex is left as it was. */
  ghost predicate KeptOutside(before: Flash, after: Flash, index: nat)
  {
    forall id: RecordId :: !(0x1000 + index <= id.key <= 0x1000 + LastIndex) ==> Kept(before, after, id)
  }

  /** The image initOneRecord writes for an index. */
  function DefaultImage(index: U16, colors: seq<seq<Byte>>): seq<Word>
    requires InRange(index) && DataColors.WellFormedColors(colors)
  {
    TaggedWords(RecTagDefault, DefaultPayload(index, colors))
  }

  /** The record of this index holds its default image. */
  predicate HoldsDefault(flash: Flash, j: U16, colors: seq<seq<Byte>>)
    requires DataColors.WellFormedColors(colors)
  {
    InRange(j) && RecordOf(j) in flash && flash[RecordOf(j)] == DefaultImage(j, colors)
  }

  /** Every record from index on holds its default image. */
  predicate DefaultsFrom(flash: Flash, index: nat, colors: seq<seq<Byte>>)
    requires DataColors.WellFormedColors(colors)
  {
    forall j: U16 :: 1 <= j && index <= j <= LastIndex ==> HoldsDefault(flash, j, colors)
  }

  /** One iteration of the init loop extends what the rest of the loop establishes. */
  lemma {:induction false} InitStep(f0: Flash, f1: Flash, f2: Flash, index: U16, colors: seq<seq<Byte>>, success: bool)
    requires InRange(index) && DataColors.WellFormedColors(colors)
    requires f1 == f0[RecordOf(index) := DefaultImage(index, colors)]
    requires KeptOutside(f1, f2, index + 1)
    requires success ==> DefaultsFrom(f2, index + 1, colors)
    ensures KeptOutside(f0, f2, index)
    ensures success ==> DefaultsFrom(f2, index, colors)
  {
    var id := RecordOf(index);
    assert id.key == 0x1000 + index;
    assert Kept(f1, f2, id);
    forall other: RecordId | !(0x1000 + index <= other.key <= 0x1000 + LastIndex)
      ensures Kept(f0, f2, other)
    {
      assert other != id;
      assert Kept(f1, f2, other);
    }
    if success {
      forall j: U16 | 1 <= j && index <= j <= LastIndex
        ensures HoldsDefault(f2, j, colors)
      {
        if j == index {
          assert f2[id] == f1[id];
        }
      }
    }
  }

  /**
   * A loop that started at index and failed at stop: the records before
   * stop hold their defaults and every other record is as it was.
   */
  ghost predicate InitializedUpTo(before: Flash, after: Flash, index: nat, stop: nat, colors: seq<seq<Byte>>)
    requires DataColors.WellFormedColors(colors)
  {
    (forall j: U16 :: 1 <= j && index <= j < stop ==> HoldsDefault(after, j, colors))
    && forall id: RecordId :: !(0x1000 + index <= id.key < 0x1000 + stop) ==> Kept(before, after, id)
  }

  /** The loop started at index stopped at some record that it could not initialise. */
  ghost predicate FailedWithin(before: Flash, after: Flash, index: nat, colors: seq<seq<Byte>>)
    requires DataColors.WellFormedColors(colors)
  {
    exists stop: nat :: index <= stop <= LastIndex && InitializedUpTo(before, after, index, stop, colors)
  }

  /** A failure later in the loop is a failure after one more initialised record. */
  lemma {:induction false} InitFailStep(f0: Flash, f1: Flash, f2: Flash, index: U16, colors: seq<seq<Byte>>)
    requires InRange(index) && DataColors.WellFormedColors(colors)
    requires f1 == f0[RecordOf(index) := DefaultImage(index, colors)]
    requires FailedWithin(f1, f2, index + 1, colors)
    ensures FailedWithin(f0, f2, index, colors)
  {
    var stop: nat :| index + 1 <= stop <= LastIndex && InitializedUpTo(f1, f2, index + 1, stop, colors);
    var id := RecordOf(index);
    assert id.key == 0x1000 + index;
    assert Kept(f1, f2, id);
    forall other: RecordId | !(0x1000 + index <= other.key < 0x1000 + stop)
      ensures Kept(f0, f2, other)
    {
      assert other != id;
      assert Kept(f1, f2, other);
    }
    forall j: U16 | 1 <= j && index <= j < stop
      ensures HoldsDefault(f2, j, colors)
    {
      if j == index {
        assert f2[id] == f1[id];
      }
    }
    assert InitializedUpTo(f0, f2, index, stop, colors);
  }

  /**
   * The loop of initAllRecords from index on: stops at the first record
   * that cannot be initialised and passes its status on.
   */
  function InitFrom(d: Driver, index: nat, colors: seq<seq<Byte>>): (r: StoreStep)
    requires 1 <= index <= LastIndex + 1
    requires DataColors.WellFormedColors(colors)
    decreases LastIndex + 1 - index
    ensures r.Returned? ==> r.drv.pageSize == d.pageSize && r.drv.waitFn == d.waitFn
    ensures r.Returned? && r.status == FlashSuccess ==> DefaultsFrom(r.drv.env.flash, index, colors)
    ensures r.Returned? ==> KeptOutside(d.env.flash, r.drv.env.flash, index)
    ensures RoomyPages(d) && d.env.script == [] ==>
      r.Returned? && r.status == FlashSuccess && r.drv.env.script == []
    ensures r.Returned? && r.status != FlashSuccess ==>
      r.status in {SetupErr, LookupErr, GcErr, WriteErr}
      && FailedWithin(d.env.flash, r.drv.env.flash, index, colors)
  {
    if index > LastIndex then Returned(d, FlashSuccess)
    else
      match InitOneRecord(d, index, colors)
      case Hangs => Hangs
      case Returned(d1, st) =>
        if st != FlashSuccess then
          assert InitializedUpTo(d.env.flash, d1.env.flash, index, index, colors);
          Returned(d1, st)
        else
          var r := InitFrom(d1, index + 1, colors);
          if r.Returned? then
            InitStep(d.env.flash, d1.env.flash, r.drv.env.flash, index, colors, r.status == FlashSuccess);
            if r.status != FlashSuccess then
              InitFailStep(d.env.flash, d1.env.flash, r.drv.env.flash, index, colors);
              r
            else r
          else r
  }

  /** initAllRecords */
  function InitAllRecords(d: Driver, colors: seq<seq<Byte>>): (r: StoreStep)
    requires DataColors.WellFormedColors(colors)
    ensures r.Returned? && r.status == FlashSuccess ==>
      forall j: U16 :: InRange(j) ==> HoldsDefault(r.drv.env.flash, j, colors)
    ensures r.Returned? ==>
      forall id: RecordId :: !(0x1001 <= id.key <= 0x1073) ==> Kept(d.env.flash, r.drv.env.flash, id)
    ensures RoomyPages(d) && d.env.script == [] ==>
      r.Returned? && r.status == FlashSuccess && r.drv.env.script == []
    ensures r.Returned? && r.status != FlashSuccess ==>
      r.status in {SetupErr, LookupErr, GcErr, WriteErr}
      && FailedWithin(d.env.flash, r.drv.env.flash, 1, colors)
  {
    InitFrom(d, 1, colors)
  }

  /** The record of this index exists and its tag reads as the default tag. */
  predicate TagReadsDefault(flash: Flash, j: U16, fill: Word)
  {
    InRange(j) && RecordFits(flash, j) && RecordOf(j) in flash && ReadImage(flash, j, fill)[0] == RecTagDefault
  }

  /** Every record from index on exists and its tag reads as the default tag. */
  predicate AllDefaultFrom(flash: Flash, index: nat, fill: Word)
  {
    forall j: U16 :: 1 <= j && index <= j <= LastIndex ==> TagReadsDefault(flash, j, fill)
  }

  /** The loop's condition on one record splits off the front of AllDefaultFrom. */
  lemma AllDefaultStep(flash: Flash, index: U16, fill: Word)
    requires InRange(index)
    ensures AllDefaultFrom(flash, index, fill) <==>
      (TagReadsDefault(flash, index, fill) && AllDefaultFrom(flash, index + 1, fill))
  {
  }

  /**
   * getOneRecordStatus reports RecUnchanged only for a record whose tag
   * reads as the default, and on fault-free flash for every such record.
   */
  lemma UnchangedMeansDefaultTag(d: Driver, index: U16, fill: Word)
    requires InRange(index) && StoreFits(d.env.flash)
    ensures GetOneRecordStatus(d, index, fill).status == RecUnchanged ==> TagReadsDefault(d.env.flash, index, fill)
    ensures RoomyPages(d) && d.env.script == [] && TagReadsDefault(d.env.flash, index, fill) ==>
      GetOneRecordStatus(d, index, fill).status == RecUnchanged
  {
    assert RecordFits(d.env.flash, index);
  }

  /**
   * The loop of isAllRecordValid from index on: false at the first record
   * whose status is not RecUnchanged, including records that cannot be read.
   */
  function ValidFrom(d: Driver, index: nat, fill: Word): (r: Verdict)
    requires 1 <= index <= LastIndex + 1
    requires StoreFits(d.env.flash)
    decreases LastIndex + 1 - index
    ensures r.drv.env.flash == d.env.flash
    ensures r.drv.pageSize == d.pageSize && r.drv.waitFn == d.waitFn
    ensures r.valid ==> AllDefaultFrom(d.env.flash, index, fill)
    ensures RoomyPages(d) && d.env.script == [] ==>
      r.drv.env.script == [] && (r.valid <==> AllDefaultFrom(d.env.flash, index, fill))
  {
    if index > LastIndex then Verdict(d, true)
    else
      assert RecordFits(d.env.flash, index);
      var c := GetOneRecordStatus(d, index, fill);
      UnchangedMeansDefaultTag(d, index, fill);
      AllDefaultStep(d.env.flash, index, fill);
      if c.status != RecUnchanged then Verdict(c.drv, false)
      else ValidFrom(c.drv, index + 1, fill)
  }

  /** isAllRecordValid */
  function IsAllRecordValid(d: Driver, fill: Word): (r: Verdict)
    requires StoreFits(d.env.flash)
    ensures r.drv.env.flash == d.env.flash
    ensures r.valid ==> AllDefaultFrom(d.env.flash, 1, fill)
    ensures RoomyPages(d) && d.env.script == [] ==>
      r.drv.env.script == [] && (r.valid <==> AllDefaultFrom(d.env.flash, 1, fill))
  {
    ValidFrom(d, 1, fill)
  }
}
