/**
 * The settings data set (data_settings.h / data_settings.c): record
 * indices 1..29. Indices 1..9 hold device information of assorted sizes;
 * indices 10..29 hold one 32-bit word each.
 */
module DataSettings {
  import opened Codec

  // Device information
  const DevInfoStart: nat := 1
  const DevInfoEnd: nat := 9
  const DevInfoNum: nat := DevInfoEnd - DevInfoStart + 1
  // DFU system information
  const DfuStart: nat := 10
  const DfuEnd: nat := 13
  const DfuNum: nat := DfuEnd - DfuStart + 1
  // Device settings
  const DevSetStart: nat := 14
  const DevSetEnd: nat := 16
  const DevSetNum: nat := DevSetEnd - DevSetStart + 1
  // System status
  const SysStart: nat := 17
  const SysEnd: nat := 20
  const SysNum: nat := SysEnd - SysStart + 1
  // Colour sensor settings
  const SenrStart: nat := 21
  const SenrEnd: nat := 29
  const SenrNum: nat := SenrEnd - SenrStart + 1

  const SetDataNum: nat := DevInfoNum + DfuNum + DevSetNum + SysNum + SenrNum

  // The 32-bit settings
  const OneWordStart: nat := 10
  const OneWordEnd: nat := 29
  const OneWordNum: nat := DfuNum + DevSetNum + SysNum + SenrNum

  // Device information sizes in bytes
  const VmiSize: nat := 4
  const SnSize: nat := 8
  const MacSize: nat := 6
  const NameSize: nat := 8
  const ModnSize: nat := 8
  const MannSize: nat := 8
  const HrSize: nat := 8
  const FrSize: nat := 8
  const FcdtSize: nat := 40

  /** Every one-word default value (all the *_DEFAULT macros are 0). */
  const OneWordDefault: Word := 0

  /** n zero bytes: a C array initialised with {0x00}. */
  function Zeros(n: nat): (z: seq<Byte>)
    ensures |z| == n && forall i :: 0 <= i < n ==> z[i] == 0
  {
    seq(n, _ => 0)
  }

  /**
   * getDevSizeInfo: default_devinfo_size is declared with SET_DATA_NUM
   * slots; only the nine device information slots are initialised and C
   * zero-fills the rest.
   */
  function GetDevSizeInfo(): (t: seq<nat>)
    ensures |t| == SetDataNum
    ensures forall i :: DevInfoNum <= i < SetDataNum ==> t[i] == 0
    ensures forall i :: 0 <= i < DevInfoNum ==> 0 < t[i] <= 40
  {
    [VmiSize, SnSize, MacSize, NameSize, ModnSize, MannSize, HrSize, FrSize, FcdtSize]
      + seq(SetDataNum - DevInfoNum, _ => 0)
  }

  /** getDevInfo: one all-zero default per device information record, as long as its declared size. */
  function GetDevInfo(): (t: seq<seq<Byte>>)
    ensures |t| == DevInfoNum
    ensures forall i :: 0 <= i < DevInfoNum ==> t[i] == Zeros(GetDevSizeInfo()[i])
  {
    [Zeros(VmiSize), Zeros(SnSize), Zeros(MacSize), Zeros(NameSize), Zeros(ModnSize),
     Zeros(MannSize), Zeros(HrSize), Zeros(FrSize), Zeros(FcdtSize)]
  }

  /** getOwSetInfo: the default words of indices 10..29, in index order. */
  function GetOwSetInfo(): (t: seq<Word>)
    ensures |t| == OneWordNum == OneWordEnd - OneWordStart + 1
    ensures forall i :: 0 <= i < |t| ==> t[i] == OneWordDefault
  {
    seq(OneWordNum, _ => OneWordDefault)
  }

  /**
   * The byte view of a data_set_t union holding w: the target is
   * little-endian, so byte k is lane k of the word.
   */
  function UnionBytes(w: Word): (b: seq<Byte>)
    ensures |b| == 4 && Pack(b[0], b[1], b[2], b[3]) == w
  {
    PackByteOf(w);
    [ByteOf(w, 0), ByteOf(w, 1), ByteOf(w, 2), ByteOf(w, 3)]
  }

  /** The five sub-ranges tile 1..29 in order, and the one-word range is the last four of them. */
  lemma SettingsLayout()
    ensures DevInfoEnd + 1 == DfuStart && DfuEnd + 1 == DevSetStart
    ensures DevSetEnd + 1 == SysStart && SysEnd + 1 == SenrStart
    ensures SetDataNum == SenrEnd - DevInfoStart + 1 == 29
    ensures OneWordStart == DfuStart && OneWordEnd == SenrEnd && OneWordNum == 20
  {
  }
}
