/**
 * The colour calibration data set (data_colors.h): record indices
 * 30..101, one 4-byte value each. The defaults are IEEE-754 floats kept in
 * a data_color_t union; the store only ever moves their four bytes, so
 * the model treats each default as an opaque 4-byte payload.
 */
module DataColors {
  import opened Codec

  const ColorStart: nat := 30
  const ColorEnd: nat := 101
  const ColorNum: nat := ColorEnd - ColorStart + 1

  const MotherStart: nat := 30
  const MotherEnd: nat := 62
  const MotherNum: nat := MotherEnd - MotherStart + 1

  const FactoryStart: nat := 63
  const FactoryEnd: nat := 80
  const FactoryNum: nat := FactoryEnd - FactoryStart + 1

  const GreyFactoryStart: nat := 81
  const GreyFactoryEnd: nat := 89
  const GreyFactoryNum: nat := GreyFactoryEnd - GreyFactoryStart + 1

  const TempStart: nat := 90
  const TempEnd: nat := 91
  const TempNum: nat := TempEnd - TempStart + 1

  const GreyUserStart: nat := 92
  const GreyUserEnd: nat := 100
  const GreyUserNum: nat := GreyUserEnd - GreyUserStart + 1

  const TempUserStart: nat := 101
  const TempUserEnd: nat := 101
  const TempUserNum: nat := TempUserEnd - TempUserStart + 1

  const TotalNum: nat := MotherNum + FactoryNum + GreyFactoryNum + GreyUserNum + TempNum + TempUserNum

  /**
   * The table getColorInfo returns: one 4-byte default per colour index,
   * in index order.
   */
  predicate WellFormedColors(colors: seq<seq<Byte>>)
  {
    |colors| == ColorNum && forall i :: 0 <= i < |colors| ==> |colors[i]| == 4
  }

  /** The six sub-ranges tile 30..101 in order and add up to COLOR_DATA_NUM. */
  lemma ColorLayout()
    ensures MotherStart == ColorStart && MotherEnd + 1 == FactoryStart
    ensures FactoryEnd + 1 == GreyFactoryStart && GreyFactoryEnd + 1 == TempStart
    ensures TempEnd + 1 == GreyUserStart && GreyUserEnd + 1 == TempUserStart
    ensures TempUserEnd == ColorEnd
    ensures TotalNum == ColorNum == 72
  {
  }
}
