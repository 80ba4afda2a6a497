/**
 * The extended data set (data_extended.h / data_extended.c): record
 * indices 102..115, split into manufacturer (102..104), user (105) and
 * reserved (106..115) records.
 */
module DataExtended {
  import opened Codec
  import DataSettings

  const ExtStart: nat := 102
  const ExtEnd: nat := 115
  const ExtNum: nat := ExtEnd - ExtStart + 1

  const ManStart: nat := 102
  const ManEnd: nat := 104
  const ManNum: nat := ManEnd - ManStart + 1

  const UserStart: nat := 105
  const UserEnd: nat := 105
  const UserNum: nat := UserEnd - UserStart + 1

  const ReservedStart: nat := 106
  const ReservedEnd: nat := 115
  const ReservedNum: nat := ReservedEnd - ReservedStart + 1

  // Record sizes in bytes
  const ManUnitnSize: nat := 4
  const ManCalibtSize: nat := 40
  const ManUnittSize: nat := 40
  const UserFcdtSize: nat := 40
  const ReservedSize: nat := 4

  /** getManSizeInfo */
  function GetManSizeInfo(): (t: seq<nat>)
    ensures |t| == ManNum
    ensures forall i :: 0 <= i < |t| ==> 0 < t[i] <= 40
  {
    [ManUnitnSize, ManCalibtSize, ManUnittSize]
  }

  /** getManInfo: all-zero defaults, each as long as its size entry. */
  function GetManInfo(): (t: seq<seq<Byte>>)
    ensures |t| == ManNum
    ensures forall i :: 0 <= i < |t| ==> t[i] == DataSettings.Zeros(GetManSizeInfo()[i])
  {
    [DataSettings.Zeros(ManUnitnSize), DataSettings.Zeros(ManCalibtSize), DataSettings.Zeros(ManUnittSize)]
  }

  /** getUsrSizeInfo */
  function GetUsrSizeInfo(): (t: seq<nat>)
    ensures |t| == UserNum
    ensures forall i :: 0 <= i < |t| ==> 0 < t[i] <= 40
  {
    [UserFcdtSize]
  }

  /** getUsrInfo */
  function GetUsrInfo(): (t: seq<seq<Byte>>)
    ensures |t| == UserNum
    ensures forall i :: 0 <= i < |t| ==> t[i] == DataSettings.Zeros(GetUsrSizeInfo()[i])
  {
    [DataSettings.Zeros(UserFcdtSize)]
  }

  /** getReservedSizeInfo: ten 4-byte records. */
  function GetReservedSizeInfo(): (t: seq<nat>)
    ensures |t| == ReservedNum
    ensures forall i :: 0 <= i < |t| ==> 0 < t[i] <= 40
  {
    seq(ReservedNum, _ => ReservedSize)
  }

  /** getReservedInfo */
  function GetReservedInfo(): (t: seq<seq<Byte>>)
    ensures |t| == ReservedNum
    ensures forall i :: 0 <= i < |t| ==> t[i] == DataSettings.Zeros(GetReservedSizeInfo()[i])
  {
    seq(ReservedNum, _ => DataSettings.Zeros(ReservedSize))
  }

  /** The three sub-ranges tile 102..115 in order. */
  lemma ExtendedLayout()
    ensures ManStart == ExtStart && ManEnd + 1 == UserStart
    ensures UserEnd + 1 == ReservedStart && ReservedEnd == ExtEnd
    ensures ManNum + UserNum + ReservedNum == ExtNum == 14
  {
  }
}
