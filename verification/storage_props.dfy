/**
 * Properties that relate several calls of the record store: what a read
 * returns after a write, an initialisation or a deletion; which records a
 * write leaves alone; how initAllRecords and isAllRecordValid fit
 * together; and the retry path of setByteArray.
 */
module StorageProps {
  import opened Codec
  import opened Fds
  import opened DrvStorage
  import opened Storage
  import DataColors

  /** Writing a record of the store keeps every record of the store within its readers' buffers. */
  lemma StoreFitsAfterPut(flash: Flash, index: U16, tag: Byte, payload: seq<Byte>)
    requires StoreFits(flash) && InRange(index) && |payload| == RecordSize(index)
    ensures StoreFits(flash[RecordOf(index) := TaggedWords(tag, payload)])
  {
    var f := flash[RecordOf(index) := TaggedWords(tag, payload)];
    forall j: U16
      ensures RecordFits(f, j)
    {
      if InRange(j) && j != index {
        RecordOfInjective(j, index);
        assert RecordFits(flash, j);
      }
    }
  }

  /** A successful setOneRecord is read back by getOneRecord as the bytes it stored. */
  lemma SetThenGet(d: Driver, index: U16, bytes: seq<Byte>, fill: Word)
    requires InRange(index) && |bytes| >= RecordSize(index)
    ensures var s := SetOneRecord(d, index, bytes);
      s.Returned? && s.status == FlashSuccess ==>
        RecordFits(s.drv.env.flash, index)
        && (var g := GetOneRecord(s.drv, index, fill);
            (g.status == FlashSuccess ==> g.bytes == bytes[..RecordSize(index)])
            && (RoomyPages(d) && s.drv.env.script == [] ==> g.status == FlashSuccess))
  {
    var s := SetOneRecord(d, index, bytes);
    if s.Returned? && s.status == FlashSuccess {
      ReadImageOfTagged(s.drv.env.flash, index, RecTagChanged, bytes[..RecordSize(index)], fill);
    }
  }

  /** After a successful setOneRecord the record's status reads as changed unless the read itself fails. */
  lemma SetThenStatus(d: Driver, index: U16, bytes: seq<Byte>, fill: Word)
    requires InRange(index) && |bytes| >= RecordSize(index)
    ensures var s := SetOneRecord(d, index, bytes);
      s.Returned? && s.status == FlashSuccess ==>
        RecordFits(s.drv.env.flash, index)
        && (var c := GetOneRecordStatus(s.drv, index, fill);
            (c.status in {RecUnchanged, RecChanged, RecTagErr} ==> c.status == RecChanged)
            && (RoomyPages(d) && s.drv.env.script == [] ==> c.status == RecChanged))
  {
    var s := SetOneRecord(d, index, bytes);
    if s.Returned? && s.status == FlashSuccess {
      ReadImageOfTagged(s.drv.env.flash, index, RecTagChanged, bytes[..RecordSize(index)], fill);
    }
  }

  /** After a successful initOneRecord, getOneRecord returns the default payload and the status reads as unchanged. */
  lemma InitThenGet(d: Driver, index: U16, colors: seq<seq<Byte>>, fill: Word)
    requires InRange(index) && DataColors.WellFormedColors(colors)
    ensures var s := InitOneRecord(d, index, colors);
      s.Returned? && s.status == FlashSuccess ==>
        RecordFits(s.drv.env.flash, index)
        && (var g := GetOneRecord(s.drv, index, fill);
            var c := GetOneRecordStatus(s.drv, index, fill);
            (g.status == FlashSuccess ==> g.bytes == DefaultPayload(index, colors))
            && (c.status in {RecUnchanged, RecChanged, RecTagErr} ==> c.status == RecUnchanged)
            && (RoomyPages(d) && s.drv.env.script == [] ==> g.status == FlashSuccess && c.status == RecUnchanged))
  {
    var s := InitOneRecord(d, index, colors);
    if s.Returned? && s.status == FlashSuccess {
      ReadImageOfTagged(s.drv.env.flash, index, RecTagDefault, DefaultPayload(index, colors), fill);
    }
  }

  /** After a successful delOneRecord no read of that index succeeds, and on fault-free flash it is not found. */
  lemma DeleteThenGet(d: Driver, index: U16, fill: Word)
    requires InRange(index) && RecordFits(d.env.flash, index)
    ensures var s := DelOneRecord(d, index);
      s.Returned? && s.status == FlashSuccess ==>
        RecordFits(s.drv.env.flash, index)
        && (var g := GetOneRecord(s.drv, index, fill);
            var c := GetOneRecordStatus(s.drv, index, fill);
            g.status != FlashSuccess && c.status !in {RecUnchanged, RecChanged, RecTagErr}
            && (RoomyPages(d) && s.drv.env.script == [] ==> g.status == NotFoundErr && c.status == NotFoundErr))
  {
  }

  /** setOneRecord changes the record of its own index and no other. */
  lemma SetLeavesOthers(d: Driver, index: U16, other: U16, bytes: seq<Byte>)
    requires InRange(index) && InRange(other) && index != other
    requires |bytes| >= RecordSize(index)
    ensures var s := SetOneRecord(d, index, bytes);
      s.Returned? ==> Kept(d.env.flash, s.drv.env.flash, RecordOf(other))
  {
    RecordOfInjective(index, other);
  }

  /** initOneRecord changes the record of its own index and no other. */
  lemma InitLeavesOthers(d: Driver, index: U16, other: U16, colors: seq<seq<Byte>>)
    requires InRange(index) && InRange(other) && index != other
    requires DataColors.WellFormedColors(colors)
    ensures var s := InitOneRecord(d, index, colors);
      s.Returned? ==> Kept(d.env.flash, s.drv.env.flash, RecordOf(other))
  {
    RecordOfInjective(index, other);
    var s := InitOneRecord(d, index, colors);
    if s.Returned? && s.status == FlashSuccess {
      var f := d.env.flash[RecordOf(index) := DefaultImage(index, colors)];
      assert s.drv.env.flash == f;
      assert Kept(d.env.flash, f, RecordOf(other));
    }
  }

  /** delOneRecord removes the record of its own index and no other. */
  lemma DelLeavesOthers(d: Driver, index: U16, other: U16)
    requires InRange(index) && InRange(other) && index != other
    ensures var s := DelOneRecord(d, index);
      s.Returned? ==> Kept(d.env.flash, s.drv.env.flash, RecordOf(other))
  {
    RecordOfInjective(index, other);
  }

  /** After initAllRecords succeeds, isAllRecordValid on fault-free flash says every record is valid. */
  lemma InitAllThenValid(d: Driver, colors: seq<seq<Byte>>, fill: Word)
    requires DataColors.WellFormedColors(colors)
    ensures var s := InitAllRecords(d, colors);
      s.Returned? && s.status == FlashSuccess ==>
        StoreFits(s.drv.env.flash)
        && (RoomyPages(d) && s.drv.env.script == [] ==> IsAllRecordValid(s.drv, fill).valid)
  {
    var s := InitAllRecords(d, colors);
    if s.Returned? && s.status == FlashSuccess {
      var f := s.drv.env.flash;
      forall j: U16
        ensures RecordFits(f, j) && (InRange(j) ==> TagReadsDefault(f, j, fill))
      {
        if InRange(j) {
          assert HoldsDefault(f, j, colors);
          ReadImageOfTagged(f, j, RecTagDefault, DefaultPayload(j, colors), fill);
        }
      }
      assert AllDefaultFrom(f, 1, fill);
    }
  }

  /** Once setOneRecord has succeeded, isAllRecordValid answers false, whatever the flash does. */
  lemma SetBreaksValidity(d: Driver, index: U16, bytes: seq<Byte>, fill: Word)
    requires InRange(index) && |bytes| >= RecordSize(index) && StoreFits(d.env.flash)
    ensures var s := SetOneRecord(d, index, bytes);
      s.Returned? && s.status == FlashSuccess ==>
        StoreFits(s.drv.env.flash) && !IsAllRecordValid(s.drv, fill).valid
  {
    var s := SetOneRecord(d, index, bytes);
    if s.Returned? && s.status == FlashSuccess {
      var payload := bytes[..RecordSize(index)];
      StoreFitsAfterPut(d.env.flash, index, RecTagChanged, payload);
      ReadImageOfTagged(s.drv.env.flash, index, RecTagChanged, payload, fill);
      assert !TagReadsDefault(s.drv.env.flash, index, fill);
    }
  }

  // ---------------------------------------------------------------------------
  // The branches of setByteArray

  /** A search that fails for any reason other than "not found" is a lookup error, and nothing is written. */
  lemma SetLookupFailure(d: Driver, fileId: U16, index: U16, bytes: seq<Byte>, c: nat)
    requires |bytes| <= 255 && Accepts(d, fileId, MapIndexToRecId(index))
    requires d.env.script == [Fault(c)]
    ensures SetByteArray(d, fileId, index, bytes).Returned?
    ensures SetByteArray(d, fileId, index, bytes).status == LookupErr
    ensures SetByteArray(d, fileId, index, bytes).drv.env.flash == d.env.flash
  {
  }

  /** A refused write is retried once after garbage collection, and the retry can succeed. */
  lemma SetRetriesAfterGc(d: Driver, fileId: U16, index: U16, bytes: seq<Byte>, c: nat)
    requires |bytes| <= 255 && Accepts(d, fileId, MapIndexToRecId(index))
    requires RecordId(fileId, MapIndexToRecId(index)) !in d.env.flash
    requires d.env.script == [Nominal, Fault(c)]
    ensures SetByteArray(d, fileId, index, bytes).Returned?
    ensures SetByteArray(d, fileId, index, bytes).status == FlashSuccess
    ensures SetByteArray(d, fileId, index, bytes).drv.flags.gc != 0
  {
  }

  /** A refused garbage collection ends the write with a GC error. */
  lemma SetGcFailure(d: Driver, fileId: U16, index: U16, bytes: seq<Byte>, c1: nat, c2: nat)
    requires |bytes| <= 255 && Accepts(d, fileId, MapIndexToRecId(index))
    requires RecordId(fileId, MapIndexToRecId(index)) !in d.env.flash
    requires d.env.script == [Nominal, Fault(c1), Fault(c2)]
    ensures SetByteArray(d, fileId, index, bytes).Returned?
    ensures SetByteArray(d, fileId, index, bytes).status == GcErr
    ensures SetByteArray(d, fileId, index, bytes).drv.env.flash == d.env.flash
  {
  }

  /** A second refusal after a successful garbage collection is a write error; there is no third attempt. */
  lemma SetRewriteFailure(d: Driver, fileId: U16, index: U16, bytes: seq<Byte>, c1: nat, c2: nat)
    requires |bytes| <= 255 && Accepts(d, fileId, MapIndexToRecId(index))
    requires RecordId(fileId, MapIndexToRecId(index)) !in d.env.flash
    requires d.env.script == [Nominal, Fault(c1), Nominal, Nominal, Fault(c2)]
    ensures SetByteArray(d, fileId, index, bytes).Returned?
    ensures SetByteArray(d, fileId, index, bytes).status == WriteErr
    ensures SetByteArray(d, fileId, index, bytes).drv.env.flash == d.env.flash
  {
  }

  /** On the update path too, a refused update is retried once after garbage collection. */
  lemma SetUpdateRetriesAfterGc(d: Driver, fileId: U16, index: U16, bytes: seq<Byte>, c: nat)
    requires |bytes| <= 255 && Accepts(d, fileId, MapIndexToRecId(index))
    requires RecordId(fileId, MapIndexToRecId(index)) in d.env.flash
    requires d.env.script == [Nominal, Nominal, Fault(c)]
    ensures SetByteArray(d, fileId, index, bytes).Returned?
    ensures SetByteArray(d, fileId, index, bytes).status == FlashSuccess
    ensures SetByteArray(d, fileId, index, bytes).drv.flags.gc != 0
    ensures SetByteArray(d, fileId, index, bytes).drv.flags.update != 0
  {
    var c0 := FdsRecConfig(d, fileId, MapIndexToRecId(index), Bytes2Words(bytes));
    var f := FdsRecFind(c0.drv);
    assert f.ret == FdsSuccess && f.env.script == [Nominal, Fault(c)];
    var s1 := FdsRecUpdate(f);
    assert Refused(s1) && s1.drv.env.script == [];
    var s2 := FdsGC(s1.drv);
    assert Accepted(s2) && s2.drv.env.script == [];
    var s3 := FdsRecUpdate(s2.drv);
    assert Accepted(s3);
  }

  /** A refused garbage collection after a refused update is a GC error. */
  lemma SetUpdateGcFailure(d: Driver, fileId: U16, index: U16, bytes: seq<Byte>, c1: nat, c2: nat)
    requires |bytes| <= 255 && Accepts(d, fileId, MapIndexToRecId(index))
    requires RecordId(fileId, MapIndexToRecId(index)) in d.env.flash
    requires d.env.script == [Nominal, Nominal, Fault(c1), Fault(c2)]
    ensures SetByteArray(d, fileId, index, bytes).Returned?
    ensures SetByteArray(d, fileId, index, bytes).status == GcErr
    ensures SetByteArray(d, fileId, index, bytes).drv.env.flash == d.env.flash
  {
    var c0 := FdsRecConfig(d, fileId, MapIndexToRecId(index), Bytes2Words(bytes));
    var f := FdsRecFind(c0.drv);
    assert f.ret == FdsSuccess && f.env.script == [Nominal, Fault(c1), Fault(c2)];
    assert Refused(FdsRecUpdate(f));
  }

  /** An update refused again after a successful garbage collection is a write error. */
  lemma SetUpdateRewriteFailure(d: Driver, fileId: U16, index: U16, bytes: seq<Byte>, c1: nat, c2: nat)
    requires |bytes| <= 255 && Accepts(d, fileId, MapIndexToRecId(index))
    requires RecordId(fileId, MapIndexToRecId(index)) in d.env.flash
    requires d.env.script == [Nominal, Nominal, Fault(c1), Nominal, Nominal, Nominal, Fault(c2)]
    ensures SetByteArray(d, fileId, index, bytes).Returned?
    ensures SetByteArray(d, fileId, index, bytes).status == WriteErr
    ensures SetByteArray(d, fileId, index, bytes).drv.env.flash == d.env.flash
  {
    var c0 := FdsRecConfig(d, fileId, MapIndexToRecId(index), Bytes2Words(bytes));
    var f := FdsRecFind(c0.drv);
    assert f.ret == FdsSuccess && f.env.script == [Nominal, Fault(c1), Nominal, Nominal, Nominal, Fault(c2)];
    UpdateRefusedTwice(f, c1, c2);
  }

  /** The update, garbage collection and second update of a record the search found, one outcome at a time. */
  lemma UpdateRefusedTwice(f: Driver, c1: nat, c2: nat)
    requires Configured(f) && Target(f) in f.env.flash
    requires f.env.script == [Nominal, Fault(c1), Nominal, Nominal, Nominal, Fault(c2)]
    ensures StoreWithGcRetry(f, UpdateRecord).Returned?
    ensures StoreWithGcRetry(f, UpdateRecord).status == WriteErr
  {
    var s1 := Store(f, UpdateRecord);
    assert Refused(s1) && s1.drv.env.script == [Nominal, Nominal, Nominal, Fault(c2)];
    var s2 := FdsGC(s1.drv);
    assert Accepted(s2) && s2.drv.env.script == [Nominal, Fault(c2)];
    assert Refused(Store(s2.drv, UpdateRecord));
  }

  /**
   * The wait function fdsSetAsynFun installs is the one every later record
   * operation runs with, across a write and a following deletion, until
   * fdsInit puts the low-power wait back.
   */
  lemma AsynFunPersists(d: Driver, f: WaitFn, fileId: U16, index: U16, bytes: seq<Byte>, size: nat, fill: Word)
    requires |bytes| <= 255 && size <= 255
    ensures var d1 := FdsSetAsynFun(d, f);
      var s := SetByteArray(d1, fileId, index, bytes);
      s.Returned? ==>
        s.drv.waitFn == f
        && (DelByteArray(s.drv, fileId, index).Returned? ==> DelByteArray(s.drv, fileId, index).drv.waitFn == f)
        && (FdsInit(s.drv).Done? ==> FdsInit(s.drv).drv.waitFn == LowPowerWait)
    ensures var d1 := FdsSetAsynFun(d, f);
      Fits(d1.env.flash, RecordId(fileId, MapIndexToRecId(index)), size) ==>
        GetByteArray(d1, fileId, index, size, fill).drv.waitFn == f
  {
  }

  /** A write the library accepts but then fails to complete never returns: the flag it waits on stays clear. */
  lemma SetCompletionFailureHangs(d: Driver, fileId: U16, index: U16, bytes: seq<Byte>, c: nat)
    requires |bytes| <= 255 && Accepts(d, fileId, MapIndexToRecId(index))
    requires RecordId(fileId, MapIndexToRecId(index)) !in d.env.flash
    requires d.env.script == [Nominal, Nominal, Fault(c)]
    ensures SetByteArray(d, fileId, index, bytes) == Hangs
  {
  }
}
