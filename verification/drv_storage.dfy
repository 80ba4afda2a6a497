/**
 * The FDS driver (drv_storage.c / drv_storage.h): one record configuration
 * and six completion flags kept in module state, and blocking wrappers
 * around the asynchronous FDS calls. An asynchronous operation clears its
 * flag, issues the call, and, if the call was accepted, waits until the
 * event handler sets the flag. The wait never returns if the completion
 * event reports a failure; the model calls that outcome Hang.
 */
module DrvStorage {
  import opened Codec
  import opened Fds

  type U8 = x: int | 0 <= x < 0x100

  /** fds_flags_t */
  datatype Flags = Flags(init: U8, write: U8, update: U8, del: U8, gc: U8, log: U8)

  datatype FlagKind = InitFlag | WriteFlag | UpdateFlag | DelFlag | GcFlag | LogFlag

  function FlagOf(f: Flags, k: FlagKind): U8
  {
    match k
    case InitFlag => f.init
    case WriteFlag => f.write
    case UpdateFlag => f.update
    case DelFlag => f.del
    case GcFlag => f.gc
    case LogFlag => f.log
  }

  /** fdsSetInitFlag .. fdsSetLogFlag: one flag takes the value, the others keep theirs. */
  function SetFlag(f: Flags, k: FlagKind, v: U8): (g: Flags)
    ensures FlagOf(g, k) == v
    ensures forall k' :: k' != k ==> FlagOf(g, k') == FlagOf(f, k')
  {
    match k
    case InitFlag => f.(init := v)
    case WriteFlag => f.(write := v)
    case UpdateFlag => f.(update := v)
    case DelFlag => f.(del := v)
    case GcFlag => f.(gc := v)
    case LogFlag => f.(log := v)
  }

  /** The wait function (fds_fptr_t) installed in the driver state. */
  datatype WaitFn = LowPowerWait | CustomWait(id: nat)

  /** The record configuration: file id, key and data chunk of fds_record_t. */
  datatype RecordConfig = RecordConfig(fileId: U16, key: U16, data: seq<Word>, lengthWords: nat)

  /** fds_state_t together with the flags and the library it drives. */
  datatype Driver = Driver(
    env: Env,
    flags: Flags,
    record: RecordConfig,
    desc: RecordId,
    token: nat,
    ret: RetCode,
    waitFn: WaitFn,
    pageSize: nat)

  /** The record every operation acts on. */
  function Target(d: Driver): RecordId
  {
    RecordId(d.record.fileId, d.record.key)
  }

  /** The data chunk length agrees with the data set up by fdsRecConfig. */
  predicate Configured(d: Driver)
  {
    d.record.lengthWords == |d.record.data|
  }

  /** Driver fields that only fdsRecConfig, fdsResetVars and fdsSetAsynFun change. */
  predicate SameSetup(d: Driver, e: Driver)
  {
    e.record.fileId == d.record.fileId && e.record.key == d.record.key
    && e.waitFn == d.waitFn && e.pageSize == d.pageSize
  }

  /** The result of a blocking operation: the call returns, or waits forever. */
  datatype Step = Done(drv: Driver) | Hang

  /** FDS_EVT_* to the flag its successful completion raises. */
  function FlagFor(id: EvtId): FlagKind
  {
    match id
    case EvtInit => InitFlag
    case EvtWrite => WriteFlag
    case EvtUpdate => UpdateFlag
    case EvtDelRecord => DelFlag
    case EvtDelFile => DelFlag
    case EvtGc => GcFlag
  }

  /**
   * fds_event_handler_default: a successful completion sets the flag of
   * its operation to 1; a failed one changes nothing. No flag is ever cleared.
   */
  function EventHandlerDefault(f: Flags, evt: FdsEvent): (g: Flags)
    ensures evt.result != FdsSuccess ==> g == f
    ensures evt.result == FdsSuccess ==> FlagOf(g, FlagFor(evt.id)) == 1
    ensures forall k :: k != FlagFor(evt.id) ==> FlagOf(g, k) == FlagOf(f, k)
  {
    if evt.result != FdsSuccess then f
    else
      match evt.id
      case EvtInit => SetFlag(f, InitFlag, 1)
      case EvtWrite => SetFlag(f, WriteFlag, 1)
      case EvtUpdate => SetFlag(f, UpdateFlag, 1)
      case EvtDelRecord => SetFlag(f, DelFlag, 1)
      case EvtDelFile => SetFlag(f, DelFlag, 1)
      case EvtGc => SetFlag(f, GcFlag, 1)
  }

  lemma HandlerNeverClears(f: Flags, evt: FdsEvent, k: FlagKind)
    requires FlagOf(f, k) != 0
    ensures FlagOf(EventHandlerDefault(f, evt), k) != 0
  {
  }

  /** fdsResetVars */
  function FdsResetVars(d: Driver): (r: Driver)
    ensures forall k :: FlagOf(r.flags, k) == 0
    ensures r.waitFn == LowPowerWait && r.token == 0
    ensures r.env == d.env && r.record == d.record && r.desc == d.desc && r.ret == d.ret
  {
    d.(flags := Flags(0, 0, 0, 0, 0, 0), waitFn := LowPowerWait, token := 0)
  }

  /** fdsSetAsynFun: the wait function every later asynchronous operation uses. */
  function FdsSetAsynFun(d: Driver, f: WaitFn): (r: Driver)
    ensures r.waitFn == f
    ensures r.env == d.env && r.flags == d.flags && r.record == d.record && r.pageSize == d.pageSize
  {
    d.(waitFn := f)
  }

  /** FDS accepts file ids 0x0000..0xBFFF. */
  predicate ValidFileId(fileId: U16)
  {
    fileId <= 0xBFFF
  }

  /** FDS accepts record keys 0x0001..0xBFFF. */
  predicate ValidKey(key: U16)
  {
    0 < key <= 0xBFFF
  }

  datatype ConfigReply = ConfigReply(ok: bool, drv: Driver)

  /**
   * fdsRecConfig (declared as fdsRecSetup in storage.c's calls): accepts
   * a record whose ids are in FDS's ranges and whose length fits a virtual
   * page minus the five header words.
   */
  function FdsRecConfig(d: Driver, fileId: U16, key: U16, data: seq<Word>): (r: ConfigReply)
    ensures r.ok <==> ValidFileId(fileId) && ValidKey(key) && |data| <= d.pageSize - 5
    ensures !r.ok ==> r.drv == d
    ensures r.ok ==> Configured(r.drv) && Target(r.drv) == RecordId(fileId, key) && r.drv.record.data == data
    ensures r.ok ==> r.drv == d.(record := r.drv.record)
  {
    if fileId > 0xBFFF || key == 0 || key > 0xBFFF then ConfigReply(false, d)
    else if |data| > d.pageSize - 5 then ConfigReply(false, d)
    else ConfigReply(true, d.(record := RecordConfig(fileId, key, data, |data|)))
  }

  /** Waiting on a flag: the call returns fds_state.ret once the flag is set. */
  function Wait(d: Driver, k: FlagKind): (r: Step)
    ensures r.Done? <==> FlagOf(d.flags, k) != 0
    ensures r.Done? ==> r.drv == d
  {
    if FlagOf(d.flags, k) != 0 then Done(d) else Hang
  }

  /** The change a completed operation makes to the flash. */
  datatype Mutation = Put(id: RecordId, data: seq<Word>) | Replace(prior: RecordId, id: RecordId, data: seq<Word>) | Remove(id: RecordId) | Keep

  function Apply(flash: Flash, m: Mutation): Flash
  {
    match m
    case Put(id, data) => flash[id := data]
    case Replace(prior, id, data) => (flash - {prior})[id := data]
    case Remove(id) => flash - {id}
    case Keep => flash
  }

  /**
   * The shape shared by fdsRecWrite, fdsRecUpdate, fdsRecDelete and fdsGC
   * once the record is located: clear the flag, issue the call; if it is
   * accepted, the completion event runs the handler and the wait blocks
   * on the flag.
   */
  function RunAsync(d: Driver, k: FlagKind, evt: EvtId, m: Mutation): (r: Step)
    requires FlagFor(evt) == k
    ensures r.Done? ==> SameSetup(d, r.drv) && r.drv.record == d.record && r.drv.desc == d.desc
    ensures r.Done? && r.drv.ret == FdsSuccess ==> r.drv.env.flash == Apply(d.env.flash, m) && FlagOf(r.drv.flags, k) != 0
    ensures r.Done? && r.drv.ret != FdsSuccess ==> r.drv.env.flash == d.env.flash && FlagOf(r.drv.flags, k) == 0
    ensures r.Hang? <==> Next(d.env) == Nominal && Next(Consume(d.env)) != Nominal
    ensures d.env.script == [] ==> r.Done? && r.drv.ret == FdsSuccess && r.drv.env.script == []
  {
    var d1 := d.(flags := SetFlag(d.flags, k, 0));
    var issue := Call(d1.env);
    var d2 := d1.(env := issue.env, ret := issue.ret);
    if issue.ret != FdsSuccess then Done(d2)
    else
      var completion := Call(d2.env);
      var flash := if completion.ret == FdsSuccess then Apply(d2.env.flash, m) else d2.env.flash;
      var d3 := d2.(env := completion.env.(flash := flash),
                    flags := EventHandlerDefault(d2.flags, FdsEvent(evt, completion.ret)));
      Wait(d3, k)
  }

  /** fdsRecWrite: a new record under the configured id with the configured data. */
  function FdsRecWrite(d: Driver): (r: Step)
    requires Configured(d)
    ensures r.Done? ==> SameSetup(d, r.drv) && r.drv.record == d.record
    ensures r.Done? && r.drv.ret == FdsSuccess ==>
      r.drv.env.flash == d.env.flash[Target(d) := d.record.data] && r.drv.flags.write != 0
    ensures r.Done? && r.drv.ret != FdsSuccess ==> r.drv.env.flash == d.env.flash
    ensures r.Hang? <==> Next(d.env) == Nominal && Next(Consume(d.env)) != Nominal
    ensures d.env.script == [] ==> r.Done? && r.drv.ret == FdsSuccess && r.drv.env.script == []
  {
    RunAsync(d, WriteFlag, EvtWrite, Put(Target(d), d.record.data))
  }

  /** fdsRecFind: a search for the configured id from a zeroed token. */
  function FdsRecFind(d: Driver): (r: Driver)
    ensures SameSetup(d, r) && r.record == d.record && r.flags == d.flags
    ensures r.env == Consume(d.env)
    ensures r.ret == FdsSuccess ==> Target(d) in d.env.flash && r.desc == Target(d)
    ensures Next(d.env) == Nominal ==>
      (r.ret == FdsSuccess <==> Target(d) in d.env.flash) && (r.ret == FdsSuccess || r.ret == FdsErrNotFound)
  {
    var d0 := d.(token := 0);
    var a := RecordFind(d0.env, Target(d0), d0.desc, d0.token);
    d0.(env := a.env, ret := a.ret, desc := a.desc, token := a.token)
  }

  /** The search outcome does not depend on the token left by an earlier search. */
  lemma FindIgnoresToken(d: Driver, t: nat)
    ensures FdsRecFind(d.(token := t)) == FdsRecFind(d)
  {
  }

  datatype ReadReply = ReadReply(drv: Driver, buf: seq<Word>)

  /**
   * fdsRecRead: find, open, copy the record's words into the caller's
   * buffer, record their number, close. The copy trusts the record header:
   * the caller's buffer must hold the whole record.
   */
  function FdsRecRead(d: Driver, buf: seq<Word>): (r: ReadReply)
    requires Target(d) in d.env.flash ==> |d.env.flash[Target(d)]| <= |buf|
    ensures SameSetup(d, r.drv) && r.drv.flags == d.flags && r.drv.env.flash == d.env.flash
    ensures |r.buf| == |buf|
    ensures r.drv.ret == FdsSuccess ==>
      Target(d) in d.env.flash
      && r.buf == d.env.flash[Target(d)] + buf[|d.env.flash[Target(d)]|..]
      && r.drv.record.lengthWords == |d.env.flash[Target(d)]|
    ensures d.env.script == [] ==>
      r.drv.env.script == []
      && (r.drv.ret == FdsSuccess <==> Target(d) in d.env.flash)
      && (r.drv.ret == FdsSuccess || r.drv.ret == FdsErrNotFound)
    ensures FdsRecFind(d).ret != FdsSuccess ==> r == ReadReply(FdsRecFind(d), buf)
    ensures FdsRecFind(d).ret == FdsSuccess && Next(Consume(d.env)).Fault? ==>
      r.drv.ret == FdsErr(Next(Consume(d.env)).code) && r.buf == buf
    ensures FdsRecFind(d).ret == FdsSuccess && Next(Consume(d.env)) == Nominal ==>
      var words := d.env.flash[Target(d)];
      r.buf == words + buf[|words|..] && r.drv.record.lengthWords == |words|
      && (Next(Consume(Consume(d.env))).Fault? ==> r.drv.ret == FdsErr(Next(Consume(Consume(d.env))).code))
      && (Next(Consume(Consume(d.env))) == Nominal ==> r.drv.ret == FdsSuccess)
  {
    var f := FdsRecFind(d);
    if f.ret != FdsSuccess then ReadReply(f, buf)
    else
      var o := RecordOpen(f.env, f.desc);
      var d1 := f.(env := o.env, ret := o.ret);
      if o.ret != FdsSuccess then ReadReply(d1, buf)
      else
        var copied := o.data + buf[|o.data|..];
        var d2 := d1.(record := d1.record.(lengthWords := |o.data|));
        var close := Call(d2.env);
        ReadReply(d2.(env := close.env, ret := close.ret), copied)
  }

  /** fdsRecUpdate: find the configured id, then replace that record with the configured data. */
  function FdsRecUpdate(d: Driver): (r: Step)
    requires Configured(d)
    ensures r.Done? ==> SameSetup(d, r.drv) && r.drv.record == d.record
    ensures r.Done? && r.drv.ret == FdsSuccess ==>
      Target(d) in d.env.flash && r.drv.env.flash == d.env.flash[Target(d) := d.record.data]
      && r.drv.flags.update != 0
    ensures r.Done? && r.drv.ret != FdsSuccess ==> r.drv.env.flash == d.env.flash
    ensures d.env.script == [] && Target(d) in d.env.flash ==>
      r.Done? && r.drv.ret == FdsSuccess && r.drv.env.script == []
    ensures FdsRecFind(d).ret != FdsSuccess ==> r == Done(FdsRecFind(d))
    ensures d.env.script == [] && Target(d) !in d.env.flash ==>
      r.Done? && r.drv.ret == FdsErrNotFound && r.drv.env.flash == d.env.flash
  {
    var f := FdsRecFind(d);
    if f.ret != FdsSuccess then Done(f)
    else
      var r := RunAsync(f, UpdateFlag, EvtUpdate, Replace(f.desc, Target(d), d.record.data));
      assert r.Done? && r.drv.ret == FdsSuccess ==> r.drv.env.flash == d.env.flash[Target(d) := d.record.data];
      r
  }

  /** fdsRecDelete: find the configured id, then delete that record. */
  function FdsRecDelete(d: Driver): (r: Step)
    ensures r.Done? ==> SameSetup(d, r.drv) && r.drv.record == d.record
    ensures r.Done? && r.drv.ret == FdsSuccess ==>
      Target(d) in d.env.flash && r.drv.env.flash == d.env.flash - {Target(d)} && r.drv.flags.del != 0
    ensures r.Done? && r.drv.ret != FdsSuccess ==> r.drv.env.flash == d.env.flash
    ensures d.env.script == [] ==>
      (r.Done? && r.drv.env.script == [] && (r.drv.ret == FdsSuccess <==> Target(d) in d.env.flash))
    ensures FdsRecFind(d).ret != FdsSuccess ==> r == Done(FdsRecFind(d))
    ensures d.env.script == [] && Target(d) !in d.env.flash ==> r.Done? && r.drv.ret == FdsErrNotFound
  {
    var f := FdsRecFind(d);
    if f.ret != FdsSuccess then Done(f)
    else RunAsync(f, DelFlag, EvtDelRecord, Remove(f.desc))
  }

  /** fdsGC: garbage collection reclaims space but keeps every live record. */
  function FdsGC(d: Driver): (r: Step)
    ensures r.Done? ==> SameSetup(d, r.drv) && r.drv.record == d.record && r.drv.env.flash == d.env.flash
    ensures r.Done? && r.drv.ret == FdsSuccess ==> r.drv.flags.gc != 0
    ensures d.env.script == [] ==> r.Done? && r.drv.ret == FdsSuccess && r.drv.env.script == []
  {
    RunAsync(d, GcFlag, EvtGc, Keep)
  }

  /**
   * fdsInit with the default event handler, as written: after
   * registering the handler it calls fds_init and then waits on the init
   * flag whether or not fds_init accepted the request.
   */
  function FdsInit(d: Driver): (r: Step)
    ensures r.Done? ==> r.drv.waitFn == LowPowerWait && r.drv.env.flash == d.env.flash
    ensures r.Done? && Next(d.env) == Nominal ==> r.drv.ret == FdsSuccess && r.drv.flags.init != 0
    ensures d.env.script == [] ==> r.Done? && r.drv.ret == FdsSuccess && r.drv.env.script == []
    ensures Next(d.env).Fault? ==> r.Done? && r.drv.ret == FdsErr(Next(d.env).code)
    ensures r.Hang? <==>
      Next(d.env) == Nominal && (Next(Consume(d.env)) != Nominal || Next(Consume(Consume(d.env))) != Nominal)
  {
    var d0 := FdsResetVars(d);
    var reg := Call(d0.env);
    var d1 := d0.(env := reg.env, ret := reg.ret);
    if reg.ret != FdsSuccess then Done(d1)
    else
      var init := Call(d1.env);
      var d2 := d1.(env := init.env, ret := init.ret);
      var d3 :=
        if init.ret == FdsSuccess then
          var completion := Call(d2.env);
          d2.(env := completion.env, flags := EventHandlerDefault(d2.flags, FdsEvent(EvtInit, completion.ret)))
        else d2;
      Wait(d3, InitFlag)
  }

  /** A refused fds_init is never reported: fdsInit waits forever instead. */
  lemma FdsInitRefusedHangs(d: Driver)
    requires Next(d.env) == Nominal && Next(Consume(d.env)).Fault?
    ensures FdsInit(d) == Hang
  {
  }

  /**
   * fdsInit as its error branch intends: wait only for an accepted
   * fds_init, and return a refusal to the caller.
   */
  function FdsInitChecked(d: Driver): (r: Step)
    ensures r.Done? ==> r.drv.waitFn == LowPowerWait && r.drv.env.flash == d.env.flash
    ensures r.Done? && r.drv.ret == FdsSuccess ==> r.drv.flags.init != 0
    ensures r.Hang? <==>
      (Next(d.env) == Nominal && Next(Consume(d.env)) == Nominal && Next(Consume(Consume(d.env))) != Nominal)
    ensures d.env.script == [] ==> r.Done? && r.drv.ret == FdsSuccess && r.drv.env.script == []
  {
    var d0 := FdsResetVars(d);
    var reg := Call(d0.env);
    var d1 := d0.(env := reg.env, ret := reg.ret);
    if reg.ret != FdsSuccess then Done(d1)
    else
      var init := Call(d1.env);
      var d2 := d1.(env := init.env, ret := init.ret);
      if init.ret != FdsSuccess then Done(d2)
      else
        var completion := Call(d2.env);
        Wait(d2.(env := completion.env, flags := EventHandlerDefault(d2.flags, FdsEvent(EvtInit, completion.ret))), InitFlag)
  }

  /** With the intended error branch, a refused fds_init comes back as its error code. */
  lemma FdsInitCheckedReportsRefusal(d: Driver)
    requires Next(d.env) == Nominal && Next(Consume(d.env)).Fault?
    ensures FdsInitChecked(d).Done? && FdsInitChecked(d).drv.ret == FdsErr(Next(Consume(d.env)).code)
  {
  }
}
