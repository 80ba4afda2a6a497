/**
 * The part of Nordic's Flash Data Storage (FDS) library that the driver
 * relies on, reduced to what its callers can observe.
 *
 * The flash holds at most one record per (file id, record key): the driver
 * never writes a second record under a pair it has found. Every
 * interaction with the library, whether a call or the completion event of an
 * asynchronous operation, draws one Outcome from a script that stands for
 * everything the model does not see (free space, flash wear, queue state).
 * An exhausted script means that every further interaction goes normally.
 */
module Fds {
  import opened Codec

  type U16 = x: int | 0 <= x < 0x1_0000

  datatype RecordId = RecordId(fileId: U16, key: U16)

  type Flash = map<RecordId, seq<Word>>

  /** ret_code_t as the driver tells them apart: FDS_SUCCESS, FDS_ERR_NOT_FOUND, any other error. */
  datatype RetCode = FdsSuccess | FdsErrNotFound | FdsErr(code: nat)

  /** What happens at one interaction with the library. */
  datatype Outcome = Nominal | Fault(code: nat)

  datatype Env = Env(flash: Flash, script: seq<Outcome>)

  function Next(env: Env): Outcome
  {
    if env.script == [] then Nominal else env.script[0]
  }

  /** The environment after one interaction; the flash is untouched. */
  function Consume(env: Env): (e: Env)
    ensures e.flash == env.flash
    ensures env.script == [] ==> e.script == []
    ensures env.script != [] ==> e.script == env.script[1..]
  {
    if env.script == [] then env else env.(script := env.script[1..])
  }

  datatype Answer = Answer(env: Env, ret: RetCode)

  /** A call (or completion event) whose only result is a return code. */
  function Call(env: Env): (a: Answer)
    ensures a.env == Consume(env)
    ensures Next(env) == Nominal <==> a.ret == FdsSuccess
    ensures a.ret != FdsErrNotFound
  {
    match Next(env)
    case Nominal => Answer(Consume(env), FdsSuccess)
    case Fault(c) => Answer(Consume(env), FdsErr(c))
  }

  datatype FindAnswer = FindAnswer(env: Env, ret: RetCode, desc: RecordId, token: nat)

  /**
   * fds_record_find: with a zeroed token the search starts from the
   * beginning and finds the record if it exists; a non-zero token resumes
   * after the match it records, and with one record per id nothing follows.
   */
  function RecordFind(env: Env, id: RecordId, desc: RecordId, token: nat): (a: FindAnswer)
    ensures a.env == Consume(env)
    ensures a.ret == FdsSuccess ==> token == 0 && id in env.flash && a.desc == id && a.token != 0
    ensures a.ret != FdsSuccess ==> a.desc == desc
    ensures Next(env) == Nominal ==>
      (a.ret == FdsSuccess <==> token == 0 && id in env.flash) && (a.ret == FdsSuccess || a.ret == FdsErrNotFound)
  {
    match Next(env)
    case Nominal =>
      if token == 0 && id in env.flash then FindAnswer(Consume(env), FdsSuccess, id, 1)
      else FindAnswer(Consume(env), FdsErrNotFound, desc, token)
    case Fault(c) => FindAnswer(Consume(env), FdsErr(c), desc, token)
  }

  datatype OpenAnswer = OpenAnswer(env: Env, ret: RetCode, data: seq<Word>)

  /** fds_record_open: the located record's words. */
  function RecordOpen(env: Env, desc: RecordId): (a: OpenAnswer)
    ensures a.env == Consume(env)
    ensures a.ret == FdsSuccess ==> desc in env.flash && a.data == env.flash[desc]
    ensures Next(env) == Nominal && desc in env.flash ==> a.ret == FdsSuccess
  {
    match Next(env)
    case Nominal =>
      if desc in env.flash then OpenAnswer(Consume(env), FdsSuccess, env.flash[desc])
      else OpenAnswer(Consume(env), FdsErrNotFound, [])
    case Fault(c) => OpenAnswer(Consume(env), FdsErr(c), [])
  }

  /** fds_evt_id_t: the completion events the default handler distinguishes. */
  datatype EvtId = EvtInit | EvtWrite | EvtUpdate | EvtDelRecord | EvtDelFile | EvtGc

  datatype FdsEvent = FdsEvent(id: EvtId, result: RetCode)
}
