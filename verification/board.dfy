/**
 * The board layer (app_board.c / app_board.h): turning button actions into
 * board events, binding events to button actions, and the guarded LED
 * effect wrappers.
 *
 * The button timer is outside the model: whether app_timer_start accepts
 * the long-push timer is a parameter of the handler, and the timer's
 * expiry is a call of the handler with the long-push action for the pin
 * it memorised. The callback is only known to be registered or not.
 */
module Board {
  import opened LedEffects

  type Pin = x: int | 0 <= x < 0x100

  /** board_event_t: BOARD_EVENT_NOTHING (0) up to BOARD_TEST_EVENT_7 (29). */
  type BoardEvent = x: int | 0 <= x < 30

  const EventNothing: BoardEvent := 0

  /** The index BOARD_PIN_TO_IDX leaves in place when the pin is not in the list. */
  const NoIndex: nat := 0xFF

  /** At most eight buttons (BOARD_BUTTON_0 .. BOARD_BUTTON_7). */
  const MaxButtons: nat := 8

  /** board_button_action_t, plus any other code the handler may be passed. */
  datatype ButtonAction = Release | Push | LongPush | ReleaseAfterLongPush | OtherAction(code: nat)

  /** board_button_event_t: the event bound to each action of one button. */
  datatype ButtonEvents = ButtonEvents(push: BoardEvent, longPush: BoardEvent, release: BoardEvent, releaseAfterLongPush: BoardEvent)

  /** The static state of the button handler and the event table. */
  datatype Buttons = Buttons(
    pins: seq<Pin>,
    events: seq<ButtonEvents>,
    releaseAtPush: seq<BoardEvent>,
    afterLongPush: bool,
    longPushPin: Pin,
    callbackSet: bool)

  predicate WellFormed(b: Buttons)
  {
    |b.pins| <= MaxButtons && |b.events| == |b.pins| && |b.releaseAtPush| == |b.pins|
  }

  /** Every binding starts as BOARD_EVENT_NOTHING, as do the remembered release events. */
  function InitialButtons(pins: seq<Pin>, callbackSet: bool): (b: Buttons)
    requires |pins| <= MaxButtons
    ensures WellFormed(b) && b.pins == pins && !b.afterLongPush && b.callbackSet == callbackSet
    ensures forall i :: 0 <= i < |pins| ==> b.events[i] == ButtonEvents(EventNothing, EventNothing, EventNothing, EventNothing)
  {
    Buttons(pins, seq(|pins|, _ => ButtonEvents(EventNothing, EventNothing, EventNothing, EventNothing)),
            seq(|pins|, _ => EventNothing), false, 0, callbackSet)
  }

  /** The scan of BOARD_PIN_TO_IDX from position i on. */
  function PinToIdxFrom(list: seq<Pin>, pin: Pin, i: nat): (idx: nat)
    requires i <= |list| < NoIndex
    decreases |list| - i
    ensures idx == NoIndex || i <= idx < |list|
    ensures idx != NoIndex ==> list[idx] == pin && forall k :: i <= k < idx ==> list[k] != pin
    ensures idx == NoIndex <==> forall k :: i <= k < |list| ==> list[k] != pin
  {
    if i == |list| then NoIndex
    else if list[i] == pin then i
    else PinToIdxFrom(list, pin, i + 1)
  }

  /** BOARD_PIN_TO_IDX with the index preset to 0xFF: the first position of the pin, or 0xFF. */
  function PinToIdx(list: seq<Pin>, pin: Pin): (idx: nat)
    requires |list| < NoIndex
    ensures idx == NoIndex <==> pin !in list
    ensures idx != NoIndex ==> idx < |list| && list[idx] == pin && pin !in list[..idx]
  {
    PinToIdxFrom(list, pin, 0)
  }

  /** The event bound to an action of one button. */
  function EventFor(ev: ButtonEvents, action: ButtonAction): BoardEvent
  {
    match action
    case Push => ev.push
    case LongPush => ev.longPush
    case Release => ev.release
    case ReleaseAfterLongPush => ev.releaseAfterLongPush
    case OtherAction(_) => EventNothing
  }

  datatype Handled = Handled(state: Buttons, event: BoardEvent, fired: bool)

  /**
   * board_button_event_handler: selects the board event for a button
   * action and fires the callback with it unless it is NOTHING or no
   * callback is registered.
   */
  function ButtonEventHandler(b: Buttons, pin: Pin, action: ButtonAction, timerOk: bool): (r: Handled)
    requires WellFormed(b)
    ensures WellFormed(r.state)
    ensures r.state.pins == b.pins && r.state.events == b.events && r.state.callbackSet == b.callbackSet
    ensures r.fired <==> r.event != EventNothing && b.callbackSet
    ensures pin !in b.pins ==> r.event == EventNothing && r.state == b
    ensures pin in b.pins && action == Push ==>
      var i := PinToIdx(b.pins, pin);
      r.event == b.events[i].push
      && r.state.releaseAtPush == b.releaseAtPush[i := b.events[i].release]
      && r.state.afterLongPush == b.afterLongPush
      && r.state.longPushPin == (if b.events[i].longPush != EventNothing && timerOk then pin else b.longPushPin)
    ensures pin in b.pins && action == LongPush ==>
      r.event == b.events[PinToIdx(b.pins, pin)].longPush && r.state == b.(afterLongPush := true)
    ensures pin in b.pins && action == Release ==>
      var i := PinToIdx(b.pins, pin);
      if b.releaseAtPush[i] == b.events[i].release then
        r.event == (if b.afterLongPush then b.events[i].releaseAfterLongPush else b.events[i].release)
        && r.state == b.(afterLongPush := false)
      else r.event == EventNothing && r.state == b
    ensures action.ReleaseAfterLongPush? || action.OtherAction? ==> r.event == EventNothing && r.state == b
  {
    var idx := PinToIdx(b.pins, pin);
    var (state, event) :=
      if idx == NoIndex then (b, EventNothing)
      else
        match action
        case Push =>
          var ev := b.events[idx];
          var memo := if ev.longPush != EventNothing && timerOk then pin else b.longPushPin;
          (b.(longPushPin := memo, releaseAtPush := b.releaseAtPush[idx := ev.release]), ev.push)
        case LongPush =>
          (b.(afterLongPush := true), b.events[idx].longPush)
        case Release =>
          if b.releaseAtPush[idx] == b.events[idx].release then
            if b.afterLongPush then (b.(afterLongPush := false), b.events[idx].releaseAfterLongPush)
            else (b, b.events[idx].release)
          else (b, EventNothing)
        case _ => (b, EventNothing);
    Handled(state, event, event != EventNothing && b.callbackSet)
  }

  /** board_button_timer_handler: the long push of the pin memorised at push time. */
  function ButtonTimerExpired(b: Buttons): (r: Handled)
    requires WellFormed(b)
    ensures b.longPushPin in b.pins ==> r.event == b.events[PinToIdx(b.pins, b.longPushPin)].longPush && r.state.afterLongPush
  {
    ButtonEventHandler(b, b.longPushPin, LongPush, true)
  }

  /** The nRF error codes boardButtonEventAssign returns. */
  datatype NrfError = NrfSuccess | NrfErrorInvalidParam

  datatype Assigned = Assigned(state: Buttons, err: NrfError)

  /** The binding of one action replaced by event. */
  function Bind(ev: ButtonEvents, action: ButtonAction, event: BoardEvent): ButtonEvents
  {
    match action
    case Push => ev.(push := event)
    case LongPush => ev.(longPush := event)
    case Release => ev.(release := event)
    case ReleaseAfterLongPush => ev.(releaseAfterLongPush := event)
    case OtherAction(_) => ev
  }

  /**
   * boardButtonEventAssign: binds the event to the action of the button on
   * that pin; an unknown pin or action is an invalid parameter and changes
   * nothing.
   */
  function ButtonEventAssign(b: Buttons, pin: Pin, action: ButtonAction, event: BoardEvent): (r: Assigned)
    requires WellFormed(b)
    ensures WellFormed(r.state) && r.state.pins == b.pins
    ensures r.err == NrfSuccess <==> pin in b.pins && !action.OtherAction?
    ensures r.err != NrfSuccess ==> r.state == b
    ensures r.err == NrfSuccess ==>
      var i := PinToIdx(b.pins, pin);
      r.state == b.(events := b.events[i := r.state.events[i]])
      && EventFor(r.state.events[i], action) == event
      && forall a :: a != action ==> EventFor(r.state.events[i], a) == EventFor(b.events[i], a)
  {
    var idx := PinToIdx(b.pins, pin);
    if idx == NoIndex || action.OtherAction? then Assigned(b, NrfErrorInvalidParam)
    else Assigned(b.(events := b.events[idx := Bind(b.events[idx], action, event)]), NrfSuccess)
  }

  /** An event bound to the push action fires on the next push of that button. */
  lemma AssignThenPush(b: Buttons, pin: Pin, event: BoardEvent, timerOk: bool)
    requires WellFormed(b) && pin in b.pins && b.callbackSet && event != EventNothing
    ensures var a := ButtonEventAssign(b, pin, Push, event);
      a.err == NrfSuccess && ButtonEventHandler(a.state, pin, Push, timerOk).fired
      && ButtonEventHandler(a.state, pin, Push, timerOk).event == event
  {
  }

  /** A short push followed by its release fires the push event, then the release event. */
  lemma PushThenRelease(b: Buttons, pin: Pin, timerOk: bool)
    requires WellFormed(b) && pin in b.pins && !b.afterLongPush
    ensures var i := PinToIdx(b.pins, pin);
      var p := ButtonEventHandler(b, pin, Push, timerOk);
      var q := ButtonEventHandler(p.state, pin, Release, timerOk);
      p.event == b.events[i].push && q.event == b.events[i].release && !q.state.afterLongPush
  {
  }

  /**
   * A push, its long push (the timer expiring) and the release fire the push,
   * long-push and release-after-long-push events, and leave the long-push
   * flag clear.
   */
  lemma {:induction false} PushLongPushRelease(b: Buttons, pin: Pin)
    requires WellFormed(b) && pin in b.pins
    requires b.events[PinToIdx(b.pins, pin)].longPush != EventNothing
    ensures var i := PinToIdx(b.pins, pin);
      var p := ButtonEventHandler(b, pin, Push, true);
      var l := ButtonTimerExpired(p.state);
      var q := ButtonEventHandler(l.state, pin, Release, true);
      p.event == b.events[i].push && l.event == b.events[i].longPush
      && q.event == b.events[i].releaseAfterLongPush && !q.state.afterLongPush
  {
    var i := PinToIdx(b.pins, pin);
    var p := ButtonEventHandler(b, pin, Push, true);
    assert p.state.longPushPin == pin;
    var l := ButtonTimerExpired(p.state);
    assert l.state.releaseAtPush[i] == b.events[i].release;
  }

  /**
   * A release whose binding changed since the push selects no event: the
   * release event remembered at push time no longer matches.
   */
  lemma RebindBeforeRelease(b: Buttons, pin: Pin, event: BoardEvent, timerOk: bool)
    requires WellFormed(b) && pin in b.pins
    requires event != b.events[PinToIdx(b.pins, pin)].release
    ensures var p := ButtonEventHandler(b, pin, Push, timerOk);
      var a := ButtonEventAssign(p.state, pin, Release, event);
      var q := ButtonEventHandler(a.state, pin, Release, timerOk);
      a.err == NrfSuccess && q.event == EventNothing && !q.fired && q.state == a.state
  {
  }

  /**
   * The long-push flag is shared by all buttons: after a long push of one
   * button, the release of another pushed button selects that other
   * button's release-after-long-push event.
   */
  lemma LongPushFlagShared(b: Buttons, pinA: Pin, pinB: Pin)
    requires WellFormed(b) && pinA in b.pins && pinB in b.pins && !b.afterLongPush
    requires PinToIdx(b.pins, pinA) != PinToIdx(b.pins, pinB)
    ensures var j := PinToIdx(b.pins, pinB);
      var pa := ButtonEventHandler(b, pinA, Push, true);
      var pb := ButtonEventHandler(pa.state, pinB, Push, true);
      var la := ButtonEventHandler(pb.state, pinA, LongPush, true);
      var rb := ButtonEventHandler(la.state, pinB, Release, true);
      rb.event == b.events[j].releaseAfterLongPush
  {
  }

  // ---------------------------------------------------------------------------
  // LED effect wrappers

  datatype BoardLeds = BoardLeds(ledInit: bool, led: LedState)

  /**
   * What the board wrappers keep of the LED state: the registration
   * invariant, a running flag only for a registered effect, and one kind
   * of effect at a time.
   */
  predicate LedInv(s: LedState)
  {
    Consistent(s) && (s.running ==> IsRegistered(s)) && !(s.isGpio && s.isPwm)
  }

  /** boardLedEffectRun: runs the registered effect once LEDs are initialised. */
  function BoardLedEffectRun(b: BoardLeds): (r: BoardLeds)
    ensures r.ledInit == b.ledInit
    ensures !b.ledInit || !IsRegistered(b.led) ==> r == b
    ensures b.ledInit && LedInv(b.led) && IsRegistered(b.led) ==> IsRunning(r.led) && r.led.current == b.led.current
    ensures LedInv(b.led) ==> LedInv(r.led)
  {
    if b.ledInit && IsRegistered(b.led) then b.(led := Run(b.led)) else b
  }

  /** boardLedEffectStop: stops the registered effect once LEDs are initialised; it stays registered. */
  function BoardLedEffectStop(b: BoardLeds): (r: BoardLeds)
    ensures r.ledInit == b.ledInit
    ensures !b.ledInit || !IsRegistered(b.led) ==> r == b
    ensures b.ledInit && IsRegistered(b.led) ==> !IsRunning(r.led) && IsRegistered(r.led) && r.led.current == b.led.current
    ensures LedInv(b.led) ==> LedInv(r.led)
  {
    if b.ledInit && IsRegistered(b.led) then b.(led := Stop(b.led)) else b
  }

  /** boardLedEffectClear: clears and unregisters the registered effect once LEDs are initialised. */
  function BoardLedEffectClear(b: BoardLeds): (r: BoardLeds)
    ensures r.ledInit == b.ledInit
    ensures !b.ledInit || !IsRegistered(b.led) ==> r == b
    ensures b.ledInit && IsRegistered(b.led) ==> !IsRegistered(r.led) && !IsRunning(r.led) && r.led.current == None
    ensures b.ledInit && b.led.running && b.led.isGpio ==> r.led.lit == Dark
    ensures LedInv(b.led) ==> LedInv(r.led)
  {
    if b.ledInit && IsRegistered(b.led) then b.(led := Unregister(Clear(b.led))) else b
  }

  /**
   * boardLedEffect: once LEDs are initialised, replaces whatever effect
   * was registered by the given one and runs it; NONE leaves nothing
   * registered.
   */
  function BoardLedEffect(b: BoardLeds, e: LedEffect): (r: BoardLeds)
    ensures r.ledInit == b.ledInit
    ensures !b.ledInit ==> r == b
    ensures b.ledInit && LedInv(b.led) ==>
      r.led.current == e && (IsRunning(r.led) <==> e != None) && (IsRegistered(r.led) <==> e != None)
      && (IsGpioEffect(e) ==> r.led.lit == Pattern(e))
    ensures LedInv(b.led) ==> LedInv(r.led)
  {
    if b.ledInit then b.(led := Run(Register(Unregister(Clear(b.led)), e))) else b
  }

  /** The wrappers start from the invariant: nothing registered, nothing running. */
  lemma InitialLedInv()
    ensures LedInv(Initial)
  {
  }

  /** Two calls of boardLedEffect in a row leave only the second effect, whatever the first was. */
  lemma LastEffectWins(b: BoardLeds, e1: LedEffect, e2: LedEffect)
    requires b.ledInit && LedInv(b.led)
    ensures BoardLedEffect(BoardLedEffect(b, e1), e2).led.current == e2
    ensures IsRunning(BoardLedEffect(BoardLedEffect(b, e1), e2).led) <==> e2 != None
  {
  }
}
