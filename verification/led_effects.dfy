/**
 * The RGB LED effect state machine (app_led_effects.c): one registered
 * effect, two flags saying whether it is a plain GPIO effect or a PWM
 * effect, and a running flag; plus the PWM duty-cycle sequences of the two
 * PWM effects.
 *
 * The GPIO effects drive the three LEDs directly; the model keeps which
 * LEDs are lit. What the PWM driver puts on the pins is not modelled.
 */
module LedEffects {

  /** led_effect_t */
  datatype LedEffect = None | RedOn | GreenOn | BlueOn | RgbOn | RgbOff | First | Second

  /** Which of the red, green and blue LEDs are lit. */
  datatype Rgb = Rgb(red: bool, green: bool, blue: bool)

  /**
   * The registration flags, the running flag, and the LEDs lit by GPIO
   * writes. `lit` tracks GPIO writes only: what the PWM driver drives on
   * the pins (a PWM effect's ramps, or the pins it switches off when
   * stopped or cleared) is not reflected in it.
   */
  datatype LedState = LedState(current: LedEffect, isPwm: bool, isGpio: bool, running: bool, lit: Rgb)

  /** The state before any call: nothing registered, nothing running, all dark. */
  const Initial: LedState := LedState(None, false, false, false, Rgb(false, false, false))

  predicate IsGpioEffect(e: LedEffect)
  {
    e == RedOn || e == GreenOn || e == BlueOn || e == RgbOn || e == RgbOff
  }

  predicate IsPwmEffect(e: LedEffect)
  {
    e == First || e == Second
  }

  /** The LEDs a GPIO effect lights. */
  function Pattern(e: LedEffect): Rgb
    requires IsGpioEffect(e)
  {
    match e
    case RedOn => Rgb(true, false, false)
    case GreenOn => Rgb(false, true, false)
    case BlueOn => Rgb(false, false, true)
    case RgbOn => Rgb(true, true, true)
    case _ => Rgb(false, false, false)
  }

  function Toggle(c: Rgb): Rgb
  {
    Rgb(!c.red, !c.green, !c.blue)
  }

  const Dark: Rgb := Rgb(false, false, false)

  /**
   * The registration invariant every operation of this module keeps: the
   * current effect is NONE exactly when no flag is set, and the flag of the
   * current effect's kind is set.
   */
  predicate Consistent(s: LedState)
  {
    (s.current == None <==> !(s.isGpio || s.isPwm))
    && (IsGpioEffect(s.current) ==> s.isGpio)
    && (IsPwmEffect(s.current) ==> s.isPwm)
  }

  /** ledEffectIsRegistered */
  function IsRegistered(s: LedState): (b: bool)
    ensures Consistent(s) ==> (b <==> s.current != None)
  {
    s.isGpio || s.isPwm
  }

  /** ledEffectIsRunning: never true while nothing is registered. */
  function IsRunning(s: LedState): (b: bool)
    ensures b ==> IsRegistered(s) && s.running
    ensures IsRegistered(s) ==> b == s.running
  {
    if s.isGpio || s.isPwm then s.running else false
  }

  /**
   * ledEffectRegister: registering the current effect changes nothing; a
   * GPIO or PWM effect sets its own flag (the other is left as it was);
   * NONE clears both flags. The running flag and the LEDs are untouched.
   */
  function Register(s: LedState, e: LedEffect): (r: LedState)
    ensures e == s.current ==> r == s
    ensures r.running == s.running && r.lit == s.lit
    ensures e != s.current && e != None ==>
      r.current == e && (IsGpioEffect(e) ==> r.isGpio && r.isPwm == s.isPwm)
      && (IsPwmEffect(e) ==> r.isPwm && r.isGpio == s.isGpio)
    ensures e == None ==> r.current == None
    ensures e == None && (s.current != None || Consistent(s)) ==> !IsRegistered(r)
    ensures Consistent(s) ==> Consistent(r)
  {
    if e == s.current then s
    else if IsGpioEffect(e) then s.(isGpio := true, current := e)
    else if IsPwmEffect(e) then s.(isPwm := true, current := e)
    else s.(isPwm := false, isGpio := false, current := None)
  }

  /**
   * ledEffectRun: does nothing while the running flag is set or when the
   * current effect is NONE; otherwise lights the GPIO effect's pattern (a
   * PWM effect starts its sequences) and sets the running flag.
   */
  function Run(s: LedState): (r: LedState)
    ensures r.current == s.current && r.isGpio == s.isGpio && r.isPwm == s.isPwm
    ensures s.running || s.current == None ==> r == s
    ensures !s.running && s.current != None ==> r.running
    ensures !s.running && IsGpioEffect(s.current) ==> r.lit == Pattern(s.current)
    ensures IsPwmEffect(s.current) ==> r.lit == s.lit
    ensures Consistent(s) ==> Consistent(r)
  {
    if s.running then s
    else
      match s.current
      case None => s
      case First => s.(running := true)
      case Second => s.(running := true)
      case _ => s.(lit := Pattern(s.current), running := true)
  }

  /**
   * ledEffectStop: a running effect stops; a GPIO effect's LEDs are
   * toggled rather than switched off.
   */
  function Stop(s: LedState): (r: LedState)
    ensures r.current == s.current && r.isGpio == s.isGpio && r.isPwm == s.isPwm
    ensures !s.running ==> r == s
    ensures s.running && IsRegistered(s) ==> !r.running
    ensures s.running && s.isGpio ==> r.lit == Toggle(s.lit)
    ensures !s.isGpio ==> r.lit == s.lit
    ensures Consistent(s) ==> Consistent(r)
  {
    if !s.running then s
    else
      var s1 := if s.isPwm then s.(running := false) else s;
      if s1.isGpio then s1.(lit := Toggle(s1.lit), running := false) else s1
  }

  /** ledEffectClear: a running effect stops and a GPIO effect's LEDs go dark. */
  function Clear(s: LedState): (r: LedState)
    ensures r.current == s.current && r.isGpio == s.isGpio && r.isPwm == s.isPwm
    ensures !s.running ==> r == s
    ensures s.running && IsRegistered(s) ==> !r.running
    ensures s.running && s.isGpio ==> r.lit == Dark
    ensures !s.isGpio ==> r.lit == s.lit
    ensures Consistent(s) ==> Consistent(r)
  {
    if !s.running then s
    else
      var s1 := if s.isPwm then s.(running := false) else s;
      if s1.isGpio then s1.(lit := Dark, running := false) else s1
  }

  /** ledEffectUnregister: a registered effect is dropped along with its running flag. */
  function Unregister(s: LedState): (r: LedState)
    ensures !IsRegistered(r) && !IsRunning(r) && r.lit == s.lit
    ensures IsRegistered(s) ==> r.current == None && !r.running
    ensures !IsRegistered(s) ==> r == s
    ensures Consistent(s) ==> Consistent(r) && r.current == None
  {
    if s.isGpio || s.isPwm then s.(isGpio := false, isPwm := false, running := false, current := None)
    else s
  }

  /** Every state reachable by calls of this module keeps the registration invariant. */
  lemma InitialConsistent()
    ensures Consistent(Initial) && !IsRegistered(Initial) && !IsRunning(Initial)
  {
  }

  /** Run after Register starts the newly registered effect, provided nothing was running. */
  lemma {:induction false} RegisterThenRun(s: LedState, e: LedEffect)
    requires Consistent(s) && !s.running && e != None
    ensures IsRunning(Run(Register(s, e)))
    ensures Run(Register(s, e)).current == e
    ensures IsGpioEffect(e) ==> Run(Register(s, e)).lit == Pattern(e)
  {
    var r := Register(s, e);
    assert r.current == e;
    assert IsRegistered(r);
  }

  /**
   * Registering NONE while an effect runs leaves the running flag set with
   * nothing registered, so the next effect registered is not started by
   * Run, although IsRunning then reports it as running.
   */
  lemma StaleRunningFlag(s: LedState, e: LedEffect)
    requires s.running && s.current != None && e != None
    ensures var t := Register(Register(s, None), e);
      Run(t) == t && IsRunning(t) && t.lit == s.lit
  {
  }

  /**
   * A GPIO effect registered over a PWM one leaves the PWM flag set, so
   * both flags hold at once.
   */
  lemma MixedFlags()
    ensures var t := Register(Register(Initial, First), RedOn);
      t.isGpio && t.isPwm && t.current == RedOn
  {
  }

  /**
   * Stop after Run of a GPIO effect leaves the inverse of the effect's
   * pattern lit, whatever was lit before Run; that is the earlier state
   * exactly when the earlier state was already that inverse.
   */
  lemma StopInvertsPattern(s: LedState)
    requires Consistent(s) && !s.running && IsGpioEffect(s.current)
    ensures Stop(Run(s)).lit == Toggle(Pattern(s.current)) && !IsRunning(Stop(Run(s)))
    ensures Stop(Run(s)).lit == s.lit <==> s.lit == Toggle(Pattern(s.current))
  {
  }

  /**
   * From power-up, Run and Stop of the red effect leave green and blue lit
   * instead of the dark LEDs Run started from.
   */
  lemma StopFromDarkLightsOthers()
    ensures var s := Register(Initial, RedOn);
      Stop(Run(s)).lit == Rgb(false, true, true) && Stop(Run(s)).lit != s.lit
  {
  }

  /** A running effect together with the LEDs that were lit when it started. */
  datatype SavedState = SavedState(state: LedState, before: Rgb)

  /** ledEffectRun that also remembers which LEDs were lit before it drove them. */
  function RunSaving(s: LedState): (r: SavedState)
    ensures r.state == Run(s) && r.before == s.lit
  {
    SavedState(Run(s), s.lit)
  }

  /**
   * ledEffectStop as its declaration describes it: a running effect stops
   * and a GPIO effect's LEDs go back to what they were before Run.
   */
  function StopRestoring(t: SavedState): (r: LedState)
    ensures r.current == t.state.current && r.isGpio == t.state.isGpio && r.isPwm == t.state.isPwm
    ensures !t.state.running ==> r == t.state
    ensures t.state.running && IsRegistered(t.state) ==> !r.running
    ensures t.state.running && t.state.isGpio ==> r.lit == t.before
    ensures !t.state.isGpio ==> r == Stop(t.state)
  {
    var s := t.state;
    if !s.running then s
    else
      var s1 := if s.isPwm then s.(running := false) else s;
      if s1.isGpio then s1.(lit := t.before, running := false) else s1
  }

  /** With the corrected Stop, Run and Stop together leave every LED as it was. */
  lemma StopRestoringRestores(s: LedState)
    requires Consistent(s) && !s.running
    ensures StopRestoring(RunSaving(s)).lit == s.lit
    ensures s.current != None ==> !StopRestoring(RunSaving(s)).running
  {
  }

  /** Clear of a running GPIO effect turns every LED off, whatever the effect. */
  lemma ClearDarkensGpio(s: LedState)
    requires Consistent(s) && !s.running && IsGpioEffect(s.current)
    ensures Clear(Run(s)).lit == Dark && !IsRunning(Clear(Run(s)))
  {
  }

  // ---------------------------------------------------------------------------
  // PWM sequences (ledEffectFillSeq)

  /** Top value of every PWM channel: duty values above it would saturate. */
  const TopValue: int := 10000

  const FirstLen: nat := 300
  const SecondLen: nat := 200

  /** A value stored in a uint16_t sequence slot. */
  function U16(x: int): (v: int)
    ensures 0 <= v < 0x1_0000
    ensures 0 <= x < 0x1_0000 ==> v == x
  {
    x % 0x1_0000
  }

  /** The red channel of the first effect: a ramp up over 0..49, down over 50..99, then dark. */
  function FirstRed(i: int): int
  {
    if i < 50 then 200 * i else if i < 100 then 9800 - 200 * (i - 50) else 0
  }

  /** The green channel of the first effect: dark, a ramp up over 100..149 and down over 150..199, dark. */
  function FirstGreen(i: int): int
  {
    if i < 100 then 0
    else if i < 150 then 200 * (i - 100)
    else if i < 200 then 9800 - 200 * (i - 150)
    else 0
  }

  /** The blue channel of the first effect: dark up to 200, a ramp up over 200..249 and down over 250..299. */
  function FirstBlue(i: int): int
  {
    if i < 200 then 0 else if i < 250 then 200 * (i - 200) else 9800 - 200 * (i - 250)
  }

  /** Every channel of the second effect: a ramp up over 0..99 and down over 100..199. */
  function SecondChannel(i: int): int
  {
    if i < 100 then 100 * i else 9900 - 100 * (i - 100)
  }

  /** Extends a sequence of length lo to length hi with start, start + step, ... as uint16_t values. */
  method AppendRamp(s: seq<int>, lo: nat, hi: nat, start: int, step: int) returns (t: seq<int>)
    requires |s| == lo <= hi
    ensures |t| == hi && t[..lo] == s
    ensures forall i :: 0 <= i < lo ==> t[i] == s[i]
    ensures forall i :: lo <= i < hi ==> t[i] == U16(start + step * (i - lo))
  {
    t := s;
    var i := lo;
    while i < hi
      invariant lo <= i <= hi && |t| == i && t[..lo] == s
      invariant forall k :: lo <= k < i ==> t[k] == U16(start + step * (k - lo))
    {
      t := t + [U16(start + step * (i - lo))];
      i := i + 1;
    }
  }

  /** The first effect's three sequences, built as the source's loops build them. */
  method FillFirst() returns (r: seq<int>, g: seq<int>, b: seq<int>)
    ensures |r| == FirstLen && |g| == FirstLen && |b| == FirstLen
    ensures forall i :: 0 <= i < FirstLen ==> r[i] == FirstRed(i) && g[i] == FirstGreen(i) && b[i] == FirstBlue(i)
    ensures forall i :: 0 <= i < FirstLen ==> 0 <= r[i] <= TopValue && 0 <= g[i] <= TopValue && 0 <= b[i] <= TopValue
  {
    // red: increase over [0, len/6 - 1], decrease over [len/6, len/3 - 1], then zero
    r := AppendRamp([], 0, 50, 0, 200);
    var peak := r[49];
    r := AppendRamp(r, 50, 100, peak, -200);
    r := AppendRamp(r, 100, 300, 0, 0);
    assert forall i :: 0 <= i < FirstLen ==> r[i] == FirstRed(i);
    // green: zero below len/3, increase to len/2 - 1, decrease to len*2/3 - 1, then zero
    g := AppendRamp([], 0, 100, 0, 0);
    g := AppendRamp(g, 100, 150, 0, 200);
    peak := g[149];
    g := AppendRamp(g, 150, 200, peak, -200);
    g := AppendRamp(g, 200, 300, 0, 0);
    assert forall i :: 0 <= i < FirstLen ==> g[i] == FirstGreen(i);
    // blue: zero up to len*2/3, increase to len*5/6 - 1, decrease to the end
    b := AppendRamp([], 0, 200, 0, 0);
    b := AppendRamp(b, 200, 250, 0, 200);
    peak := b[249];
    b := AppendRamp(b, 250, 300, peak, -200);
    assert forall i :: 0 <= i < FirstLen ==> b[i] == FirstBlue(i);
  }

  /** The second effect's sequence, the same on all three channels. */
  method FillSecondChannel() returns (c: seq<int>)
    ensures |c| == SecondLen
    ensures forall i :: 0 <= i < SecondLen ==> c[i] == SecondChannel(i) && 0 <= c[i] <= TopValue
  {
    c := AppendRamp([], 0, 100, 0, 100);
    var peak := c[99];
    c := AppendRamp(c, 100, 200, peak, -100);
  }

  /** ledEffectFillSeq: fills the sequences of a PWM effect; any other effect fills nothing. */
  method FillSeq(e: LedEffect) returns (r: seq<int>, g: seq<int>, b: seq<int>)
    ensures !IsPwmEffect(e) ==> r == [] && g == [] && b == []
    ensures e == First ==>
      |r| == FirstLen && |g| == FirstLen && |b| == FirstLen
      && forall i :: 0 <= i < FirstLen ==> r[i] == FirstRed(i) && g[i] == FirstGreen(i) && b[i] == FirstBlue(i)
    ensures e == Second ==>
      |r| == SecondLen && r == g && g == b && forall i :: 0 <= i < SecondLen ==> r[i] == SecondChannel(i)
    ensures forall i :: 0 <= i < |r| ==> 0 <= r[i] <= TopValue
    ensures forall i :: 0 <= i < |g| ==> 0 <= g[i] <= TopValue
    ensures forall i :: 0 <= i < |b| ==> 0 <= b[i] <= TopValue
  {
    if e == First {
      r, g, b := FillFirst();
    } else if e == Second {
      r := FillSecondChannel();
      g := FillSecondChannel();
      b := FillSecondChannel();
    } else {
      r, g, b := [], [], [];
    }
  }

  /**
   * Each ramp is mirror-symmetric about its peak, and every sequence starts
   * and ends dark, so a looped sequence never jumps.
   */
  lemma RampsSymmetric(k: int)
    requires 0 <= k < 50
    ensures FirstRed(49 - k) == FirstRed(50 + k)
    ensures FirstGreen(149 - k) == FirstGreen(150 + k)
    ensures FirstBlue(249 - k) == FirstBlue(250 + k)
    ensures SecondChannel(99 - k) == SecondChannel(100 + k) && SecondChannel(49 - k) == SecondChannel(150 + k)
  {
  }

  lemma SequencesStartAndEndDark()
    ensures FirstRed(0) == 0 && FirstRed(FirstLen - 1) == 0
    ensures FirstGreen(0) == 0 && FirstGreen(FirstLen - 1) == 0
    ensures FirstBlue(0) == 0 && FirstBlue(FirstLen - 1) == 0
    ensures SecondChannel(0) == 0 && SecondChannel(SecondLen - 1) == 0
  {
  }
}
