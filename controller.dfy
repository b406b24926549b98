/** The firmware's state and actuator: the cooldown flag, the relay transistor's pin,
    the per-cycle control step and the status word of the log line. */
module FloorController {
  import opened Hysteresis

  /** How the relay transistor's pin is configured: a high-impedance input leaves the
      thermostat in control, an output driven low forces heating off. */
  datatype PinState = HiZ | DrivenLow

  /** Raw analog read-back above which the thermostat's own relay counts as on. */
  const ReadBackThreshold: int := 10

  /** The pin configuration that goes with a cooldown flag. */
  function PinFor(cooling: bool): (p: PinState)
    ensures p == DrivenLow <==> cooling
    ensures p == HiZ <==> !cooling
  {
    if cooling then DrivenLow else HiZ
  }

  /** The mode word of the status line, from the cooldown flag and the pin's analog read-back. */
  function StatusWord(cooling: bool, readBack: int): (w: string)
    ensures w == "COOLDOWN" <==> cooling
    ensures w == "ON" <==> !cooling && readBack > ReadBackThreshold
    ensures w == "OFF" <==> !cooling && readBack <= ReadBackThreshold
  {
    if !cooling then (if readBack > ReadBackThreshold then "ON" else "OFF")
    else "COOLDOWN"
  }

  class Controller {
    /** Whether heating is currently forced off. */
    var cooldownEnabled: bool
    /** The configuration of the relay transistor's pin. */
    var pin: PinState
    /** How many times the actuator has been told to force heating off. */
    ghost var engagements: nat
    /** How many times the actuator has been told to give the thermostat control back. */
    ghost var releases: nat

    /** The flag is set exactly when the pin is driven low. */
    ghost predicate Valid()
      reads this
      ensures Valid() <==> pin == PinFor(cooldownEnabled)
    {
      cooldownEnabled <==> pin == DrivenLow
    }

    /** Power-on: the flag starts cleared; the pin is in whatever state the hardware left it. */
    constructor (powerOnPin: PinState)
      ensures !cooldownEnabled && pin == powerOnPin
      ensures engagements == 0 && releases == 0
    {
      cooldownEnabled := false;
      pin := powerOnPin;
      engagements, releases := 0, 0;
    }

    /** Give the thermostat control back: clear the flag, put the pin in hi-Z. */
    method DisableCooldown()
      modifies this
      ensures !cooldownEnabled && pin == HiZ && Valid()
      ensures releases == old(releases) + 1 && engagements == old(engagements)
    {
      cooldownEnabled := false;
      pin := HiZ;
      releases := releases + 1;
    }

    /** Force heating off: set the flag, make the pin an output driven low. */
    method EnableCooldown()
      modifies this
      ensures cooldownEnabled && pin == DrivenLow && Valid()
      ensures engagements == old(engagements) + 1 && releases == old(releases)
    {
      cooldownEnabled := true;
      pin := DrivenLow;
      engagements := engagements + 1;
    }

    /** Start-up, before the sensor is touched: heating allowed and the pin released,
        whatever state the pin was in at power-on. */
    method Setup()
      modifies this
      ensures Valid() && !cooldownEnabled && pin == HiZ
      ensures releases == old(releases) + 1 && engagements == old(engagements)
    {
      DisableCooldown();
    }

    /** One threshold check: at most one actuator call, and only on a change of mode. */
    method Step(t: real)
      modifies this
      ensures cooldownEnabled == NextMode(old(cooldownEnabled), t)
      ensures pin == if Decide(old(cooldownEnabled), t) == Hold then old(pin) else PinFor(cooldownEnabled)
      ensures engagements == old(engagements) + (if Decide(old(cooldownEnabled), t) == Engage then 1 else 0)
      ensures releases == old(releases) + (if Decide(old(cooldownEnabled), t) == Release then 1 else 0)
      ensures old(Valid()) ==> Valid()
    {
      if !cooldownEnabled && t > EnableCooldownTemp {
        EnableCooldown();
      } else if cooldownEnabled && t < DisableCooldownTemp {
        DisableCooldown();
      }
    }

    /** The mode word logged for the current state, given the pin's analog read-back. */
    method Status(readBack: int) returns (word: string)
      ensures word == StatusWord(cooldownEnabled, readBack)
      ensures word == "COOLDOWN" <==> cooldownEnabled
    {
      word := StatusWord(cooldownEnabled, readBack);
    }

    /** One control cycle: take the reading, apply the thresholds, report the mode word
        (the read-back is taken after the step). */
    method Loop(t: real, readBack: int) returns (word: string)
      modifies this
      ensures cooldownEnabled == NextMode(old(cooldownEnabled), t)
      ensures pin == if Decide(old(cooldownEnabled), t) == Hold then old(pin) else PinFor(cooldownEnabled)
      ensures engagements == old(engagements) + (if Decide(old(cooldownEnabled), t) == Engage then 1 else 0)
      ensures releases == old(releases) + (if Decide(old(cooldownEnabled), t) == Release then 1 else 0)
      ensures old(Valid()) ==> Valid()
      ensures word == StatusWord(cooldownEnabled, readBack)
    {
      Step(t);
      word := Status(readBack);
    }

    /** The framework calling `Loop` once per reading: cycle i reads ts[i] and then the
        pin's analog value readBacks[i]. The state after the run, the calls made and the
        words logged are those of the run's specification. */
    method Run(ts: seq<real>, readBacks: seq<int>) returns (words: seq<string>)
      requires |readBacks| == |ts|
      modifies this
      ensures cooldownEnabled == Final(old(cooldownEnabled), ts)
      ensures engagements == old(engagements) + Count(Effects(old(cooldownEnabled), ts), Engage)
      ensures releases == old(releases) + Count(Effects(old(cooldownEnabled), ts), Release)
      ensures pin == if Count(Effects(old(cooldownEnabled), ts), Engage) + Count(Effects(old(cooldownEnabled), ts), Release) == 0
                     then old(pin) else PinFor(cooldownEnabled)
      ensures old(Valid()) ==> Valid()
      ensures |words| == |ts|
      ensures forall i :: 0 <= i < |ts| ==> words[i] == StatusWord(Trace(old(cooldownEnabled), ts)[i], readBacks[i])
    {
      ghost var c0, p0, e0, r0 := cooldownEnabled, pin, engagements, releases;
      words := [];
      for i := 0 to |ts|
        invariant cooldownEnabled == Final(c0, ts[..i])
        invariant engagements == e0 + Count(Effects(c0, ts[..i]), Engage)
        invariant releases == r0 + Count(Effects(c0, ts[..i]), Release)
        invariant pin == if Count(Effects(c0, ts[..i]), Engage) + Count(Effects(c0, ts[..i]), Release) == 0
                         then p0 else PinFor(cooldownEnabled)
        invariant old(Valid()) ==> Valid()
        invariant |words| == i
        invariant forall j :: 0 <= j < i ==> words[j] == StatusWord(Trace(c0, ts[..i])[j], readBacks[j])
      {
        ghost var pre := ts[..i];
        ghost var ms := Trace(c0, pre);
        ghost var x := Decide(Final(c0, pre), ts[i]);
        assert ts[..i + 1] == pre + [ts[i]];
        FinalSnoc(c0, pre, ts[i]);
        TraceSnoc(c0, pre, ts[i]);
        EffectsSnoc(c0, pre, ts[i]);
        CountSnoc(Effects(c0, pre), x, Engage);
        CountSnoc(Effects(c0, pre), x, Release);
        var w := Loop(ts[i], readBacks[i]);
        words := words + [w];
        forall j | 0 <= j < i + 1
          ensures words[j] == StatusWord(Trace(c0, ts[..i + 1])[j], readBacks[j])
        {
          if j < i {
            assert Trace(c0, ts[..i + 1])[j] == ms[j];
          }
        }
      }
      assert ts[..|ts|] == ts;
    }
  }
}
