/** The bang-bang decision the floor controller takes once per control cycle,
    and what follows from it over a whole sequence of temperature readings. */
module Hysteresis {

  /** Floor temperature (°C) above which heating is forced off. */
  const EnableCooldownTemp: real := 31.0
  /** Floor temperature (°C) below which the thermostat gets control back. */
  const DisableCooldownTemp: real := 29.0
  /** The value the temperature driver reports when the sensor does not answer. */
  const DisconnectedTemp: real := -127.0

  /** The actuator call a control cycle makes: none, enable cooldown, or disable cooldown. */
  datatype Effect = Hold | Engage | Release

  /** Which actuator call one cycle makes, given whether cooldown is on and the reading. */
  function Decide(cooling: bool, t: real): (e: Effect)
    ensures e != Hold ==> t < DisableCooldownTemp || t > EnableCooldownTemp
    ensures e == Engage ==> !cooling
    ensures e == Release ==> cooling
  {
    if !cooling && t > EnableCooldownTemp then Engage
    else if cooling && t < DisableCooldownTemp then Release
    else Hold
  }

  /** The cooldown flag after an actuator call. */
  function ModeAfter(cooling: bool, e: Effect): (r: bool)
    ensures e == Hold ==> r == cooling
    // a call sets the flag outright, whatever it was before
    ensures e != Hold ==> r == (e == Engage)
  {
    match e
    case Hold => cooling
    case Engage => true
    case Release => false
  }

  /** The cooldown flag at the end of one control cycle. */
  function NextMode(cooling: bool, t: real): (r: bool)
    ensures r && !cooling ==> t > EnableCooldownTemp
    ensures !r && cooling ==> t < DisableCooldownTemp
    ensures DisableCooldownTemp <= t <= EnableCooldownTemp ==> r == cooling
  {
    ModeAfter(cooling, Decide(cooling, t))
  }

  // ---------------------------------------------------------------------
  // One control cycle
  // ---------------------------------------------------------------------

  /** The two thresholds leave a gap between them. */
  lemma ThresholdsOrdered()
    ensures DisableCooldownTemp < EnableCooldownTemp
  {
  }

  /** From heating-allowed, cooldown is entered exactly when the reading is strictly above 31. */
  lemma EngageExactlyAboveUpper(t: real)
    ensures NextMode(false, t) <==> t > EnableCooldownTemp
    ensures Decide(false, t) == Engage <==> t > EnableCooldownTemp
    ensures Decide(false, t) != Release
  {
  }

  /** From cooldown, heating is given back exactly when the reading is strictly below 29. */
  lemma ReleaseExactlyBelowLower(t: real)
    ensures !NextMode(true, t) <==> t < DisableCooldownTemp
    ensures Decide(true, t) == Release <==> t < DisableCooldownTemp
    ensures Decide(true, t) != Engage
  {
  }

  /** Inside [29, 31], boundaries included, nothing happens whatever the mode. */
  lemma DeadBandHolds(cooling: bool, t: real)
    requires DisableCooldownTemp <= t <= EnableCooldownTemp
    ensures Decide(cooling, t) == Hold
    ensures NextMode(cooling, t) == cooling
  {
  }

  /** The actuator is called exactly when the mode changes, and the call matches the direction. */
  lemma EffectOnEdge(cooling: bool, t: real)
    ensures Decide(cooling, t) == Engage <==> !cooling && NextMode(cooling, t)
    ensures Decide(cooling, t) == Release <==> cooling && !NextMode(cooling, t)
    ensures Decide(cooling, t) == Hold <==> NextMode(cooling, t) == cooling
  {
  }

  /** Repeating the reading that caused a transition does not call the actuator again. */
  lemma RepeatedReadingHolds(cooling: bool, t: real)
    ensures Decide(NextMode(cooling, t), t) == Hold
    ensures NextMode(NextMode(cooling, t), t) == NextMode(cooling, t)
  {
    if Decide(cooling, t) == Engage {
      assert t > EnableCooldownTemp;
    } else if Decide(cooling, t) == Release {
      assert t < DisableCooldownTemp;
    }
  }

  /** A disconnected sensor forces heating back on and can never force cooldown. */
  lemma DisconnectedReadingReleases(cooling: bool)
    ensures !NextMode(cooling, DisconnectedTemp)
    ensures Decide(cooling, DisconnectedTemp) == (if cooling then Release else Hold)
  {
  }

  // ---------------------------------------------------------------------
  // A run of control cycles
  // ---------------------------------------------------------------------

  /** The mode at the end of each cycle, reading ts[i] in cycle i, starting in mode `cooling`. */
  function Trace(cooling: bool, ts: seq<real>): (ms: seq<bool>)
    ensures |ms| == |ts|
    decreases |ts|
  {
    if ts == [] then []
    else
      var next := NextMode(cooling, ts[0]);
      [next] + Trace(next, ts[1..])
  }

  /** The actuator call of each cycle, in the same run. */
  function Effects(cooling: bool, ts: seq<real>): (es: seq<Effect>)
    ensures |es| == |ts|
    decreases |ts|
  {
    if ts == [] then []
    else [Decide(cooling, ts[0])] + Effects(NextMode(cooling, ts[0]), ts[1..])
  }

  /** The mode after the whole run. */
  function Final(cooling: bool, ts: seq<real>): (r: bool)
    ensures ts == [] ==> r == cooling
    ensures ts != [] ==> r == Trace(cooling, ts)[|ts| - 1]
    decreases |ts|
  {
    if ts == [] then cooling else Final(NextMode(cooling, ts[0]), ts[1..])
  }

  /** The mode at the start of cycle i. */
  function Before(cooling: bool, ts: seq<real>, i: nat): bool
    requires i < |ts|
  {
    if i == 0 then cooling else Trace(cooling, ts)[i - 1]
  }

  /** How many cycles made call e. */
  function Count(es: seq<Effect>, e: Effect): nat
  {
    if es == [] then 0 else (if es[0] == e then 1 else 0) + Count(es[1..], e)
  }

  /** Cycle i of a run is one control cycle taken from the mode the previous cycle left. */
  lemma {:induction false} TraceAt(cooling: bool, ts: seq<real>, i: nat)
    requires i < |ts|
    ensures Trace(cooling, ts)[i] == NextMode(Before(cooling, ts, i), ts[i])
    ensures Effects(cooling, ts)[i] == Decide(Before(cooling, ts, i), ts[i])
    decreases i
  {
    if i > 0 {
      var next := NextMode(cooling, ts[0]);
      TraceAt(next, ts[1..], i - 1);
      if i > 1 {
        assert Trace(cooling, ts)[i - 1] == Trace(next, ts[1..])[i - 2];
      }
    }
  }

  /** A run extended by one reading ends in the mode one more cycle leaves. */
  lemma {:induction false} FinalSnoc(cooling: bool, ts: seq<real>, t: real)
    ensures Final(cooling, ts + [t]) == NextMode(Final(cooling, ts), t)
    decreases |ts|
  {
    if ts != [] {
      assert (ts + [t])[1..] == ts[1..] + [t];
      FinalSnoc(NextMode(cooling, ts[0]), ts[1..], t);
    }
  }

  /** A run extended by one reading traces one more mode. */
  lemma {:induction false} TraceSnoc(cooling: bool, ts: seq<real>, t: real)
    ensures Trace(cooling, ts + [t]) == Trace(cooling, ts) + [NextMode(Final(cooling, ts), t)]
    decreases |ts|
  {
    if ts == [] {
      assert [t][1..] == [];
    } else {
      var next := NextMode(cooling, ts[0]);
      assert (ts + [t])[1..] == ts[1..] + [t];
      TraceSnoc(next, ts[1..], t);
      assert Final(cooling, ts) == Final(next, ts[1..]);
    }
  }

  /** A run extended by one reading makes one more call (or none). */
  lemma {:induction false} EffectsSnoc(cooling: bool, ts: seq<real>, t: real)
    ensures Effects(cooling, ts + [t]) == Effects(cooling, ts) + [Decide(Final(cooling, ts), t)]
    decreases |ts|
  {
    if ts == [] {
      assert [t][1..] == [];
    } else {
      var next := NextMode(cooling, ts[0]);
      assert (ts + [t])[1..] == ts[1..] + [t];
      EffectsSnoc(next, ts[1..], t);
      assert Final(cooling, ts) == Final(next, ts[1..]);
    }
  }

  /** Counting calls over a run extended by one cycle. */
  lemma {:induction false} CountSnoc(es: seq<Effect>, x: Effect, e: Effect)
    ensures Count(es + [x], e) == Count(es, e) + (if x == e then 1 else 0)
    decreases |es|
  {
    if es != [] {
      assert (es + [x])[1..] == es[1..] + [x];
      CountSnoc(es[1..], x, e);
    } else {
      assert [x][1..] == [];
    }
  }

  /** Over a whole run, the actuator is called exactly on the cycles where the mode changes. */
  lemma EffectsOnEdges(cooling: bool, ts: seq<real>, i: nat)
    requires i < |ts|
    ensures Effects(cooling, ts)[i] == Engage <==> !Before(cooling, ts, i) && Trace(cooling, ts)[i]
    ensures Effects(cooling, ts)[i] == Release <==> Before(cooling, ts, i) && !Trace(cooling, ts)[i]
    ensures Effects(cooling, ts)[i] == Hold <==> Before(cooling, ts, i) == Trace(cooling, ts)[i]
  {
    TraceAt(cooling, ts, i);
    EffectOnEdge(Before(cooling, ts, i), ts[i]);
  }

  /** Enable and disable calls alternate: their counts differ by the net change of mode. */
  lemma {:induction false} EngageReleaseBalance(cooling: bool, ts: seq<real>)
    ensures Count(Effects(cooling, ts), Engage) - Count(Effects(cooling, ts), Release)
         == (if Final(cooling, ts) then 1 else 0) - (if cooling then 1 else 0)
    decreases |ts|
  {
    if ts != [] {
      var next := NextMode(cooling, ts[0]);
      var es := Effects(cooling, ts);
      assert es[1..] == Effects(next, ts[1..]);
      EngageReleaseBalance(next, ts[1..]);
    }
  }

  /** Consequently, from heating-allowed there is never more than one enable call in excess
      of disable calls, and never more disable calls than enable calls. */
  lemma NoDoubleEngage(ts: seq<real>)
    ensures 0 <= Count(Effects(false, ts), Engage) - Count(Effects(false, ts), Release) <= 1
  {
    EngageReleaseBalance(false, ts);
  }

  /** Cycles that call nothing keep the mode. */
  lemma {:induction false} HoldKeepsMode(cooling: bool, ts: seq<real>, i: nat, j: nat)
    requires i <= j < |ts|
    requires forall k :: i < k <= j ==> Effects(cooling, ts)[k] == Hold
    ensures Trace(cooling, ts)[j] == Trace(cooling, ts)[i]
    decreases j
  {
    if j > i {
      HoldKeepsMode(cooling, ts, i, j - 1);
      EffectsOnEdges(cooling, ts, j);
    }
  }

  /** Hysteresis: two successive actuator calls go in opposite directions, and the readings
      that caused them lie further apart than the gap between the thresholds. */
  lemma SuccessiveCallsSwing(cooling: bool, ts: seq<real>, i: nat, j: nat)
    requires i < j < |ts|
    requires Effects(cooling, ts)[i] != Hold && Effects(cooling, ts)[j] != Hold
    requires forall k :: i < k < j ==> Effects(cooling, ts)[k] == Hold
    ensures Effects(cooling, ts)[i] != Effects(cooling, ts)[j]
    ensures Effects(cooling, ts)[i] == Engage ==> ts[i] - ts[j] > EnableCooldownTemp - DisableCooldownTemp
    ensures Effects(cooling, ts)[i] == Release ==> ts[j] - ts[i] > EnableCooldownTemp - DisableCooldownTemp
  {
    HoldKeepsMode(cooling, ts, i, j - 1);
    assert Before(cooling, ts, j) == Trace(cooling, ts)[i];
    TraceAt(cooling, ts, i);
    TraceAt(cooling, ts, j);
  }

  /** A run whose readings all stay in [29, 31] never changes the mode and never calls the actuator. */
  lemma {:induction false} DeadBandRunHolds(cooling: bool, ts: seq<real>)
    requires forall k :: 0 <= k < |ts| ==> DisableCooldownTemp <= ts[k] <= EnableCooldownTemp
    ensures forall k :: 0 <= k < |ts| ==> Trace(cooling, ts)[k] == cooling
    ensures forall k :: 0 <= k < |ts| ==> Effects(cooling, ts)[k] == Hold
    decreases |ts|
  {
    if ts != [] {
      DeadBandHolds(cooling, ts[0]);
      DeadBandRunHolds(cooling, ts[1..]);
      forall k | 0 < k < |ts|
        ensures Trace(cooling, ts)[k] == cooling && Effects(cooling, ts)[k] == Hold
      {
        assert Trace(cooling, ts)[k] == Trace(cooling, ts[1..])[k - 1];
        assert Effects(cooling, ts)[k] == Effects(cooling, ts[1..])[k - 1];
      }
    }
  }

  /** A sensor that keeps reading below 29 (a disconnected one, for instance) releases cooldown
      on the first cycle if it was on, and from then on nothing is ever called. */
  lemma {:induction false} LowRunReleases(cooling: bool, ts: seq<real>)
    requires forall k :: 0 <= k < |ts| ==> ts[k] < DisableCooldownTemp
    ensures forall k :: 0 <= k < |ts| ==> !Trace(cooling, ts)[k]
    ensures forall k :: 0 < k < |ts| ==> Effects(cooling, ts)[k] == Hold
    ensures ts != [] ==> Effects(cooling, ts)[0] == (if cooling then Release else Hold)
    ensures Count(Effects(cooling, ts), Engage) == 0
    decreases |ts|
  {
    if ts != [] {
      var next := NextMode(cooling, ts[0]);
      assert !next;
      LowRunReleases(next, ts[1..]);
      forall k | 0 < k < |ts|
        ensures !Trace(cooling, ts)[k] && Effects(cooling, ts)[k] == Hold
      {
        assert Trace(cooling, ts)[k] == Trace(next, ts[1..])[k - 1];
        assert Effects(cooling, ts)[k] == Effects(next, ts[1..])[k - 1];
      }
      assert Effects(cooling, ts)[1..] == Effects(next, ts[1..]);
    }
  }

  /** The run 25.0, 30.0, 31.5, 32.0, 28.5, 29.5 from heating-allowed: cooldown at 31.5,
      heating back at 28.5, one enable and one disable call. */
  lemma ExampleRun()
    ensures Trace(false, [25.0, 30.0, 31.5, 32.0, 28.5, 29.5]) == [false, false, true, true, false, false]
    ensures Effects(false, [25.0, 30.0, 31.5, 32.0, 28.5, 29.5]) == [Hold, Hold, Engage, Hold, Release, Hold]
  {
    var ts := [25.0, 30.0, 31.5, 32.0, 28.5, 29.5];
    assert ts[1..] == [30.0, 31.5, 32.0, 28.5, 29.5];
    assert ts[2..] == [31.5, 32.0, 28.5, 29.5];
    assert ts[3..] == [32.0, 28.5, 29.5];
    assert ts[4..] == [28.5, 29.5];
    assert ts[5..] == [29.5];
    assert ts[6..] == [];
    assert ts[1..][1..] == ts[2..] && ts[2..][1..] == ts[3..] && ts[3..][1..] == ts[4..];
    assert ts[4..][1..] == ts[5..] && ts[5..][1..] == ts[6..];
  }
}
