/**
 Pushing colours to a device: the static `ApiInUse` flag as a sequential
 test-and-set gate, the per-LED channel copy into the vendor lights, and the
 single `Apply` that commits them. Threads are not modelled; one call is one
 state transition.
 */
module Sync {
  import opened Aura
  import opened Discovery

  /**
   What `Push` reads and writes: the static flag, the SDK's device collection
   with the channel values written to each light, and the log of `Apply`
   calls, one collection index per call.
   */
  datatype DriverState = DriverState(apiInUse: bool, collection: seq<VendorDevice>, applied: seq<nat>)

  /**
   How a push ends: dropped because the flag was set, completed with one
   `Apply`, or cut short by an index past the end of the vendor's lights.
   */
  datatype Outcome = Skipped | Applied | Faulted

  datatype PushResult = PushResult(outcome: Outcome, state: DriverState)

  /** A push the driver can be asked for: the device and its LEDs' colours, in LED order. */
  datatype Request = Request(dev: ControlDevice, colors: seq<Color>)

  /** A light with its three channels set from a colour. */
  function Recolor(l: Light, c: Color): (r: Light)
    ensures r.name == l.name && r.Rgb() == c
  {
    l.(red := c.red, green := c.green, blue := c.blue)
  }

  /**
   The lights after the colours are written index for index, as far as both
   sequences reach; lights past the colours keep their values.
   */
  function Painted(lights: seq<Light>, colors: seq<Color>): (r: seq<Light>)
    ensures |r| == |lights|
    ensures forall i :: 0 <= i < |r| ==> r[i].name == lights[i].name
    ensures forall i :: 0 <= i < |r| && i < |colors| ==> r[i].Rgb() == colors[i]
    ensures forall i :: |colors| <= i < |r| ==> r[i] == lights[i]
  {
    seq(|lights|, i requires 0 <= i < |lights| =>
      if i < |colors| then Recolor(lights[i], colors[i]) else lights[i])
  }

  /**
   The loop of `Push`: colour `inc` goes to light `inc`, red, green and blue,
   for every LED. `completed` is false when the loop runs past the last light,
   where the C# indexer throws.
   */
  method CopyColors(lights: seq<Light>, colors: seq<Color>) returns (out: seq<Light>, completed: bool)
    ensures completed <==> |colors| <= |lights|
    ensures |out| == |lights|
    ensures forall i :: 0 <= i < |out| ==> out[i].name == lights[i].name
    ensures forall i :: 0 <= i < |out| && i < |colors| ==> out[i].Rgb() == colors[i]
    ensures forall i :: |colors| <= i < |out| ==> out[i] == lights[i]
    ensures out == Painted(lights, colors)
  {
    out := lights;
    var inc := 0;
    while inc < |colors|
      invariant inc <= |colors| && inc <= |lights|
      invariant |out| == |lights|
      invariant forall i :: 0 <= i < inc ==> out[i] == Recolor(lights[i], colors[i])
      invariant forall i :: inc <= i < |lights| ==> out[i] == lights[i]
    {
      if inc == |lights| {
        return out, false;
      }
      out := out[inc := Recolor(out[inc], colors[inc])];
      inc := inc + 1;
    }
    completed := true;
  }

  /**
   `Push` as a state transition. A set flag drops the push untouched.
   Otherwise the flag is set, the colours are written into the lights of the
   back-referenced vendor device and `Apply` is called once, after which the
   flag is cleared; if the device has fewer lights than colours, the writes
   stop at the last light, `Apply` is not reached and the flag stays set.
   */
  function Push(s: DriverState, dev: ControlDevice, colors: seq<Color>): (r: PushResult)
    requires dev.vendor < |s.collection|
    requires |colors| == |dev.leds|
    ensures s.apiInUse ==> r == PushResult(Skipped, s)
    ensures !s.apiInUse ==> r.outcome != Skipped
    ensures r.outcome == Applied <==> !s.apiInUse && |colors| <= |s.collection[dev.vendor].lights|
    ensures r.outcome == Applied ==> !r.state.apiInUse && r.state.applied == s.applied + [dev.vendor]
    ensures r.outcome == Faulted ==> r.state.apiInUse && r.state.applied == s.applied
    ensures |r.state.collection| == |s.collection|
    ensures forall k :: 0 <= k < |s.collection| && k != dev.vendor ==>
      r.state.collection[k] == s.collection[k]
    ensures var before := s.collection[dev.vendor];
            var after := r.state.collection[dev.vendor];
            && after.name == before.name
            && after.typeCode == before.typeCode
            && |after.lights| == |before.lights|
            && (forall i :: 0 <= i < |before.lights| ==> after.lights[i].name == before.lights[i].name)
            && (forall i :: 0 <= i < |before.lights| && i < |colors| && !s.apiInUse ==>
                  after.lights[i].Rgb() == colors[i])
            && (forall i :: 0 <= i < |before.lights| && (s.apiInUse || |colors| <= i) ==>
                  after.lights[i] == before.lights[i])
  {
    if s.apiInUse then PushResult(Skipped, s)
    else
      var target := s.collection[dev.vendor];
      var written := target.(lights := Painted(target.lights, colors));
      var collection := s.collection[dev.vendor := written];
      if |colors| <= |target.lights| then
        PushResult(Applied, DriverState(false, collection, s.applied + [dev.vendor]))
      else
        PushResult(Faulted, DriverState(true, collection, s.applied))
  }

  /** The statements of `Push` run in order; they end in the state `Push` describes. */
  method RunPush(s: DriverState, dev: ControlDevice, colors: seq<Color>) returns (r: PushResult)
    requires dev.vendor < |s.collection|
    requires |colors| == |dev.leds|
    ensures r == Push(s, dev, colors)
  {
    if s.apiInUse {
      return PushResult(Skipped, s);
    }
    var target := s.collection[dev.vendor];
    var lights, completed := CopyColors(target.lights, colors);
    var collection := s.collection[dev.vendor := target.(lights := lights)];
    if !completed {
      return PushResult(Faulted, DriverState(true, collection, s.applied));
    }
    r := PushResult(Applied, DriverState(false, collection, s.applied + [dev.vendor]));
  }

  /**
   Pushing the same colours twice from an idle driver leaves the lights as the
   first push left them; the guard is free again after each push, and each
   push applies once.
   */
  lemma PushTwice(s: DriverState, dev: ControlDevice, colors: seq<Color>)
    requires dev.vendor < |s.collection|
    requires |colors| == |dev.leds|
    requires !s.apiInUse && |colors| <= |s.collection[dev.vendor].lights|
    ensures var first := Push(s, dev, colors);
            var second := Push(first.state, dev, colors);
            && first.outcome == Applied && second.outcome == Applied
            && second.state.collection == first.state.collection
            && second.state.applied == s.applied + [dev.vendor, dev.vendor]
            && !second.state.apiInUse
  {
    var first := Push(s, dev, colors);
    var target := first.state.collection[dev.vendor];
    assert Painted(target.lights, colors) == target.lights;
    assert first.state.collection[dev.vendor := target] == first.state.collection;
  }

  /** Every request of a sequence refers to a device of a collection of `n` records. */
  predicate Addressable(n: nat, reqs: seq<Request>)
  {
    forall k :: 0 <= k < |reqs| ==> reqs[k].dev.vendor < n && |reqs[k].colors| == |reqs[k].dev.leds|
  }

  /** The outcomes of a sequence of pushes issued one after another. */
  function Outcomes(s: DriverState, reqs: seq<Request>): (r: seq<Outcome>)
    requires Addressable(|s.collection|, reqs)
    ensures |r| == |reqs|
    decreases |reqs|
  {
    if |reqs| == 0 then []
    else
      var p := Push(s, reqs[0].dev, reqs[0].colors);
      [p.outcome] + Outcomes(p.state, reqs[1..])
  }

  /** Once the flag is stuck, every later push is dropped. */
  lemma {:induction false} StuckFlagDropsAll(s: DriverState, reqs: seq<Request>)
    requires Addressable(|s.collection|, reqs)
    requires s.apiInUse
    ensures forall k :: 0 <= k < |reqs| ==> Outcomes(s, reqs)[k] == Skipped
    decreases |reqs|
  {
    if |reqs| > 0 {
      StuckFlagDropsAll(s, reqs[1..]);
    }
  }

  /**
   Two records with the same name: the device built for the second one points
   back at the first, which has fewer lights. Its push throws after writing the
   first light, the flag stays set, and every push after it, for any device,
   is dropped.
   */
  lemma DuplicateNameLocksOut()
    ensures var c := [
              VendorDevice("AddressableHeader", LedStripCode, [Light("LED1", 0, 0, 0)]),
              VendorDevice("AddressableHeader", LedStripCode, [Light("LED1", 0, 0, 0), Light("LED2", 0, 0, 0)])];
            var dev := ClassifyRecord(c, 1).value;
            var p := Push(DriverState(false, c, []), dev, [Color(255, 0, 0), Color(0, 255, 0)]);
            && dev.vendor == 0
            && p.outcome == Faulted
            && p.state.apiInUse
            && p.state.applied == []
            && forall reqs :: Addressable(|c|, reqs) ==>
                 forall k :: 0 <= k < |reqs| ==> Outcomes(p.state, reqs)[k] == Skipped
  {
    var c := [
      VendorDevice("AddressableHeader", LedStripCode, [Light("LED1", 0, 0, 0)]),
      VendorDevice("AddressableHeader", LedStripCode, [Light("LED1", 0, 0, 0), Light("LED2", 0, 0, 0)])];
    ClassifiedDevice(c, 1);
    var dev := ClassifyRecord(c, 1).value;
    assert dev.vendor == 0;
    var p := Push(DriverState(false, c, []), dev, [Color(255, 0, 0), Color(0, 255, 0)]);
    forall reqs | Addressable(|c|, reqs)
      ensures forall k :: 0 <= k < |reqs| ==> Outcomes(p.state, reqs)[k] == Skipped
    {
      StuckFlagDropsAll(p.state, reqs);
    }
  }

  /**
   `Push` with the flag released on every exit path, as a `finally` block
   would: identical to `Push` except that a push cut short clears the flag.
   */
  function GuardedPush(s: DriverState, dev: ControlDevice, colors: seq<Color>): (r: PushResult)
    requires dev.vendor < |s.collection|
    requires |colors| == |dev.leds|
    ensures r.state.apiInUse <==> s.apiInUse
    ensures r.outcome == Skipped <==> s.apiInUse
    ensures r.outcome != Faulted ==> r == Push(s, dev, colors)
    ensures r.outcome == Faulted ==>
      r.state.collection == Push(s, dev, colors).state.collection && r.state.applied == s.applied
  {
    var p := Push(s, dev, colors);
    if p.outcome == Faulted then PushResult(Faulted, p.state.(apiInUse := false)) else p
  }

  /** The outcomes of a sequence of guarded pushes issued one after another. */
  function GuardedOutcomes(s: DriverState, reqs: seq<Request>): (r: seq<Outcome>)
    requires Addressable(|s.collection|, reqs)
    ensures |r| == |reqs|
    decreases |reqs|
  {
    if |reqs| == 0 then []
    else
      var p := GuardedPush(s, reqs[0].dev, reqs[0].colors);
      [p.outcome] + GuardedOutcomes(p.state, reqs[1..])
  }

  /** With the flag released on every path, no push issued from an idle driver is dropped. */
  lemma {:induction false} GuardedNeverDrops(s: DriverState, reqs: seq<Request>)
    requires Addressable(|s.collection|, reqs)
    requires !s.apiInUse
    ensures forall k :: 0 <= k < |reqs| ==> GuardedOutcomes(s, reqs)[k] != Skipped
    decreases |reqs|
  {
    if |reqs| > 0 {
      var p := GuardedPush(s, reqs[0].dev, reqs[0].colors);
      GuardedNeverDrops(p.state, reqs[1..]);
    }
  }

  /**
   Discovery then push: for a record whose name no earlier record carries,
   the device built for it points back at the record itself, so a push from
   an idle driver completes, writes every LED's colour into the light at the
   same index of that record, applies it once and frees the guard.
   */
  lemma DiscoveredDevicePush(c: seq<VendorDevice>, i: nat, colors: seq<Color>, applied: seq<nat>)
    requires i < |c|
    requires forall k :: 0 <= k < i ==> c[k].name != c[i].name
    requires |colors| == |c[i].lights|
    ensures var dev := ClassifyRecord(c, i).value;
            |colors| == |dev.leds| && dev.vendor == i &&
            var r := GuardedPush(DriverState(false, c, applied), dev, colors);
            && r.outcome == Applied
            && !r.state.apiInUse
            && r.state.applied == applied + [i]
            && |r.state.collection[i].lights| == |c[i].lights|
            && forall j :: 0 <= j < |colors| ==> r.state.collection[i].lights[j].Rgb() == colors[j]
  {
    ClassifiedDevice(c, i);
  }

  /**
   Three lights pushed red, green and blue: each light takes its colour and
   the device is applied exactly once.
   */
  lemma ThreeLightScenario()
    ensures var lights := [Light("a", 0, 0, 0), Light("b", 0, 0, 0), Light("c", 0, 0, 0)];
            var c := [VendorDevice("Aura", 0x0004_0000, lights)];
            var dev := ClassifyRecord(c, 0).value;
            var colors := [Color(255, 0, 0), Color(0, 255, 0), Color(0, 0, 255)];
            |colors| == |dev.leds| && dev.vendor == 0 &&
            var r := Push(DriverState(false, c, []), dev, colors);
            && r.outcome == Applied
            && r.state.applied == [0]
            && r.state.collection[0].lights ==
                 [Light("a", 255, 0, 0), Light("b", 0, 255, 0), Light("c", 0, 0, 255)]
  {
    var lights := [Light("a", 0, 0, 0), Light("b", 0, 0, 0), Light("c", 0, 0, 0)];
    var c := [VendorDevice("Aura", 0x0004_0000, lights)];
    ClassifiedDevice(c, 0);
  }
}
