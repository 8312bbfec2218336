/**
 Device discovery: the projection of the SDK's device collection onto the
 framework's control devices, one per record, with a category and display
 name taken from a fixed type-code table.
 */
module Discovery {
  import opened Wrappers
  import opened Text
  import opened Aura

  /** The framework's device categories that the driver uses. */
  datatype DeviceType = MotherBoard | LedStrip | GPU | Headset | Memory | Keyboard | Bulb | Other

  /** How a table entry derives the display name from the vendor name. */
  datatype Rename =
    | Keep
    | Force(fixed: string)
    | Replace(pat: string, rep: string)

  /** One case of the type-code switch: category, product-image key, rename. */
  datatype Rule = Rule(category: DeviceType, image: Option<string>, rename: Rename)

  /** The driver-specific payload of an LED: its index and the vendor's light name. */
  datatype AsusLedData = AsusLedData(ledNumber: nat, asusLedName: string)

  /** One LED of a control device. */
  datatype LedUnit = LedUnit(ledName: string, data: AsusLedData)

  /**
   A discovered device. `deviceType` is `None` when the type code is not in
   the table (the C# property is left `null`). `image` is the product-image
   key; `None` stands for the placeholder. `vendor` is the back-reference, as
   an index into the SDK's device collection.
   */
  datatype ControlDevice = ControlDevice(
    name: string,
    internalName: string,
    deviceType: Option<DeviceType>,
    image: Option<string>,
    leds: seq<LedUnit>,
    vendor: nat)

  const MotherboardCode: U32 := 0x0001_0000
  const LedStripCode: U32 := 0x0001_1000
  const VgaCode: U32 := 0x0002_0000

  /** The cases of the type-code switch; `None` for a code it has no case for. */
  function RuleFor(code: U32): (r: Option<Rule>)
    ensures r.Some? && r.value.rename.Replace? ==> Separated(r.value.rename.pat, r.value.rename.rep)
  {
    RewritesSeparated();
    match code
    case 0x0001_0000 => Some(Rule(MotherBoard, Some("Motherboard"), Force("Motherboard")))
    case 0x0001_1000 => Some(Rule(LedStrip, Some("AddressableHeader"), Replace("AddressableHeader", "ARGB Header")))
    case 0x0002_0000 => Some(Rule(GPU, Some("GPU"), Replace("Vga", "GPU")))
    case 0x0004_0000 => Some(Rule(Headset, Some("Headset"), Keep))
    case 0x0007_0000 => Some(Rule(Memory, Some("DRAM"), Keep))
    case 0x0008_0000 => Some(Rule(Keyboard, Some("Keyboard"), Keep))
    case 0x0008_1000 => Some(Rule(Keyboard, Some("LaptopKeyboard"), Keep))
    case 0x0008_1001 => Some(Rule(Keyboard, Some("LaptopKeyboard"), Keep))
    case 0x0009_0000 => Some(Rule(Keyboard, Some("Mouse"), Keep))
    case 0x0003_0000 => Some(Rule(Other, Some("Monitor"), Keep))
    case 0x000B_0000 => Some(Rule(Other, Some("Chassis"), Keep))
    case 0x0005_0000 => Some(Rule(Other, Some("Microphone"), Keep))
    case 0x0006_0000 => Some(Rule(Other, Some("HDD"), Keep))
    case 0x000C_0000 => Some(Rule(Bulb, Some("Projector"), Keep))
    case 0x0000_0000 => Some(Rule(Other, None, Keep))
    case 0x0001_2000 => Some(Rule(Other, None, Keep))
    case 0x0006_1000 => Some(Rule(Other, None, Keep))
    case _ => None
  }

  /**
   The type codes of each category, read as the inverse of the switch: the
   codes a category is assigned to.
   */
  function CodesOf(t: DeviceType): set<U32>
  {
    match t
    case MotherBoard => {0x0001_0000}
    case LedStrip => {0x0001_1000}
    case GPU => {0x0002_0000}
    case Headset => {0x0004_0000}
    case Memory => {0x0007_0000}
    case Keyboard => {0x0008_0000, 0x0008_1000, 0x0008_1001, 0x0009_0000}
    case Bulb => {0x000C_0000}
    case Other => {0x0003_0000, 0x000B_0000, 0x0005_0000, 0x0006_0000, 0x0000_0000, 0x0001_2000, 0x0006_1000}
  }

  /** The category the switch assigns to a code, `None` when it has no case. */
  function CategoryOf(code: U32): (r: Option<DeviceType>)
    ensures r.Some? <==> RuleFor(code).Some?
    ensures r.Some? ==> code in CodesOf(r.value)
  {
    match RuleFor(code)
    case Some(rule) => Some(rule.category)
    case None => None
  }

  /** The category table is exactly the per-category code sets. */
  lemma CategoryTable(code: U32, t: DeviceType)
    ensures CategoryOf(code) == Some(t) <==> code in CodesOf(t)
  {
  }

  /** A code outside every category's set has no case, and conversely. */
  lemma UnrecognisedCodes(code: U32)
    ensures CategoryOf(code) == None <==> forall t: DeviceType :: code !in CodesOf(t)
  {
    if CategoryOf(code) != None {
      CategoryTable(code, CategoryOf(code).value);
    } else {
      forall t: DeviceType ensures code !in CodesOf(t) {
        CategoryTable(code, t);
      }
    }
  }

  /** Both substring rewrites of the table use separated pattern/replacement pairs. */
  lemma RewritesSeparated()
    ensures Separated("AddressableHeader", "ARGB Header")
    ensures Separated("Vga", "GPU")
  {
    assert "ARGB Header"[1] != "AddressableHeader"[1];
    assert "GPU"[0] != "Vga"[0];
  }

  /**
   The display name the switch leaves in `Name`: forced to "Motherboard",
   rewritten by substring replacement for LED strips and graphics cards, and
   otherwise the vendor name.
   */
  function DisplayName(name: string, code: U32): (r: string)
    ensures code == MotherboardCode ==> r == "Motherboard"
    ensures code == LedStripCode ==>
      !Contains(r, "AddressableHeader") && (r == name <==> !Contains(name, "AddressableHeader"))
    ensures code == VgaCode ==>
      !Contains(r, "Vga") && (r == name <==> !Contains(name, "Vga"))
    ensures code != MotherboardCode && code != LedStripCode && code != VgaCode ==> r == name
  {
    RewritesSeparated();
    ReplaceUnchangedIff(name, "AddressableHeader", "ARGB Header");
    ReplaceRemovesAll(name, "AddressableHeader", "ARGB Header");
    ReplaceUnchangedIff(name, "Vga", "GPU");
    ReplaceRemovesAll(name, "Vga", "GPU");
    match RuleFor(code)
    case Some(Rule(_, _, Force(fixed))) => fixed
    case Some(Rule(_, _, Replace(pat, rep))) => ReplaceAll(name, pat, rep)
    case _ => name
  }

  /**
   The two substring rewrites replace, not merely remove: the name up to the
   leftmost occurrence is kept, the occurrence becomes the replacement text,
   and the rest of the name is rewritten the same way.
   */
  lemma RewriteReplacesOccurrences(name: string, i: nat)
    ensures FirstOccurrence(name, "AddressableHeader", i) ==>
      DisplayName(name, LedStripCode) ==
        name[..i] + ("ARGB Header" + ReplaceAll(name[i + 17..], "AddressableHeader", "ARGB Header"))
    ensures FirstOccurrence(name, "Vga", i) ==>
      DisplayName(name, VgaCode) == name[..i] + ("GPU" + ReplaceAll(name[i + 3..], "Vga", "GPU"))
  {
    if FirstOccurrence(name, "AddressableHeader", i) {
      ReplaceAtFirst(name, "AddressableHeader", "ARGB Header", i);
    }
    if FirstOccurrence(name, "Vga", i) {
      ReplaceAtFirst(name, "Vga", "GPU", i);
    }
  }

  /**
   The LEDs of a device whose lights begin at index `first`: one per light,
   numbered consecutively, each carrying the light's name twice.
   */
  function ProjectLeds(lights: seq<Light>, first: nat): (r: seq<LedUnit>)
    ensures |r| == |lights|
    ensures forall i :: 0 <= i < |r| ==>
      && r[i].data.ledNumber == first + i
      && r[i].ledName == lights[i].name
      && r[i].data.asusLedName == lights[i].name
    decreases |lights|
  {
    if |lights| == 0 then []
    else
      [LedUnit(lights[0].name, AsusLedData(first, lights[0].name))] + ProjectLeds(lights[1..], first + 1)
  }

  /**
   The first index of the collection whose name is `name`, as LINQ's
   `Where(...).First()` finds it; `None` where `First` would throw.
   */
  function FirstByName(c: seq<VendorDevice>, name: string): (r: Option<nat>)
    ensures r.Some? ==> r.value < |c| && c[r.value].name == name
    ensures r.Some? ==> forall k :: 0 <= k < r.value ==> c[k].name != name
    ensures r.None? <==> forall k :: 0 <= k < |c| ==> c[k].name != name
  {
    if |c| == 0 then None
    else if c[0].name == name then Some(0)
    else
      match FirstByName(c[1..], name)
      case None => None
      case Some(j) => Some(j + 1)
  }

  /**
   The control device built for record `i` of collection `c`, or `None` if
   building it throws. Only the back-reference lookup could throw, and it
   never does, because record `i` itself matches its own name.
   */
  function ClassifyRecord(c: seq<VendorDevice>, i: nat): (r: Option<ControlDevice>)
    requires i < |c|
    ensures r.Some?
  {
    var d := c[i];
    match FirstByName(c, d.name)
    case None => None
    case Some(j) =>
      var rule := RuleFor(d.typeCode);
      Some(ControlDevice(
        name := DisplayName(d.name, d.typeCode),
        internalName := d.name,
        deviceType := CategoryOf(d.typeCode),
        image := if rule.Some? then rule.value.image else None,
        leds := ProjectLeds(d.lights, 0),
        vendor := j))
  }

  /**
   What the device built for record `i` holds: the original name as internal
   name, the table's category and display name, one LED per light numbered
   from zero, and a back-reference to the first record carrying the same name.
   */
  lemma ClassifiedDevice(c: seq<VendorDevice>, i: nat)
    requires i < |c|
    ensures var d := ClassifyRecord(c, i).value;
      && d.internalName == c[i].name
      && d.vendor <= i && c[d.vendor].name == c[i].name
      && (forall k :: 0 <= k < d.vendor ==> c[k].name != c[i].name)
      && |d.leds| == |c[i].lights|
      && (forall k :: 0 <= k < |d.leds| ==>
            d.leds[k].data.ledNumber == k && d.leds[k].ledName == c[i].lights[k].name)
      && d.deviceType == CategoryOf(c[i].typeCode)
      && d.name == DisplayName(c[i].name, c[i].typeCode)
  {
  }

  /**
   A type code the switch has no case for is not an error: the device is
   built with no category, the placeholder image and the vendor name.
   */
  lemma UnrecognisedCodeKept(c: seq<VendorDevice>, i: nat)
    requires i < |c|
    requires RuleFor(c[i].typeCode).None?
    ensures var d := ClassifyRecord(c, i).value;
            d.deviceType == None && d.image == None && d.name == c[i].name && d.internalName == c[i].name
  {
  }

  /**
   The outcome of the `try` block for record `i`: `None` when processing the
   record throws and the empty `catch` swallows it. `faults` holds the indices
   of the records whose processing throws for reasons outside this model.
   */
  function Attempt(c: seq<VendorDevice>, faults: set<nat>, i: nat): (r: Option<ControlDevice>)
    requires i < |c|
    ensures r.None? <==> i in faults
  {
    if i in faults then None else ClassifyRecord(c, i)
  }

  /** The per-record outcomes of one pass over the collection, in collection order. */
  function Attempts(c: seq<VendorDevice>, faults: set<nat>): (r: seq<Option<ControlDevice>>)
    ensures |r| == |c|
    ensures forall i :: 0 <= i < |c| ==> r[i] == Attempt(c, faults, i)
  {
    seq(|c|, i requires 0 <= i < |c| => Attempt(c, faults, i))
  }

  /**
   The values of the successful outcomes, in order: what `devices.Add`
   accumulates over the loop.
   */
  function Successes<T(==,!new)>(xs: seq<Option<T>>): (r: seq<T>)
    ensures |r| <= |xs|
    ensures (forall i :: 0 <= i < |xs| ==> xs[i].Some?) ==> |r| == |xs|
  {
    if |xs| == 0 then []
    else
      var rest := Successes(xs[1..]);
      match xs[0]
      case None => rest
      case Some(x) => [x] + rest
  }

  /** A value is collected exactly when it is the value of some successful outcome. */
  lemma {:induction false} SuccessesMembers<T(!new)>(xs: seq<Option<T>>)
    ensures forall x :: x in Successes(xs) <==> Some(x) in xs
  {
    if |xs| > 0 {
      SuccessesMembers(xs[1..]);
      assert xs == [xs[0]] + xs[1..];
    }
  }

  /** The positions of the successful outcomes, in increasing order. */
  ghost function SuccessIndices<T>(xs: seq<Option<T>>, from: nat): (r: seq<nat>)
    requires from <= |xs|
    ensures forall k :: k in r <==> from <= k < |xs| && xs[k].Some?
    decreases |xs| - from
  {
    if from == |xs| then []
    else (if xs[from].Some? then [from] else []) + SuccessIndices(xs, from + 1)
  }

  /** The positions of the successful outcomes are strictly increasing. */
  lemma {:induction false} SuccessIndicesIncrease<T>(xs: seq<Option<T>>, from: nat)
    requires from <= |xs|
    ensures forall p, q :: 0 <= p < q < |SuccessIndices(xs, from)| ==>
      SuccessIndices(xs, from)[p] < SuccessIndices(xs, from)[q]
    decreases |xs| - from
  {
    if from < |xs| {
      var rest := SuccessIndices(xs, from + 1);
      SuccessIndicesIncrease(xs, from + 1);
      forall q | 0 <= q < |rest| ensures from < rest[q] {
        assert rest[q] in rest;
      }
      var r := SuccessIndices(xs, from);
      var head := if xs[from].Some? then [from] else [];
      assert r == head + rest;
      forall p, q | 0 <= p < q < |r| ensures r[p] < r[q] {
        if p >= |head| {
          assert r[p] == rest[p - |head|] && r[q] == rest[q - |head|];
        } else {
          assert r[p] == from;
          assert r[q] == rest[q - 1] && from < rest[q - 1];
        }
      }
    }
  }

  lemma {:induction false} SuccessesFromInOrder<T(!new)>(xs: seq<Option<T>>, from: nat)
    requires from <= |xs|
    ensures var r := Successes(xs[from..]);
            var s := SuccessIndices(xs, from);
            |r| == |s| && forall k :: 0 <= k < |r| ==> s[k] < |xs| && xs[s[k]] == Some(r[k])
    decreases |xs| - from
  {
    if from < |xs| {
      SuccessesFromInOrder(xs, from + 1);
      assert xs[from..][1..] == xs[from + 1..];
      var rest := Successes(xs[from + 1..]);
      var tail := SuccessIndices(xs, from + 1);
      var r := Successes(xs[from..]);
      var s := SuccessIndices(xs, from);
      if xs[from].Some? {
        assert r == [xs[from].value] + rest;
        assert s == [from] + tail;
        forall k | 0 <= k < |r|
          ensures s[k] < |xs| && xs[s[k]] == Some(r[k])
        {
          if k > 0 {
            assert r[k] == rest[k - 1] && s[k] == tail[k - 1];
          }
        }
      } else {
        assert r == rest;
        assert s == tail;
      }
    }
  }

  /**
   The successes come out in order: the k-th value is the value of the k-th
   successful outcome.
   */
  lemma SuccessesInOrder<T(!new)>(xs: seq<Option<T>>)
    ensures var r := Successes(xs);
            var s := SuccessIndices(xs, 0);
            |r| == |s| && forall k :: 0 <= k < |r| ==> s[k] < |xs| && xs[s[k]] == Some(r[k])
  {
    SuccessesFromInOrder(xs, 0);
    assert xs[0..] == xs;
  }

  /** `GetDevices`: one control device per record whose processing did not throw. */
  function Discover(c: seq<VendorDevice>, faults: set<nat>): (r: seq<ControlDevice>)
    ensures |r| <= |c|
    ensures (forall k :: 0 <= k < |c| ==> k !in faults) ==> |r| == |c|
  {
    Successes(Attempts(c, faults))
  }

  /**
   Failure isolation: every record that does not throw contributes its
   device, and every device comes from a record that did not throw.
   */
  lemma DiscoverMembers(c: seq<VendorDevice>, faults: set<nat>)
    ensures forall k :: 0 <= k < |c| && k !in faults ==> ClassifyRecord(c, k).value in Discover(c, faults)
    ensures forall d :: d in Discover(c, faults) ==>
      exists k :: 0 <= k < |c| && k !in faults && ClassifyRecord(c, k) == Some(d)
  {
    var xs := Attempts(c, faults);
    SuccessesMembers(xs);
    forall k | 0 <= k < |c| && k !in faults
      ensures ClassifyRecord(c, k).value in Discover(c, faults)
    {
      assert Some(ClassifyRecord(c, k).value) == xs[k];
    }
    forall d | d in Discover(c, faults)
      ensures exists k :: 0 <= k < |c| && k !in faults && ClassifyRecord(c, k) == Some(d)
    {
      var k :| 0 <= k < |xs| && xs[k] == Some(d);
      assert Attempt(c, faults, k) == Some(d);
    }
  }

  /**
   Discovery keeps collection order: the k-th device is built from the k-th
   record, counting only records that did not throw.
   */
  lemma DiscoverInOrder(c: seq<VendorDevice>, faults: set<nat>)
    ensures var r := Discover(c, faults);
            var s := SuccessIndices(Attempts(c, faults), 0);
            && |r| == |s|
            && (forall k :: k in s <==> 0 <= k < |c| && k !in faults)
            && (forall p, q :: 0 <= p < q < |s| ==> s[p] < s[q])
            && forall k :: 0 <= k < |r| ==> s[k] < |c| && ClassifyRecord(c, s[k]) == Some(r[k])
  {
    SuccessesInOrder(Attempts(c, faults));
    SuccessIndicesIncrease(Attempts(c, faults), 0);
  }

  /** Two concrete renames, one per substring rewrite. */
  lemma RenameExamples()
    ensures DisplayName("AddressableHeader1", LedStripCode) == "ARGB Header1"
    ensures DisplayName("Vga", VgaCode) == "GPU"
    ensures DisplayName("DRAM", 0x0007_0000) == "DRAM"
  {
    var h := "AddressableHeader1";
    assert h[..17] == "AddressableHeader";
    assert h[17..] == "1";
    var v := "Vga";
    assert v[..3] == "Vga";
    assert v[3..] == "";
  }

  /**
   The back-reference points at the enumerated record itself exactly when no
   earlier record carries the same name.
   */
  lemma BackReferenceIsSelf(c: seq<VendorDevice>, i: nat)
    requires i < |c|
    ensures ClassifyRecord(c, i).value.vendor == i <==> forall k :: 0 <= k < i ==> c[k].name != c[i].name
  {
    ClassifiedDevice(c, i);
  }

}
