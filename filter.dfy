/**
 * usbredir filter rules: range checking of a rule list and the decision
 * whether a device (its class and the classes of its interfaces) may be
 * redirected, using the first rule that matches.
 */
module UsbFilter {
  import opened Bytes

  /** errno values (Linux numbering); the library returns them negated. */
  const EPERM := 1
  const ENOENT := 2
  const EINVAL := 22

  /** Flags of usbredirfilter_check. */
  const DefaultAllow: bv32 := 0x01
  const DontSkipNonBootHid: bv32 := 0x02

  /** struct usbredirfilter_rule: five C ints, -1 in the first four is a wildcard. */
  datatype Rule = Rule(deviceClass: int, vendorId: int, productId: int, versionBcd: int, allow: int)

  /** One interface of a device: its class, subclass and protocol bytes. */
  datatype Interface = Interface(cls: u8, subclass: u8, protocol: u8)

  predicate InRange(v: int, max: int)
  {
    -1 <= v <= max
  }

  predicate RuleValid(r: Rule)
  {
    InRange(r.deviceClass, 255) && InRange(r.vendorId, 65535) &&
    InRange(r.productId, 65535) && InRange(r.versionBcd, 65535)
  }

  predicate AllValid(rules: seq<Rule>)
  {
    forall i :: 0 <= i < |rules| ==> RuleValid(rules[i])
  }

  /** usbredirfilter_verify: scans the rules and fails at the first one out of range. */
  function Verify(rules: seq<Rule>): (rc: int)
    ensures rc == 0 || rc == -EINVAL
    ensures rc == 0 <==> AllValid(rules)
  {
    if |rules| == 0 then 0
    else if !RuleValid(rules[0]) then -EINVAL
    else Verify(rules[1..])
  }

  predicate FieldMatches(ruleValue: int, deviceValue: int)
  {
    ruleValue == -1 || ruleValue == deviceValue
  }

  predicate Matches(r: Rule, cls: u8, vendor: u16, product: u16, bcd: u16)
  {
    FieldMatches(r.deviceClass, cls) && FieldMatches(r.vendorId, vendor) &&
    FieldMatches(r.productId, product) && FieldMatches(r.versionBcd, bcd)
  }

  /** The verdict a matching rule gives. */
  function Verdict(r: Rule): int
  {
    if r.allow != 0 then 0 else -EPERM
  }

  /** The verdict when no rule matches. */
  function NoMatchVerdict(defaultAllow: bool): int
  {
    if defaultAllow then 0 else -ENOENT
  }

  /**
   * usbredirfilter_check1: the verdict of the first rule matching the class
   * and the ids, or the default verdict when none matches.
   */
  function Check1(rules: seq<Rule>, cls: u8, vendor: u16, product: u16, bcd: u16, defaultAllow: bool): (rc: int)
    ensures rc == 0 || rc == -EPERM || rc == -ENOENT
  {
    if |rules| == 0 then NoMatchVerdict(defaultAllow)
    else if Matches(rules[0], cls, vendor, product, bcd) then Verdict(rules[0])
    else Check1(rules[1..], cls, vendor, product, bcd, defaultAllow)
  }

  /** The first matching rule decides. */
  lemma {:induction false} Check1FirstMatch(rules: seq<Rule>, i: nat, cls: u8, vendor: u16, product: u16, bcd: u16,
                                            defaultAllow: bool)
    requires i < |rules| && Matches(rules[i], cls, vendor, product, bcd)
    requires forall j :: 0 <= j < i ==> !Matches(rules[j], cls, vendor, product, bcd)
    ensures Check1(rules, cls, vendor, product, bcd, defaultAllow) == Verdict(rules[i])
  {
    if i > 0 {
      assert !Matches(rules[0], cls, vendor, product, bcd);
      assert forall j :: 0 <= j < i - 1 ==> rules[1..][j] == rules[j + 1];
      Check1FirstMatch(rules[1..], i - 1, cls, vendor, product, bcd, defaultAllow);
    }
  }

  /** With no matching rule, the default-allow flag decides. */
  lemma {:induction false} Check1NoMatch(rules: seq<Rule>, cls: u8, vendor: u16, product: u16, bcd: u16,
                                         defaultAllow: bool)
    requires forall j :: 0 <= j < |rules| ==> !Matches(rules[j], cls, vendor, product, bcd)
    ensures Check1(rules, cls, vendor, product, bcd, defaultAllow) == NoMatchVerdict(defaultAllow)
  {
    if |rules| > 0 {
      assert !Matches(rules[0], cls, vendor, product, bcd);
      assert forall j :: 0 <= j < |rules| - 1 ==> rules[1..][j] == rules[j + 1];
      Check1NoMatch(rules[1..], cls, vendor, product, bcd, defaultAllow);
    }
  }

  /**
   * An interface the check skips: a HID interface that is not a boot device,
   * on a device with more than one interface, unless the flags forbid skipping.
   */
  predicate Skipped(ifaces: seq<Interface>, i: int, flags: bv32)
    requires 0 <= i < |ifaces|
  {
    flags & DontSkipNonBootHid == 0 && |ifaces| > 1 &&
    ifaces[i].cls == 0x03 && ifaces[i].subclass == 0x00 && ifaces[i].protocol == 0x00
  }

  /** An interface whose class passes the rules (under the default-allow flag). */
  predicate InterfaceAllowed(rules: seq<Rule>, ifaces: seq<Interface>, i: int, vendor: u16, product: u16, bcd: u16, flags: bv32)
    requires 0 <= i < |ifaces|
  {
    Check1(rules, ifaces[i].cls, vendor, product, bcd, flags & DefaultAllow != 0) == 0
  }

  /**
   * The interface loop of usbredirfilter_check from interface i on: the first
   * non-zero verdict of a checked interface (0 if none), and how many
   * interfaces were skipped.
   */
  function InterfacePass(rules: seq<Rule>, ifaces: seq<Interface>, i: nat, vendor: u16, product: u16, bcd: u16, flags: bv32): (res: (int, nat))
    requires i <= |ifaces|
    ensures res.0 == 0 || res.0 == -EPERM || res.0 == -ENOENT
    ensures res.1 <= |ifaces| - i
    ensures flags & DontSkipNonBootHid != 0 ==> res.1 == 0
    decreases |ifaces| - i
  {
    if i == |ifaces| then (0, 0)
    else if Skipped(ifaces, i, flags) then
      var (rc, n) := InterfacePass(rules, ifaces, i + 1, vendor, product, bcd, flags);
      (rc, n + 1)
    else
      var rc := Check1(rules, ifaces[i].cls, vendor, product, bcd, flags & DefaultAllow != 0);
      if rc != 0 then (rc, 0)
      else InterfacePass(rules, ifaces, i + 1, vendor, product, bcd, flags)
  }

  /**
   * The interface loop passes exactly when every interface it does not skip
   * passes; when it passes, it skipped all of them exactly when each is a
   * skippable one.
   */
  lemma {:induction false} InterfacePassVerdict(rules: seq<Rule>, ifaces: seq<Interface>, i: nat,
                                                vendor: u16, product: u16, bcd: u16, flags: bv32)
    requires i <= |ifaces|
    ensures InterfacePass(rules, ifaces, i, vendor, product, bcd, flags).0 == 0 <==>
              forall j :: i <= j < |ifaces| && !Skipped(ifaces, j, flags) ==>
                InterfaceAllowed(rules, ifaces, j, vendor, product, bcd, flags)
    ensures InterfacePass(rules, ifaces, i, vendor, product, bcd, flags).0 == 0 ==>
              (InterfacePass(rules, ifaces, i, vendor, product, bcd, flags).1 == |ifaces| - i <==>
               forall j :: i <= j < |ifaces| ==> Skipped(ifaces, j, flags))
    decreases |ifaces| - i
  {
    if i < |ifaces| {
      InterfacePassVerdict(rules, ifaces, i + 1, vendor, product, bcd, flags);
    }
  }

  /** A failing interface loop reports the verdict of the first checked interface that fails. */
  lemma {:induction false} InterfacePassFirstFailure(rules: seq<Rule>, ifaces: seq<Interface>, i: nat,
                                                     vendor: u16, product: u16, bcd: u16, flags: bv32)
    requires i <= |ifaces|
    requires InterfacePass(rules, ifaces, i, vendor, product, bcd, flags).0 != 0
    ensures exists j :: i <= j < |ifaces| && !Skipped(ifaces, j, flags) &&
              Check1(rules, ifaces[j].cls, vendor, product, bcd, flags & DefaultAllow != 0) ==
                InterfacePass(rules, ifaces, i, vendor, product, bcd, flags).0 &&
              forall k :: i <= k < j && !Skipped(ifaces, k, flags) ==>
                InterfaceAllowed(rules, ifaces, k, vendor, product, bcd, flags)
    decreases |ifaces| - i
  {
    var rc := InterfacePass(rules, ifaces, i, vendor, product, bcd, flags).0;
    if Skipped(ifaces, i, flags) || InterfaceAllowed(rules, ifaces, i, vendor, product, bcd, flags) {
      InterfacePassFirstFailure(rules, ifaces, i + 1, vendor, product, bcd, flags);
      var j :| i + 1 <= j < |ifaces| && !Skipped(ifaces, j, flags) &&
                Check1(rules, ifaces[j].cls, vendor, product, bcd, flags & DefaultAllow != 0) == rc &&
                forall k :: i + 1 <= k < j && !Skipped(ifaces, k, flags) ==>
                  InterfaceAllowed(rules, ifaces, k, vendor, product, bcd, flags);
      assert i <= j < |ifaces| && !Skipped(ifaces, j, flags);
    } else {
      assert !Skipped(ifaces, i, flags);
    }
  }

  /** Device classes that say "look at the interfaces": 0x00 and 0xef (miscellaneous). */
  predicate DeviceClassChecked(cls: u8)
  {
    cls != 0x00 && cls != 0xef
  }

  /** Every interface would be skipped: the case in which the check is repeated without skipping. */
  predicate AllSkipped(ifaces: seq<Interface>, flags: bv32)
  {
    |ifaces| > 0 && forall j :: 0 <= j < |ifaces| ==> Skipped(ifaces, j, flags)
  }

  /**
   * usbredirfilter_check. The device subclass and protocol are parameters of
   * the C function but take no part in the decision.
   */
  function Check(rules: seq<Rule>, deviceClass: u8, ifaces: seq<Interface>,
                 vendor: u16, product: u16, bcd: u16, flags: bv32): (rc: int)
    ensures rc == -EINVAL <==> !AllValid(rules)
    ensures rc == 0 || rc == -EPERM || rc == -ENOENT || rc == -EINVAL
    decreases if flags & DontSkipNonBootHid != 0 then 0 else 1
  {
    if Verify(rules) != 0 then -EINVAL
    else
      var devRc := if DeviceClassChecked(deviceClass)
                   then Check1(rules, deviceClass, vendor, product, bcd, flags & DefaultAllow != 0)
                   else 0;
      if devRc != 0 then devRc
      else
        var (ifRc, skipped) := InterfacePass(rules, ifaces, 0, vendor, product, bcd, flags);
        if ifRc != 0 then ifRc
        else if |ifaces| > 0 && skipped == |ifaces| then
          Check(rules, deviceClass, ifaces, vendor, product, bcd, flags | DontSkipNonBootHid)
        else 0
  }

  /** The flags in force once the all-skipped re-check has been made. */
  function EffectiveFlags(ifaces: seq<Interface>, flags: bv32): bv32
  {
    if AllSkipped(ifaces, flags) then flags | DontSkipNonBootHid else flags
  }

  lemma SetFlagNoSkip(ifaces: seq<Interface>, flags: bv32)
    ensures (flags | DontSkipNonBootHid) & DontSkipNonBootHid != 0
    ensures (flags | DontSkipNonBootHid) & DefaultAllow == flags & DefaultAllow
    ensures !AllSkipped(ifaces, flags | DontSkipNonBootHid)
  {
    if |ifaces| > 0 {
      assert !Skipped(ifaces, 0, flags | DontSkipNonBootHid);
    }
  }

  /**
   * The device is allowed exactly when the rules are valid, the device class
   * (unless it is 0x00 or 0xef) passes, and every interface not skipped under
   * the effective flags passes; the default-allow flag is the same in both
   * passes.
   */
  lemma CheckAllowsIff(rules: seq<Rule>, deviceClass: u8, ifaces: seq<Interface>,
                        vendor: u16, product: u16, bcd: u16, flags: bv32)
    ensures Check(rules, deviceClass, ifaces, vendor, product, bcd, flags) == 0 <==>
              AllValid(rules) &&
              (DeviceClassChecked(deviceClass) ==>
                 Check1(rules, deviceClass, vendor, product, bcd, flags & DefaultAllow != 0) == 0) &&
              (forall j :: 0 <= j < |ifaces| && !Skipped(ifaces, j, EffectiveFlags(ifaces, flags)) ==>
                 InterfaceAllowed(rules, ifaces, j, vendor, product, bcd, flags))
  {
    var f2 := flags | DontSkipNonBootHid;
    SetFlagNoSkip(ifaces, flags);
    InterfacePassVerdict(rules, ifaces, 0, vendor, product, bcd, flags);
    InterfacePassVerdict(rules, ifaces, 0, vendor, product, bcd, f2);
    var pass := InterfacePass(rules, ifaces, 0, vendor, product, bcd, flags);
    if AllSkipped(ifaces, flags) {
      assert pass.0 == 0;
      assert pass.1 == |ifaces|;
      assert forall j :: 0 <= j < |ifaces| ==> !Skipped(ifaces, j, f2);
      assert forall j :: 0 <= j < |ifaces| ==>
        InterfaceAllowed(rules, ifaces, j, vendor, product, bcd, f2) ==
        InterfaceAllowed(rules, ifaces, j, vendor, product, bcd, flags);
      assert InterfacePass(rules, ifaces, 0, vendor, product, bcd, f2).1 == 0;
    } else {
      assert EffectiveFlags(ifaces, flags) == flags;
      assert pass.0 == 0 ==> !(|ifaces| > 0 && pass.1 == |ifaces|);
    }
  }

  /**
   * With every interface skipped, the interfaces are checked after all,
   * whatever the device class: a lone non-boot HID device is not waved
   * through.
   */
  lemma {:induction false} AllSkippedRechecks(rules: seq<Rule>, deviceClass: u8, ifaces: seq<Interface>,
                                              vendor: u16, product: u16, bcd: u16, flags: bv32)
    requires AllValid(rules) && AllSkipped(ifaces, flags)
    ensures Check(rules, deviceClass, ifaces, vendor, product, bcd, flags) ==
            Check(rules, deviceClass, ifaces, vendor, product, bcd, flags | DontSkipNonBootHid)
  {
    InterfacePassVerdict(rules, ifaces, 0, vendor, product, bcd, flags);
  }
}
