/** The capability scan (lib/kvminfocaps.c). The device is a parameter: the descriptor that opening it
    gives, its list of MSRs if there is one, its answer for each extension and the result of closing it. */
module Capabilities {
  import opened Text

  datatype Device = Device(fd: int, msrList: Option<seq<nat>>, extension: nat -> int, closing: int)

  // ---- MSR flags ----

  const MSR_CRASH := 1
  const MSR_RESET := 2
  const MSR_VPINDEX := 3
  const MSR_RUNTIME := 4
  const MSR_SYNIC := 5
  const MSR_STIMER := 6
  const MSR_FREQUENCIES := 7
  const MSR_REENLIGHTENMENT := 8
  const MSR_NUM := 9

  /** The flag that an MSR sets; 0 for the other MSRs. */
  function FlagOf(msr: nat): (k: nat)
    ensures k < MSR_NUM
  {
    if msr == 0x4000_0105 then MSR_CRASH
    else if msr == 0x4000_0003 then MSR_RESET
    else if msr == 0x4000_0002 then MSR_VPINDEX
    else if msr == 0x4000_0010 then MSR_RUNTIME
    else if msr == 0x4000_0080 then MSR_SYNIC
    else if msr == 0x4000_00B0 then MSR_STIMER
    else if msr == 0x4000_0022 then MSR_FREQUENCIES
    else if msr == 0x4000_0106 then MSR_REENLIGHTENMENT
    else 0
  }

  /** Some MSR of the list sets the flag k. */
  ghost predicate Sets(msrs: seq<nat>, k: nat) {
    exists i :: 0 <= i < |msrs| && FlagOf(msrs[i]) == k
  }

  // ---- the table ----

  datatype CapDesc = CapDesc(needExtension: bool, ext: nat, needMsr: bool, msr: nat, name: string)

  function Ext(ext: nat, name: string): CapDesc {
    CapDesc(true, ext, false, 0, name)
  }

  function Msr(msr: nat, name: string): CapDesc {
    CapDesc(false, 0, true, msr, name)
  }

  const NO_CAP := CapDesc(false, 0, false, 0, "")

  const CAPS_MAX := 16

  const ALL_CAPS: seq<CapDesc> := [
    Ext(44, "base"), Ext(96, "time"), CapDesc(true, 149, true, MSR_VPINDEX, "vpindex"),
    Ext(155, "tlbflush"), Ext(161, "ipi"),
    CapDesc(true, 123, true, MSR_SYNIC, "synic"), CapDesc(true, 148, true, MSR_SYNIC, "synic2"),
    Msr(MSR_FREQUENCIES, "frequencies"), Msr(MSR_RESET, "reset"), Msr(MSR_RUNTIME, "runtime"),
    Msr(MSR_STIMER, "synictimer"), Msr(MSR_REENLIGHTENMENT, "reenlightenment"),
    NO_CAP, NO_CAP, NO_CAP, NO_CAP
  ]

  const ENTRIES := 12

  predicate IsEntry(c: CapDesc) {
    c.needMsr || c.needExtension
  }

  lemma TableShape()
    ensures |ALL_CAPS| == CAPS_MAX
    ensures forall i :: 0 <= i < ENTRIES ==>
              IsEntry(ALL_CAPS[i]) && (ALL_CAPS[i].needMsr ==> 0 < ALL_CAPS[i].msr < MSR_NUM)
    ensures !IsEntry(ALL_CAPS[ENTRIES])
  {
  }

  // ---- what a scan should report ----

  const SHOW_FEATURES := 0
  const SHOW_MISSING := 1

  /** A feature: each needed MSR is in the list and each needed extension is there. */
  ghost predicate Enabled(msrs: seq<nat>, extension: nat -> int, c: CapDesc) {
    && (c.needMsr ==> Sets(msrs, c.msr))
    && (c.needExtension ==> extension(c.ext) != 0)
  }

  ghost predicate Wanted(msrs: seq<nat>, extension: nat -> int, mode: int, c: CapDesc) {
    || (mode == SHOW_FEATURES && Enabled(msrs, extension, c))
    || (mode == SHOW_MISSING && !Enabled(msrs, extension, c))
  }

  ghost predicate WantedAt(msrs: seq<nat>, extension: nat -> int, mode: int, i: nat)
    requires i < ENTRIES
  {
    Wanted(msrs, extension, mode, ALL_CAPS[i])
  }

  function Label(c: CapDesc, mode: int): string {
    "/kvm-info-cap-hyperv-" + c.name + (if mode == SHOW_MISSING then "=false" else "") + "\n"
  }

  /** The table entries up to n that a scan in this mode reports, in table order. */
  ghost function Reported(msrs: seq<nat>, extension: nat -> int, mode: int, n: nat): (r: seq<nat>)
    requires n <= ENTRIES
    ensures forall i :: 0 <= i < |r| ==> r[i] < n
  {
    if n == 0 then []
    else Reported(msrs, extension, mode, n - 1) + if WantedAt(msrs, extension, mode, n - 1) then [n - 1] else []
  }

  function Labels(entries: seq<nat>, mode: int): (r: seq<string>)
    requires forall i :: 0 <= i < |entries| ==> entries[i] < ENTRIES
  {
    if entries == [] then []
    else Labels(entries[..|entries| - 1], mode) + [Label(ALL_CAPS[entries[|entries| - 1]], mode)]
  }

  // ---- KVMState ----

  class KVMState {
    var fd: int
    var msrs: array<int>

    constructor ()
      ensures fd == -1 && fresh(msrs) && msrs.Length == MSR_NUM && forall k :: 0 <= k < MSR_NUM ==> msrs[k] == 0
    {
      fd := -1;
      msrs := new int[MSR_NUM](_ => 0);
    }

    /** KVMGetSupportedMSRs: 0, or -1 when there is no list. */
    method GetSupportedMSRs(dev: Device) returns (ret: int)
      requires msrs.Length == MSR_NUM
      modifies msrs
      ensures ret == (if dev.msrList.Some? then 0 else -1)
      ensures ret == 0 ==> forall k :: 0 < k < MSR_NUM ==>
              msrs[k] == if Sets(dev.msrList.value, k) then 1 else old(msrs[k])
      ensures ret == 0 ==>
                && msrs[1] == (if 0x4000_0105 in dev.msrList.value then 1 else old(msrs[1]))
                && msrs[2] == (if 0x4000_0003 in dev.msrList.value then 1 else old(msrs[2]))
                && msrs[3] == (if 0x4000_0002 in dev.msrList.value then 1 else old(msrs[3]))
                && msrs[4] == (if 0x4000_0010 in dev.msrList.value then 1 else old(msrs[4]))
                && msrs[5] == (if 0x4000_0080 in dev.msrList.value then 1 else old(msrs[5]))
                && msrs[6] == (if 0x4000_00B0 in dev.msrList.value then 1 else old(msrs[6]))
                && msrs[7] == (if 0x4000_0022 in dev.msrList.value then 1 else old(msrs[7]))
                && msrs[8] == (if 0x4000_0106 in dev.msrList.value then 1 else old(msrs[8]))
      ensures ret != 0 ==> msrs[..] == old(msrs[..])
    {
      if dev.msrList.None? { return -1; }
      var list := dev.msrList.value;
      var i := 0;
      while i < |list|
        invariant i <= |list|
        invariant forall k :: 0 < k < MSR_NUM ==> msrs[k] == if Sets(list[..i], k) then 1 else old(msrs[k])
      {
        var f := FlagOf(list[i]);
        SetsSnoc(list, i);
        if f != 0 { msrs[f] := 1; }
        i := i + 1;
      }
      assert list[..i] == list;
      FlagNumbers(list);
      return 0;
    }

    /** KVMStateOpen */
    method Open(dev: Device) returns (err: int)
      requires msrs.Length == MSR_NUM
      modifies this`fd, msrs
      ensures fd == dev.fd
      ensures err == (if dev.fd < 0 || dev.msrList.None? then -1 else 0)
      ensures err == 0 ==> forall k :: 0 < k < MSR_NUM ==>
              msrs[k] == if Sets(dev.msrList.value, k) then 1 else old(msrs[k])
    {
      fd := dev.fd;
      if fd < 0 { return -1; }
      err := GetSupportedMSRs(dev);
    }

    /** KVMStateClose: a second call after a successful one does nothing. */
    method Close(dev: Device) returns (err: int)
      modifies this`fd
      ensures err == if old(fd) != -1 then dev.closing else 0
      ensures fd == if err == 0 then -1 else old(fd)
    {
      err := 0;
      if fd != -1 {
        err := dev.closing;
        if err == 0 { fd := -1; }
      }
    }

    /** KVMStateHasEnabledMSR: the index just past the flags passes the source's test; None stands for the
        read outside the array that follows. */
    method HasEnabledMSR(msr: nat) returns (r: Option<int>)
      requires msrs.Length == MSR_NUM
      ensures r == if msr < MSR_NUM then Some(msrs[msr]) else if msr == MSR_NUM then None else Some(0)
    {
      if msr > MSR_NUM { return Some(0); }
      if msr == MSR_NUM { return None; }
      r := Some(msrs[msr]);
    }
  }

  lemma SetsSnoc(list: seq<nat>, i: nat)
    requires i < |list|
    ensures forall k :: Sets(list[..i + 1], k) <==> Sets(list[..i], k) || FlagOf(list[i]) == k
  {
    forall k ensures Sets(list[..i + 1], k) <==> Sets(list[..i], k) || FlagOf(list[i]) == k {
      if Sets(list[..i], k) {
        var j :| 0 <= j < i && FlagOf(list[..i][j]) == k;
        assert list[..i + 1][j] == list[..i][j];
      }
      if FlagOf(list[i]) == k { assert list[..i + 1][i] == list[i]; }
      if Sets(list[..i + 1], k) {
        var j :| 0 <= j < i + 1 && FlagOf(list[..i + 1][j]) == k;
        if j < i { assert list[..i][j] == list[..i + 1][j]; }
      }
    }
  }

  /** must_emit_label */
  function MustEmitLabel(enabled: bool, mode: int): bool {
    if mode == SHOW_FEATURES then enabled else if mode == SHOW_MISSING then !enabled else false
  }

  /** One entry of the table: whether its needs are met. */
  method EntryEnabled(s: KVMState, dev: Device, cap: CapDesc) returns (r: bool)
    requires s.msrs.Length == MSR_NUM && (cap.needMsr ==> 0 < cap.msr < MSR_NUM) && dev.msrList.Some?
    requires forall k :: 0 < k < MSR_NUM ==> s.msrs[k] == if Sets(dev.msrList.value, k) then 1 else 0
    ensures r == Enabled(dev.msrList.value, dev.extension, cap)
  {
    var msrOk, extOk := 1, 1;
    if cap.needMsr {
      var flag := s.HasEnabledMSR(cap.msr);
      msrOk := flag.value;
    }
    if cap.needExtension { extOk := dev.extension(cap.ext); }
    r := msrOk != 0 && extOk != 0;
  }

  lemma OneMore(msrs: seq<nat>, extension: nat -> int, mode: int, ix: nat)
    requires ix < ENTRIES
    ensures Labels(Reported(msrs, extension, mode, ix + 1), mode) ==
            Labels(Reported(msrs, extension, mode, ix), mode)
            + if WantedAt(msrs, extension, mode, ix) then [Label(ALL_CAPS[ix], mode)] else []
  {
    hide WantedAt, Label;
    var before := Reported(msrs, extension, mode, ix);
    assert (before + [ix])[..|before|] == before;
    assert before + [] == before;
  }

  lemma NothingYet(dev: Device, mode: int)
    ensures dev.msrList.Some? ==> Labels(Reported(dev.msrList.value, dev.extension, mode, 0), mode) == []
  {
  }

  // ---- label by label ----

  /** When the i-th capability is there: which extension it takes, and which MSR. */
  ghost predicate Needs(msrs: seq<nat>, extension: nat -> int, i: nat)
    requires i < 12
  {
    match i
    case 0 => extension(44) != 0
    case 1 => extension(96) != 0
    case 2 => extension(149) != 0 && 0x4000_0002 in msrs
    case 3 => extension(155) != 0
    case 4 => extension(161) != 0
    case 5 => extension(123) != 0 && 0x4000_0080 in msrs
    case 6 => extension(148) != 0 && 0x4000_0080 in msrs
    case 7 => 0x4000_0022 in msrs
    case 8 => 0x4000_0003 in msrs
    case 9 => 0x4000_0010 in msrs
    case 10 => 0x4000_00B0 in msrs
    case 11 => 0x4000_0106 in msrs
  }

  function Name(i: nat): string
    requires i < 12
  {
    match i
    case 0 => "base"
    case 1 => "time"
    case 2 => "vpindex"
    case 3 => "tlbflush"
    case 4 => "ipi"
    case 5 => "synic"
    case 6 => "synic2"
    case 7 => "frequencies"
    case 8 => "reset"
    case 9 => "runtime"
    case 10 => "synictimer"
    case 11 => "reenlightenment"
  }

  /** The label of a capability that is there, or that is missing. */
  function LabelText(name: string, missing: bool): string {
    "/kvm-info-cap-hyperv-" + name + (if missing then "=false" else "") + "\n"
  }

  /** What a scan emits for the first n capabilities: one label for each that is there, or that is missing. */
  ghost function Expected(msrs: seq<nat>, extension: nat -> int, missing: bool, n: nat): seq<string>
    requires n <= 12
  {
    if n == 0 then []
    else
      Expected(msrs, extension, missing, n - 1)
      + if Needs(msrs, extension, n - 1) != missing then [LabelText(Name(n - 1), missing)] else []
  }

  /** The same, label by label. */
  ghost predicate Says(out: seq<string>, msrs: seq<nat>, extension: nat -> int, missing: bool) {
    && (LabelText("base", missing) in out <==> (extension(44) != 0) != missing)
    && (LabelText("time", missing) in out <==> (extension(96) != 0) != missing)
    && (LabelText("vpindex", missing) in out <==> (extension(149) != 0 && 0x4000_0002 in msrs) != missing)
    && (LabelText("tlbflush", missing) in out <==> (extension(155) != 0) != missing)
    && (LabelText("ipi", missing) in out <==> (extension(161) != 0) != missing)
    && (LabelText("synic", missing) in out <==> (extension(123) != 0 && 0x4000_0080 in msrs) != missing)
    && (LabelText("synic2", missing) in out <==> (extension(148) != 0 && 0x4000_0080 in msrs) != missing)
    && (LabelText("frequencies", missing) in out <==> (0x4000_0022 in msrs) != missing)
    && (LabelText("reset", missing) in out <==> (0x4000_0003 in msrs) != missing)
    && (LabelText("runtime", missing) in out <==> (0x4000_0010 in msrs) != missing)
    && (LabelText("synictimer", missing) in out <==> (0x4000_00B0 in msrs) != missing)
    && (LabelText("reenlightenment", missing) in out <==> (0x4000_0106 in msrs) != missing)
  }

  /** Which MSR sets which flag. */
  lemma FlagNumbers(msrs: seq<nat>)
    ensures Sets(msrs, MSR_VPINDEX) <==> 0x4000_0002 in msrs
    ensures Sets(msrs, MSR_RESET) <==> 0x4000_0003 in msrs
    ensures Sets(msrs, MSR_RUNTIME) <==> 0x4000_0010 in msrs
    ensures Sets(msrs, MSR_FREQUENCIES) <==> 0x4000_0022 in msrs
    ensures Sets(msrs, MSR_SYNIC) <==> 0x4000_0080 in msrs
    ensures Sets(msrs, MSR_STIMER) <==> 0x4000_00B0 in msrs
    ensures Sets(msrs, MSR_CRASH) <==> 0x4000_0105 in msrs
    ensures Sets(msrs, MSR_REENLIGHTENMENT) <==> 0x4000_0106 in msrs
  {
    SetsNumber(msrs, 0x4000_0002);
    SetsNumber(msrs, 0x4000_0003);
    SetsNumber(msrs, 0x4000_0010);
    SetsNumber(msrs, 0x4000_0022);
    SetsNumber(msrs, 0x4000_0080);
    SetsNumber(msrs, 0x4000_00B0);
    SetsNumber(msrs, 0x4000_0105);
    SetsNumber(msrs, 0x4000_0106);
  }

  lemma SetsNumber(msrs: seq<nat>, msr: nat)
    requires FlagOf(msr) != 0
    ensures Sets(msrs, FlagOf(msr)) <==> msr in msrs
  {
    if msr in msrs { var i :| 0 <= i < |msrs| && msrs[i] == msr; }
    if Sets(msrs, FlagOf(msr)) {
      var i :| 0 <= i < |msrs| && FlagOf(msrs[i]) == FlagOf(msr);
      assert msrs[i] == msr;
    }
  }

  lemma Entry0(msrs: seq<nat>, extension: nat -> int)
    ensures Enabled(msrs, extension, ALL_CAPS[0]) <==> extension(44) != 0
    ensures ALL_CAPS[0].name == "base"
  {
    FlagNumbers(msrs);
  }

  lemma Entry1(msrs: seq<nat>, extension: nat -> int)
    ensures Enabled(msrs, extension, ALL_CAPS[1]) <==> extension(96) != 0
    ensures ALL_CAPS[1].name == "time"
  {
    FlagNumbers(msrs);
  }

  lemma Entry2(msrs: seq<nat>, extension: nat -> int)
    ensures Enabled(msrs, extension, ALL_CAPS[2]) <==> extension(149) != 0 && 0x4000_0002 in msrs
    ensures ALL_CAPS[2].name == "vpindex"
  {
    FlagNumbers(msrs);
  }

  lemma Entry3(msrs: seq<nat>, extension: nat -> int)
    ensures Enabled(msrs, extension, ALL_CAPS[3]) <==> extension(155) != 0
    ensures ALL_CAPS[3].name == "tlbflush"
  {
    FlagNumbers(msrs);
  }

  lemma Entry4(msrs: seq<nat>, extension: nat -> int)
    ensures Enabled(msrs, extension, ALL_CAPS[4]) <==> extension(161) != 0
    ensures ALL_CAPS[4].name == "ipi"
  {
    FlagNumbers(msrs);
  }

  lemma Entry5(msrs: seq<nat>, extension: nat -> int)
    ensures Enabled(msrs, extension, ALL_CAPS[5]) <==> extension(123) != 0 && 0x4000_0080 in msrs
    ensures ALL_CAPS[5].name == "synic"
  {
    FlagNumbers(msrs);
  }

  lemma Entry6(msrs: seq<nat>, extension: nat -> int)
    ensures Enabled(msrs, extension, ALL_CAPS[6]) <==> extension(148) != 0 && 0x4000_0080 in msrs
    ensures ALL_CAPS[6].name == "synic2"
  {
    FlagNumbers(msrs);
  }

  lemma Entry7(msrs: seq<nat>, extension: nat -> int)
    ensures Enabled(msrs, extension, ALL_CAPS[7]) <==> 0x4000_0022 in msrs
    ensures ALL_CAPS[7].name == "frequencies"
  {
    FlagNumbers(msrs);
  }

  lemma Entry8(msrs: seq<nat>, extension: nat -> int)
    ensures Enabled(msrs, extension, ALL_CAPS[8]) <==> 0x4000_0003 in msrs
    ensures ALL_CAPS[8].name == "reset"
  {
    FlagNumbers(msrs);
  }

  lemma Entry9(msrs: seq<nat>, extension: nat -> int)
    ensures Enabled(msrs, extension, ALL_CAPS[9]) <==> 0x4000_0010 in msrs
    ensures ALL_CAPS[9].name == "runtime"
  {
    FlagNumbers(msrs);
  }

  lemma Entry10(msrs: seq<nat>, extension: nat -> int)
    ensures Enabled(msrs, extension, ALL_CAPS[10]) <==> 0x4000_00B0 in msrs
    ensures ALL_CAPS[10].name == "synictimer"
  {
    FlagNumbers(msrs);
  }

  lemma Entry11(msrs: seq<nat>, extension: nat -> int)
    ensures Enabled(msrs, extension, ALL_CAPS[11]) <==> 0x4000_0106 in msrs
    ensures ALL_CAPS[11].name == "reenlightenment"
  {
    FlagNumbers(msrs);
  }

  lemma EntryIs(msrs: seq<nat>, extension: nat -> int, i: nat)
    requires i < 12
    ensures Enabled(msrs, extension, ALL_CAPS[i]) <==> Needs(msrs, extension, i)
    ensures ALL_CAPS[i].name == Name(i)
  {
    hide Enabled;
    match i
    case 0 => Entry0(msrs, extension);
    case 1 => Entry1(msrs, extension);
    case 2 => Entry2(msrs, extension);
    case 3 => Entry3(msrs, extension);
    case 4 => Entry4(msrs, extension);
    case 5 => Entry5(msrs, extension);
    case 6 => Entry6(msrs, extension);
    case 7 => Entry7(msrs, extension);
    case 8 => Entry8(msrs, extension);
    case 9 => Entry9(msrs, extension);
    case 10 => Entry10(msrs, extension);
    case 11 => Entry11(msrs, extension);
  }

  lemma {:induction false} ScanIsExpected(msrs: seq<nat>, extension: nat -> int, missing: bool, n: nat)
    requires n <= 12
    ensures var mode := if missing then 1 else 0;
            Labels(Reported(msrs, extension, mode, n), mode) == Expected(msrs, extension, missing, n)
  {
    hide Enabled, Name, Needs;
    if n == 0 {
    } else {
      ScanIsExpected(msrs, extension, missing, n - 1);
      OneMore(msrs, extension, if missing then 1 else 0, n - 1);
      EntryIs(msrs, extension, n - 1);
    }
  }

  lemma {:induction false} NothingInOtherModes(msrs: seq<nat>, extension: nat -> int, mode: int, n: nat)
    requires n <= 12 && mode != 0 && mode != 1
    ensures Labels(Reported(msrs, extension, mode, n), mode) == []
  {
    if n == 0 {
    } else {
      NothingInOtherModes(msrs, extension, mode, n - 1);
      OneMore(msrs, extension, mode, n - 1);
    }
  }

  /** The name of a capability tells which one it is. */
  function PlaceOf(name: string): nat {
    match |name|
    case 3 => 4
    case 4 => if name[0] == 'b' then 0 else 1
    case 5 => if name[0] == 's' then 5 else 8
    case 6 => 6
    case 7 => if name[0] == 'v' then 2 else 9
    case 8 => 3
    case 10 => 10
    case 11 => 7
    case _ => 11
  }

  lemma PlaceOfName(i: nat)
    requires i < 12
    ensures PlaceOf(Name(i)) == i
  {
  }

  lemma LabelsDiffer(i: nat, j: nat, missing: bool)
    requires i < 12 && j < 12 && LabelText(Name(i), missing) == LabelText(Name(j), missing)
    ensures i == j
  {
    hide Name;
    var a, b := LabelText(Name(i), missing), LabelText(Name(j), missing);
    assert a[21..21 + |Name(i)|] == Name(i) && b[21..21 + |Name(j)|] == Name(j);
    PlaceOfName(i);
    PlaceOfName(j);
  }

  lemma {:induction false} InExpected(msrs: seq<nat>, extension: nat -> int, missing: bool, i: nat, n: nat)
    requires i < 12 && n <= 12
    ensures LabelText(Name(i), missing) in Expected(msrs, extension, missing, n) <==>
            i < n && Needs(msrs, extension, i) != missing
  {
    hide Name, Needs, LabelText;
    if n == 0 {
    } else {
      InExpected(msrs, extension, missing, i, n - 1);
      if LabelText(Name(i), missing) == LabelText(Name(n - 1), missing) { LabelsDiffer(i, n - 1, missing); }
    }
  }

  lemma ExpectedSays(msrs: seq<nat>, extension: nat -> int, missing: bool)
    ensures Says(Expected(msrs, extension, missing, 12), msrs, extension, missing)
  {
    hide Expected, LabelText;
    InExpected(msrs, extension, missing, 0, 12);
    InExpected(msrs, extension, missing, 1, 12);
    InExpected(msrs, extension, missing, 2, 12);
    InExpected(msrs, extension, missing, 3, 12);
    InExpected(msrs, extension, missing, 4, 12);
    InExpected(msrs, extension, missing, 5, 12);
    InExpected(msrs, extension, missing, 6, 12);
    InExpected(msrs, extension, missing, 7, 12);
    InExpected(msrs, extension, missing, 8, 12);
    InExpected(msrs, extension, missing, 9, 12);
    InExpected(msrs, extension, missing, 10, 12);
    InExpected(msrs, extension, missing, 11, 12);
  }

  /** KVMStateScan: what is emitted, and the descriptor that is left. Nothing is emitted when opening fails; a
      device that opens and gives no list stays open, and so does one that cannot be closed. */
  method KVMStateScan(dev: Device, mode: int) returns (out: seq<string>, fd: int)
    ensures dev.fd < 0 || dev.msrList.None? ==> out == []
    ensures dev.fd >= 0 && dev.msrList.Some? ==>
              out == Labels(Reported(dev.msrList.value, dev.extension, mode, ENTRIES), mode)
    ensures dev.fd >= 0 && dev.msrList.Some? && (mode == 0 || mode == 1) ==>
              && out == Expected(dev.msrList.value, dev.extension, mode == 1, 12)
              && Says(out, dev.msrList.value, dev.extension, mode == 1)
    ensures mode != 0 && mode != 1 ==> out == []
    ensures fd == if dev.fd < 0 || dev.msrList.None? || dev.closing != 0 then dev.fd else -1
  {
    hide Reported, Labels, Label, Sets, Expected, Says;
    var s := new KVMState();
    out := [];
    NothingYet(dev, mode);
    var err := s.Open(dev);
    fd := s.fd;
    if err != 0 { return; }
    ghost var list, ext := dev.msrList.value, dev.extension;
    var ix := 0;
    TableShape();
    while ix < CAPS_MAX
      invariant ix <= ENTRIES && s.msrs.Length == MSR_NUM && s.fd == dev.fd >= 0
      invariant forall k :: 0 < k < MSR_NUM ==> s.msrs[k] == if Sets(list, k) then 1 else 0
      invariant out == Labels(Reported(list, ext, mode, ix), mode)
      decreases CAPS_MAX - ix
    {
      var cap := ALL_CAPS[ix];
      if !cap.needMsr && !cap.needExtension { break; }
      var enabled := EntryEnabled(s, dev, cap);
      OneMore(list, ext, mode, ix);
      if MustEmitLabel(enabled, mode) { out := out + [Label(cap, mode)]; }
      ix := ix + 1;
    }
    var ignored := s.Close(dev);
    fd := s.fd;
    if mode != 0 && mode != 1 { NothingInOtherModes(list, ext, mode, 12); }
    ScanIsExpected(list, ext, mode == 1, 12);
    ExpectedSays(list, ext, mode == 1);
  }

  // ---- properties ----

  lemma {:induction false} ReportedExactly(msrs: seq<nat>, extension: nat -> int, mode: int, n: nat)
    requires n <= ENTRIES
    ensures var r := Reported(msrs, extension, mode, n);
            && (forall i :: 0 <= i < n ==> (i in r <==> WantedAt(msrs, extension, mode, i)))
            && (forall i, j :: 0 <= i < j < |r| ==> r[i] < r[j])
  {
    hide WantedAt;
    if n == 0 {
    } else {
      ReportedExactly(msrs, extension, mode, n - 1);
      var r, was := Reported(msrs, extension, mode, n), Reported(msrs, extension, mode, n - 1);
      forall i, j | 0 <= i < j < |r| ensures r[i] < r[j] {
        if j == |was| { assert r[i] in was; }
      }
    }
  }

  /** The two modes split the table: every entry is reported by exactly one of them, as a feature exactly
      when its needs are met, and each keeps the order of the table. */
  lemma ModesPartition(msrs: seq<nat>, extension: nat -> int)
    ensures var f := Reported(msrs, extension, SHOW_FEATURES, ENTRIES);
            var m := Reported(msrs, extension, SHOW_MISSING, ENTRIES);
            && (forall i :: 0 <= i < ENTRIES ==>
                  (i in f <==> Enabled(msrs, extension, ALL_CAPS[i])) && (i in m <==> i !in f))
            && (forall i, j :: 0 <= i < j < |f| ==> f[i] < f[j]) && (forall i, j :: 0 <= i < j < |m| ==> m[i] < m[j])
  {
    ReportedExactly(msrs, extension, SHOW_FEATURES, ENTRIES);
    ReportedExactly(msrs, extension, SHOW_MISSING, ENTRIES);
  }

  lemma SetsOfSet(a: seq<nat>, b: seq<nat>, k: nat)
    requires forall x :: x in a ==> x in b
    requires Sets(a, k)
    ensures Sets(b, k)
  {
    var i :| 0 <= i < |a| && FlagOf(a[i]) == k;
    assert a[i] in a;
    var j :| 0 <= j < |b| && b[j] == a[i];
  }

  /** A scan depends on the set of MSRs only, not on their order or on repeats. */
  lemma {:induction false} OnlyTheSetMatters(a: seq<nat>, b: seq<nat>, extension: nat -> int, mode: int, n: nat)
    requires n <= ENTRIES && (forall x :: x in a <==> x in b)
    ensures Reported(a, extension, mode, n) == Reported(b, extension, mode, n)
  {
    if n == 0 {
    } else {
      OnlyTheSetMatters(a, b, extension, mode, n - 1);
      var c := ALL_CAPS[n - 1];
      if Sets(a, c.msr) { SetsOfSet(a, b, c.msr); }
      if Sets(b, c.msr) { SetsOfSet(b, a, c.msr); }
    }
  }
}
