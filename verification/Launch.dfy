/** A launch as the TPM sees it and as its log tells it. */
module Launch {
  import opened Common
  import opened Text
  import opened EventLog
  import opened EventLogCodec
  import opened Replay
  import HexDump

  /** The PCRs of a TPM, by bank and index. */
  type Tpm = map<(string, nat), Bytes>

  predicate Drtm(pcr: nat) {
    17 <= pcr <= 22
  }

  /** A PCR is as wide as its bank's digest. `h.sizes` need not have every bank
      of the TPM: of the others' digests, widths included, nothing is known. */
  ghost predicate TpmOk(h: Hashes, tpm: Tpm) {
    h.Valid() && forall key :: key in tpm && key.0 in h.sizes ==> |tpm[key]| == h.sizes[key.0]
  }

  // --- the TPM's side ------------------------------------------------------------

  /** What a locality 4 start does to the DRTM PCRs of every bank. */
  ghost function Reset(tpm: Tpm): Tpm {
    map key | key in tpm :: if Drtm(key.1) then Zeros(|tpm[key]|) else tpm[key]
  }

  /** TPM2_PCR_Extend, section 22.2 of part 3 of the TPM 2.0 Library: one bank
      after the other, those the TPM lacks skipped. */
  ghost function ExtendPcr(h: Hashes, tpm: Tpm, pcr: nat, ds: seq<Digest>): Tpm {
    if ds == [] then tpm
    else
      var last, before := ds[|ds| - 1], ExtendPcr(h, tpm, pcr, ds[..|ds| - 1]);
      var key := (AlgName(last.alg), pcr);
      if key in before then before[key := h.digest(key.0, before[key] + last.value)] else before
  }

  /** SKINIT's own measurement: the SLB into PCR 17 of every bank. */
  ghost function Skinit(h: Hashes, tpm: Tpm, slb: Bytes): Tpm {
    map key | key in tpm :: if key.1 == 17 then h.digest(key.0, tpm[key] + h.digest(key.0, slb)) else tpm[key]
  }

  /** A step of the launch and the record it logs: an extend of the digests it
      logs, or a tag that extends nothing. */
  datatype Step = Extend(record: Record) | Tag(record: Record)

  ghost predicate StepOk(s: Step) {
    DistinctAlgs(s.record.digests) && (s.Extend? <==> s.record.etype != EV_NO_ACTION)
  }

  ghost predicate StepsOk(steps: seq<Step>) {
    forall i :: 0 <= i < |steps| ==> StepOk(steps[i])
  }

  ghost function RunStep(h: Hashes, tpm: Tpm, s: Step): Tpm {
    match s
    case Extend(r) => ExtendPcr(h, tpm, r.pcr, r.digests)
    case Tag(_) => tpm
  }

  ghost function Run(h: Hashes, tpm: Tpm, steps: seq<Step>): Tpm {
    if steps == [] then tpm else RunStep(h, Run(h, tpm, steps[..|steps| - 1]), steps[|steps| - 1])
  }

  function Log(steps: seq<Step>): seq<Record> {
    seq(|steps|, i requires 0 <= i < |steps| => steps[i].record)
  }

  // --- one extend, seen from one PCR of one bank ------------------------------------

  lemma {:induction false} ExtendPcrElsewhere(h: Hashes, tpm: Tpm, pcr: nat, ds: seq<Digest>, key: (string, nat))
    requires key in tpm
    requires key.1 != pcr || forall i :: 0 <= i < |ds| ==> AlgName(ds[i].alg) != key.0
    ensures key in ExtendPcr(h, tpm, pcr, ds) && ExtendPcr(h, tpm, pcr, ds)[key] == tpm[key]
  {
    if ds != [] {
      ExtendPcrElsewhere(h, tpm, pcr, ds[..|ds| - 1], key);
    }
  }

  lemma {:induction false} ExtendPcrHere(h: Hashes, tpm: Tpm, ds: seq<Digest>, i: nat, key: (string, nat))
    requires key in tpm && DistinctAlgs(ds)
    requires i < |ds| && AlgName(ds[i].alg) == key.0
    ensures key in ExtendPcr(h, tpm, key.1, ds)
    ensures ExtendPcr(h, tpm, key.1, ds)[key] == h.digest(key.0, tpm[key] + ds[i].value)
    decreases |ds|
  {
    hide AlgName;
    var n := |ds| - 1;
    forall j | 0 <= j < |ds| && j != i ensures AlgName(ds[j].alg) != key.0 {
      if AlgName(ds[j].alg) == key.0 {
        AlgNameInjective(ds[j].alg, ds[i].alg);
      }
    }
    if i < n {
      ExtendPcrHere(h, tpm, ds[..n], i, key);
    } else {
      ExtendPcrElsewhere(h, tpm, key.1, ds[..n], key);
    }
  }

  lemma StepMatchesEvent(h: Hashes, tpm: Tpm, s: Step, e: Event, key: (string, nat))
    requires key in tpm && StepOk(s) && Presents(e, s.record)
    ensures key in RunStep(h, tpm, s)
    ensures !Extends(e, key.1, key.0) ==> RunStep(h, tpm, s)[key] == tpm[key]
    ensures Extends(e, key.1, key.0) ==>
              && FromHex(e.digests[key.0]).Some?
              && RunStep(h, tpm, s)[key] == h.digest(key.0, tpm[key] + FromHex(e.digests[key.0]).value)
  {
    hide AlgName;
    var r := s.record;
    if Extends(e, key.1, key.0) {
      var i :| 0 <= i < |r.digests| && AlgName(r.digests[i].alg) == key.0;
      HexRoundTrip(r.digests[i].value);
      ExtendPcrHere(h, tpm, r.digests, i, key);
    } else if s.Extend? {
      ExtendPcrElsewhere(h, tpm, r.pcr, r.digests, key);
    }
  }

  /** Running the steps takes a PCR from the chain of `before` to the chain of
      `before` and what the events of the steps measured. */
  lemma {:induction false} RunMatchesEvents(h: Hashes, tpm: Tpm, steps: seq<Step>, es: seq<Event>,
        key: (string, nat), before: seq<Bytes>)
    requires key in tpm && key.0 in h.sizes && StepsOk(steps) && PresentsAll(es, Log(steps))
    requires tpm[key] == Chain(h, key.0, before)
    ensures Measured(es, key.1, key.0).Some?
    ensures key in Run(h, tpm, steps)
    ensures Run(h, tpm, steps)[key] == Chain(h, key.0, before + Measured(es, key.1, key.0).value)
    decreases |steps|
  {
    hide Presents, StepOk, FromHex;
    if steps == [] {
      assert before + [] == before;
    } else {
      var n := |steps| - 1;
      assert PresentsAll(es[..n], Log(steps[..n]));
      RunMatchesEvents(h, tpm, steps[..n], es[..n], key, before);
      assert Presents(es[n], Log(steps)[n]) && StepOk(steps[n]);
      StepMatchesEvent(h, Run(h, tpm, steps[..n]), steps[n], es[n], key);
      var ds := Measured(es[..n], key.1, key.0).value;
      if Extends(es[n], key.1, key.0) {
        var d := FromHex(es[n].digests[key.0]).value;
        assert before + (ds + [d]) == before + ds + [d];
        assert (before + ds + [d])[..|before + ds|] == before + ds;
      }
    }
  }

  /** End to end. Whatever the launch did, the log its steps leave, dumped as hex
      on a console the hypervisor writes to, decodes, parses and replays to what
      the TPM holds, in every bank that can be replayed and every PCR the start
      reset, whatever other banks the TPM has. */
  lemma DumpedLogReplaysToTheTpm(
      h: Hashes, header: Header, tpm: Tpm, steps: seq<Step>,
      m: nat, raw: Bytes, dump: seq<HexDump.Piece>, key: (string, nat))
    requires TpmOk(h, tpm) && key in tpm && 17 <= key.1 <= 22 && key.0 in h.sizes
    requires StepsOk(steps) && LogOk(header, Log(steps))
    requires raw + Zeros(16) == Encode(header, Log(steps)) + Zeros(m)
    requires HexDump.PiecesOk(dump) && FromHex(HexDump.Digits(dump)) == Some(raw)
    ensures HexDump.Decode(HexDump.Print(dump)) == Some(raw)
    ensures ParseOf(raw).Ok?
    ensures key in Run(h, Reset(tpm), steps)
    ensures ReplayOf(h, ParseOf(raw).value, key.1, key.0) == Ok(Hex(Run(h, Reset(tpm), steps)[key]))
  {
    hide Encode, StepsOk, HeaderOk, RecordOk, FromHex;
    HexDump.SplicedDump(dump);
    RoundTrip(header, Log(steps), m, raw);
    var es := ParseOf(raw).value;
    RunMatchesEvents(h, Reset(tpm), steps, es, key, []);
    assert [] + Measured(es, key.1, key.0).value == Measured(es, key.1, key.0).value;
  }

  // --- the check a launch test makes --------------------------------------------------

  const SKINIT: Bytes := [83, 75, 73, 78, 73, 84]

  /** What a boot gathered: the parsed log, the SLB and its length in the
      platform's record and in its own header, the DRTM PCRs by bank in hex. */
  datatype Boot = Boot(
    events: seq<Event>, recordedLength: nat, slbLength: nat, slb: Bytes,
    bankPcrs: map<string, map<nat, string>>)

  function SlbDigests(h: Hashes, boot: Boot): map<string, string> {
    map bank | bank in boot.bankPcrs && bank in h.sizes :: Hex(h.digest(bank, boot.slb))
  }

  /** The log with SKINIT's record carrying the SLB's digest in every bank. */
  function Substituted(h: Hashes, boot: Boot): seq<Event>
    requires boot.events != []
  {
    [boot.events[0].(digests := SlbDigests(h, boot))] + boot.events[1..]
  }

  predicate OpensWithSkinit(h: Hashes, boot: Boot) {
    && boot.events != []
    && boot.events[0].pcr == 17 && boot.events[0].etype == EV_SLAUNCH && boot.events[0].data == SKINIT
    && boot.recordedLength == boot.slbLength
    && SlbDigests(h, boot) != map[]
    && forall bank :: bank in ["sha1", "sha256"] && bank in SlbDigests(h, boot) ==>
         bank in boot.events[0].digests && boot.events[0].digests[bank] == SlbDigests(h, boot)[bank]
  }

  /** True when `assert_log_replays` returns; false where an assertion, or a
      missing key, stops it. */
  predicate LogReplays(h: Hashes, boot: Boot) {
    && OpensWithSkinit(h, boot)
    && forall bank, pcr :: bank in SlbDigests(h, boot) && pcr in [17, 18] ==>
         && pcr in boot.bankPcrs[bank]
         && ReplayOf(h, Substituted(h, boot), pcr, bank) == Ok(boot.bankPcrs[bank][pcr])
  }

  /** The boot's PCRs are what the TPM holds, in the banks the check looks at. */
  ghost predicate ReadFrom(h: Hashes, boot: Boot, tpm: Tpm) {
    forall bank, pcr :: bank in boot.bankPcrs && bank in h.sizes && pcr in [17, 18] ==>
      && (bank, pcr) in tpm
      && pcr in boot.bankPcrs[bank] && boot.bankPcrs[bank][pcr] == Hex(tpm[(bank, pcr)])
  }

  /** `boot` logged `first` for SKINIT and then what `steps` left. */
  ghost predicate LoggedLaunch(boot: Boot, first: Event, steps: seq<Step>) {
    && StepsOk(steps)
    && first.pcr == 17 && first.etype == EV_SLAUNCH
    && boot.events != [] && boot.events[0] == first
    && PresentsAll(boot.events[1..], Log(steps))
  }

  /** The TPM after SKINIT measured the SLB and the launch ran its steps. */
  ghost function Launched(h: Hashes, tpm: Tpm, slb: Bytes, steps: seq<Step>): Tpm {
    Run(h, Skinit(h, Reset(tpm), slb), steps)
  }

  lemma SkinitEventMeasures(h: Hashes, boot: Boot, pcr: nat, bank: string)
    requires boot.events != [] && boot.events[0].pcr == 17 && boot.events[0].etype == EV_SLAUNCH
    requires bank in SlbDigests(h, boot)
    ensures Measured(Substituted(h, boot)[..1], pcr, bank) ==
            Some(if pcr == 17 then [h.digest(bank, boot.slb)] else [])
  {
    var first := Substituted(h, boot)[..1];
    assert first[..0] == [];
    HexRoundTrip(h.digest(bank, boot.slb));
    assert Measured([], pcr, bank) == Some([]);
    assert [] + [h.digest(bank, boot.slb)] == [h.digest(bank, boot.slb)];
  }

  /** Whatever SKINIT's record carries, a placeholder or nothing in some banks,
      the substituted log replays to PCR 17 and 18 of every bank hashlib has. */
  lemma SubstitutionRepairs(h: Hashes, boot: Boot, tpm: Tpm, first: Event, steps: seq<Step>, bank: string, pcr: nat)
    requires TpmOk(h, tpm) && LoggedLaunch(boot, first, steps)
    requires bank in boot.bankPcrs && bank in h.sizes && pcr in [17, 18] && (bank, pcr) in tpm
    ensures (bank, pcr) in Launched(h, tpm, boot.slb, steps)
    ensures ReplayOf(h, Substituted(h, boot), pcr, bank) == Ok(Hex(Launched(h, tpm, boot.slb, steps)[(bank, pcr)]))
  {
    hide Presents, StepOk, FromHex;
    var key, es := (bank, pcr), Substituted(h, boot);
    var before := if pcr == 17 then [h.digest(bank, boot.slb)] else [];
    var start := Skinit(h, Reset(tpm), boot.slb);
    assert start[key] == Chain(h, bank, before) by {
      if pcr == 17 {
        assert before[..0] == [];
      }
    }
    SkinitEventMeasures(h, boot, pcr, bank);
    RunMatchesEvents(h, start, steps, boot.events[1..], key, before);
    assert es == es[..1] + boot.events[1..];
    MeasuredConcat(es[..1], boot.events[1..], pcr, bank);
  }

  /** The record SKINIT's measurement has to be, and for how much of the SLB. */
  ghost predicate SkinitRecord(boot: Boot, first: Event) {
    && first.pcr == 17 && first.etype == 0x502 && boot.recordedLength == boot.slbLength
    && |first.data| == 6 && forall i :: 0 <= i < 6 ==> first.data[i] == "SKINIT"[i] as int
  }

  /** A bank the SKL hashes itself and the check can replay. */
  ghost predicate SklBank(h: Hashes, boot: Boot, bank: string) {
    (bank == "sha1" || bank == "sha256") && bank in boot.bankPcrs && bank in h.sizes
  }

  lemma OpensIff(h: Hashes, boot: Boot)
    ensures OpensWithSkinit(h, boot) <==>
            && boot.events != [] && SkinitRecord(boot, boot.events[0])
            && (exists bank :: bank in boot.bankPcrs && bank in h.sizes)
            && forall bank :: SklBank(h, boot, bank) ==>
                 && bank in boot.events[0].digests
                 && boot.events[0].digests[bank] == Hex(h.digest(bank, boot.slb))
  {
    hide Hex;
    assert (exists bank :: bank in boot.bankPcrs && bank in h.sizes) <==> SlbDigests(h, boot) != map[] by {
      if bank :| bank in boot.bankPcrs && bank in h.sizes {
        assert bank in SlbDigests(h, boot);
      }
      if SlbDigests(h, boot) != map[] {
        var bank :| bank in SlbDigests(h, boot);
      }
    }
    if boot.events != [] && SkinitRecord(boot, boot.events[0]) {
      assert boot.events[0].data == SKINIT;
    }
  }

  /** Completeness: after any launch that measured the SLB and logged its later
      extends, the check passes exactly when the log opens with SKINIT's record,
      the SLB's digest in the banks the SKL can hash. */
  lemma LaunchPassesTheCheck(h: Hashes, boot: Boot, tpm: Tpm, first: Event, steps: seq<Step>)
    requires TpmOk(h, tpm) && LoggedLaunch(boot, first, steps)
    requires forall bank, pcr :: bank in boot.bankPcrs && bank in h.sizes && pcr in [17, 18] ==> (bank, pcr) in tpm
    requires ReadFrom(h, boot, Launched(h, tpm, boot.slb, steps))
    ensures LogReplays(h, boot) <==>
            && SkinitRecord(boot, first) && (exists bank :: bank in boot.bankPcrs && bank in h.sizes)
            && forall bank :: SklBank(h, boot, bank) ==>
                 bank in first.digests && first.digests[bank] == Hex(h.digest(bank, boot.slb))
  {
    assert boot.events != [];
    hide OpensWithSkinit, SkinitRecord, SklBank, ReplayOf, Launched, TpmOk, Substituted, StepsOk, PresentsAll, Hex;
    OpensIff(h, boot);
    forall bank, pcr | bank in SlbDigests(h, boot) && pcr in [17, 18]
      ensures pcr in boot.bankPcrs[bank]
      ensures ReplayOf(h, Substituted(h, boot), pcr, bank) == Ok(boot.bankPcrs[bank][pcr])
    {
      SubstitutionRepairs(h, boot, tpm, first, steps, bank, pcr);
    }
  }

  lemma {:induction false} SameMeasured(es: seq<Event>, fs: seq<Event>, pcr: nat, alg: string)
    requires |es| == |fs|
    requires forall i :: 0 <= i < |es| ==>
               && (Extends(es[i], pcr, alg) <==> Extends(fs[i], pcr, alg))
               && (Extends(es[i], pcr, alg) ==> es[i].digests[alg] == fs[i].digests[alg])
    ensures Measured(es, pcr, alg) == Measured(fs, pcr, alg)
  {
    hide FromHex, Extends;
    if es != [] {
      var n := |es| - 1;
      SameMeasured(es[..n], fs[..n], pcr, alg);
      ExtendsHas(es[n], pcr, alg);
    }
  }

  lemma ExtendsHas(e: Event, pcr: nat, alg: string)
    ensures Extends(e, pcr, alg) ==> alg in e.digests
  {
  }

  /** What a passing check has seen of the log as it stands: SKINIT's record in
      front, and, in the banks the SKL hashes, a log that needs no substitution. */
  lemma CheckedLogStands(h: Hashes, boot: Boot)
    requires LogReplays(h, boot)
    ensures boot.events != [] && SkinitRecord(boot, boot.events[0])
    ensures exists bank :: bank in boot.bankPcrs && bank in h.sizes
    ensures forall bank, pcr :: SklBank(h, boot, bank) && pcr in [17, 18] ==>
              && pcr in boot.bankPcrs[bank]
              && ReplayOf(h, boot.events, pcr, bank) == Ok(boot.bankPcrs[bank][pcr])
  {
    hide OpensWithSkinit, SkinitRecord, Measured, Hex;
    OpensIff(h, boot);
    forall bank, pcr | SklBank(h, boot, bank) && pcr in [17, 18]
      ensures pcr in boot.bankPcrs[bank]
      ensures ReplayOf(h, boot.events, pcr, bank) == Ok(boot.bankPcrs[bank][pcr])
    {
      assert bank in SlbDigests(h, boot);
      SameMeasured(boot.events, Substituted(h, boot), pcr, bank);
    }
  }

  /** Soundness: when the check passes, whatever history of digests the TPM's PCR
      has, it is the one the log tells, or the hash is broken by a pair in hand. */
  lemma CheckedLogIsTheHistory(h: Hashes, boot: Boot, bank: string, pcr: nat, history: seq<Bytes>)
    requires h.Valid() && LogReplays(h, boot)
    requires bank in boot.bankPcrs && bank in h.sizes && pcr in [17, 18]
    requires boot.bankPcrs[bank][pcr] == Hex(Chain(h, bank, history))
    ensures Measured(Substituted(h, boot), pcr, bank).Some?
    ensures var told := Measured(Substituted(h, boot), pcr, bank).value;
            history == told || Breaks(h, bank, FindClash(h, bank, history, told))
  {
    hide Substituted, Measured, Chain, FindClash, Breaks, Hex;
    assert bank in SlbDigests(h, boot);
    var told := Measured(Substituted(h, boot), pcr, bank).value;
    HexInjective(Chain(h, bank, history), Chain(h, bank, told));
    ChainBinds(h, bank, history, told);
  }

  /** The substitution is there for a reason: the log as it stands replays to PCR
      17 only in a bank whose SKINIT digest is the SLB's, or the hash is broken. */
  lemma PlaceholderDoesNotReplay(h: Hashes, boot: Boot, tpm: Tpm, first: Event, steps: seq<Step>, bank: string)
    requires TpmOk(h, tpm) && LoggedLaunch(boot, first, steps)
    requires bank in boot.bankPcrs && (bank, 17) in tpm && (bank, 17) in Launched(h, tpm, boot.slb, steps)
    requires bank in first.digests && FromHex(first.digests[bank]).Some?
    requires ReplayOf(h, boot.events, 17, bank) == Ok(Hex(Launched(h, tpm, boot.slb, steps)[(bank, 17)]))
    ensures Measured(boot.events, 17, bank).Some? && Measured(Substituted(h, boot), 17, bank).Some?
    ensures FromHex(first.digests[bank]) == Some(h.digest(bank, boot.slb))
            || Breaks(h, bank, FindClash(h, bank, Measured(boot.events, 17, bank).value,
                                         Measured(Substituted(h, boot), 17, bank).value))
  {
    hide Presents, StepOk, FromHex, FindClash, Breaks;
    SubstitutionRepairs(h, boot, tpm, first, steps, bank, 17);
    ReplayBinds(h, boot.events, Substituted(h, boot), 17, bank);
    FirstMeasured(boot.events, 17, bank);
    FirstMeasured(Substituted(h, boot), 17, bank);
    HexRoundTrip(h.digest(bank, boot.slb));
  }

  lemma {:induction false} FirstMeasured(es: seq<Event>, pcr: nat, alg: string)
    requires es != [] && Extends(es[0], pcr, alg) && Measured(es, pcr, alg).Some?
    ensures Measured(es, pcr, alg).value != []
    ensures FromHex(es[0].digests[alg]) == Some(Measured(es, pcr, alg).value[0])
  {
    hide FromHex;
    if |es| > 1 {
      FirstMeasured(es[..|es| - 1], pcr, alg);
    } else {
      assert es[..0] == [];
    }
  }
}
