/** The TCG crypto agile log as a firmware or loader writes it, after sections
    10.2.1, 10.2.2 and 10.4.5.1 of the TCG PC Client Platform Firmware Profile
    1.05, and the proof that the parser reads it back. */
module EventLogCodec {
  import opened Common
  import opened Text
  import opened EventLog

  /** `version` is the platform class, the specification's version and the
      UINTN size, which the parser skips. */
  datatype Header = Header(pcr: nat, digest: Bytes, version: Bytes, banks: seq<Bank>, vendor: Bytes)

  datatype Record = Record(pcr: nat, etype: nat, digests: seq<Digest>, data: Bytes)

  // --- encoding -------------------------------------------------------------

  function Pack16(n: nat): (b: Bytes)
    ensures |b| == 2
  {
    [n % 0x100, n / 0x100 % 0x100]
  }

  function Pack32(n: nat): (b: Bytes)
    ensures |b| == 4
  {
    Pack16(n % 0x10000) + Pack16(n / 0x10000)
  }

  function EncodeBanks(banks: seq<Bank>): (b: Bytes)
    ensures |b| == 4 * |banks|
  {
    if banks == [] then [] else Pack16(banks[0].alg) + Pack16(banks[0].size) + EncodeBanks(banks[1..])
  }

  function EncodeSpec(h: Header): Bytes {
    SIGNATURE + (h.version + (Pack32(|h.banks|) + (EncodeBanks(h.banks) + ([|h.vendor| % 0x100] + h.vendor))))
  }

  function EncodeHeader(h: Header): Bytes {
    Pack32(h.pcr) + (Pack32(EV_NO_ACTION) + (h.digest + (Pack32(|EncodeSpec(h)|) + EncodeSpec(h))))
  }

  function EncodeDigests(ds: seq<Digest>): Bytes {
    if ds == [] then [] else Pack16(ds[0].alg) + (ds[0].value + EncodeDigests(ds[1..]))
  }

  function EncodeRecord(r: Record): Bytes {
    Pack32(r.pcr) + (Pack32(r.etype) + (Pack32(|r.digests|) +
      (EncodeDigests(r.digests) + (Pack32(|r.data|) + r.data))))
  }

  function EncodeRecords(rs: seq<Record>): Bytes {
    if rs == [] then [] else EncodeRecord(rs[0]) + EncodeRecords(rs[1..])
  }

  function Encode(h: Header, rs: seq<Record>): Bytes {
    EncodeHeader(h) + EncodeRecords(rs)
  }

  // --- what a writer keeps to ------------------------------------------------

  ghost predicate DistinctAlgs(ds: seq<Digest>) {
    forall i, j :: 0 <= i < j < |ds| ==> ds[i].alg != ds[j].alg
  }

  ghost predicate HeaderOk(h: Header) {
    && h.pcr < 0x1_0000_0000 && |h.digest| == 20 && |h.version| == 8 && |h.vendor| < 0x100
    && |EncodeSpec(h)| < 0x1_0000_0000
    && (forall b :: b in h.banks ==> b.alg < 0x10000 && b.size < 0x10000)
    && DistinctBanks(h.banks)
  }

  ghost predicate RecordOk(h: Header, r: Record) {
    && r.pcr < 0x1_0000_0000 && r.etype < 0x1_0000_0000 && |r.data| < 0x1_0000_0000
    && 0 < |r.digests| < 0x1_0000_0000
    && DistinctAlgs(r.digests)
    && (forall d :: d in r.digests ==> Bank(d.alg, |d.value|) in h.banks)
  }

  ghost predicate LogOk(h: Header, rs: seq<Record>) {
    HeaderOk(h) && forall r :: r in rs ==> RecordOk(h, r)
  }

  /** `e` is `r` as the parser presents it: every digest under its name. */
  ghost predicate Presents(e: Event, r: Record) {
    && e.pcr == r.pcr && e.etype == r.etype && e.data == r.data
    && (forall name :: name in e.digests ==> exists i :: 0 <= i < |r.digests| && AlgName(r.digests[i].alg) == name)
    && forall i :: 0 <= i < |r.digests| ==>
         AlgName(r.digests[i].alg) in e.digests && e.digests[AlgName(r.digests[i].alg)] == Hex(r.digests[i].value)
  }

  ghost predicate PresentsAll(es: seq<Event>, rs: seq<Record>) {
    |es| == |rs| && forall i :: 0 <= i < |es| ==> Presents(es[i], rs[i])
  }

  ghost predicate PresentsLog(parsed: Parsed<seq<Event>>, rs: seq<Record>) {
    parsed.Ok? && PresentsAll(parsed.value, rs)
  }

  // --- reading what was packed ----------------------------------------------

  ghost predicate Holds(raw: Bytes, offset: nat, part: Bytes) {
    offset + |part| <= |raw| && raw[offset..offset + |part|] == part
  }

  lemma HoldsParts(raw: Bytes, offset: nat, a: Bytes, b: Bytes)
    requires Holds(raw, offset, a + b)
    ensures Holds(raw, offset, a) && Holds(raw, offset + |a|, b)
  {
    var part := raw[offset..offset + |a + b|];
    assert raw[offset..offset + |a|] == part[..|a|] == a;
    assert raw[offset + |a|..offset + |a| + |b|] == part[|a|..] == b;
  }

  lemma HeldHalf(raw: Bytes, offset: nat, n: nat)
    requires Holds(raw, offset, Pack16(n)) && n < 0x10000
    ensures offset + 2 <= |raw| && Half(raw, offset) == n
  {
    var part := raw[offset..offset + 2];
    assert raw[offset] == part[0] && raw[offset + 1] == part[1];
  }

  lemma HeldWord(raw: Bytes, offset: nat, n: nat)
    requires Holds(raw, offset, Pack32(n)) && n < 0x1_0000_0000
    ensures offset + 4 <= |raw| && Word(raw, offset) == n
  {
    HoldsParts(raw, offset, Pack16(n % 0x10000), Pack16(n / 0x10000));
    HeldHalf(raw, offset, n % 0x10000);
    HeldHalf(raw, offset + 2, n / 0x10000);
  }

  lemma HeldSlice(raw: Bytes, offset: nat, part: Bytes)
    requires Holds(raw, offset, part)
    ensures Slice(raw, offset, offset + |part|) == part
  {
  }

  // --- the header ------------------------------------------------------------

  function Algs(banks: seq<Bank>): seq<nat> {
    seq(|banks|, i requires 0 <= i < |banks| => banks[i].alg)
  }

  ghost predicate DistinctBanks(banks: seq<Bank>) {
    forall i, j :: 0 <= i < j < |banks| ==> banks[i].alg != banks[j].alg
  }

  lemma {:induction false} ByAlgMeans(banks: seq<Bank>)
    requires DistinctBanks(banks)
    ensures ByAlg(banks).keys == Algs(banks)
    ensures forall a :: a in ByAlg(banks).vals ==> a in Algs(banks)
    ensures forall b :: b in banks ==> b.alg in ByAlg(banks).vals && ByAlg(banks).vals[b.alg] == b.size
  {
    if banks != [] {
      var n := |banks| - 1;
      var init, last := banks[..n], banks[n];
      ByAlgMeans(init);
      assert banks == init + [last];
      assert last.alg !in Algs(init) by {
        assert forall j :: 0 <= j < n ==> banks[j].alg != last.alg;
      }
      assert Algs(banks) == Algs(init) + [last.alg];
    }
  }

  /** Of any header, one that declares an algorithm twice included: each comes
      once, where it came first. */
  lemma {:induction false} ByAlgKeys(banks: seq<Bank>)
    ensures ByAlg(banks).keys == Dedup(Algs(banks))
    ensures forall a :: a in ByAlg(banks).vals <==> a in Dedup(Algs(banks))
  {
    if banks != [] {
      var n := |banks| - 1;
      ByAlgKeys(banks[..n]);
      assert Algs(banks)[..n] == Algs(banks[..n]);
    }
  }

  /** Its size is the one declared last. */
  lemma {:induction false} ByAlgSize(banks: seq<Bank>, i: nat)
    requires i < |banks| && forall j :: i < j < |banks| ==> banks[j].alg != banks[i].alg
    ensures banks[i].alg in ByAlg(banks).vals && ByAlg(banks).vals[banks[i].alg] == banks[i].size
    decreases |banks|
  {
    if i < |banks| - 1 {
      ByAlgSize(banks[..|banks| - 1], i);
    }
  }

  lemma {:induction false} ReadBanksHeld(spec: Bytes, i: nat, banks: seq<Bank>, read: seq<Bank>)
    requires forall b :: b in banks ==> b.alg < 0x10000 && b.size < 0x10000
    requires Holds(spec, 28 + 4 * i, EncodeBanks(banks))
    ensures ReadBanks(spec, i, i + |banks|, read) == Ok(read + banks)
    decreases |banks|
  {
    hide Holds, Pack16;
    if banks == [] {
      assert read + banks == read;
    } else {
      var b, rest := banks[0], banks[1..];
      HoldsParts(spec, 28 + 4 * i, Pack16(b.alg) + Pack16(b.size), EncodeBanks(rest));
      HoldsParts(spec, 28 + 4 * i, Pack16(b.alg), Pack16(b.size));
      HeldHalf(spec, 28 + 4 * i, b.alg);
      HeldHalf(spec, 30 + 4 * i, b.size);
      ReadBanksHeld(spec, i + 1, rest, read + [b]);
      assert read + [b] + rest == read + banks;
    }
  }

  /** What stands where in a log that starts with the header. */
  lemma HeaderParts(h: Header, raw: Bytes)
    requires HeaderOk(h) && EncodeHeader(h) <= raw
    ensures |EncodeHeader(h)| == 32 + |EncodeSpec(h)|
    ensures Word(raw, 4) == EV_NO_ACTION && Word(raw, 28) == |EncodeSpec(h)|
    ensures raw[32..|EncodeHeader(h)|] == EncodeSpec(h)
  {
    hide Holds, Pack32, EncodeSpec, Word, DistinctBanks;
    var spec := EncodeSpec(h);
    assert Holds(raw, 0, EncodeHeader(h)) by { WholeHolds(raw, EncodeHeader(h)); }
    var p3 := Pack32(|spec|) + spec;
    var p2 := h.digest + p3;
    HoldsParts(raw, 0, Pack32(h.pcr), Pack32(EV_NO_ACTION) + p2);
    HoldsParts(raw, 4, Pack32(EV_NO_ACTION), p2);
    HoldsParts(raw, 8, h.digest, p3);
    HoldsParts(raw, 28, Pack32(|spec|), spec);
    HeldWord(raw, 4, EV_NO_ACTION);
    HeldWord(raw, 28, |spec|);
    HeldSlice(raw, 32, spec);
  }

  lemma WholeHolds(raw: Bytes, part: Bytes)
    requires part <= raw
    ensures Holds(raw, 0, part)
  {
  }

  lemma SpecParts(h: Header)
    requires HeaderOk(h)
    ensures var spec := EncodeSpec(h);
            && SIGNATURE <= spec && 28 <= |spec|
            && Word(spec, 24) == |h.banks|
            && Holds(spec, 28, EncodeBanks(h.banks))
  {
    hide Holds, Pack32, EncodeBanks, Word, DistinctBanks;
    var spec := EncodeSpec(h);
    WholeHolds(spec, spec);
    var p3 := EncodeBanks(h.banks) + ([|h.vendor| % 0x100] + h.vendor);
    var p2 := Pack32(|h.banks|) + p3;
    HoldsParts(spec, 0, SIGNATURE, h.version + p2);
    HeldSlice(spec, 0, SIGNATURE);
    HoldsParts(spec, 16, h.version, p2);
    HoldsParts(spec, 24, Pack32(|h.banks|), p3);
    HoldsParts(spec, 28, EncodeBanks(h.banks), [|h.vendor| % 0x100] + h.vendor);
    HeldWord(spec, 24, |h.banks|);
  }

  lemma ReadHeader(h: Header, tail: Bytes)
    requires HeaderOk(h)
    ensures var raw := EncodeHeader(h) + tail;
            && HeaderBanks(raw) == Ok(ByAlg(h.banks))
            && FirstOffset(raw) == |EncodeHeader(h)|
  {
    hide Holds, EncodeHeader, EncodeSpec, EncodeBanks, Word, ReadBanks, ByAlg;
    HeaderParts(h, EncodeHeader(h) + tail);
    SpecParts(h);
    ReadBanksHeld(EncodeSpec(h), 0, h.banks, []);
    assert [] + h.banks == h.banks;
  }

  // --- the events -------------------------------------------------------------

  /** A digest stands under its name, the last of its algorithm if there are more. */
  lemma {:induction false} ByNameAt(ds: seq<Digest>, i: nat)
    requires i < |ds| && forall j :: i < j < |ds| ==> ds[j].alg != ds[i].alg
    ensures AlgName(ds[i].alg) in ByName(ds)
    ensures ByName(ds)[AlgName(ds[i].alg)] == Hex(ds[i].value)
    decreases |ds|
  {
    hide AlgName, Hex;
    var n := |ds| - 1;
    if i < n {
      ByNameAt(ds[..n], i);
      if AlgName(ds[i].alg) == AlgName(ds[n].alg) {
        AlgNameInjective(ds[i].alg, ds[n].alg);
      }
    }
  }

  lemma {:induction false} ByNameOnly(ds: seq<Digest>, name: string) returns (i: nat)
    requires name in ByName(ds)
    ensures i < |ds| && AlgName(ds[i].alg) == name
    decreases |ds|
  {
    hide AlgName, Hex;
    i := |ds| - 1;
    if name != AlgName(ds[i].alg) {
      i := ByNameOnly(ds[..i], name);
    }
  }

  ghost predicate Declared(banks: Banks, ds: seq<Digest>) {
    forall d :: d in ds ==> d.alg < 0x10000 && d.alg in banks.vals && banks.vals[d.alg] == |d.value|
  }

  lemma {:induction false} ReadDigestsHeld(raw: Bytes, banks: Banks, offset: nat, ds: seq<Digest>, read: seq<Digest>)
    requires Declared(banks, ds)
    requires Holds(raw, offset, EncodeDigests(ds))
    ensures ReadDigests(raw, banks, offset, |ds|, read) == Ok(DigestList(read + ds, offset + |EncodeDigests(ds)|))
    decreases |ds|
  {
    hide Holds, Pack16, Slice, Half;
    if ds == [] {
      assert read + ds == read;
    } else {
      var d := ds[0];
      HoldsParts(raw, offset, Pack16(d.alg), d.value + EncodeDigests(ds[1..]));
      HoldsParts(raw, offset + 2, d.value, EncodeDigests(ds[1..]));
      HeldHalf(raw, offset, d.alg);
      var next := offset + 2 + |d.value|;
      HeldSlice(raw, offset + 2, d.value);
      ReadDigestsHeld(raw, banks, next, ds[1..], read + [d]);
      assert read + [d] + ds[1..] == read + ds;
    }
  }

  ghost function AsEvent(r: Record): Event {
    Event(r.pcr, r.etype, ByName(r.digests), r.data)
  }

  lemma AsEventPresents(r: Record)
    requires DistinctAlgs(r.digests)
    ensures Presents(AsEvent(r), r)
  {
    hide AlgName, Hex, ByName;
    forall i | 0 <= i < |r.digests| ensures AlgName(r.digests[i].alg) in ByName(r.digests)
      && ByName(r.digests)[AlgName(r.digests[i].alg)] == Hex(r.digests[i].value)
    {
      ByNameAt(r.digests, i);
    }
    forall name | name in ByName(r.digests)
      ensures exists i :: 0 <= i < |r.digests| && AlgName(r.digests[i].alg) == name
    {
      var i := ByNameOnly(r.digests, name);
    }
  }

  /** What stands where in a record, `at` being where its digests end. */
  lemma RecordParts(raw: Bytes, offset: nat, r: Record, at: nat)
    requires Holds(raw, offset, EncodeRecord(r)) && at == offset + 12 + |EncodeDigests(r.digests)|
    requires r.pcr < 0x1_0000_0000 && r.etype < 0x1_0000_0000
    requires |r.digests| < 0x1_0000_0000 && |r.data| < 0x1_0000_0000
    ensures offset + |EncodeRecord(r)| == at + 4 + |r.data| <= |raw|
    ensures Word(raw, offset) == r.pcr && Word(raw, offset + 4) == r.etype && Word(raw, offset + 8) == |r.digests|
    ensures Word(raw, at) == |r.data|
    ensures Holds(raw, offset + 12, EncodeDigests(r.digests)) && Holds(raw, at + 4, r.data)
  {
    hide EncodeDigests, Pack32, Word, Holds;
    var p4 := Pack32(|r.data|) + r.data;
    var p3 := EncodeDigests(r.digests) + p4;
    var p2 := Pack32(|r.digests|) + p3;
    HoldsParts(raw, offset, Pack32(r.pcr), Pack32(r.etype) + p2);
    HoldsParts(raw, offset + 4, Pack32(r.etype), p2);
    HoldsParts(raw, offset + 8, Pack32(|r.digests|), p3);
    HoldsParts(raw, offset + 12, EncodeDigests(r.digests), p4);
    HoldsParts(raw, at, Pack32(|r.data|), r.data);
    HeldWord(raw, offset, r.pcr);
    HeldWord(raw, offset + 4, r.etype);
    HeldWord(raw, offset + 8, |r.digests|);
    HeldWord(raw, at, |r.data|);
    HoldsWithin(raw, at + 4, r.data);
  }

  lemma HoldsWithin(raw: Bytes, offset: nat, part: Bytes)
    requires Holds(raw, offset, part)
    ensures offset + |part| <= |raw|
  {
  }

  lemma RecordDeclared(h: Header, r: Record)
    requires HeaderOk(h) && RecordOk(h, r)
    ensures Declared(ByAlg(h.banks), r.digests)
  {
    hide ByAlg, Algs, EncodeSpec;
    ByAlgMeans(h.banks);
  }

  lemma ReadRecordHeld(raw: Bytes, h: Header, offset: nat, r: Record)
    requires HeaderOk(h) && RecordOk(h, r)
    requires Holds(raw, offset, EncodeRecord(r))
    ensures !AtEnd(raw, offset)
    ensures ReadEvent(raw, ByAlg(h.banks), offset) ==
            Ok(Item(AsEvent(r), |r.data|, offset + |EncodeRecord(r)|))
  {
    hide ReadDigests, ByName, ByAlg, EncodeDigests, EncodeRecord, HeaderOk, Word, Holds, Slice, DistinctAlgs, Declared;
    var at := offset + 12 + |EncodeDigests(r.digests)|;
    RecordParts(raw, offset, r, at);
    RecordDeclared(h, r);
    ReadDigestsHeld(raw, ByAlg(h.banks), offset + 12, r.digests, []);
    assert [] + r.digests == r.digests;
    HeldSlice(raw, at + 4, r.data);
  }

  ghost function AsItems(rs: seq<Record>, offset: nat): seq<Item> {
    if rs == [] then []
    else
      var next := offset + |EncodeRecord(rs[0])|;
      [Item(AsEvent(rs[0]), |rs[0].data|, next)] + AsItems(rs[1..], next)
  }

  lemma {:induction false} ReadRecordsHeld(raw: Bytes, h: Header, offset: nat, rs: seq<Record>)
    requires LogOk(h, rs)
    requires Holds(raw, offset, EncodeRecords(rs))
    requires AtEnd(raw, offset + |EncodeRecords(rs)|)
    ensures ReadItems(raw, ByAlg(h.banks), offset) == Ok(AsItems(rs, offset))
    decreases |rs|
  {
    hide ReadEvent, EncodeRecord, AsEvent, HeaderOk, RecordOk, Holds;
    if rs != [] {
      HoldsParts(raw, offset, EncodeRecord(rs[0]), EncodeRecords(rs[1..]));
      ReadRecordHeld(raw, h, offset, rs[0]);
      ReadRecordsHeld(raw, h, offset + |EncodeRecord(rs[0])|, rs[1..]);
    }
  }

  lemma {:induction false} AsItemsPresent(rs: seq<Record>, offset: nat)
    requires forall r :: r in rs ==> DistinctAlgs(r.digests)
    ensures PresentsAll(Events(AsItems(rs, offset)), rs)
    decreases |rs|
  {
    hide Presents, AsEvent, EncodeRecord;
    if rs != [] {
      AsEventPresents(rs[0]);
      var rest := AsItems(rs[1..], offset + |EncodeRecord(rs[0])|);
      AsItemsPresent(rs[1..], offset + |EncodeRecord(rs[0])|);
      forall i | 0 < i < |rs| ensures Presents(Events(AsItems(rs, offset))[i], rs[i]) {
        assert Presents(Events(rest)[i - 1], rs[1..][i - 1]);
      }
    }
  }

  lemma ZerosWord(raw: Bytes, offset: nat)
    requires offset + 4 <= |raw|
    requires forall i :: offset <= i < offset + 4 ==> raw[i] == 0
    ensures Word(raw, offset) == 0
  {
  }

  lemma ZerosEndTheLog(log: Bytes, m: nat)
    ensures AtEnd(log + Zeros(m), |log|)
  {
    if 12 <= m {
      ZerosWord(log + Zeros(m), |log| + 8);
    }
  }

  lemma LogParts(h: Header, rs: seq<Record>)
    requires LogOk(h, rs)
    ensures HeaderOk(h) && DistinctBanks(h.banks)
    ensures forall r :: r in rs ==> DistinctAlgs(r.digests)
  {
  }

  lemma ReadLog(h: Header, rs: seq<Record>, m: nat)
    requires LogOk(h, rs)
    ensures ParsePadded(Encode(h, rs) + Zeros(m)) == Ok(AsItems(rs, |EncodeHeader(h)|))
  {
    hide LogOk, HeaderOk, DistinctBanks, DistinctAlgs, Holds, EncodeHeader, EncodeRecords, HeaderBanks, FirstOffset,
         ReadItems, AsItems, ByAlg, AtEnd, Zeros;
    var header, events := EncodeHeader(h), EncodeRecords(rs);
    var raw := Encode(h, rs) + Zeros(m);
    EventsHeld(header, events, Zeros(m));
    LogParts(h, rs);
    ReadHeader(h, events + Zeros(m));
    ZerosEndTheLog(header + events, m);
    ReadRecordsHeld(raw, h, |header|, rs);
  }

  lemma EventsHeld(header: Bytes, events: Bytes, rest: Bytes)
    ensures header + events + rest == header + (events + rest)
    ensures Holds(header + events + rest, |header|, events)
  {
  }

  /** Round trip. `raw` is the log, its region's zeros behind it or up to 16 of
      its own trailing zero bytes lost: it reads back as the records written,
      and the banks come out in the header's order. */
  lemma RoundTrip(h: Header, rs: seq<Record>, m: nat, raw: Bytes)
    requires LogOk(h, rs)
    requires raw + Zeros(16) == Encode(h, rs) + Zeros(m)
    ensures ParseOf(raw).Ok? && PresentsAll(ParseOf(raw).value, rs)
    ensures BankNames(raw) == Ok(Names(Algs(h.banks)))
  {
    hide LogOk, HeaderOk, EncodeHeader, EncodeRecords, HeaderBanks, ReadItems, ParsePadded, PresentsAll, AsItems, ByAlg,
         DistinctBanks, Events;
    LogParts(h, rs);
    ReadLog(h, rs, m);
    AsItemsPresent(rs, |EncodeHeader(h)|);
    assert Encode(h, rs) + Zeros(m) == EncodeHeader(h) + (EncodeRecords(rs) + Zeros(m));
    ReadHeader(h, EncodeRecords(rs) + Zeros(m));
    ByAlgMeans(h.banks);
  }

  /** A log dumped with its last `k` bytes lost, zeros all, and `z` zeros of its
      region behind it otherwise, is one `RoundTrip` reads. */
  lemma DumpedLog(h: Header, rs: seq<Record>, k: nat, z: nat)
    requires LogOk(h, rs)
    requires k <= 16 && k <= |Encode(h, rs)|
    requires Encode(h, rs)[|Encode(h, rs)| - k..] == Zeros(k)
    ensures PresentsLog(ParseOf(Encode(h, rs)[..|Encode(h, rs)| - k]), rs)
    ensures PresentsLog(ParseOf(Encode(h, rs) + Zeros(z)), rs)
  {
    var log := Encode(h, rs);
    var cut := log[..|log| - k];
    assert log == cut + Zeros(k);
    assert Zeros(k) + Zeros(16 - k) == Zeros(16);
    assert cut + Zeros(16) == log + Zeros(16 - k);
    RoundTrip(h, rs, 16 - k, cut);
    assert Zeros(z) + Zeros(16) == Zeros(z + 16);
    assert log + Zeros(z) + Zeros(16) == log + Zeros(z + 16);
    RoundTrip(h, rs, z + 16, log + Zeros(z));
  }

  // --- logs that lost more than the padding -----------------------------------

  lemma HalfInPrefix(raw: Bytes, full: Bytes, offset: nat)
    requires raw <= full && offset + 2 <= |raw|
    ensures Half(raw, offset) == Half(full, offset)
  {
    assert raw[offset] == full[offset] && raw[offset + 1] == full[offset + 1];
  }

  lemma WordInPrefix(raw: Bytes, full: Bytes, offset: nat)
    requires raw <= full && offset + 4 <= |raw|
    ensures Word(raw, offset) == Word(full, offset)
  {
    HalfInPrefix(raw, full, offset);
    HalfInPrefix(raw, full, offset + 2);
  }

  lemma HoldsInPrefix(raw: Bytes, full: Bytes, offset: nat, part: Bytes)
    requires raw <= full && Holds(full, offset, part) && offset + |part| <= |raw|
    ensures Holds(raw, offset, part)
  {
    assert raw[offset..offset + |part|] == full[offset..offset + |part|];
  }

  /** Digests read from a cut log end where those of the whole log end. */
  lemma {:induction false} ReadDigestsCut(raw: Bytes, full: Bytes, banks: Banks, offset: nat, count: nat,
        read: seq<Digest>, whole: seq<Digest>)
    requires raw <= full
    requires ReadDigests(raw, banks, offset, count, read).Ok? && ReadDigests(full, banks, offset, count, whole).Ok?
    ensures ReadDigests(raw, banks, offset, count, read).value.next
         == ReadDigests(full, banks, offset, count, whole).value.next
    decreases count
  {
    hide Half, Slice;
    if count != 0 {
      HalfInPrefix(raw, full, offset);
      var alg := Half(raw, offset);
      var next := offset + 2 + banks.vals[alg];
      ReadDigestsCut(raw, full, banks, next, count - 1, read + [Digest(alg, Slice(raw, offset + 2, next))],
        whole + [Digest(alg, Slice(full, offset + 2, next))]);
    }
  }

  /** A record cut short is not read, or its data is shorter. */
  lemma ReadEventCut(raw: Bytes, full: Bytes, banks: Banks, offset: nat)
    requires raw <= full && !AtEnd(full, offset) && ReadEvent(full, banks, offset).Ok?
    requires |raw| < ReadEvent(full, banks, offset).value.next
    ensures AtEnd(raw, offset) || ReadEvent(raw, banks, offset).Err?
         || |ReadEvent(raw, banks, offset).value.event.data| < ReadEvent(full, banks, offset).value.size
  {
    hide ReadDigests, Word, ByName;
    if !AtEnd(raw, offset) && ReadEvent(raw, banks, offset).Ok? {
      WordInPrefix(raw, full, offset + 8);
      var count := Word(raw, offset + 8);
      ReadDigestsCut(raw, full, banks, offset + 12, count, [], []);
      WordInPrefix(raw, full, ReadDigests(raw, banks, offset + 12, count, []).value.next);
    }
  }

  lemma PresentsRest(items: seq<Item>, rs: seq<Record>)
    requires items != [] && rs != [] && PresentsAll(Events(items), rs)
    ensures PresentsAll(Events(items[1..]), rs[1..]) && |items[0].event.data| == |rs[0].data|
  {
    assert Presents(Events(items)[0], rs[0]);
    hide Presents;
    forall i | 0 <= i < |items| - 1 ensures Presents(Events(items[1..])[i], rs[1..][i]) {
      assert Presents(Events(items)[i + 1], rs[i + 1]);
    }
  }

  /** What a cut log reads as is never all of its records. */
  lemma {:induction false} ReadRecordsCut(raw: Bytes, full: Bytes, h: Header, offset: nat, rs: seq<Record>)
    requires LogOk(h, rs) && rs != []
    requires raw <= full && Holds(full, offset, EncodeRecords(rs)) && |raw| < offset + |EncodeRecords(rs)|
    ensures var items := ReadItems(raw, ByAlg(h.banks), offset);
            items.Ok? ==> !PresentsAll(Events(items.value), rs)
    decreases |rs|
  {
    hide HeaderOk, RecordOk, Holds, EncodeRecord, ReadEvent, PresentsAll, Events, AtEnd, AsEvent;
    var banks := ByAlg(h.banks);
    HoldsParts(full, offset, EncodeRecord(rs[0]), EncodeRecords(rs[1..]));
    var next := offset + |EncodeRecord(rs[0])|;
    var items := ReadItems(raw, banks, offset);
    if items.Ok? && PresentsAll(Events(items.value), rs) {
      NothingPresented(rs);
      assert !AtEnd(raw, offset) && ReadEvent(raw, banks, offset).Ok?;
      PresentsRest(items.value, rs);
      if |raw| < next {
        ReadRecordHeld(full, h, offset, rs[0]);
        ReadEventCut(raw, full, banks, offset);
      } else {
        HoldsInPrefix(raw, full, offset, EncodeRecord(rs[0]));
        ReadRecordHeld(raw, h, offset, rs[0]);
        ReadRecordsCut(raw, full, h, next, rs[1..]);
      }
    }
  }

  lemma NothingPresented(rs: seq<Record>)
    ensures PresentsAll(Events([]), rs) ==> rs == []
  {
  }

  lemma {:induction false} ReadBanksNeed(spec: Bytes, i: nat, count: nat, read: seq<Bank>)
    requires i <= count && ReadBanks(spec, i, count, read).Ok?
    ensures i < count ==> 28 + 4 * count <= |spec|
    decreases count - i
  {
    hide Half;
    if i < count {
      ReadBanksNeed(spec, i + 1, count, read + [Bank(Half(spec, 28 + 4 * i), Half(spec, 30 + 4 * i))]);
    }
  }

  /** A cut header still declares its banks exactly when it has them all. */
  lemma ReadHeaderCut(h: Header, raw: Bytes)
    requires HeaderOk(h) && raw <= EncodeHeader(h) && 60 <= |raw|
    ensures HeaderBanks(raw).Ok? <==> 60 + 4 * |h.banks| <= |raw|
    ensures FirstOffset(raw) == |EncodeHeader(h)|
  {
    hide Pack32, EncodeSpec, EncodeBanks, Word, ReadBanks, ByAlg;
    var full, spec := EncodeHeader(h), EncodeSpec(h);
    HeaderParts(h, full);
    WordInPrefix(raw, full, 4);
    WordInPrefix(raw, full, 28);
    var part := Slice(raw, 32, FirstOffset(raw));
    assert part == spec[..|raw| - 32];
    SpecParts(h);
    WordInPrefix(part, spec, 24);
    if 60 + 4 * |h.banks| <= |raw| {
      HoldsInPrefix(part, spec, 28, EncodeBanks(h.banks));
      ReadBanksHeld(part, 0, h.banks, []);
    } else if HeaderBanks(raw).Ok? {
      ReadBanksNeed(part, 0, |h.banks|, []);
    }
  }

  lemma CutHeaderIff(h: Header, k: nat)
    requires HeaderOk(h) && 16 < k <= |EncodeHeader(h)|
    requires EncodeHeader(h)[|EncodeHeader(h)| - k..] == Zeros(k)
    ensures ParsePadded(EncodeHeader(h)[..|EncodeHeader(h)| - k + 16]) == Ok([])
       <==> 60 + 4 * |h.banks| <= |EncodeHeader(h)| - k + 16
  {
    hide HeaderBanks, HeaderOk, ByAlg, Zeros;
    var log := EncodeHeader(h);
    SignatureEnds(h, k);
    ReadHeaderCut(h, log[..|log| - k + 16]);
  }

  /** The signature is no zeros, so zeros lost from a header start behind it. */
  lemma SignatureEnds(h: Header, k: nat)
    requires HeaderOk(h) && k <= |EncodeHeader(h)|
    requires EncodeHeader(h)[|EncodeHeader(h)| - k..] == Zeros(k)
    ensures 46 < |EncodeHeader(h)| - k
  {
    hide Pack32, EncodeSpec, EncodeBanks, EncodeHeader;
    var log := EncodeHeader(h);
    HeaderParts(h, log);
    SpecParts(h);
    assert log[46] == EncodeSpec(h)[14] == SIGNATURE[14];
  }

  /** Zeros lost from a log with records are lost from the first record on. */
  lemma CountIsKept(h: Header, rs: seq<Record>, k: nat)
    requires LogOk(h, rs) && rs != []
    requires k <= |Encode(h, rs)| && Encode(h, rs)[|Encode(h, rs)| - k..] == Zeros(k)
    ensures |EncodeHeader(h)| + 8 < |Encode(h, rs)| - k
  {
    hide EncodeHeader, EncodeRecord, Word, HeaderOk, RecordOk, ReadEvent;
    var log, at := Encode(h, rs), |EncodeHeader(h)|;
    assert Holds(log, at, EncodeRecords(rs));
    HoldsParts(log, at, EncodeRecord(rs[0]), EncodeRecords(rs[1..]));
    ReadRecordHeld(log, h, at, rs[0]);
    if |log| - k <= at + 8 {
      forall i | at + 8 <= i < at + 12 ensures log[i] == 0 {
        assert log[i] == log[|log| - k..][i - (|log| - k)];
      }
      ZerosWord(log, at + 8);
    }
  }

  lemma CutRecords(h: Header, rs: seq<Record>, k: nat)
    requires LogOk(h, rs) && rs != []
    requires 16 < k <= |Encode(h, rs)| && Encode(h, rs)[|Encode(h, rs)| - k..] == Zeros(k)
    ensures var items := ParsePadded(Encode(h, rs)[..|Encode(h, rs)| - k + 16]);
            items.Ok? ==> !PresentsAll(Events(items.value), rs)
  {
    hide LogOk, EncodeHeader, EncodeRecords, HeaderBanks, ReadItems, PresentsAll, Events, ByAlg, Zeros;
    var log, header := Encode(h, rs), EncodeHeader(h);
    CountIsKept(h, rs, k);
    var raw := log[..|log| - k + 16];
    assert raw == header + raw[|header|..];
    assert HeaderOk(h) by { LogParts(h, rs); }
    ReadHeader(h, raw[|header|..]);
    assert Holds(log, |header|, EncodeRecords(rs));
    ReadRecordsCut(raw, log, h, |header|, rs);
  }

  /** How many trailing zeros a dump may lose. The log reads back exactly when
      they are no more than the parser's padding; one without records, as long
      as its banks are there. */
  lemma CutLogIff(h: Header, rs: seq<Record>, k: nat)
    requires LogOk(h, rs)
    requires k <= |Encode(h, rs)| && Encode(h, rs)[|Encode(h, rs)| - k..] == Zeros(k)
    ensures PresentsLog(ParseOf(Encode(h, rs)[..|Encode(h, rs)| - k]), rs)
       <==> k <= 16 || (rs == [] && 60 + 4 * |h.banks| <= |Encode(h, rs)| - k + 16)
  {
    hide LogOk, EncodeHeader, EncodeRecords, ParsePadded, Events, PresentsAll;
    var log := Encode(h, rs);
    if k <= 16 {
      DumpedLog(h, rs, k, 0);
    } else {
      var raw := log[..|log| - k];
      assert log == raw + Zeros(k);
      assert raw + Zeros(16) == log[..|log| - k + 16];
      if rs == [] {
        LogParts(h, rs);
        NoRecords(h);
        CutHeaderIff(h, k);
        NothingPresents(ParsePadded(raw + Zeros(16)));
      } else {
        CutRecords(h, rs, k);
      }
    }
  }

  lemma NoRecords(h: Header)
    ensures Encode(h, []) == EncodeHeader(h)
  {
  }

  lemma NothingPresents(parsed: Parsed<seq<Item>>)
    ensures parsed.Ok? && PresentsAll(Events(parsed.value), []) <==> parsed == Ok([])
  {
  }

  /** A log that ends in 17 zeros, and does not read back without them. */
  lemma SeventeenthZeroIsLost()
    ensures var h := Header(0, Zeros(20), Zeros(8), [Bank(4, 20)], []);
            var rs := [Record(17, EV_SLAUNCH, [Digest(4, Zeros(20))], Zeros(17))];
            var log := Encode(h, rs);
            && LogOk(h, rs) && 17 <= |log| && log[|log| - 17..] == Zeros(17)
            && PresentsLog(ParseOf(log[..|log| - 16]), rs) && !PresentsLog(ParseOf(log[..|log| - 17]), rs)
  {
    hide ParseOf, PresentsLog, EncodeDigests, Pack32;
    var h := Header(0, Zeros(20), Zeros(8), [Bank(4, 20)], []);
    var r := Record(17, EV_SLAUNCH, [Digest(4, Zeros(20))], Zeros(17));
    assert h.banks[0] == Bank(4, 20);
    var log := Encode(h, [r]);
    assert EncodeRecords([r]) == EncodeRecord(r);
    assert log[|log| - 17..] == Zeros(17);
    assert log[|log| - 16..] == Zeros(16);
    CutLogIff(h, [r], 16);
    CutLogIff(h, [r], 17);
  }
}
