/** Which bytes the parser accepts, and why it rejects the others: exactly those
    that are a log, its last event's data perhaps cut, in the encoder's terms. */
module EventLogShape {
  import opened Common
  import opened Text
  import opened EventLog
  import opened EventLogCodec
  import EventLogTail

  // --- what was read was packed -----------------------------------------------------

  lemma HalfPacked(raw: Bytes, offset: nat)
    requires offset + 2 <= |raw|
    ensures Half(raw, offset) < 0x10000 && Holds(raw, offset, Pack16(Half(raw, offset)))
  {
    assert raw[offset..offset + 2] == [raw[offset], raw[offset + 1]];
  }

  lemma HoldsJoin(raw: Bytes, offset: nat, a: Bytes, b: Bytes)
    requires Holds(raw, offset, a) && Holds(raw, offset + |a|, b)
    ensures Holds(raw, offset, a + b)
  {
    assert raw[offset..offset + |a + b|] == raw[offset..offset + |a|] + raw[offset + |a|..offset + |a| + |b|];
  }

  lemma WordPacked(raw: Bytes, offset: nat)
    requires offset + 4 <= |raw|
    ensures Word(raw, offset) < 0x1_0000_0000 && Holds(raw, offset, Pack32(Word(raw, offset)))
  {
    hide Half, Pack16, Holds;
    HalfPacked(raw, offset);
    HalfPacked(raw, offset + 2);
    HoldsJoin(raw, offset, Pack16(Half(raw, offset)), Pack16(Half(raw, offset + 2)));
  }

  // --- the header ---------------------------------------------------------------------

  /** "Spec ID Event03" and a zero. */
  ghost predicate Signed(spec: Bytes) {
    16 <= |spec| && spec[15] == 0 && forall i :: 0 <= i < 15 ==> spec[i] == "Spec ID Event03"[i] as int
  }

  lemma SignedIff(spec: Bytes)
    ensures SIGNATURE <= spec <==> Signed(spec)
  {
    assert forall i :: 0 <= i < 15 ==> SIGNATURE[i] == "Spec ID Event03"[i] as int;
    if Signed(spec) {
      assert forall i :: 0 <= i < 16 ==> spec[i] == SIGNATURE[i];
    }
    if SIGNATURE <= spec {
      assert forall i :: 0 <= i < 16 ==> spec[i] == SIGNATURE[i];
    }
  }

  ghost predicate HeaderEvent(raw: Bytes) {
    32 <= |raw| && Holds(raw, 4, Pack32(3))
  }

  ghost function Spec(raw: Bytes): Bytes
    requires 32 <= |raw|
  {
    Slice(raw, 32, 32 + Word(raw, 28))
  }

  /** The specification ID event declares `banks`. */
  ghost predicate Declares(spec: Bytes, banks: seq<Bank>) {
    && Signed(spec) && |banks| < 0x1_0000_0000
    && Holds(spec, 24, Pack32(|banks|)) && Holds(spec, 28, EncodeBanks(banks))
    && forall b :: b in banks ==> b.alg < 0x10000 && b.size < 0x10000
  }

  lemma {:induction false} ReadBanksBack(spec: Bytes, i: nat, count: nat, read: seq<Bank>) returns (banks: seq<Bank>)
    requires i <= count && 28 + 4 * i <= |spec| && ReadBanks(spec, i, count, read).Ok?
    ensures ReadBanks(spec, i, count, read).value == read + banks && |banks| == count - i
    ensures Holds(spec, 28 + 4 * i, EncodeBanks(banks))
    ensures forall b :: b in banks ==> b.alg < 0x10000 && b.size < 0x10000
    decreases count - i
  {
    hide Half, Pack16;
    if i == count {
      banks := [];
    } else {
      var b := Bank(Half(spec, 28 + 4 * i), Half(spec, 30 + 4 * i));
      var rest := ReadBanksBack(spec, i + 1, count, read + [b]);
      banks := [b] + rest;
      assert read + [b] + rest == read + banks && banks[1..] == rest;
      HalfPacked(spec, 28 + 4 * i);
      HalfPacked(spec, 30 + 4 * i);
      HoldsJoin(spec, 28 + 4 * i, Pack16(b.alg), Pack16(b.size));
      HoldsJoin(spec, 28 + 4 * i, Pack16(b.alg) + Pack16(b.size), EncodeBanks(rest));
    }
  }

  lemma IsHeaderEvent(raw: Bytes)
    ensures HeaderEvent(raw) <==> 32 <= |raw| && Word(raw, 4) == EV_NO_ACTION
  {
    hide Word, Pack32, Holds;
    if HeaderEvent(raw) {
      HeldWord(raw, 4, 3);
    }
    if 32 <= |raw| {
      WordPacked(raw, 4);
    }
  }

  /** A header that declares some banks is read as them, and ends with its event. */
  lemma DeclaredIsRead(raw: Bytes, banks: seq<Bank>)
    requires HeaderEvent(raw) && Declares(Spec(raw), banks)
    ensures HeaderBanks(raw) == Ok(ByAlg(banks))
  {
    hide Word, Pack32, Holds, EncodeBanks, ReadBanks, ByAlg, Slice, Signed;
    IsHeaderEvent(raw);
    var spec := Spec(raw);
    SignedIff(spec);
    HoldsWithin(spec, 24, Pack32(|banks|));
    HeldWord(spec, 24, |banks|);
    ReadBanksHeld(spec, 0, banks, []);
    assert [] + banks == banks;
  }

  /** Any other is rejected, for the first of these that applies: no header event, no
      specification ID, banks that are not there. */
  lemma HeaderRejects(raw: Bytes)
    ensures !HeaderEvent(raw) <==> HeaderBanks(raw) == Err(NotTcg2)
    ensures HeaderEvent(raw) && !Signed(Spec(raw)) <==> HeaderBanks(raw) == Err(NotSpecId)
    ensures HeaderBanks(raw).Err? && HeaderEvent(raw) && Signed(Spec(raw)) ==> HeaderBanks(raw) == Err(StructError)
    ensures HeaderBanks(raw).Ok? <==> HeaderEvent(raw) && exists banks :: Declares(Spec(raw), banks)
  {
    hide Word, Pack32, Holds, EncodeBanks, ReadBanks, ByAlg, Slice, Signed;
    IsHeaderEvent(raw);
    if HeaderEvent(raw) {
      var spec := Spec(raw);
      SignedIff(spec);
      if Signed(spec) && 28 <= |spec| {
        ReadBanksErr(spec, 0, Word(spec, 24), []);
      }
      if HeaderBanks(raw).Ok? {
        var banks := ReadBanksBack(spec, 0, Word(spec, 24), []);
        WordPacked(spec, 24);
        assert Declares(spec, banks);
      }
      if banks :| Declares(spec, banks) {
        DeclaredIsRead(raw, banks);
      }
    }
  }

  lemma {:induction false} ReadBanksErr(spec: Bytes, i: nat, count: nat, read: seq<Bank>)
    requires i <= count
    ensures ReadBanks(spec, i, count, read).Err? ==> ReadBanks(spec, i, count, read).error == StructError
    decreases count - i
  {
    hide Half;
    if i < count && 32 + 4 * i <= |spec| {
      ReadBanksErr(spec, i + 1, count, read + [Bank(Half(spec, 28 + 4 * i), Half(spec, 30 + 4 * i))]);
    }
  }

  /** `banks` has, of whatever bytes, the algorithms the padded header declares, each
      once, where it came first; and it fails as the header does. */
  lemma BanksIff(raw: Bytes, names: seq<string>)
    ensures var padded := raw + Zeros(16);
            BankNames(raw) == Ok(names) <==>
            HeaderEvent(padded) && exists banks :: Declares(Spec(padded), banks) && names == Names(Dedup(Algs(banks)))
  {
    hide HeaderBanks, HeaderEvent, Declares, Spec, Signed, Algs, ByAlg, Dedup, Zeros;
    var padded := raw + Zeros(16);
    HeaderEventLong(padded);
    HeaderRejects(padded);
    if HeaderEvent(padded) {
      forall banks | Declares(Spec(padded), banks) ensures BankNames(raw) == Ok(Names(Dedup(Algs(banks)))) {
        DeclaredIsRead(padded, banks);
        ByAlgKeys(banks);
      }
    }
  }

  // --- one event ------------------------------------------------------------------------

  /** A record as it can stand in a log with these banks. */
  ghost predicate Fits(banks: Banks, r: Record) {
    && r.pcr < 0x1_0000_0000 && r.etype < 0x1_0000_0000 && |r.data| < 0x1_0000_0000
    && 0 < |r.digests| < 0x1_0000_0000 && Declared(banks, r.digests)
  }

  lemma SliceHolds(raw: Bytes, lo: nat, hi: nat)
    requires lo <= hi <= |raw|
    ensures Holds(raw, lo, Slice(raw, lo, hi)) && |Slice(raw, lo, hi)| == hi - lo
  {
  }

  lemma DeclaredCons(banks: Banks, d: Digest, ds: seq<Digest>)
    requires Declared(banks, ds) && d.alg < 0x10000 && d.alg in banks.vals && banks.vals[d.alg] == |d.value|
    ensures Declared(banks, [d] + ds)
  {
  }

  /** Digests read within the log are what stands there. */
  lemma {:induction false} ReadDigestsBack(raw: Bytes, banks: Banks, offset: nat, count: nat, read: seq<Digest>)
    returns (ds: seq<Digest>)
    requires ReadDigests(raw, banks, offset, count, read).Ok?
    requires ReadDigests(raw, banks, offset, count, read).value.next <= |raw|
    ensures ReadDigests(raw, banks, offset, count, read).value.digests == read + ds && |ds| == count
    ensures Declared(banks, ds) && Holds(raw, offset, EncodeDigests(ds))
    ensures ReadDigests(raw, banks, offset, count, read).value.next == offset + |EncodeDigests(ds)|
    decreases count
  {
    hide Half, Pack16, Holds, Slice, Declared;
    if count == 0 {
      ds := [];
      assert read + ds == read;
      NoDigests(raw, banks, offset);
    } else {
      var alg := Half(raw, offset);
      var next := offset + 2 + banks.vals[alg];
      var d := Digest(alg, Slice(raw, offset + 2, next));
      var rest := ReadDigestsBack(raw, banks, next, count - 1, read + [d]);
      ds := [d] + rest;
      assert read + [d] + rest == read + ds && ds[1..] == rest;
      HalfPacked(raw, offset);
      SliceHolds(raw, offset + 2, next);
      DeclaredCons(banks, d, rest);
      HoldsJoin(raw, offset + 2, d.value, EncodeDigests(rest));
      HoldsJoin(raw, offset, Pack16(alg), d.value + EncodeDigests(rest));
    }
  }

  lemma NoDigests(raw: Bytes, banks: Banks, offset: nat)
    ensures Declared(banks, []) && (offset <= |raw| ==> Holds(raw, offset, []))
  {
  }

  /** A record up to its data. */
  function Head(r: Record): Bytes {
    Pack32(r.pcr) + (Pack32(r.etype) + (Pack32(|r.digests|) + (EncodeDigests(r.digests) + Pack32(|r.data|))))
  }

  lemma HeadThenData(r: Record)
    ensures EncodeRecord(r) == Head(r) + r.data
    ensures |Head(r)| == 16 + |EncodeDigests(r.digests)|
  {
    hide Pack32, EncodeDigests;
  }

  /** What stands at `offset` on is the start of `part`, or all of it. */
  ghost predicate Begins(raw: Bytes, offset: nat, part: Bytes) {
    Slice(raw, offset, offset + |part|) <= part
  }

  /** The event of a record whose data stands at `at`, as much of it as is there. */
  ghost function EventOf(raw: Bytes, at: nat, r: Record): Event {
    AsEvent(r).(data := Slice(raw, at, at + |r.data|))
  }

  lemma HeadIsRead(raw: Bytes, banks: Banks, offset: nat, r: Record)
    requires Fits(banks, r) && Holds(raw, offset, Head(r))
    ensures !AtEnd(raw, offset)
    ensures ReadEvent(raw, banks, offset) ==
            Ok(Item(EventOf(raw, offset + |Head(r)|, r), |r.data|, offset + |EncodeRecord(r)|))
  {
    hide EncodeDigests, Pack32, Word, Holds, ReadDigests, ByName, Slice, Declared;
    HeadThenData(r);
    var p4 := EncodeDigests(r.digests) + Pack32(|r.data|);
    var p3 := Pack32(|r.digests|) + p4;
    var at := offset + 12 + |EncodeDigests(r.digests)|;
    HoldsParts(raw, offset, Pack32(r.pcr), Pack32(r.etype) + p3);
    HoldsParts(raw, offset + 4, Pack32(r.etype), p3);
    HoldsParts(raw, offset + 8, Pack32(|r.digests|), p4);
    HoldsParts(raw, offset + 12, EncodeDigests(r.digests), Pack32(|r.data|));
    HeldWord(raw, offset, r.pcr);
    HeldWord(raw, offset + 4, r.etype);
    HeldWord(raw, offset + 8, |r.digests|);
    HeldWord(raw, at, |r.data|);
    ReadDigestsHeld(raw, banks, offset + 12, r.digests, []);
    assert [] + r.digests == r.digests;
  }

  /** An event that is read is a record that stands there. */
  lemma ReadEventBack(raw: Bytes, banks: Banks, offset: nat) returns (r: Record)
    requires !AtEnd(raw, offset) && ReadEvent(raw, banks, offset).Ok?
    ensures Fits(banks, r) && Holds(raw, offset, Head(r)) && Begins(raw, offset + |Head(r)|, r.data)
  {
    hide EncodeDigests, Pack32, Word, Holds, ReadDigests, Slice, Declared;
    var pcr, etype, count := Word(raw, offset), Word(raw, offset + 4), Word(raw, offset + 8);
    var list := ReadDigests(raw, banks, offset + 12, count, []).value;
    var ds := ReadDigestsBack(raw, banks, offset + 12, count, []);
    var size := Word(raw, list.next);
    var data := WithLength(raw, list.next + 4, size);
    r := Record(pcr, etype, ds, data);
    WordPacked(raw, offset);
    WordPacked(raw, offset + 4);
    WordPacked(raw, offset + 8);
    WordPacked(raw, list.next);
    var p4 := EncodeDigests(ds) + Pack32(size);
    HoldsJoin(raw, offset + 12, EncodeDigests(ds), Pack32(size));
    HoldsJoin(raw, offset + 8, Pack32(count), p4);
    HoldsJoin(raw, offset + 4, Pack32(etype), Pack32(count) + p4);
    HoldsJoin(raw, offset, Pack32(pcr), Pack32(etype) + (Pack32(count) + p4));
    HeadThenData(r);
  }

  lemma WithLength(raw: Bytes, at: nat, size: nat) returns (data: Bytes)
    ensures |data| == size && Begins(raw, at, data)
  {
    var there := Slice(raw, at, at + size);
    data := there + Zeros(size - |there|);
  }

  // --- all of them ------------------------------------------------------------------------

  /** A zero count, or less left than an event begins with. */
  ghost predicate Ends(raw: Bytes, offset: nat) {
    offset + 12 > |raw| || Holds(raw, offset + 8, Pack32(0))
  }

  lemma EndsIff(raw: Bytes, offset: nat)
    ensures AtEnd(raw, offset) <==> Ends(raw, offset)
  {
    hide Word, Holds, Pack32;
    if offset + 12 <= |raw| {
      WordPacked(raw, offset + 8);
      if Ends(raw, offset) {
        HeldWord(raw, offset + 8, 0);
      }
    }
  }

  /** The records stand one behind the other, the data of the last perhaps cut by
      the end of the log, which ends behind them. */
  ghost predicate LogFrom(raw: Bytes, banks: Banks, offset: nat, rs: seq<Record>)
    decreases |rs|
  {
    if rs == [] then Ends(raw, offset)
    else
      && Fits(banks, rs[0])
      && Holds(raw, offset, Head(rs[0])) && Begins(raw, offset + |Head(rs[0])|, rs[0].data)
      && LogFrom(raw, banks, offset + |EncodeRecord(rs[0])|, rs[1..])
  }

  ghost function EventsFrom(raw: Bytes, offset: nat, rs: seq<Record>): seq<Event>
    decreases |rs|
  {
    if rs == [] then []
    else [EventOf(raw, offset + |Head(rs[0])|, rs[0])] + EventsFrom(raw, offset + |EncodeRecord(rs[0])|, rs[1..])
  }

  lemma {:induction false} LogIsRead(raw: Bytes, banks: Banks, offset: nat, rs: seq<Record>)
    requires LogFrom(raw, banks, offset, rs)
    ensures ReadItems(raw, banks, offset).Ok?
    ensures Events(ReadItems(raw, banks, offset).value) == EventsFrom(raw, offset, rs)
    decreases |rs|
  {
    hide AtEnd, Ends, ReadEvent, EventOf, Head, EncodeRecord, Fits, Holds, Begins;
    EndsIff(raw, offset);
    if rs != [] {
      HeadIsRead(raw, banks, offset, rs[0]);
      var next := offset + |EncodeRecord(rs[0])|;
      LogIsRead(raw, banks, next, rs[1..]);
      EventsCons(ReadEvent(raw, banks, offset).value, ReadItems(raw, banks, next).value);
    }
  }

  lemma EventsCons(item: Item, items: seq<Item>)
    ensures Events([item] + items) == [item.event] + Events(items)
  {
  }

  lemma {:induction false} ReadItemsBack(raw: Bytes, banks: Banks, offset: nat) returns (rs: seq<Record>)
    requires ReadItems(raw, banks, offset).Ok?
    ensures LogFrom(raw, banks, offset, rs)
    decreases |raw| - offset
  {
    hide AtEnd, Ends, ReadEvent, EventOf, Head, EncodeRecord, Fits, Holds, Begins;
    EndsIff(raw, offset);
    rs := [];
    if !AtEnd(raw, offset) {
      AtEndWithin(raw, offset);
      var r := ReadEventBack(raw, banks, offset);
      HeadIsRead(raw, banks, offset, r);
      var rest := ReadItemsBack(raw, banks, ReadEvent(raw, banks, offset).value.next);
      rs := [r] + rest;
      assert rs[1..] == rest;
    }
  }

  lemma AtEndWithin(raw: Bytes, offset: nat)
    ensures !AtEnd(raw, offset) ==> offset + 12 <= |raw|
  {
  }

  /** A header that declares `banks` and, behind its event, the records that `es`
      presents. */
  ghost predicate IsLog(padded: Bytes, banks: seq<Bank>, rs: seq<Record>, es: seq<Event>)
    requires 32 <= |padded|
  {
    && Declares(Spec(padded), banks) && LogFrom(padded, ByAlg(banks), FirstOffset(padded), rs)
    && es == EventsFrom(padded, FirstOffset(padded), rs)
  }

  lemma LogIsParsed(padded: Bytes, banks: seq<Bank>, rs: seq<Record>, es: seq<Event>)
    requires HeaderEvent(padded) && IsLog(padded, banks, rs, es)
    ensures ParsePadded(padded).Ok? && Events(ParsePadded(padded).value) == es
  {
    hide HeaderBanks, Declares, ReadItems, Events, LogFrom, EventsFrom, ByAlg, FirstOffset, Holds, Spec;
    DeclaredIsRead(padded, banks);
    LogIsRead(padded, ByAlg(banks), FirstOffset(padded), rs);
  }

  lemma ParsedIsLog(padded: Bytes) returns (banks: seq<Bank>, rs: seq<Record>)
    requires ParsePadded(padded).Ok?
    ensures HeaderEvent(padded) && IsLog(padded, banks, rs, Events(ParsePadded(padded).value))
  {
    hide HeaderBanks, Declares, ReadItems, Events, LogFrom, EventsFrom, ByAlg, FirstOffset, Holds, Spec;
    HeaderRejects(padded);
    banks :| Declares(Spec(padded), banks);
    DeclaredIsRead(padded, banks);
    rs := ReadItemsBack(padded, ByAlg(banks), FirstOffset(padded));
    LogIsRead(padded, ByAlg(banks), FirstOffset(padded), rs);
  }

  /** Whatever the bytes: they parse to `es` exactly when, padded, they are a log
      that presents it. */
  lemma ParseIff(raw: Bytes, es: seq<Event>)
    ensures ParseOf(raw) == Ok(es) <==>
            HeaderEvent(raw + Zeros(16)) && exists banks, rs :: IsLog(raw + Zeros(16), banks, rs, es)
  {
    hide ParsePadded, IsLog, HeaderEvent, Events;
    HeaderEventLong(raw + Zeros(16));
    if ParseOf(raw) == Ok(es) {
      var banks, rs := ParsedIsLog(raw + Zeros(16));
    }
    if HeaderEvent(raw + Zeros(16)) {
      if banks, rs :| IsLog(raw + Zeros(16), banks, rs, es) {
        LogIsParsed(raw + Zeros(16), banks, rs, es);
      }
    }
  }

  lemma HeaderEventLong(raw: Bytes)
    ensures HeaderEvent(raw) ==> 32 <= |raw|
  {
  }

  /** The two rejections of a header are the parser's alone for it. */
  lemma HeaderErrorsIff(raw: Bytes)
    ensures var padded := raw + Zeros(16);
            && (ParseOf(raw) == Err(NotTcg2) <==> !HeaderEvent(padded))
            && (ParseOf(raw) == Err(NotSpecId) <==> HeaderEvent(padded) && !Signed(Spec(padded)))
  {
    hide HeaderBanks, HeaderEvent, ReadItems, Events, FirstOffset, Spec, Signed;
    var padded := raw + Zeros(16);
    HeaderEventLong(padded);
    HeaderRejects(padded);
    if HeaderBanks(padded).Ok? {
      EventLogTail.ItemsError(padded, HeaderBanks(padded).value, FirstOffset(padded));
    }
  }

  // --- the algorithm the header lacks ---------------------------------------------------------

  /** Behind whole records an event has, behind whole digests of its own, one of the
      algorithm `alg`, which the banks lack. */
  ghost predicate UnknownFrom(raw: Bytes, banks: Banks, offset: nat, rs: seq<Record>, ds: seq<Digest>, alg: nat)
    decreases |rs|
  {
    if rs == [] then
      && offset + 12 <= |raw| && |ds| < Word(raw, offset + 8)
      && Declared(banks, ds) && Holds(raw, offset + 12, EncodeDigests(ds))
      && alg < 0x10000 && alg !in banks.vals && Holds(raw, offset + 12 + |EncodeDigests(ds)|, Pack16(alg))
    else
      && Fits(banks, rs[0]) && Holds(raw, offset, Head(rs[0]))
      && UnknownFrom(raw, banks, offset + |EncodeRecord(rs[0])|, rs[1..], ds, alg)
  }

  lemma {:induction false} UnknownDigest(raw: Bytes, banks: Banks, offset: nat, count: nat, read: seq<Digest>,
        ds: seq<Digest>, alg: nat)
    requires |ds| < count && Declared(banks, ds) && Holds(raw, offset, EncodeDigests(ds))
    requires alg < 0x10000 && alg !in banks.vals && Holds(raw, offset + |EncodeDigests(ds)|, Pack16(alg))
    ensures ReadDigests(raw, banks, offset, count, read) == Err(KeyError(alg))
    decreases |ds|
  {
    hide Holds, Pack16, Slice, Half;
    if ds == [] {
      HeldHalf(raw, offset, alg);
    } else {
      var d := ds[0];
      HoldsParts(raw, offset, Pack16(d.alg), d.value + EncodeDigests(ds[1..]));
      HoldsParts(raw, offset + 2, d.value, EncodeDigests(ds[1..]));
      HeldHalf(raw, offset, d.alg);
      var next := offset + 2 + |d.value|;
      UnknownDigest(raw, banks, next, count - 1, read + [Digest(d.alg, Slice(raw, offset + 2, next))], ds[1..], alg);
    }
  }

  lemma {:induction false} KeyErrorBack(raw: Bytes, banks: Banks, offset: nat, count: nat, read: seq<Digest>)
    returns (ds: seq<Digest>)
    requires offset <= |raw|
    requires ReadDigests(raw, banks, offset, count, read).Err?
    requires ReadDigests(raw, banks, offset, count, read).error.KeyError?
    ensures var alg := ReadDigests(raw, banks, offset, count, read).error.alg;
            && |ds| < count && Declared(banks, ds) && Holds(raw, offset, EncodeDigests(ds))
            && alg < 0x10000 && alg !in banks.vals && Holds(raw, offset + |EncodeDigests(ds)|, Pack16(alg))
    decreases count
  {
    hide Half, Pack16, Holds, Slice, Declared;
    var alg := Half(raw, offset);
    HalfPacked(raw, offset);
    if alg !in banks.vals {
      ds := [];
      NoDigests(raw, banks, offset);
    } else {
      var next := offset + 2 + banks.vals[alg];
      var d := Digest(alg, Slice(raw, offset + 2, next));
      KeyErrorWithin(raw, banks, next, count - 1, read + [d]);
      var rest := KeyErrorBack(raw, banks, next, count - 1, read + [d]);
      ds := [d] + rest;
      assert ds[1..] == rest;
      SliceHolds(raw, offset + 2, next);
      DeclaredCons(banks, d, rest);
      HoldsJoin(raw, offset + 2, d.value, EncodeDigests(rest));
      HoldsJoin(raw, offset, Pack16(alg), d.value + EncodeDigests(rest));
    }
  }

  lemma KeyErrorWithin(raw: Bytes, banks: Banks, offset: nat, count: nat, read: seq<Digest>)
    requires ReadDigests(raw, banks, offset, count, read).Err?
    requires ReadDigests(raw, banks, offset, count, read).error.KeyError?
    ensures offset + 2 <= |raw|
  {
  }

  lemma {:induction false} UnknownIsRejected(raw: Bytes, banks: Banks, offset: nat, rs: seq<Record>, ds: seq<Digest>,
        alg: nat)
    requires UnknownFrom(raw, banks, offset, rs, ds, alg)
    ensures ReadItems(raw, banks, offset) == Err(KeyError(alg))
    decreases |rs|
  {
    hide Head, EncodeRecord, Fits, Holds, EventOf, Pack16, EncodeDigests, Declared, ReadDigests;
    if rs == [] {
      UnknownDigest(raw, banks, offset + 12, Word(raw, offset + 8), [], ds, alg);
    } else {
      HeadIsRead(raw, banks, offset, rs[0]);
      UnknownIsRejected(raw, banks, offset + |EncodeRecord(rs[0])|, rs[1..], ds, alg);
    }
  }

  lemma {:induction false} RejectedIsUnknown(raw: Bytes, banks: Banks, offset: nat)
    returns (rs: seq<Record>, ds: seq<Digest>)
    requires ReadItems(raw, banks, offset).Err? && ReadItems(raw, banks, offset).error.KeyError?
    ensures UnknownFrom(raw, banks, offset, rs, ds, ReadItems(raw, banks, offset).error.alg)
    decreases |raw| - offset
  {
    hide Head, EncodeRecord, Fits, Holds, EventOf, Pack16, EncodeDigests, Declared, ReadDigests, ByName;
    AtEndWithin(raw, offset);
    if ReadEvent(raw, banks, offset).Err? {
      rs := [];
      ds := KeyErrorBack(raw, banks, offset + 12, Word(raw, offset + 8), []);
    } else {
      var r := ReadEventBack(raw, banks, offset);
      HeadIsRead(raw, banks, offset, r);
      var rest, more := RejectedIsUnknown(raw, banks, ReadEvent(raw, banks, offset).value.next);
      rs, ds := [r] + rest, more;
      assert rs[1..] == rest;
    }
  }

  ghost predicate HasUnknown(padded: Bytes, banks: seq<Bank>, rs: seq<Record>, ds: seq<Digest>, alg: nat)
    requires 32 <= |padded|
  {
    Declares(Spec(padded), banks) && UnknownFrom(padded, ByAlg(banks), FirstOffset(padded), rs, ds, alg)
  }

  /** The parser stumbles over an algorithm exactly when the first event it cannot
      read has a digest of it that the header does not declare. Together with
      `ParseIff` and `HeaderErrorsIff` this leaves struct.error for all other bytes. */
  lemma KeyErrorIff(raw: Bytes, alg: nat)
    ensures ParseOf(raw) == Err(KeyError(alg)) <==>
            && HeaderEvent(raw + Zeros(16))
            && exists banks, rs, ds :: HasUnknown(raw + Zeros(16), banks, rs, ds, alg)
  {
    hide HeaderBanks, Declares, HeaderEvent, ReadItems, Events, UnknownFrom, ByAlg, FirstOffset, Spec, Signed;
    var padded := raw + Zeros(16);
    HeaderEventLong(padded);
    HeaderRejects(padded);
    if ParseOf(raw) == Err(KeyError(alg)) {
      var banks :| Declares(Spec(padded), banks);
      DeclaredIsRead(padded, banks);
      var rs, ds := RejectedIsUnknown(padded, ByAlg(banks), FirstOffset(padded));
      assert HasUnknown(padded, banks, rs, ds, alg);
    }
    if HeaderEvent(padded) {
      if banks, rs, ds :| HasUnknown(padded, banks, rs, ds, alg) {
        DeclaredIsRead(padded, banks);
        UnknownIsRejected(padded, ByAlg(banks), FirstOffset(padded), rs, ds, alg);
      }
    }
  }
}
