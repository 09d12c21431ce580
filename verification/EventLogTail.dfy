/** What the parser makes of arbitrary bytes: how far it reads, what it can
    cut short, and what zeros after the log change. */
module EventLogTail {
  import opened Common
  import opened Text
  import opened EventLog

  // --- truncation and progress -------------------------------------------------

  /** The last event ran past the end, which its data alone can do. */
  ghost predicate Overran(items: seq<Item>, raw: Bytes) {
    items != [] && items[|items| - 1].next > |raw|
  }

  ghost predicate DigestFull(banks: Banks, d: Digest) {
    d.alg in banks.vals && |d.value| == banks.vals[d.alg]
  }

  /** Every digest is one the header declares, at its full size. */
  ghost predicate DigestsFull(banks: Banks, digests: map<string, string>) {
    forall name :: name in digests ==>
      exists alg :: alg in banks.vals && AlgName(alg) == name && |digests[name]| == 2 * banks.vals[alg]
  }

  lemma {:induction false} ReadDigestsFull(raw: Bytes, banks: Banks, offset: nat, count: nat, read: seq<Digest>)
    requires ReadDigests(raw, banks, offset, count, read).Ok?
    requires ReadDigests(raw, banks, offset, count, read).value.next <= |raw|
    requires forall d :: d in read ==> DigestFull(banks, d)
    ensures forall d :: d in ReadDigests(raw, banks, offset, count, read).value.digests ==> DigestFull(banks, d)
    decreases count
  {
    if count != 0 {
      var alg := Half(raw, offset);
      var next := offset + 2 + banks.vals[alg];
      ReadDigestsFull(raw, banks, next, count - 1, read + [Digest(alg, Slice(raw, offset + 2, next))]);
    }
  }

  lemma {:induction false} ByNameFull(banks: Banks, ds: seq<Digest>)
    requires forall d :: d in ds ==> DigestFull(banks, d)
    ensures DigestsFull(banks, ByName(ds))
  {
    hide AlgName;
    if ds != [] {
      var last := ds[|ds| - 1];
      ByNameFull(banks, ds[..|ds| - 1]);
      HexRoundTrip(last.value);
      assert DigestFull(banks, last);
    }
  }

  lemma ReadEventFull(raw: Bytes, banks: Banks, offset: nat)
    requires !AtEnd(raw, offset) && ReadEvent(raw, banks, offset).Ok?
    ensures var item := ReadEvent(raw, banks, offset).value;
            && offset + 18 <= |raw|
            && DigestsFull(banks, item.event.digests)
            && |item.event.data| <= item.size
            && (|item.event.data| == item.size <==> item.next <= |raw|)
  {
    hide DigestsFull, ByName;
    var list := ReadDigests(raw, banks, offset + 12, Word(raw, offset + 8), []).value;
    ReadDigestsFull(raw, banks, offset + 12, Word(raw, offset + 8), []);
    ByNameFull(banks, list.digests);
  }

  lemma {:induction false} ReadItemsFull(raw: Bytes, banks: Banks, offset: nat)
    requires ReadItems(raw, banks, offset).Ok?
    ensures var items := ReadItems(raw, banks, offset).value;
            && (items != [] ==> offset + 18 * |items| <= |raw|)
            && (forall i :: 0 <= i < |items| ==> DigestsFull(banks, items[i].event.digests))
            && (forall i :: 0 <= i < |items| ==> |items[i].event.data| <= items[i].size)
            && (forall i :: 0 <= i < |items| - 1 ==> |items[i].event.data| == items[i].size)
            && (items != [] ==> (Overran(items, raw) <==> |items[|items| - 1].event.data| < items[|items| - 1].size))
    decreases |raw| - offset
  {
    hide DigestsFull, ReadEvent;
    if !AtEnd(raw, offset) {
      var item := ReadEvent(raw, banks, offset).value;
      ReadEventFull(raw, banks, offset);
      ReadItemsFull(raw, banks, item.next);
    }
  }

  /** For any bytes the parser accepts: digests are whole, no event but the last
      has less data than it declares, and the events fit the log 18 bytes each. */
  lemma OnlyTheLastEventIsCut(raw: Bytes)
    requires ParseItems(raw).Ok?
    ensures var padded := raw + Zeros(16);
            var items := ParseItems(raw).value;
            var n := |items|;
            && HeaderBanks(padded).Ok?
            && ParseOf(raw) == Ok(Events(items))
            && (forall i :: 0 <= i < n ==> DigestsFull(HeaderBanks(padded).value, items[i].event.digests))
            && (forall i :: 0 <= i < n - 1 ==> |items[i].event.data| == items[i].size)
            && (n > 0 ==> |items[n - 1].event.data| <= items[n - 1].size)
            && (n > 0 ==> (Overran(items, padded) <==> |items[n - 1].event.data| < items[n - 1].size))
            && (n > 0 ==> 18 * n <= |raw| - 16 - Word(padded, 28))
  {
    var padded := raw + Zeros(16);
    ReadItemsFull(padded, HeaderBanks(padded).value, FirstOffset(padded));
  }

  // --- zeros behind the log --------------------------------------------------

  /** `longer` is `raw` with zeros behind it, the last 16 of `raw` zero as well. */
  ghost predicate Padded(raw: Bytes, longer: Bytes) {
    && 16 <= |raw| <= |longer|
    && (forall i :: 0 <= i < |raw| ==> longer[i] == raw[i])
    && (forall i :: |raw| - 16 <= i < |longer| ==> longer[i] == 0)
  }

  lemma {:induction false} BanksUnchanged(spec: Bytes, longer: Bytes, i: nat, count: nat, read: seq<Bank>)
    requires i <= count && spec <= longer
    requires ReadBanks(spec, i, count, read).Ok?
    ensures ReadBanks(longer, i, count, read) == ReadBanks(spec, i, count, read)
    decreases count - i
  {
    if i < count {
      BanksUnchanged(spec, longer, i + 1, count, read + [Bank(Half(spec, 28 + 4 * i), Half(spec, 30 + 4 * i))]);
    }
  }

  lemma HeaderUnchanged(raw: Bytes, longer: Bytes)
    requires Padded(raw, longer) && HeaderBanks(raw).Ok?
    ensures HeaderBanks(longer) == HeaderBanks(raw)
    ensures FirstOffset(longer) == FirstOffset(raw)
  {
    var spec := Slice(raw, 32, FirstOffset(raw));
    var more := Slice(longer, 32, FirstOffset(raw));
    assert spec <= more;
    BanksUnchanged(spec, more, 0, Word(spec, 24), []);
  }

  lemma {:induction false} DigestsUnchanged(raw: Bytes, longer: Bytes, banks: Banks, offset: nat, count: nat,
        read: seq<Digest>)
    requires Padded(raw, longer)
    requires ReadDigests(raw, banks, offset, count, read).Ok?
    requires ReadDigests(raw, banks, offset, count, read).value.next <= |raw|
    ensures ReadDigests(longer, banks, offset, count, read) == ReadDigests(raw, banks, offset, count, read)
    decreases count
  {
    if count != 0 {
      var alg := Half(raw, offset);
      var next := offset + 2 + banks.vals[alg];
      assert Half(longer, offset) == alg;
      assert Slice(longer, offset + 2, next) == Slice(raw, offset + 2, next);
      DigestsUnchanged(raw, longer, banks, next, count - 1, read + [Digest(alg, Slice(raw, offset + 2, next))]);
    }
  }

  lemma DataUnchanged(raw: Bytes, longer: Bytes, lo: nat, hi: nat)
    requires Padded(raw, longer) && lo <= |raw| && lo <= hi
    ensures hi <= |raw| ==> Slice(longer, lo, hi) == Slice(raw, lo, hi)
    ensures hi > |raw| && |longer| > |raw| ==> |Slice(longer, lo, hi)| > |Slice(raw, lo, hi)|
  {
  }

  lemma WordUnchanged(raw: Bytes, longer: Bytes, offset: nat)
    requires Padded(raw, longer) && offset + 4 <= |raw|
    ensures Word(longer, offset) == Word(raw, offset)
  {
  }

  lemma EventUnchanged(raw: Bytes, longer: Bytes, banks: Banks, offset: nat)
    requires Padded(raw, longer)
    requires !AtEnd(raw, offset) && ReadEvent(raw, banks, offset).Ok?
    ensures !AtEnd(longer, offset) && ReadEvent(longer, banks, offset).Ok?
    ensures var item, more := ReadEvent(raw, banks, offset).value, ReadEvent(longer, banks, offset).value;
            && more.next == item.next
            && (item.next <= |raw| ==> more == item)
            && (item.next > |raw| && |longer| > |raw| ==> |more.event.data| > |item.event.data|)
  {
    assert |raw| <= |longer|;
    hide ByName, Padded, Word, Slice;
    var count := Word(raw, offset + 8);
    var list := ReadDigests(raw, banks, offset + 12, count, []).value;
    DigestsUnchanged(raw, longer, banks, offset + 12, count, []);
    WordUnchanged(raw, longer, offset);
    WordUnchanged(raw, longer, offset + 4);
    WordUnchanged(raw, longer, offset + 8);
    WordUnchanged(raw, longer, list.next);
    hide ReadDigests;
    DataUnchanged(raw, longer, list.next + 4, list.next + 4 + Word(raw, list.next));
  }

  lemma EndUnchanged(raw: Bytes, longer: Bytes, offset: nat)
    requires Padded(raw, longer) && AtEnd(raw, offset)
    ensures AtEnd(longer, offset)
  {
  }

  lemma {:induction false} ItemsUnchanged(raw: Bytes, longer: Bytes, banks: Banks, offset: nat)
    requires Padded(raw, longer) && ReadItems(raw, banks, offset).Ok?
    ensures var items := ReadItems(raw, banks, offset).value;
            && ReadItems(longer, banks, offset).Ok?
            && var more := ReadItems(longer, banks, offset).value;
            && |more| == |items|
            && (!Overran(items, raw) ==> more == items)
            && (Overran(items, raw) && |longer| > |raw| ==>
                  |more[|more| - 1].event.data| > |items[|items| - 1].event.data|)
    decreases |raw| - offset
  {
    hide Padded, ReadEvent;
    if AtEnd(raw, offset) {
      EndUnchanged(raw, longer, offset);
    } else {
      EventUnchanged(raw, longer, banks, offset);
      ItemsUnchanged(raw, longer, banks, ReadEvent(raw, banks, offset).value.next);
    }
  }

  /** Zero tail. More zeros behind a log change what it parses to exactly when
      its last event ran past the padding the parser adds itself. */
  lemma ZeroTail(raw: Bytes, m: nat)
    requires ParseItems(raw).Ok?
    ensures ParseOf(raw + Zeros(m)).Ok?
    ensures ParseOf(raw + Zeros(m)) == ParseOf(raw) <==>
            m == 0 || !Overran(ParseItems(raw).value, raw + Zeros(16))
  {
    var padded, longer := raw + Zeros(16), raw + Zeros(m) + Zeros(16);
    assert Padded(padded, longer);
    HeaderUnchanged(padded, longer);
    var banks := HeaderBanks(padded).value;
    var items := ParseItems(raw).value;
    ItemsUnchanged(padded, longer, banks, FirstOffset(padded));
    if m == 0 {
      assert longer == padded;
    }
    var more := ParseItems(raw + Zeros(m)).value;
    if m > 0 && Overran(items, padded) {
      assert Events(items)[|items| - 1].data != Events(more)[|more| - 1].data;
    }
  }

  // --- zeros behind what is rejected ----------------------------------------

  lemma {:induction false} KeyErrorStands(raw: Bytes, longer: Bytes, banks: Banks, offset: nat, count: nat,
        read: seq<Digest>, other: seq<Digest>)
    requires Padded(raw, longer)
    requires ReadDigests(raw, banks, offset, count, read).Err?
    requires ReadDigests(raw, banks, offset, count, read).error.KeyError?
    ensures ReadDigests(longer, banks, offset, count, other).Err?
    ensures ReadDigests(longer, banks, offset, count, other).error ==
            ReadDigests(raw, banks, offset, count, read).error
    decreases count
  {
    hide Slice;
    assert Half(longer, offset) == Half(raw, offset);
    var alg := Half(raw, offset);
    if alg in banks.vals {
      var next := offset + 2 + banks.vals[alg];
      KeyErrorStands(raw, longer, banks, next, count - 1, read + [Digest(alg, Slice(raw, offset + 2, next))],
        other + [Digest(alg, Slice(longer, offset + 2, next))]);
    }
  }

  lemma EventRejected(raw: Bytes, longer: Bytes, banks: Banks, offset: nat)
    requires Padded(raw, longer) && !AtEnd(raw, offset)
    requires ReadEvent(raw, banks, offset).Err? && ReadEvent(raw, banks, offset).error.KeyError?
    ensures !AtEnd(longer, offset) && ReadEvent(longer, banks, offset).Err?
    ensures ReadEvent(longer, banks, offset).error == ReadEvent(raw, banks, offset).error
  {
    assert |raw| <= |longer|;
    hide ByName, Padded, Word, ReadDigests;
    WordUnchanged(raw, longer, offset + 8);
    KeyErrorStands(raw, longer, banks, offset + 12, Word(raw, offset + 8), [], []);
  }

  lemma {:induction false} ItemsRejected(raw: Bytes, longer: Bytes, banks: Banks, offset: nat)
    requires Padded(raw, longer)
    requires ReadItems(raw, banks, offset).Err? && ReadItems(raw, banks, offset).error.KeyError?
    ensures ReadItems(longer, banks, offset).Err?
    ensures ReadItems(longer, banks, offset).error == ReadItems(raw, banks, offset).error
    decreases |raw| - offset
  {
    hide Padded, ReadEvent;
    if ReadEvent(raw, banks, offset).Err? {
      EventRejected(raw, longer, banks, offset);
    } else {
      EventUnchanged(raw, longer, banks, offset);
      ItemsRejected(raw, longer, banks, ReadEvent(raw, banks, offset).value.next);
    }
  }

  lemma {:induction false} ReadBanksErrs(spec: Bytes, i: nat, count: nat, read: seq<Bank>)
    requires i <= count
    ensures ReadBanks(spec, i, count, read).Err? ==> ReadBanks(spec, i, count, read).error == StructError
    decreases count - i
  {
    if i < count && 32 + 4 * i <= |spec| {
      ReadBanksErrs(spec, i + 1, count, read + [Bank(Half(spec, 28 + 4 * i), Half(spec, 30 + 4 * i))]);
    }
  }

  lemma HeaderRejected(raw: Bytes, longer: Bytes)
    requires Padded(raw, longer) && 32 <= |raw|
    requires HeaderBanks(raw).Err? && HeaderBanks(raw).error != StructError
    ensures HeaderBanks(longer).Err? && HeaderBanks(longer).error == HeaderBanks(raw).error
  {
    hide ReadBanks;
    WordUnchanged(raw, longer, 4);
    WordUnchanged(raw, longer, 28);
    if Word(raw, 4) == EV_NO_ACTION {
      var spec := Slice(raw, 32, FirstOffset(raw));
      if SIGNATURE <= spec && 28 <= |spec| {
        ReadBanksErrs(spec, 0, Word(spec, 24), []);
      }
      var more := Slice(longer, 32, FirstOffset(raw));
      if |spec| < 16 && spec != more && more != [] {
        assert more[0] == longer[32] == 0;
      }
    }
  }

  /** A dump of 16 bytes or more that is rejected for what it says, and not for
      where it ends, is rejected the same with zeros behind it. */
  lemma RejectionStands(raw: Bytes, m: nat)
    requires 16 <= |raw| && ParseOf(raw).Err? && ParseOf(raw).error != StructError
    ensures ParseOf(raw + Zeros(m)) == ParseOf(raw)
  {
    hide ReadItems, HeaderBanks;
    var padded, longer := raw + Zeros(16), raw + Zeros(m) + Zeros(16);
    assert Padded(padded, longer);
    if HeaderBanks(padded).Err? {
      HeaderRejected(padded, longer);
    } else {
      HeaderUnchanged(padded, longer);
      var banks := HeaderBanks(padded).value;
      ItemsError(padded, banks, FirstOffset(padded));
      ItemsRejected(padded, longer, banks, FirstOffset(padded));
    }
  }

  lemma {:induction false} DigestsError(raw: Bytes, banks: Banks, offset: nat, count: nat, read: seq<Digest>)
    ensures var r := ReadDigests(raw, banks, offset, count, read);
            r.Err? ==> r.error.StructError? || r.error.KeyError?
    decreases count
  {
    if count != 0 && offset + 2 <= |raw| && Half(raw, offset) in banks.vals {
      var alg := Half(raw, offset);
      var next := offset + 2 + banks.vals[alg];
      DigestsError(raw, banks, next, count - 1, read + [Digest(alg, Slice(raw, offset + 2, next))]);
    }
  }

  lemma {:induction false} ItemsError(raw: Bytes, banks: Banks, offset: nat)
    ensures var r := ReadItems(raw, banks, offset);
            r.Err? ==> r.error.StructError? || r.error.KeyError?
    decreases |raw| - offset
  {
    hide ReadDigests, ByName, Word;
    if !AtEnd(raw, offset) {
      DigestsError(raw, banks, offset + 12, Word(raw, offset + 8), []);
      if ReadEvent(raw, banks, offset).Ok? {
        ItemsError(raw, banks, ReadEvent(raw, banks, offset).value.next);
      }
    }
  }
}
