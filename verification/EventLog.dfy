/** The parser of a TCG2 event log: what the loops compute, as functions over
    the log's bytes, and the loops themselves. */
module EventLog {
  import opened Common
  import opened Text

  const EV_NO_ACTION: nat := 0x3
  const EV_SLAUNCH: nat := 0x502

  /** "Spec ID Event03" and its terminating zero. */
  const SIGNATURE: Bytes := [83, 112, 101, 99, 32, 73, 68, 32, 69, 118, 101, 110, 116, 48, 51, 0]

  datatype ParseError =
    | NotTcg2             // ValueError: no header event
    | NotSpecId           // ValueError: another header event
    | StructError         // struct.error: a fixed-size read past the end
    | KeyError(alg: nat)  // a digest of an algorithm the header lacks

  type Parsed<T> = Result<T, ParseError>

  /** Digests and data as the log has them, the digests as hexadecimal digits
      by algorithm name. */
  datatype Event = Event(pcr: nat, etype: nat, digests: map<string, string>, data: Bytes)

  /** The banks a header declares: algorithm id to digest size, in its order. */
  type Banks = Dict<nat, nat>

  function AlgName(alg: nat): string {
    if alg == 0x4 then "sha1"
    else if alg == 0xB then "sha256"
    else if alg == 0xC then "sha384"
    else if alg == 0xD then "sha512"
    else "0x" + HexNat(alg)
  }

  /** No two algorithms share a name, so no digest of an event hides another. */
  lemma AlgNameInjective(a: nat, b: nat)
    requires AlgName(a) == AlgName(b)
    ensures a == b
  {
    hide HexNat, ValueOf;
    HexNatRead(a);
    HexNatRead(b);
    assert ("0x" + HexNat(a))[2..] == HexNat(a) && ("0x" + HexNat(b))[2..] == HexNat(b);
    assert ("0x" + HexNat(a))[0] == '0' && ("0x" + HexNat(b))[0] == '0';
    assert "sha1"[0] == 's' && "sha256"[0] == 's' && "sha384"[0] == 's' && "sha512"[0] == 's';
    assert "sha256"[3] == '2' && "sha384"[3] == '3' && "sha512"[3] == '5' && "sha1"[3] == '1';
  }

  /** The four named as the TCG registers them, any other by its number in hex. */
  lemma AlgNames(alg: nat)
    ensures AlgName(0x0004) == "sha1" && AlgName(0x000B) == "sha256"
    ensures AlgName(0x000C) == "sha384" && AlgName(0x000D) == "sha512"
    ensures alg !in {0x0004, 0x000B, 0x000C, 0x000D} ==>
              && |AlgName(alg)| > 2 && AlgName(alg)[..2] == "0x" && ValueOf(AlgName(alg)[2..]) == alg
              && (forall c :: c in AlgName(alg)[2..] ==> c in "0123456789abcdef")
              && (alg > 0 ==> AlgName(alg)[2] != '0')
  {
    HexNatRead(alg);
    HexNatDigits(alg);
    assert ("0x" + HexNat(alg))[2..] == HexNat(alg);
  }

  // --- struct.unpack_from ---------------------------------------------------

  function ByteAt(s: Bytes, i: nat): nat
    requires i < |s|
  {
    s[i]
  }

  function Half(s: Bytes, offset: nat): nat
    requires offset + 2 <= |s|
  {
    ByteAt(s, offset) + 0x100 * ByteAt(s, offset + 1)
  }

  function Word(s: Bytes, offset: nat): nat
    requires offset + 4 <= |s|
  {
    Half(s, offset) + 0x10000 * Half(s, offset + 2)
  }

  /** Little-endian reads, which raise where a slice would shorten. */
  function Unpack16(s: Bytes, offset: nat): Parsed<nat> {
    if offset + 2 <= |s| then Ok(Half(s, offset)) else Err(StructError)
  }

  function Unpack32(s: Bytes, offset: nat): Parsed<nat> {
    if offset + 4 <= |s| then Ok(Word(s, offset)) else Err(StructError)
  }

  // --- the header -----------------------------------------------------------

  /** A bank as it stands in the header. */
  datatype Bank = Bank(alg: nat, size: nat)

  /** The header's banks from number `i` on, behind those already `read`. */
  function ReadBanks(spec: Bytes, i: nat, count: nat, read: seq<Bank>): Parsed<seq<Bank>>
    requires i <= count
    decreases count - i
  {
    if i == count then Ok(read)
    else
      var alg :- Unpack16(spec, 28 + 4 * i);
      var size :- Unpack16(spec, 30 + 4 * i);
      ReadBanks(spec, i + 1, count, read + [Bank(alg, size)])
  }

  /** The banks by algorithm, a later one over an earlier one of its algorithm. */
  function ByAlg(banks: seq<Bank>): Banks {
    if banks == [] then EmptyDict()
    else
      var last := banks[|banks| - 1];
      ByAlg(banks[..|banks| - 1]).Put(last.alg, last.size)
  }

  /** The end of the header event, where the events start. */
  function FirstOffset(raw: Bytes): nat
    requires 32 <= |raw|
  {
    32 + Word(raw, 28)
  }

  function HeaderBanks(raw: Bytes): (r: Parsed<Banks>)
    ensures r.Ok? ==> 32 <= |raw|
  {
    if |raw| < 32 || Word(raw, 4) != EV_NO_ACTION then Err(NotTcg2)
    else
      var spec := Slice(raw, 32, FirstOffset(raw));
      if !(SIGNATURE <= spec) then Err(NotSpecId)
      else
        var count :- Unpack32(spec, 24);
        var read :- ReadBanks(spec, 0, count, []);
        Ok(ByAlg(read))
  }

  method Algorithms(raw: Bytes) returns (r: Parsed<Banks>)
    ensures r == HeaderBanks(raw)
  {
    if |raw| < 32 || Word(raw, 4) != EV_NO_ACTION {
      return Err(NotTcg2);
    }
    var size := Word(raw, 28);
    var spec := Slice(raw, 32, 32 + size);
    if !(SIGNATURE <= spec) {
      return Err(NotSpecId);
    }
    var count :- Unpack32(spec, 24);
    var algorithms: Banks := EmptyDict();
    ghost var whole, read := ReadBanks(spec, 0, count, []), [];
    for i := 0 to count
      invariant whole == ReadBanks(spec, i, count, read)
      invariant algorithms == ByAlg(read)
    {
      var alg :- Unpack16(spec, 28 + 4 * i);
      var digestSize :- Unpack16(spec, 30 + 4 * i);
      algorithms := algorithms.Put(alg, digestSize);
      read := read + [Bank(alg, digestSize)];
    }
    return Ok(algorithms);
  }

  function Names(algs: seq<nat>): seq<string> {
    seq(|algs|, i requires 0 <= i < |algs| => AlgName(algs[i]))
  }

  function BankNames(raw: Bytes): Parsed<seq<string>> {
    var algorithms :- HeaderBanks(raw + Zeros(16));
    Ok(Names(algorithms.keys))
  }

  // --- the events -----------------------------------------------------------

  /** A digest as it stands in an event. */
  datatype Digest = Digest(alg: nat, value: Bytes)

  datatype DigestList = DigestList(digests: seq<Digest>, next: nat)

  /** `count` digests from `offset` on, behind those already `read`. */
  function ReadDigests(raw: Bytes, banks: Banks, offset: nat, count: nat, read: seq<Digest>): (r: Parsed<DigestList>)
    ensures r.Ok? ==> offset + 2 * count <= r.value.next
    decreases count
  {
    if count == 0 then Ok(DigestList(read, offset))
    else
      var alg :- Unpack16(raw, offset);
      if alg !in banks.vals then Err(KeyError(alg))
      else
        var next := offset + 2 + banks.vals[alg];
        ReadDigests(raw, banks, next, count - 1, read + [Digest(alg, Slice(raw, offset + 2, next))])
  }

  /** The digests by name, a later one over an earlier one of its name. */
  function ByName(ds: seq<Digest>): map<string, string> {
    if ds == [] then map[]
    else
      var last := ds[|ds| - 1];
      ByName(ds[..|ds| - 1])[AlgName(last.alg) := Hex(last.value)]
  }

  /** The zeros that end the log, or less than an event's fixed part left. */
  predicate AtEnd(raw: Bytes, offset: nat) {
    offset + 12 > |raw| || Word(raw, offset + 8) == 0
  }

  /** One event, the length its data was declared with, and the offset after it. */
  datatype Item = Item(event: Event, size: nat, next: nat)

  function ReadEvent(raw: Bytes, banks: Banks, offset: nat): (r: Parsed<Item>)
    requires !AtEnd(raw, offset)
    ensures r.Ok? ==> offset + 18 <= r.value.next
  {
    var list :- ReadDigests(raw, banks, offset + 12, Word(raw, offset + 8), []);
    var size :- Unpack32(raw, list.next);
    var next := list.next + 4 + size;
    var data := Slice(raw, list.next + 4, next);
    Ok(Item(Event(Word(raw, offset), Word(raw, offset + 4), ByName(list.digests), data), size, next))
  }

  /** The items from `offset` on. */
  function ReadItems(raw: Bytes, banks: Banks, offset: nat): Parsed<seq<Item>>
    decreases |raw| - offset
  {
    if AtEnd(raw, offset) then Ok([])
    else
      var item :- ReadEvent(raw, banks, offset);
      var rest :- ReadItems(raw, banks, item.next);
      Ok([item] + rest)
  }

  function Events(items: seq<Item>): (es: seq<Event>)
    ensures |es| == |items|
  {
    seq(|items|, i requires 0 <= i < |items| => items[i].event)
  }

  /** The items of a log that already has its padding. */
  function ParsePadded(raw: Bytes): Parsed<seq<Item>> {
    var banks :- HeaderBanks(raw);
    ReadItems(raw, banks, FirstOffset(raw))
  }

  function ParseItems(raw: Bytes): Parsed<seq<Item>> {
    ParsePadded(raw + Zeros(16))
  }

  function ParseOf(raw: Bytes): Parsed<seq<Event>> {
    var items :- ParseItems(raw);
    Ok(Events(items))
  }

  method BanksDeclared(raw: Bytes) returns (r: Parsed<seq<string>>)
    ensures r == BankNames(raw)
  {
    var algorithms :- Algorithms(raw + Zeros(16));
    return Ok(Names(algorithms.keys));
  }

  method DigestsAt(raw: Bytes, banks: Banks, start: nat, count: nat)
    returns (digests: map<string, string>, r: Parsed<nat>)
    ensures match ReadDigests(raw, banks, start, count, [])
            case Ok(list) => r == Ok(list.next) && digests == ByName(list.digests)
            case Err(e) => r == Err(e)
  {
    ghost var whole := ReadDigests(raw, banks, start, count, []);
    ghost var read: seq<Digest> := [];
    var offset := start;
    digests := map[];
    for i := 0 to count
      invariant whole == ReadDigests(raw, banks, offset, count - i, read)
      invariant digests == ByName(read)
    {
      var alg := Unpack16(raw, offset);
      if alg.Err? {
        return digests, Err(alg.error);
      }
      if alg.value !in banks.vals {
        return digests, Err(KeyError(alg.value));
      }
      var next := offset + 2 + banks.vals[alg.value];
      var digest := Slice(raw, offset + 2, next);
      digests := digests[AlgName(alg.value) := Hex(digest)];
      offset := next;
      read := read + [Digest(alg.value, digest)];
    }
    r := Ok(offset);
  }

  method EventAt(raw: Bytes, banks: Banks, start: nat) returns (r: Parsed<Item>)
    requires !AtEnd(raw, start)
    ensures r == ReadEvent(raw, banks, start)
  {
    hide ReadDigests, ByName, Slice, Word;
    var pcr, etype, count := Word(raw, start), Word(raw, start + 4), Word(raw, start + 8);
    var digests, end := DigestsAt(raw, banks, start + 12, count);
    var offset :- end;
    var size :- Unpack32(raw, offset);
    var data := Slice(raw, offset + 4, offset + 4 + size);
    return Ok(Item(Event(pcr, etype, digests, data), size, offset + 4 + size));
  }

  method Parse(unpadded: Bytes) returns (r: Parsed<seq<Event>>)
    ensures r == ParseOf(unpadded)
  {
    var raw := unpadded + Zeros(16);
    var algorithms :- Algorithms(raw);
    var items: seq<Item> := [];
    var offset := FirstOffset(raw);
    ghost var whole := ReadItems(raw, algorithms, offset);
    PrefixedNil(whole);
    while !AtEnd(raw, offset)
      invariant whole == Prefixed(items, ReadItems(raw, algorithms, offset))
      decreases |raw| - offset
    {
      var item :- EventAt(raw, algorithms, offset);
      PrefixedSnoc(items, item, ReadItems(raw, algorithms, item.next));
      offset := item.next;
      items := items + [item];
    }
    assert items + [] == items;
    return Ok(Events(items));
  }

  ghost function Prefixed(items: seq<Item>, rest: Parsed<seq<Item>>): Parsed<seq<Item>> {
    match rest case Ok(r) => Ok(items + r) case Err(e) => Err(e)
  }

  lemma PrefixedNil(rest: Parsed<seq<Item>>)
    ensures Prefixed([], rest) == rest
  {
    assert rest.Ok? ==> [] + rest.value == rest.value;
  }

  lemma PrefixedSnoc(items: seq<Item>, item: Item, rest: Parsed<seq<Item>>)
    ensures Prefixed(items, Prefixed([item], rest)) == Prefixed(items + [item], rest)
  {
    if rest.Ok? {
      assert items + ([item] + rest.value) == items + [item] + rest.value;
    }
  }
}
