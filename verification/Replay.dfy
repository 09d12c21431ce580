/** The replay of a log's extends, and what two logs with the same replay share. */
module Replay {
  import opened Common
  import opened Text
  import opened EventLog

  /** `hashlib`: the digest sizes of the algorithms it has, and the digests. */
  datatype Hashes = Hashes(sizes: map<string, nat>, digest: (string, Bytes) -> Bytes) {

    ghost predicate Valid() {
      forall alg, input :: alg in sizes ==> |digest(alg, input)| == sizes[alg] > 0
    }
  }

  datatype ReplayError =
    | UnknownHash  // ValueError of hashlib.new
    | NotHex       // ValueError of bytes.fromhex

  predicate Extends(e: Event, pcr: nat, alg: string) {
    e.pcr == pcr && e.etype != EV_NO_ACTION && alg in e.digests
  }

  /** The digests `es` extended into one PCR of one bank; `None` when one is not hex. */
  function Measured(es: seq<Event>, pcr: nat, alg: string): Option<seq<Bytes>> {
    if es == [] then Some([])
    else
      var last := es[|es| - 1];
      match Measured(es[..|es| - 1], pcr, alg)
      case None => None
      case Some(ds) =>
        if !Extends(last, pcr, alg) then Some(ds)
        else match FromHex(last.digests[alg])
          case None => None
          case Some(d) => Some(ds + [d])
  }

  /** What a PCR holds after `ds` were extended into its zero, by section 22.2
      of part 3 of the TPM 2.0 Library: new := H(old || digest). */
  function Chain(h: Hashes, alg: string, ds: seq<Bytes>): Bytes
    requires alg in h.sizes
  {
    if ds == [] then Zeros(h.sizes[alg])
    else h.digest(alg, Chain(h, alg, ds[..|ds| - 1]) + ds[|ds| - 1])
  }

  function ReplayOf(h: Hashes, es: seq<Event>, pcr: nat, alg: string): Result<string, ReplayError> {
    if alg !in h.sizes then Err(UnknownHash)
    else match Measured(es, pcr, alg)
      case None => Err(NotHex)
      case Some(ds) => Ok(Hex(Chain(h, alg, ds)))
  }

  lemma {:induction false} MeasuredPrefix(es: seq<Event>, i: nat, pcr: nat, alg: string)
    requires i <= |es| && Measured(es[..i], pcr, alg).None?
    ensures Measured(es, pcr, alg).None?
    decreases |es| - i
  {
    if i == |es| {
      assert es[..i] == es;
    } else {
      assert es[..i + 1][..i] == es[..i];
      MeasuredPrefix(es, i + 1, pcr, alg);
    }
  }

  method Replay(h: Hashes, es: seq<Event>, pcr: nat, alg: string) returns (r: Result<string, ReplayError>)
    ensures r == ReplayOf(h, es, pcr, alg)
  {
    if alg !in h.sizes {
      return Err(UnknownHash);
    }
    var value := Zeros(h.sizes[alg]);
    ghost var ds: seq<Bytes> := [];
    for i := 0 to |es|
      invariant Measured(es[..i], pcr, alg) == Some(ds)
      invariant value == Chain(h, alg, ds)
    {
      var event := es[i];
      assert es[..i + 1][..i] == es[..i];
      if event.pcr == pcr && event.etype != EV_NO_ACTION && alg in event.digests {
        var digest := FromHex(event.digests[alg]);
        if digest.None? {
          MeasuredPrefix(es, i + 1, pcr, alg);
          return Err(NotHex);
        }
        value := h.digest(alg, value + digest.value);
        ds := ds + [digest.value];
      }
    }
    assert es[..|es|] == es;
    return Ok(Hex(value));
  }

  lemma {:induction false} MeasuredIff(es: seq<Event>, pcr: nat, alg: string)
    ensures Measured(es, pcr, alg).Some? <==>
            forall i :: 0 <= i < |es| && Extends(es[i], pcr, alg) ==> FromHex(es[i].digests[alg]).Some?
  {
    hide FromHex;
    if es != [] {
      MeasuredIff(es[..|es| - 1], pcr, alg);
      assert es == es[..|es| - 1] + [es[|es| - 1]];
    }
  }

  /** A replay fails for an algorithm hashlib lacks, or for a digest of an extend
      into that PCR and bank that is not hex, and for nothing else. */
  lemma ReplayFails(h: Hashes, es: seq<Event>, pcr: nat, alg: string)
    ensures ReplayOf(h, es, pcr, alg) == Err(UnknownHash) <==> alg !in h.sizes
    ensures ReplayOf(h, es, pcr, alg) == Err(NotHex) <==>
            && alg in h.sizes
            && exists i :: 0 <= i < |es| && Extends(es[i], pcr, alg) && FromHex(es[i].digests[alg]).None?
  {
    hide FromHex, Measured;
    MeasuredIff(es, pcr, alg);
  }

  lemma {:induction false} MeasuredConcat(a: seq<Event>, b: seq<Event>, pcr: nat, alg: string)
    requires Measured(a, pcr, alg).Some? && Measured(b, pcr, alg).Some?
    ensures Measured(a + b, pcr, alg) == Some(Measured(a, pcr, alg).value + Measured(b, pcr, alg).value)
    decreases |b|
  {
    if b == [] {
      assert a + b == a;
      assert Measured(a, pcr, alg).value + [] == Measured(a, pcr, alg).value;
    } else {
      var init := b[..|b| - 1];
      MeasuredConcat(a, init, pcr, alg);
      assert (a + b)[..|a + b| - 1] == a + init;
      var before, after := Measured(init, pcr, alg).value, Measured(b, pcr, alg).value;
      assert Measured(a, pcr, alg).value + after ==
             Measured(a, pcr, alg).value + before + after[|before|..];
    }
  }

  // --- binding --------------------------------------------------------------------

  lemma ChainSize(h: Hashes, alg: string, ds: seq<Bytes>)
    requires h.Valid() && alg in h.sizes
    ensures |Chain(h, alg, ds)| == h.sizes[alg]
  {
  }

  /** What two different histories of the same value amount to. */
  datatype Clash =
    | NoClash
    | Collision(x: Bytes, y: Bytes)  // different inputs of one hash
    | ZeroPreimage(x: Bytes)         // an input that hashes to the PCR's reset value

  ghost predicate Breaks(h: Hashes, alg: string, c: Clash) {
    match c
    case NoClash => false
    case Collision(x, y) => x != y && h.digest(alg, x) == h.digest(alg, y)
    case ZeroPreimage(x) => alg in h.sizes && h.digest(alg, x) == Zeros(h.sizes[alg])
  }

  /** Walks two histories back from their ends to where they part. */
  function FindClash(h: Hashes, alg: string, ds: seq<Bytes>, es: seq<Bytes>): Clash
    requires alg in h.sizes
    decreases |ds|
  {
    if ds == [] && es == [] then NoClash
    else if ds == [] then ZeroPreimage(Chain(h, alg, es[..|es| - 1]) + es[|es| - 1])
    else if es == [] then ZeroPreimage(Chain(h, alg, ds[..|ds| - 1]) + ds[|ds| - 1])
    else
      var x := Chain(h, alg, ds[..|ds| - 1]) + ds[|ds| - 1];
      var y := Chain(h, alg, es[..|es| - 1]) + es[|es| - 1];
      if x != y then Collision(x, y) else FindClash(h, alg, ds[..|ds| - 1], es[..|es| - 1])
  }

  lemma {:induction false} ChainBinds(h: Hashes, alg: string, ds: seq<Bytes>, es: seq<Bytes>)
    requires h.Valid() && alg in h.sizes
    requires Chain(h, alg, ds) == Chain(h, alg, es)
    ensures ds == es || Breaks(h, alg, FindClash(h, alg, ds, es))
    decreases |ds|
  {
    if ds != [] && es != [] {
      var d0, e0 := ds[..|ds| - 1], es[..|es| - 1];
      var x, y := Chain(h, alg, d0), Chain(h, alg, e0);
      if x + ds[|ds| - 1] == y + es[|es| - 1] {
        ChainSize(h, alg, d0);
        ChainSize(h, alg, e0);
        assert (x + ds[|ds| - 1])[..|x|] == x && (y + es[|es| - 1])[..|y|] == y;
        assert (x + ds[|ds| - 1])[|x|..] == ds[|ds| - 1] && (y + es[|es| - 1])[|y|..] == es[|es| - 1];
        ChainBinds(h, alg, d0, e0);
        assert ds == d0 + [ds[|ds| - 1]] && es == e0 + [es[|es| - 1]];
      }
    }
  }

  /** Binding. Two logs that replay alike extended the same digests in the same
      order, or `FindClash` exhibits a break of the hash. */
  lemma ReplayBinds(h: Hashes, es: seq<Event>, fs: seq<Event>, pcr: nat, alg: string)
    requires h.Valid()
    requires ReplayOf(h, es, pcr, alg).Ok? && ReplayOf(h, fs, pcr, alg) == ReplayOf(h, es, pcr, alg)
    ensures alg in h.sizes && Measured(es, pcr, alg).Some? && Measured(fs, pcr, alg).Some?
    ensures var ds, gs := Measured(es, pcr, alg).value, Measured(fs, pcr, alg).value;
            ds == gs || Breaks(h, alg, FindClash(h, alg, ds, gs))
  {
    var ds, gs := Measured(es, pcr, alg).value, Measured(fs, pcr, alg).value;
    HexInjective(Chain(h, alg, ds), Chain(h, alg, gs));
    ChainBinds(h, alg, ds, gs);
  }
}
