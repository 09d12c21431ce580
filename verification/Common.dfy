/** Values every other module shares: results, bytes and Python's ordered dict. */
module Common {

  datatype Option<+T> = None | Some(value: T)

  /** A Python call that returns, or raises what `error` stands for. */
  datatype Result<+T, +E> = Ok(value: T) | Err(error: E) {
    predicate IsFailure() { Err? }

    function PropagateFailure<U>(): Result<U, E>
      requires Err?
    {
      Err(error)
    }

    function Extract(): T
      requires Ok?
    {
      value
    }
  }

  type byte = b: int | 0 <= b < 256
  type Bytes = seq<byte>

  function Zeros(n: nat): Bytes {
    seq(n, _ => 0)
  }

  function Min(a: int, b: int): int {
    if a <= b then a else b
  }

  function Max(a: int, b: int): int {
    if a <= b then b else a
  }

  /** Python's `s[lo:hi]` with `0 <= lo <= hi`: it shortens silently at the end of `s`. */
  function Slice<T>(s: seq<T>, lo: nat, hi: nat): seq<T>
    requires lo <= hi
  {
    s[Min(lo, |s|)..Min(hi, |s|)]
  }

  predicate Distinct<T(==)>(s: seq<T>) {
    forall i, j :: 0 <= i < j < |s| ==> s[i] != s[j]
  }

  /** A Python `dict`: `keys` is the insertion order, which a second write
      to the same key leaves alone. */
  datatype Dict<K(==), V> = Dict(keys: seq<K>, vals: map<K, V>) {

    function Put(k: K, v: V): Dict<K, V> {
      Dict(if k in vals then keys else keys + [k], vals[k := v])
    }
  }

  function EmptyDict<K(==), V>(): Dict<K, V> {
    Dict([], map[])
  }

  /** The first occurrences in `s`, in order: `list(dict.fromkeys(s))`. */
  function Dedup<T(==)>(s: seq<T>): seq<T> {
    if s == [] then []
    else
      var init := Dedup(s[..|s| - 1]);
      if s[|s| - 1] in init then init else init + [s[|s| - 1]]
  }

  lemma {:induction false} DedupMembers<T>(s: seq<T>)
    ensures Distinct(Dedup(s))
    ensures forall x :: x in Dedup(s) <==> x in s
  {
    if s != [] {
      DedupMembers(s[..|s| - 1]);
      assert s == s[..|s| - 1] + [s[|s| - 1]];
    }
  }

  /** `x` comes in `s`, and ahead of every `y`. */
  ghost predicate Leads<T>(s: seq<T>, x: T, y: T) {
    exists a :: 0 <= a < |s| && s[a] == x && y !in s[..a + 1]
  }

  lemma LeadsInPrefix<T>(s: seq<T>, more: seq<T>, x: T, y: T)
    requires Leads(s, x, y)
    ensures Leads(s + more, x, y)
  {
    var a :| 0 <= a < |s| && s[a] == x && y !in s[..a + 1];
    assert (s + more)[..a + 1] == s[..a + 1] && (s + more)[a] == x;
  }

  lemma LeadsCons<T>(c: T, s: seq<T>, x: T, y: T)
    ensures Leads([c] + s, x, y) <==> x != y && c != y && (c == x || Leads(s, x, y))
  {
    var all := [c] + s;
    if Leads(all, x, y) {
      var a :| 0 <= a < |all| && all[a] == x && y !in all[..a + 1];
      assert all[..a + 1][0] == c && all[..a + 1][a] == x;
      if a > 0 {
        assert all[..a + 1] == [c] + s[..a] && s[a - 1] == x;
        assert y !in s[..a - 1 + 1];
      }
    }
    if x != y && c != y {
      if c == x {
        assert all[..1] == [c] && all[0] == x;
      } else if Leads(s, x, y) {
        var a :| 0 <= a < |s| && s[a] == x && y !in s[..a + 1];
        assert all[..a + 2] == [c] + s[..a + 1] && all[a + 1] == x;
        assert y !in all[..a + 1 + 1];
      }
    }
  }

  lemma DedupMember<T>(s: seq<T>, i: nat)
    requires i < |Dedup(s)|
    ensures Dedup(s)[i] in s
  {
    DedupMembers(s);
    var x := Dedup(s)[i];
    assert x in Dedup(s);
  }

  lemma AheadOfNew<T>(s: seq<T>, x: T, y: T)
    requires x in s && y !in s
    ensures Leads(s, x, y)
  {
    var a :| 0 <= a < |s| && s[a] == x;
    assert y !in s[..a + 1];
  }

  /** The members stand in the order in which they first came. */
  lemma {:induction false} DedupOrdered<T>(s: seq<T>)
    ensures forall i, j :: 0 <= i < j < |Dedup(s)| ==> Leads(s, Dedup(s)[i], Dedup(s)[j])
  {
    if s != [] {
      var init, last := s[..|s| - 1], s[|s| - 1];
      assert s == init + [last];
      DedupOrdered(init);
      DedupMembers(init);
      forall i, j | 0 <= i < j < |Dedup(s)| ensures Leads(s, Dedup(s)[i], Dedup(s)[j]) {
        if j == |Dedup(init)| {
          assert Dedup(s) == Dedup(init) + [last];
          DedupMember(init, i);
          AheadOfNew(init, Dedup(init)[i], last);
        }
        LeadsInPrefix(init, [last], Dedup(s)[i], Dedup(s)[j]);
      }
    }
  }
}
