/** Vocabulary shared by every model: bytes, options, results and finite sums. */
module Core {
  type byte = x: int | 0 <= x < 256
  type Bytes = seq<byte>

  const U64_MAX: nat := 0xFFFF_FFFF_FFFF_FFFF

  datatype Option<+T> = None | Some(value: T)

  datatype Result<+T, +E> = Ok(value: T) | Err(error: E)

  /** The bytes of an ASCII text. */
  function Ascii(s: string): (b: Bytes)
    requires forall i :: 0 <= i < |s| ==> s[i] as int < 128
    ensures |b| == |s|
  {
    seq(|s|, i requires 0 <= i < |s| => s[i] as int)
  }

  function Flat(chunks: seq<Bytes>): Bytes {
    if |chunks| == 0 then [] else chunks[0] + Flat(chunks[1..])
  }

  lemma {:induction false} FlatSnoc(chunks: seq<Bytes>, x: Bytes)
    ensures Flat(chunks + [x]) == Flat(chunks) + x
  {
    if |chunks| == 0 {
      assert [x][1..] == [] && x + [] == x;
    } else {
      FlatSnoc(chunks[1..], x);
      assert (chunks + [x])[1..] == chunks[1..] + [x];
    }
  }

  function Max(a: int, b: int): int {
    if a < b then b else a
  }

  lemma {:induction false} SubsetSize<T>(a: set<T>, b: set<T>)
    requires a <= b
    ensures |a| <= |b|
  {
    if a != {} {
      var x :| x in a;
      SubsetSize(a - {x}, b - {x});
    }
  }

  /** The sum of a finite map's values. */
  ghost function SumMap<K(!new)>(m: map<K, nat>): nat {
    if m == map[] then 0
    else
      var k :| k in m;
      m[k] + SumMap(m - {k})
  }

  /** A map's sum does not depend on which key is taken out first. */
  lemma {:induction false} SumMapRemove<K(!new)>(m: map<K, nat>, k: K)
    requires k in m
    ensures SumMap(m) == m[k] + SumMap(m - {k})
    decreases |m|
  {
    var j :| j in m && SumMap(m) == m[j] + SumMap(m - {j});
    if j != k {
      SumMapRemove(m - {j}, k);
      SumMapRemove(m - {k}, j);
      assert m - {j} - {k} == m - {k} - {j};
    }
  }

  lemma SumMapInsert<K(!new)>(m: map<K, nat>, k: K, v: nat)
    requires k !in m
    ensures SumMap(m[k := v]) == SumMap(m) + v
  {
    SumMapRemove(m[k := v], k);
    assert m[k := v] - {k} == m;
  }

  /** A key, in or out of the map, can be taken out without losing more than its own value. */
  lemma SumMapDrop<K(!new)>(m: map<K, nat>, k: K)
    ensures SumMap(m) == SumMap(m - {k}) + (if k in m then m[k] else 0)
  {
    if k in m {
      SumMapRemove(m, k);
    } else {
      assert m - {k} == m;
    }
  }
}
