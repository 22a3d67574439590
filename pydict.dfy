/** Python's `dict` with string keys, as the modelled code uses it: lookups,
    `d[k] = v` / `d.update({k: v})`, and iteration in insertion order. */
module PyDict {
  import opened Wrappers

  /** The keys in insertion order and the value of each. */
  datatype Dict<V> = Dict(keys: seq<string>, values: map<string, V>)

  predicate Distinct(ks: seq<string>)
  {
    forall i, j :: 0 <= i < j < |ks| ==> ks[i] != ks[j]
  }

  /** Each key is listed once, and exactly the listed keys have a value. */
  ghost predicate Valid<V>(d: Dict<V>)
  {
    Distinct(d.keys) && forall k :: k in d.values <==> k in d.keys
  }

  /** `d.get(k)` */
  function Get<V>(d: Dict<V>, k: string): (v: Option<V>)
  {
    if k in d.values then Some(d.values[k]) else None
  }

  /** `{}` */
  function Empty<V>(): (d: Dict<V>)
    ensures Valid(d) && |d.keys| == 0
    ensures forall k :: Get(d, k) == None
  {
    Dict([], map[])
  }

  /** `d[k] = v`: afterwards `k` has `v` and no other key changes; an existing
      key keeps its place in the order, a new one goes last. */
  function Put<V>(d: Dict<V>, k: string, v: V): (r: Dict<V>)
    requires Valid(d)
    ensures Valid(r)
    ensures Get(r, k) == Some(v)
    ensures forall k' :: k' != k ==> Get(r, k') == Get(d, k')
    ensures k in d.values ==> r.keys == d.keys
    ensures k !in d.values ==> r.keys == d.keys + [k]
  {
    Dict(if k in d.values then d.keys else d.keys + [k], d.values[k := v])
  }

  /** `ks` with every `k` taken out, the rest in their order. */
  function Without(ks: seq<string>, k: string): (r: seq<string>)
    ensures forall x :: x in r <==> x in ks && x != k
    ensures Distinct(ks) ==> Distinct(r)
    ensures k !in ks ==> r == ks
  {
    if ks == [] then []
    else
      var rest := Without(ks[1..], k);
      assert forall i :: 0 < i < |ks| ==> ks[i] == ks[1..][i - 1];
      assert Distinct(ks) ==> Distinct(ks[1..]) && ks[0] !in rest;
      var r := if ks[0] == k then rest else [ks[0]] + rest;
      assert forall j :: 0 < j < |r| && ks[0] != k ==> r[j] == rest[j - 1];
      assert ks == [ks[0]] + ks[1..];
      r
  }

  /** From keys listed once, `Without` takes out the one occurrence of `k` and
      keeps the others in place. */
  lemma {:induction false} WithoutAt(ks: seq<string>, k: string, i: int)
    requires Distinct(ks) && 0 <= i < |ks| && ks[i] == k
    ensures Without(ks, k) == ks[..i] + ks[i + 1..]
  {
    var tail := ks[1..];
    assert forall j :: 0 <= j < |tail| ==> tail[j] == ks[j + 1];
    if i == 0 {
      assert k !in tail;
    } else {
      assert ks[0] != k;
      assert Distinct(tail);
      WithoutAt(tail, k, i - 1);
      assert ks[..i] == [ks[0]] + tail[..i - 1];
      assert ks[i + 1..] == tail[i..];
    }
  }

  /** `d.pop(k, None)`: the key and its value go, the other keys keep their order. */
  function Remove<V>(d: Dict<V>, k: string): (r: Dict<V>)
    requires Valid(d)
    ensures Valid(r)
    ensures Get(r, k) == None
    ensures forall k' :: k' != k ==> Get(r, k') == Get(d, k')
    ensures k !in d.values ==> r == d
    ensures r.keys == Without(d.keys, k)
  {
    if k !in d.values then d else Dict(Without(d.keys, k), d.values - {k})
  }

  /** The keys a run of writes names, in order (repetitions kept). */
  function KeysOf<V>(ws: seq<(string, V)>): (ks: seq<string>)
    ensures |ks| == |ws|
    ensures forall i :: 0 <= i < |ws| ==> ks[i] == ws[i].0
  {
    if ws == [] then [] else KeysOf(ws[..|ws| - 1]) + [ws[|ws| - 1].0]
  }

  /** `d[k] = v` for each write `(k, v)` of `ws`, first to last. */
  function PutAll<V>(d: Dict<V>, ws: seq<(string, V)>): (r: Dict<V>)
    requires Valid(d)
    ensures Valid(r)
  {
    if ws == [] then d else Put(PutAll(d, ws[..|ws| - 1]), ws[|ws| - 1].0, ws[|ws| - 1].1)
  }

  /** The value of the last write to `k` in `ws`, if any. */
  function LastWrite<V>(ws: seq<(string, V)>, k: string): (v: Option<V>)
  {
    if ws == [] then None
    else if ws[|ws| - 1].0 == k then Some(ws[|ws| - 1].1)
    else LastWrite(ws[..|ws| - 1], k)
  }

  /** The keys of `ks` in the order they first appear, each once. */
  function FirstOccurrences(ks: seq<string>): (firsts: seq<string>)
  {
    if ks == [] then []
    else
      var front := ks[..|ks| - 1];
      FirstOccurrences(front) + if ks[|ks| - 1] in front then [] else [ks[|ks| - 1]]
  }

  /** Applying writes in two runs is applying them in one. */
  lemma {:induction false} PutAllConcat<V>(d: Dict<V>, a: seq<(string, V)>, b: seq<(string, V)>)
    requires Valid(d)
    ensures PutAll(d, a + b) == PutAll(PutAll(d, a), b)
  {
    if b != [] {
      assert (a + b)[..|a + b| - 1] == a + b[..|b| - 1];
      PutAllConcat(d, a, b[..|b| - 1]);
    } else {
      assert a + b == a;
    }
  }

  /** Last write wins: after a run of writes, a key holds the value of its last
      write, and a key the run never names keeps the value it had. */
  lemma {:induction false} PutAllLastWriteWins<V>(d: Dict<V>, ws: seq<(string, V)>, k: string)
    requires Valid(d)
    ensures Get(PutAll(d, ws), k) == if LastWrite(ws, k).Some? then LastWrite(ws, k) else Get(d, k)
  {
    if ws != [] {
      PutAllLastWriteWins(d, ws[..|ws| - 1], k);
    }
  }

  /** Starting from `{}`, the keys end up in the order of their first write. */
  lemma {:induction false} PutAllKeyOrder<V>(ws: seq<(string, V)>)
    ensures PutAll(Empty(), ws).keys == FirstOccurrences(KeysOf(ws))
    ensures forall k :: k in PutAll(Empty<V>(), ws).values <==> k in KeysOf(ws)
  {
    if ws != [] {
      var front := ws[..|ws| - 1];
      PutAllKeyOrder(front);
      assert KeysOf(ws)[..|ws| - 1] == KeysOf(front);
    }
  }

  /** The last write to `k` in `a + b` is the last in `b`, or else the last in `a`. */
  lemma {:induction false} LastWriteConcat<V>(a: seq<(string, V)>, b: seq<(string, V)>, k: string)
    ensures LastWrite(a + b, k) == if LastWrite(b, k).Some? then LastWrite(b, k) else LastWrite(a, k)
  {
    if b == [] {
      assert a + b == a;
    } else {
      assert (a + b)[..|a + b| - 1] == a + b[..|b| - 1];
      LastWriteConcat(a, b[..|b| - 1], k);
    }
  }
}
