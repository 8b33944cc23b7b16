/** Values shared by every component: bytes, Python values, records and
    insertion-ordered dictionaries. */
module Common {

  /** One octet of a byte string. */
  type byte = x: int | 0 <= x < 256

  datatype Option<+T> = None | Some(value: T)

  /** A dynamically typed Python value as it occurs in a record or in a
      row handed to the storage client. */
  datatype Value =
    | Null
    | Bool(b: bool)
    | Int(i: int)
    | Float(x: real)
    | Str(s: string)
    | Bytes(bs: seq<byte>)
    | List(items: seq<Value>)
    | Dict(entries: map<string, Value>)

  /** Python truthiness (`if v:` / `v or default`). */
  predicate Truthy(v: Value)
  {
    match v
    case Null => false
    case Bool(b) => b
    case Int(i) => i != 0
    case Float(x) => x != 0.0
    case Str(s) => s != []
    case Bytes(bs) => bs != []
    case List(items) => items != []
    case Dict(entries) => entries != map[]
  }

  /** `v or default` */
  function Or(v: Value, default: Value): (r: Value)
    ensures Truthy(v) ==> r == v
    ensures !Truthy(v) ==> r == default
  {
    if Truthy(v) then v else default
  }

  /** A captured web resource: its field map, which always holds an "extra"
      list, and the flag derived at construction from the WARC-Type. */
  datatype Record = Record(data: map<string, Value>, isRevisit: bool)

  /** `record[key]`: an absent field reads as None. */
  function Get(r: Record, key: string): (v: Value)
    ensures key !in r.data ==> v == Null
    ensures key in r.data ==> v == r.data[key]
  {
    if key in r.data then r.data[key] else Null
  }

  /** `record[key] = v` */
  function Set(r: Record, key: string, v: Value): (r': Record)
    ensures r'.data == r.data[key := v] && r'.isRevisit == r.isRevisit
  {
    r.(data := r.data[key := v])
  }

  /** A Python dict whose iteration order is its insertion order. */
  type ODict = seq<(string, Value)>

  predicate KeysUnique(d: ODict)
  {
    forall i, j :: 0 <= i < j < |d| ==> d[i].0 != d[j].0
  }

  function Keys(d: ODict): set<string>
  {
    if d == [] then {} else {d[0].0} + Keys(d[1..])
  }

  /** A key is in `Keys(d)` exactly when some entry carries it. */
  lemma {:induction false} KeysIndexed(d: ODict)
    ensures forall i :: 0 <= i < |d| ==> d[i].0 in Keys(d)
    ensures forall k :: k in Keys(d) ==> exists i :: 0 <= i < |d| && d[i].0 == k
  {
    if d != [] {
      KeysIndexed(d[1..]);
      assert forall i :: 1 <= i < |d| ==> d[i] == d[1..][i - 1];
      forall k | k in Keys(d)
        ensures exists i :: 0 <= i < |d| && d[i].0 == k
      {
        if k != d[0].0 {
          var i :| 0 <= i < |d[1..]| && d[1..][i].0 == k;
          assert d[i + 1].0 == k;
        }
      }
    }
  }

  /** `d.get(key)` */
  function Lookup(d: ODict, key: string): (v: Option<Value>)
    ensures v.None? <==> key !in Keys(d)
  {
    if d == [] then None
    else if d[0].0 == key then Some(d[0].1)
    else Lookup(d[1..], key)
  }

  /** `d[key] = v`: an existing key keeps its position, a new key goes last. */
  function Put(d: ODict, key: string, v: Value): (r: ODict)
    ensures Keys(r) == Keys(d) + {key}
    ensures key in Keys(d) ==> |r| == |d|
    ensures key !in Keys(d) ==> r == d + [(key, v)]
    ensures forall i :: 0 <= i < |d| ==> r[i].0 == d[i].0
    ensures KeysUnique(d) ==> KeysUnique(r)
    ensures Lookup(r, key) == Some(v)
    ensures forall k :: k != key ==> Lookup(r, k) == Lookup(d, k)
  {
    if d == [] then [(key, v)]
    else if d[0].0 == key then
      var r := [(key, v)] + d[1..];
      assert r[1..] == d[1..];
      UniqueTail(d);
      PutKeepsUnique(d, r);
      r
    else
      var rest := Put(d[1..], key, v);
      var r := [d[0]] + rest;
      assert r[1..] == rest;
      assert key !in Keys(d) ==> r == d + [(key, v)] by {
        if key !in Keys(d) {
          assert [d[0]] + (d[1..] + [(key, v)]) == d + [(key, v)];
        }
      }
      assert forall i :: 1 <= i < |d| ==> d[i] == d[1..][i - 1];
      UniqueTail(d);
      PutKeepsUnique(d, r);
      r
  }

  /** The tail of a dict with distinct keys has distinct keys, none of
      them the head's. */
  lemma UniqueTail(d: ODict)
    requires d != []
    ensures KeysUnique(d) ==> KeysUnique(d[1..]) && d[0].0 !in Keys(d[1..])
  {
    if KeysUnique(d) {
      KeysIndexed(d[1..]);
      assert forall i :: 0 <= i < |d[1..]| ==> d[1..][i] == d[i + 1];
    }
  }

  /** The step of `Put` that keeps the keys distinct: the first entry's
      key is kept and the rest has distinct keys, none of them the first
      one's. */
  lemma PutKeepsUnique(d: ODict, r: ODict)
    requires d != [] && r != [] && r[0].0 == d[0].0
    requires KeysUnique(d) ==> KeysUnique(r[1..]) && d[0].0 !in Keys(r[1..])
    ensures KeysUnique(d) ==> KeysUnique(r)
  {
    if KeysUnique(d) {
      KeysIndexed(r[1..]);
      forall i, j | 0 <= i < j < |r|
        ensures r[i].0 != r[j].0
      {
        assert r[j] == r[1..][j - 1];
        if i > 0 {
          assert r[i] == r[1..][i - 1];
        }
      }
    }
  }

  /** The present values, in order (`[x for x in xs if x is not None]`). */
  function Somes<T>(xs: seq<Option<T>>): (r: seq<T>)
    ensures |r| <= |xs|
    ensures forall v :: v in r ==> Some(v) in xs
    ensures forall i :: 0 <= i < |xs| && xs[i].Some? ==> xs[i].value in r
  {
    if xs == [] then []
    else
      var rest := Somes(xs[1..]);
      assert forall i :: 1 <= i < |xs| ==> xs[i] == xs[1..][i - 1];
      if xs[0].Some? then [xs[0].value] + rest else rest
  }

  /** One more element adds its value, if any, at the end. */
  lemma {:induction false} SomesSnoc<T>(xs: seq<Option<T>>, x: Option<T>)
    ensures Somes(xs + [x]) == Somes(xs) + (if x.Some? then [x.value] else [])
    decreases |xs|
  {
    if xs != [] {
      assert (xs + [x])[1..] == xs[1..] + [x];
      SomesSnoc(xs[1..], x);
    } else {
      assert [x][1..] == [];
    }
  }

  /** The present values of two lists, one after the other: order is
      kept. */
  lemma {:induction false} SomesAppend<T>(xs: seq<Option<T>>, ys: seq<Option<T>>)
    ensures Somes(xs + ys) == Somes(xs) + Somes(ys)
    decreases |xs|
  {
    if xs != [] {
      assert (xs + ys)[1..] == xs[1..] + ys;
      SomesAppend(xs[1..], ys);
    } else {
      assert xs + ys == ys;
    }
  }

  /** A prefix one longer is the prefix and the next element. */
  lemma TakeSnoc<T>(s: seq<T>, i: nat)
    requires i < |s|
    ensures s[..i + 1] == s[..i] + [s[i]]
  {
  }
}
