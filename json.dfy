/** The YAML/JSON values the tool reads and writes.  `Null` stands both for
    YAML `null` and for Python's `None`, which the loader produces for it.
    Mappings keep insertion order (Python dictionaries do) and are lists of
    key/value pairs; their keys are strings. */
module Json {
  import opened Wrappers

  datatype Value =
    | Null
    | Bool(b: bool)
    | Int(i: int)
    | Float(r: real)
    | Str(s: string)
    | List(items: seq<Value>)
    | Map(entries: seq<(string, Value)>)

  type Entries = seq<(string, Value)>

  /** Python truthiness: `None`, `False`, zero, and empty strings, lists and
      mappings are false. */
  predicate Truthy(v: Value) {
    match v
    case Null => false
    case Bool(b) => b
    case Int(i) => i != 0
    case Float(r) => r != 0.0
    case Str(s) => s != ""
    case List(items) => items != []
    case Map(entries) => entries != []
  }

  /** `v or default`, as Python evaluates it. */
  function Or(v: Value, default: Value): (r: Value)
    ensures Truthy(v) ==> r == v
    ensures !Truthy(v) ==> r == default
  {
    if Truthy(v) then v else default
  }

  function Keys(m: Entries): (ks: seq<string>)
    ensures |ks| == |m|
    ensures forall i :: 0 <= i < |m| ==> ks[i] == m[i].0
  {
    if m == [] then [] else [m[0].0] + Keys(m[1..])
  }

  predicate HasKey(m: Entries, k: string) {
    exists i :: 0 <= i < |m| && m[i].0 == k
  }

  /** No key occurs twice (what a Python dictionary guarantees). */
  predicate UniqueKeys(m: Entries) {
    forall i, j :: 0 <= i < j < |m| ==> m[i].0 != m[j].0
  }

  /** Position of the first entry with key `k`. */
  function IndexOf(m: Entries, k: string): (r: Option<nat>)
    ensures r.Some? <==> HasKey(m, k)
    ensures r.Some? ==> r.value < |m| && m[r.value].0 == k
    ensures r.Some? ==> forall j :: 0 <= j < r.value ==> m[j].0 != k
  {
    if m == [] then None
    else if m[0].0 == k then Some(0)
    else
      match IndexOf(m[1..], k)
      case None => None
      case Some(i) => Some(i + 1)
  }

  /** Two entry lists with the same keys in the same order find every key at
      the same position. */
  lemma {:induction false} IndexOfSameKeys(m1: Entries, m2: Entries, k: string)
    requires |m1| == |m2|
    requires forall i :: 0 <= i < |m1| ==> m1[i].0 == m2[i].0
    ensures IndexOf(m1, k) == IndexOf(m2, k)
  {
    if m1 != [] && m1[0].0 != k {
      IndexOfSameKeys(m1[1..], m2[1..], k);
    }
  }

  /** Where a key is found once one more entry is added at the end. */
  lemma {:induction false} IndexOfAppend(m: Entries, e: (string, Value), k: string)
    ensures IndexOf(m + [e], k) ==
      if HasKey(m, k) then IndexOf(m, k) else if e.0 == k then Some(|m|) else None
  {
    if m != [] {
      assert (m + [e])[1..] == m[1..] + [e];
      if m[0].0 != k {
        IndexOfAppend(m[1..], e, k);
        assert HasKey(m, k) <==> HasKey(m[1..], k) by {
          if HasKey(m, k) {
            var i :| 0 <= i < |m| && m[i].0 == k;
            assert m[1..][i - 1].0 == k;
          }
          if HasKey(m[1..], k) {
            var i :| 0 <= i < |m[1..]| && m[1..][i].0 == k;
            assert m[i + 1].0 == k;
          }
        }
      }
    }
  }

  /** `d.get(k)`: the value stored under `k`, if any. */
  function Lookup(m: Entries, k: string): (r: Option<Value>)
    ensures r.Some? <==> HasKey(m, k)
    ensures r.Some? ==> exists i :: 0 <= i < |m| && m[i] == (k, r.value)
  {
    match IndexOf(m, k)
    case None => None
    case Some(i) => Some(m[i].1)
  }

  /** `d.get(k, default)`. */
  function GetOr(m: Entries, k: string, default: Value): (r: Value)
    ensures HasKey(m, k) ==> Lookup(m, k) == Some(r)
    ensures !HasKey(m, k) ==> r == default
  {
    match Lookup(m, k)
    case Some(v) => v
    case None => default
  }

  /** `d[k] = v`: an existing key keeps its position and gets the new value;
      a new key goes at the end. */
  function Put(m: Entries, k: string, v: Value): (r: Entries)
    ensures Lookup(r, k) == Some(v)
    ensures forall k' :: k' != k ==> Lookup(r, k') == Lookup(m, k')
    ensures HasKey(m, k) ==> Keys(r) == Keys(m)
    ensures !HasKey(m, k) ==> r == m + [(k, v)]
  {
    match IndexOf(m, k)
    case Some(i) =>
      var r := m[i := (k, v)];
      assert IndexOf(r, k) == Some(i) by { IndexOfSameKeys(m, r, k); }
      assert forall k' :: k' != k ==> Lookup(r, k') == Lookup(m, k') by {
        forall k' | k' != k ensures Lookup(r, k') == Lookup(m, k') {
          IndexOfSameKeys(m, r, k');
        }
      }
      r
    case None =>
      var r := m + [(k, v)];
      IndexOfAppend(m, (k, v), k);
      assert forall k' :: k' != k ==> Lookup(r, k') == Lookup(m, k') by {
        forall k' | k' != k ensures Lookup(r, k') == Lookup(m, k') {
          IndexOfAppend(m, (k, v), k');
        }
      }
      r
  }

  /** Storing under a key that is new or already present keeps keys unique. */
  lemma PutUnique(m: Entries, k: string, v: Value)
    requires UniqueKeys(m)
    ensures UniqueKeys(Put(m, k, v))
  {
  }

  /** `d.setdefault(k, v)`: adds `k` only when it is absent. */
  function SetDefault(m: Entries, k: string, v: Value): (r: Entries)
    ensures HasKey(m, k) ==> r == m
    ensures !HasKey(m, k) ==> r == m + [(k, v)]
    ensures HasKey(r, k)
    ensures forall k' :: k' != k ==> Lookup(r, k') == Lookup(m, k')
  {
    if HasKey(m, k) then m else Put(m, k, v)
  }

  /** `isinstance(v, dict)`. */
  predicate IsMapping(v: Value) {
    v.Map?
  }

  /** A mapping-valued `v` has key `k`: `isinstance(v, dict) and k in v`. */
  predicate MapHas(v: Value, k: string) {
    v.Map? && HasKey(v.entries, k)
  }
}
