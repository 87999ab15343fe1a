/**
 * The PHP array `$this->urls` of Rewriter.php: an ordered map from source URL to destination URL.
 * Assigning to a key that is present replaces its value where it stands; a new key goes to the end.
 */
module UrlMap {
  import opened Wrappers

  /** One (source, destination) entry. */
  type Pair = (string, string)

  /** The sources, in map order. */
  function Keys(m: seq<Pair>): (ks: seq<string>)
    ensures |ks| == |m| && forall i :: 0 <= i < |m| ==> ks[i] == m[i].0
  {
    if m == [] then [] else [m[0].0] + Keys(m[1..])
  }

  /** A PHP array holds each key at most once; this holds of the map and of an array argument alike. */
  predicate UniqueKeys<V>(m: seq<(string, V)>) {
    forall i, j :: 0 <= i < j < |m| ==> m[i].0 != m[j].0
  }

  /** The position of `key` at index `from` or later. */
  function IndexFrom(m: seq<Pair>, key: string, from: nat): (r: Option<nat>)
    ensures r.Some? ==> from <= r.value < |m| && m[r.value].0 == key
    ensures r.Some? ==> forall i :: from <= i < r.value ==> m[i].0 != key
    ensures r.None? ==> forall i :: from <= i < |m| ==> m[i].0 != key
    decreases |m| - from
  {
    if from >= |m| then None
    else if m[from].0 == key then Some(from)
    else IndexFrom(m, key, from + 1)
  }

  /** The position of `key` in the map. */
  function IndexOf(m: seq<Pair>, key: string): (r: Option<nat>)
    ensures r.Some? ==> r.value < |m| && m[r.value].0 == key
    ensures r.Some? ==> forall i :: 0 <= i < r.value ==> m[i].0 != key
    ensures r.None? ==> forall i :: 0 <= i < |m| ==> m[i].0 != key
  {
    IndexFrom(m, key, 0)
  }

  /** `$urls[$key]`, or None when the key is absent. */
  function Lookup(m: seq<Pair>, key: string): Option<string> {
    match IndexOf(m, key)
    case None => None
    case Some(i) => Some(m[i].1)
  }

  /** `$urls[$key] = $value`. */
  function Put(m: seq<Pair>, key: string, value: string): (r: seq<Pair>)
    ensures UniqueKeys(m) ==> UniqueKeys(r)
    ensures Lookup(r, key) == Some(value)
    ensures forall k :: k != key ==> Lookup(r, k) == Lookup(m, k)
    ensures Keys(r) == if Lookup(m, key).Some? then Keys(m) else Keys(m) + [key]
  {
    match IndexOf(m, key)
    case Some(i) =>
      PutPresent(m, key, value, i);
      m[i := (key, value)]
    case None =>
      PutAbsent(m, key, value);
      m + [(key, value)]
  }

  /** Assigning to a present key replaces its value in place. */
  lemma PutPresent(m: seq<Pair>, key: string, value: string, i: nat)
    requires IndexOf(m, key) == Some(i)
    ensures var r := m[i := (key, value)];
      && (UniqueKeys(m) ==> UniqueKeys(r))
      && Lookup(r, key) == Some(value)
      && (forall k :: k != key ==> Lookup(r, k) == Lookup(m, k))
      && Keys(r) == Keys(m)
  {
    var r := m[i := (key, value)];
    ReplaceKeepsIndices(m, i, value);
    assert Keys(r) == Keys(m);
  }

  /** Assigning to an absent key appends it. */
  lemma PutAbsent(m: seq<Pair>, key: string, value: string)
    requires IndexOf(m, key).None?
    ensures var r := m + [(key, value)];
      && (UniqueKeys(m) ==> UniqueKeys(r))
      && Lookup(r, key) == Some(value)
      && (forall k :: k != key ==> Lookup(r, k) == Lookup(m, k))
      && Keys(r) == Keys(m) + [key]
  {
    var r := m + [(key, value)];
    AppendKeepsIndices(m, key, value);
    assert Keys(r) == Keys(m) + [key];
  }

  /** `r` is where `key` first stands in `m`, or None if it stands nowhere. */
  predicate IsFirstIndex(m: seq<Pair>, key: string, r: Option<nat>) {
    match r
    case Some(i) => i < |m| && m[i].0 == key && forall j :: 0 <= j < i ==> m[j].0 != key
    case None => forall j :: 0 <= j < |m| ==> m[j].0 != key
  }

  /** IndexOf is the only answer that meets its description. */
  lemma IndexOfUnique(m: seq<Pair>, key: string, r: Option<nat>)
    requires IsFirstIndex(m, key, r)
    ensures IndexOf(m, key) == r
  {
  }

  /** Replacing the value at the position of its own key moves no key. */
  lemma ReplaceKeepsIndices(m: seq<Pair>, i: nat, value: string)
    requires i < |m|
    ensures forall k :: IndexOf(m[i := (m[i].0, value)], k) == IndexOf(m, k)
  {
    var r := m[i := (m[i].0, value)];
    forall k ensures IndexOf(r, k) == IndexOf(m, k) {
      IndexOfUnique(r, k, IndexOf(m, k));
    }
  }

  /** Appending a new key moves no other key. */
  lemma AppendKeepsIndices(m: seq<Pair>, key: string, value: string)
    requires IndexOf(m, key).None?
    ensures IndexOf(m + [(key, value)], key) == Some(|m|)
    ensures forall k :: k != key ==> IndexOf(m + [(key, value)], k) == IndexOf(m, k)
  {
    var r := m + [(key, value)];
    IndexOfUnique(r, key, Some(|m|));
    forall k | k != key ensures IndexOf(r, k) == IndexOf(m, k) {
      IndexOfUnique(r, k, IndexOf(m, k));
    }
  }
}
