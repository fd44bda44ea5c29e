/**
 * A Python `dict` as the sequence of its (key, value) pairs in insertion
 * order. Assigning to a key that is already present overwrites the value
 * in place (the key keeps its position); a new key goes to the end; `pop`
 * removes the pair and closes the gap.
 */
module PyDict {

  type Dict<V> = seq<(string, V)>

  /** `d.keys()`, in iteration order. */
  function Keys<V>(d: Dict<V>): (ks: seq<string>)
    ensures |ks| == |d|
    ensures forall i :: 0 <= i < |d| ==> ks[i] == d[i].0
  {
    seq(|d|, i requires 0 <= i < |d| => d[i].0)
  }

  /** No key occurs twice: every dict the program builds has this shape. */
  predicate Valid<V>(d: Dict<V>) {
    forall i, j :: 0 <= i < j < |d| ==> d[i].0 != d[j].0
  }

  /** `k in d` */
  predicate HasKey<V>(d: Dict<V>, k: string) {
    k in Keys(d)
  }

  /** Position of the first pair whose key is `k`. */
  function IndexOf<V>(d: Dict<V>, k: string): (i: nat)
    requires HasKey(d, k)
    ensures i < |d| && d[i].0 == k
    ensures forall j :: 0 <= j < i ==> d[j].0 != k
  {
    if d[0].0 == k then 0
    else
      TailHasKey(d, k);
      1 + IndexOf(d[1..], k)
  }

  /** A key other than the first one's is a key of the rest. */
  lemma TailHasKey<V>(d: Dict<V>, k: string)
    requires HasKey(d, k) && d[0].0 != k
    ensures HasKey(d[1..], k)
  {
    var i :| 0 <= i < |Keys(d)| && Keys(d)[i] == k;
    assert Keys(d[1..])[i - 1] == k;
  }

  lemma IndexOfIs<V>(d: Dict<V>, k: string, i: nat)
    requires i < |d| && d[i].0 == k
    requires forall j :: 0 <= j < i ==> d[j].0 != k
    ensures HasKey(d, k) && IndexOf(d, k) == i
  {
    assert Keys(d)[i] == k;
  }

  /** `d[k]` for a key that is present. */
  function Get<V>(d: Dict<V>, k: string): V
    requires HasKey(d, k)
  {
    d[IndexOf(d, k)].1
  }

  /** In a dict without repeated keys, the value stored at a position is the value of its key. */
  lemma GetAt<V>(d: Dict<V>, i: nat)
    requires Valid(d) && i < |d|
    ensures HasKey(d, d[i].0) && Get(d, d[i].0) == d[i].1
  {
    IndexOfIs(d, d[i].0, i);
  }

  /** `d[k] = v`: overwrite in place, or append a new pair at the end. */
  function Set<V>(d: Dict<V>, k: string, v: V): (r: Dict<V>)
    ensures Keys(r) == if HasKey(d, k) then Keys(d) else Keys(d) + [k]
    ensures HasKey(r, k) && Get(r, k) == v
    ensures forall k': string :: k' != k ==> (HasKey(r, k') <==> HasKey(d, k'))
    ensures forall k': string :: k' != k && HasKey(d, k') ==> Get(r, k') == Get(d, k')
    ensures Valid(d) ==> Valid(r)
  {
    if HasKey(d, k) then
      var i := IndexOf(d, k);
      var r := d[i := (k, v)];
      assert Keys(r) == Keys(d);
      IndexOfIs(r, k, i);
      forall k' | k' != k && HasKey(d, k') ensures Get(r, k') == Get(d, k') {
        IndexOfIs(r, k', IndexOf(d, k'));
      }
      r
    else
      var r := d + [(k, v)];
      assert Keys(r) == Keys(d) + [k];
      IndexOfIs(r, k, |d|);
      forall k' | k' != k && HasKey(d, k') ensures Get(r, k') == Get(d, k') {
        IndexOfIs(r, k', IndexOf(d, k'));
      }
      r
  }

  /**
   * `d.pop(k)` for a key that is present (the caller raises KeyError
   * otherwise): k is gone and the other keys keep their values and order.
   */
  function Remove<V>(d: Dict<V>, k: string): (r: Dict<V>)
    requires Valid(d) && HasKey(d, k)
    ensures Valid(r) && !HasKey(r, k)
    ensures forall k': string :: k' != k ==> (HasKey(r, k') <==> HasKey(d, k'))
    ensures forall k': string :: k' != k && HasKey(d, k') ==> Get(r, k') == Get(d, k')
    ensures Keys(r) == Keys(d)[..IndexOf(d, k)] + Keys(d)[IndexOf(d, k) + 1..]
  {
    var i := IndexOf(d, k);
    var r := d[..i] + d[i + 1..];
    DropAt(d, i);
    DropShape(d, i);
    r
  }

  lemma DropAt<V>(d: Dict<V>, i: nat)
    requires Valid(d) && i < |d|
    ensures var r := d[..i] + d[i + 1..];
      && Valid(r) && !HasKey(r, d[i].0)
      && (forall k': string :: k' != d[i].0 ==> (HasKey(r, k') <==> HasKey(d, k')))
      && (forall k': string :: k' != d[i].0 && HasKey(d, k') ==> Get(r, k') == Get(d, k'))
  {
    var r := d[..i] + d[i + 1..];
    DropShape(d, i);
    forall k': string | k' != d[i].0 && HasKey(d, k') ensures HasKey(r, k') && Get(r, k') == Get(d, k') {
      var j := IndexOf(d, k');
      GetAt(d, j);
      if j < i {
        GetAt(r, j);
      } else {
        GetAt(r, j - 1);
      }
    }
  }

  lemma DropShape<V>(d: Dict<V>, i: nat)
    requires Valid(d) && i < |d|
    ensures var r := d[..i] + d[i + 1..];
      && |r| == |d| - 1
      && (forall j :: 0 <= j < i ==> r[j] == d[j])
      && (forall j :: i <= j < |r| ==> r[j] == d[j + 1])
      && Valid(r)
      && Keys(r) == Keys(d)[..i] + Keys(d)[i + 1..]
  {
    var r := d[..i] + d[i + 1..];
    assert forall j :: i <= j < |r| ==> r[j] == d[j + 1];
    assert Keys(r) == Keys(d)[..i] + Keys(d)[i + 1..];
  }

  /** `ks` with every occurrence of `k` left out, the others in order. */
  function Without(ks: seq<string>, k: string): seq<string> {
    if ks == [] then []
    else
      var n := |ks| - 1;
      Without(ks[..n], k) + (if ks[n] == k then [] else [ks[n]])
  }

  lemma WithoutSnoc(ks: seq<string>, x: string, k: string)
    ensures Without(ks + [x], k) == Without(ks, k) + (if x == k then [] else [x])
  {
    assert (ks + [x])[..|ks|] == ks;
  }

  lemma {:induction false} WithoutAbsent(ks: seq<string>, k: string)
    requires k !in ks
    ensures Without(ks, k) == ks
  {
    if ks != [] {
      var n := |ks| - 1;
      assert forall j :: 0 <= j < n ==> ks[..n][j] == ks[j];
      WithoutAbsent(ks[..n], k);
      assert ks[..n] + [ks[n]] == ks;
    }
  }

  /** In a sequence without repeats, leaving out one element closes the gap at its position. */
  lemma {:induction false} WithoutAt(ks: seq<string>, i: nat)
    requires i < |ks| && forall a, b :: 0 <= a < b < |ks| ==> ks[a] != ks[b]
    ensures Without(ks, ks[i]) == ks[..i] + ks[i + 1..]
  {
    var n := |ks| - 1;
    var k := ks[i];
    if i == n {
      assert forall j :: 0 <= j < n ==> ks[..n][j] == ks[j];
      WithoutAbsent(ks[..n], k);
      assert ks[i + 1..] == [];
    } else {
      assert forall j :: 0 <= j < n ==> ks[..n][j] == ks[j];
      WithoutAt(ks[..n], i);
      assert ks[n] != k;
      assert ks[..n][..i] == ks[..i];
      assert ks[..n][i + 1..] + [ks[n]] == ks[i + 1..];
    }
  }

  /** `pop` leaves the keys in order with `k` taken out. */
  lemma RemoveIsWithout<V>(d: Dict<V>, k: string)
    requires Valid(d) && HasKey(d, k)
    ensures Keys(Remove(d, k)) == Without(Keys(d), k)
  {
    WithoutAt(Keys(d), IndexOf(d, k));
  }

  /** A key of a prefix sits at the same position in the whole dict. */
  lemma PrefixIndexOf<V>(d: Dict<V>, n: nat, k: string)
    requires n <= |d| && HasKey(d[..n], k)
    ensures HasKey(d, k) && IndexOf(d, k) == IndexOf(d[..n], k)
  {
    IndexOfIs(d, k, IndexOf(d[..n], k));
  }
}
