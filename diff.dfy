/**
 The diff engine (`diff` in src/main.rs): every key of the left map is
 looked up, and removed, in the right map; a `Difference` is reported only
 for a key present on both sides whose two values differ. Keys found on one
 side only are never reported. The source yields the differences in hash
 map order, which is unspecified, so they are specified here as a set.
 */
module DiffEngine {
  import opened Reader

  /** A key whose value differs between the two files, with both values. */
  datatype Difference = Difference(key: Key, left: string, right: string)

  /** The differences between two maps, independent of any iteration order. */
  function DiffSpec(left: ConfigMap, right: ConfigMap): set<Difference>
  {
    set k | k in left && k in right && left[k] != right[k] :: Difference(k, left[k], right[k])
  }

  /** The drain loop of `diff` over two maps: each key of `left` is taken in
      turn and removed from what is left of `right`; a difference is kept
      when the key was there with another value. The result holds exactly
      the differences of `DiffSpec`, each key at most once. */
  method DiffMaps(left: ConfigMap, right: ConfigMap) returns (ds: seq<Difference>)
    ensures forall d :: d in ds <==> d in DiffSpec(left, right)
    ensures forall i, j :: 0 <= i < j < |ds| ==> ds[i].key != ds[j].key
  {
    var rest := right;
    var todo := left.Keys;
    ds := [];
    while todo != {}
      invariant todo <= left.Keys
      invariant rest == right - (left.Keys - todo)
      invariant forall d :: d in ds <==> d in DiffSpec(left, right) && d.key !in todo
      invariant forall i, j :: 0 <= i < j < |ds| ==> ds[i].key != ds[j].key
      decreases todo
    {
      var key :| key in todo;
      todo := todo - {key};
      if key in rest {
        var other := rest[key];
        rest := rest - {key};
        if left[key] != other {
          ds := ds + [Difference(key, left[key], other)];
        }
      }
    }
  }

  /** `diff`: read both files, then compare their maps. */
  method Diff(leftLines: seq<string>, rightLines: seq<string>) returns (ds: seq<Difference>)
    ensures forall d :: d in ds <==> d in DiffSpec(ReadSpec(leftLines), ReadSpec(rightLines))
    ensures forall i, j :: 0 <= i < j < |ds| ==> ds[i].key != ds[j].key
  {
    var left := ReadToMap(leftLines);
    var right := ReadToMap(rightLines);
    ds := DiffMaps(left, right);
  }

  /** A difference is reported exactly for a key on both sides whose values
      differ, and it carries the left and the right value. */
  lemma DiffMembership(left: ConfigMap, right: ConfigMap, d: Difference)
    ensures d in DiffSpec(left, right) <==>
              && d.key in left && d.key in right
              && d.left == left[d.key] && d.right == right[d.key]
              && d.left != d.right
  {
  }

  /** Keys found on one side only are never reported. */
  lemma OneSidedNotReported(left: ConfigMap, right: ConfigMap, k: Key)
    requires k !in left || k !in right
    ensures forall d :: d in DiffSpec(left, right) ==> d.key != k
  {
  }

  /** Each key is reported at most once. */
  lemma DiffKeysUnique(left: ConfigMap, right: ConfigMap, d1: Difference, d2: Difference)
    requires d1 in DiffSpec(left, right) && d2 in DiffSpec(left, right)
    requires d1.key == d2.key
    ensures d1 == d2
  {
  }

  /** The difference with its two sides swapped. */
  function Swap(d: Difference): Difference
  {
    Difference(d.key, d.right, d.left)
  }

  /** Comparing the other way round reports the same keys with the values swapped. */
  lemma DiffSymmetric(left: ConfigMap, right: ConfigMap)
    ensures DiffSpec(right, left) == set d | d in DiffSpec(left, right) :: Swap(d)
  {
    var swapped := set d | d in DiffSpec(left, right) :: Swap(d);
    forall d | d in DiffSpec(right, left) ensures d in swapped {
      assert Swap(d) in DiffSpec(left, right) && Swap(Swap(d)) == d;
    }
  }

  /** Nothing is reported exactly when the two maps agree on every common key. */
  lemma DiffEmptyIffAgree(left: ConfigMap, right: ConfigMap)
    ensures DiffSpec(left, right) == {} <==> forall k :: k in left && k in right ==> left[k] == right[k]
  {
    if exists k :: k in left && k in right && left[k] != right[k] {
      var k :| k in left && k in right && left[k] != right[k];
      assert Difference(k, left[k], right[k]) in DiffSpec(left, right);
    }
  }
}
