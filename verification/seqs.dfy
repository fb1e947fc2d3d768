/** Small facts about sequences shared by the tree walks. */
module Seqs {
  predicate NoDuplicates<T(==)>(s: seq<T>) {
    forall i, j | 0 <= i < j < |s| :: s[i] != s[j]
  }

  lemma NoDuplicatesConcat<T>(xs: seq<T>, ys: seq<T>)
    requires NoDuplicates(xs) && NoDuplicates(ys)
    requires forall i, j | 0 <= i < |xs| && 0 <= j < |ys| :: xs[i] != ys[j]
    ensures NoDuplicates(xs + ys)
  {
    var s := xs + ys;
    forall i, j | 0 <= i < j < |s|
      ensures s[i] != s[j]
    {
      if j < |xs| {
        assert s[i] == xs[i] && s[j] == xs[j];
      } else if i >= |xs| {
        assert s[i] == ys[i - |xs|] && s[j] == ys[j - |xs|];
      } else {
        assert s[i] == xs[i] && s[j] == ys[j - |xs|];
      }
    }
  }

  /** Stated as a lemma so that large proof contexts regroup a concatenation
      in one step instead of by extensionality. */
  lemma ConcatAssoc<T>(x: seq<T>, y: seq<T>, z: seq<T>)
    ensures (x + y) + z == x + (y + z)
  {
  }
}
