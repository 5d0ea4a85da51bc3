/** Types shared by every module of the model. */
module Common {

  datatype Option<+T> = None | Some(value: T)

  /** The key-value pairs of one secret. */
  type Secret = map<string, string>

  lemma SubsetSize<T>(a: set<T>, b: set<T>)
    requires a <= b
    ensures |a| <= |b|
    ensures |a| == |b| ==> a == b
  {
    assert b == a + (b - a);
  }
}
