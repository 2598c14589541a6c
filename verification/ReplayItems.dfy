/** What the replay caches of internal/cache do alike with the items a request brings. */
module ReplayItems {
  import opened ByteStrings

  /** The items a normalizer accepts, normalized and in order. */
  function Kept<T>(normalize: Bytes -> Option<T>, raw: seq<Bytes>): seq<T> {
    if raw == [] then []
    else
      var front := Kept(normalize, raw[..|raw| - 1]);
      match normalize(raw[|raw| - 1])
      case Some(item) => front + [item]
      case None => front
  }

  /** Each item is kept or dropped by itself. */
  lemma {:induction false} KeptAppend<T>(normalize: Bytes -> Option<T>, a: seq<Bytes>, b: seq<Bytes>)
    ensures Kept(normalize, a + b) == Kept(normalize, a) + Kept(normalize, b)
    ensures forall x :: Kept(normalize, [x]) == match normalize(x) case Some(item) => [item] case None => []
    decreases |b|
  {
    forall x ensures Kept(normalize, [x]) == match normalize(x) case Some(item) => [item] case None => [] {
      assert [x][..0] == [];
    }
    if b == [] {
      assert a + b == a;
    } else {
      KeptAppend(normalize, a, b[..|b| - 1]);
      assert (a + b)[..|a + b| - 1] == a + b[..|b| - 1];
    }
  }
}
