/**
 * A MongoDB collection seen as the sequence of its documents in natural (insertion)
 * order, with the two filter-driven driver operations the services use.
 */
module Collection {
  import opened Wrappers

  /** The start of the message of the error `insertOne` throws when the `_id` is already taken. */
  const DuplicateKeyError := "E11000 duplicate key error"

  /** Some document has the key `k`, where `key` projects a document to an indexed field. */
  predicate HasKey<T, K(==)>(docs: seq<T>, key: T -> K, k: K) {
    exists i :: 0 <= i < |docs| && key(docs[i]) == k
  }

  /** No two documents share a key: what a unique index on that field enforces. */
  predicate UniqueKeys<T, K(==)>(docs: seq<T>, key: T -> K) {
    forall i, j :: 0 <= i < j < |docs| ==> key(docs[i]) != key(docs[j])
  }

  /** The filter `{ field: k }`, for the field `key` projects. */
  function KeyFilter<T, K(==)>(key: T -> K, k: K): T -> bool {
    (doc: T) => key(doc) == k
  }

  /** Appending a document whose key is new keeps the keys unique. */
  lemma AppendKeepsKeysUnique<T, K>(docs: seq<T>, key: T -> K, doc: T)
    requires UniqueKeys(docs, key) && !HasKey(docs, key, key(doc))
    ensures UniqueKeys(docs + [doc], key)
  {
    var all := docs + [doc];
    forall i, j | 0 <= i < j < |all| ensures key(all[i]) != key(all[j]) {
      assert all[i] == docs[i];
      if j < |docs| {
        assert all[j] == docs[j];
      }
    }
  }

  /** Taking out one position keeps the keys unique. */
  lemma UniqueAfterRemovingAt<T, K>(docs: seq<T>, key: T -> K, i: nat)
    requires UniqueKeys(docs, key) && i < |docs|
    ensures UniqueKeys(docs[..i] + docs[i + 1..], key)
  {
    var r := docs[..i] + docs[i + 1..];
    forall a, b | 0 <= a < b < |r| ensures key(r[a]) != key(r[b]) {
      if b < i {
        assert r[a] == docs[a] && r[b] == docs[b];
      } else if a < i {
        assert r[a] == docs[a] && r[b] == docs[b + 1];
      } else {
        assert r[a] == docs[a + 1] && r[b] == docs[b + 1];
      }
    }
  }

  /** `findOne(filter)`: the position of the first document the filter matches. */
  function FindOne<T>(docs: seq<T>, matches: T -> bool): (r: Option<nat>)
    ensures r.Some? ==> r.value < |docs| && matches(docs[r.value])
    ensures r.Some? ==> forall j :: 0 <= j < r.value ==> !matches(docs[j])
    ensures r.None? <==> forall j :: 0 <= j < |docs| ==> !matches(docs[j])
  {
    if |docs| == 0 then None
    else if matches(docs[0]) then Some(0)
    else
      match FindOne(docs[1..], matches)
      case None => None
      case Some(i) => Some(i + 1)
  }

  /** `deleteOne(filter)`: the collection without the first document the filter matches. */
  function DeleteOne<T>(docs: seq<T>, matches: T -> bool): (r: seq<T>)
    ensures FindOne(docs, matches).None? ==> r == docs
    ensures FindOne(docs, matches).Some? ==>
      var i := FindOne(docs, matches).value; r == docs[..i] + docs[i + 1..]
  {
    if |docs| == 0 then []
    else if matches(docs[0]) then docs[1..]
    else
      var rest := DeleteOne(docs[1..], matches);
      match FindOne(docs[1..], matches)
      case None =>
        assert [docs[0]] + docs[1..] == docs;
        [docs[0]] + rest
      case Some(i) =>
        SkipInTail(docs, i);
        [docs[0]] + rest
  }

  /** Removing position `i` of the tail, then restoring the head, removes position `i + 1`. */
  lemma SkipInTail<T>(docs: seq<T>, i: nat)
    requires i + 1 < |docs|
    ensures [docs[0]] + (docs[1..][..i] + docs[1..][i + 1..]) == docs[..i + 1] + docs[i + 2..]
  {
    assert [docs[0]] + docs[1..][..i] == docs[..i + 1];
    assert docs[1..][i + 1..] == docs[i + 2..];
  }
}
