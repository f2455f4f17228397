/** A document collection of the remote store: documents in store order, each
    under a key (its document id). Reads take the first document under a key;
    writes keep keys unique. */
module Store {
  import opened Common

  /** One stored document: its id and its decoded fields. */
  datatype Doc<T> = Doc(key: string, data: T)

  predicate HasKey<T>(c: seq<Doc<T>>, key: string) {
    exists i | 0 <= i < |c| :: c[i].key == key
  }

  /** No two documents of the collection share an id. */
  ghost predicate UniqueKeys<T>(c: seq<Doc<T>>) {
    forall i, j | 0 <= i < j < |c| :: c[i].key != c[j].key
  }

  /** Position of the first document under `key`, if any. */
  function FirstIndex<T>(c: seq<Doc<T>>, key: string): (r: Option<nat>)
    ensures r.Some? ==> r.value < |c| && c[r.value].key == key
    ensures r.Some? ==> forall j | 0 <= j < r.value :: c[j].key != key
    ensures r.None? <==> !HasKey(c, key)
  {
    if c == [] then None
    else if c[0].key == key then Some(0)
    else match FirstIndex(c[1..], key)
      case None => None
      case Some(k) => Some(k + 1)
  }

  /** `collection.document(key).get()`: the stored fields, or nothing when no
      document has that id. */
  function Get<T>(c: seq<Doc<T>>, key: string): (r: Option<T>)
    ensures r.None? <==> !HasKey(c, key)
    ensures r.Some? ==> exists i | 0 <= i < |c| :: c[i] == Doc(key, r.value)
  {
    match FirstIndex(c, key)
    case None => None
    case Some(i) => Some(c[i].data)
  }

  /** `collection.document(key).set(data)`: overwrites the document in place
      when the id is taken, appends a new document otherwise. */
  function Set<T>(c: seq<Doc<T>>, key: string, data: T): (r: seq<Doc<T>>)
    ensures HasKey(c, key) ==> |r| == |c|
    ensures !HasKey(c, key) ==> r == c + [Doc(key, data)]
    ensures forall i | 0 <= i < |c| :: r[i].key == c[i].key
    ensures forall i | 0 <= i < |c| && c[i].key != key :: r[i] == c[i]
  {
    if HasKey(c, key) then
      seq(|c|, i requires 0 <= i < |c| => if c[i].key == key then Doc(key, data) else c[i])
    else c + [Doc(key, data)]
  }

  /** `collection.document(key).update(fields)`: applies `f` to the document
      stored under `key`; every other document is untouched. The platform
      refuses to update a missing document, so callers check `HasKey` first. */
  function Update<T>(c: seq<Doc<T>>, key: string, f: T -> T): (r: seq<Doc<T>>)
    ensures |r| == |c|
    ensures forall i | 0 <= i < |c| :: r[i].key == c[i].key
    ensures forall i | 0 <= i < |c| && c[i].key != key :: r[i] == c[i]
    ensures forall i | 0 <= i < |c| && c[i].key == key :: r[i].data == f(c[i].data)
  {
    seq(|c|, i requires 0 <= i < |c| => if c[i].key == key then Doc(key, f(c[i].data)) else c[i])
  }

  /** `collection.document(key).delete()`: removes the document; deleting an
      id that is not there changes nothing. */
  function Delete<T>(c: seq<Doc<T>>, key: string): (r: seq<Doc<T>>)
    ensures !HasKey(r, key)
    ensures forall d | d in c && d.key != key :: d in r
    ensures forall d | d in r :: d in c
    ensures !HasKey(c, key) ==> r == c
  {
    if c == [] then []
    else if c[0].key == key then Delete(c[1..], key)
    else [c[0]] + Delete(c[1..], key)
  }

  /** Reading back a document just written returns what was written. */
  lemma GetAfterSetSame<T>(c: seq<Doc<T>>, key: string, data: T)
    ensures Get(Set(c, key, data), key) == Some(data)
  {
    var r := Set(c, key, data);
    if !HasKey(c, key) {
      assert r[|c|].key == key;
    }
    assert HasKey(r, key);
    var f := FirstIndex(r, key);
    assert r[f.value].key == key;
  }

  /** Writing under one id leaves every other id reading as before. */
  lemma GetAfterSetOther<T>(c: seq<Doc<T>>, key: string, data: T, other: string)
    requires other != key
    ensures Get(Set(c, key, data), other) == Get(c, other)
  {
    var r := Set(c, key, data);
    var g, h := FirstIndex(r, other), FirstIndex(c, other);
    if h.Some? {
      assert r[h.value].key == other;
      assert HasKey(r, other);
    }
    if g.Some? && g.value < |c| {
      assert c[g.value].key == other;
    }
  }

  /** Reading back a document just written returns what was written, and
      every other id reads as before. */
  lemma GetAfterSet<T>(c: seq<Doc<T>>, key: string, data: T, other: string)
    ensures Get(Set(c, key, data), key) == Some(data)
    ensures other != key ==> Get(Set(c, key, data), other) == Get(c, other)
  {
    GetAfterSetSame(c, key, data);
    if other != key {
      GetAfterSetOther(c, key, data, other);
    }
  }

  /** Reading back an updated document gives the update applied to what was
      there; every other id reads as before. */
  lemma GetAfterUpdate<T>(c: seq<Doc<T>>, key: string, f: T -> T, other: string)
    ensures Get(Update(c, key, f), key) == (if HasKey(c, key) then Some(f(Get(c, key).value)) else None)
    ensures other != key ==> Get(Update(c, key, f), other) == Get(c, other)
  {
    var r := Update(c, key, f);
    SameKeysSameFirstIndex(c, r, key);
    SameKeysSameFirstIndex(c, r, other);
  }

  /** Two collections with the same id at every position agree on where each
      id first occurs. */
  lemma SameKeysSameFirstIndex<T>(c: seq<Doc<T>>, r: seq<Doc<T>>, key: string)
    requires |c| == |r| && forall i | 0 <= i < |c| :: r[i].key == c[i].key
    ensures FirstIndex(r, key) == FirstIndex(c, key)
  {
    var a, b := FirstIndex(r, key), FirstIndex(c, key);
    if b.Some? {
      assert r[b.value].key == key;
    }
    if a.Some? {
      assert c[a.value].key == key;
    }
  }

  /** Writing under one id keeps ids unique. */
  lemma SetKeepsUniqueKeys<T>(c: seq<Doc<T>>, key: string, data: T)
    requires UniqueKeys(c)
    ensures UniqueKeys(Set(c, key, data))
  {
  }

  /** Deleting keeps ids unique. */
  lemma {:induction false} DeleteKeepsUniqueKeys<T>(c: seq<Doc<T>>, key: string)
    requires UniqueKeys(c)
    ensures UniqueKeys(Delete(c, key))
  {
    if c != [] {
      DeleteKeepsUniqueKeys(c[1..], key);
      if c[0].key != key {
        var rest := Delete(c[1..], key);
        forall d | d in rest ensures d.key != c[0].key {
          assert d in c[1..];
        }
      }
    }
  }

  /** Deleting the same id twice is deleting it once. */
  lemma DeleteIdempotent<T>(c: seq<Doc<T>>, key: string)
    ensures Delete(Delete(c, key), key) == Delete(c, key)
  {
  }

  /** With unique ids, reading the id of a stored document returns that
      document. */
  lemma GetStored<T>(c: seq<Doc<T>>, i: nat)
    requires UniqueKeys(c) && i < |c|
    ensures Get(c, c[i].key) == Some(c[i].data)
  {
    assert HasKey(c, c[i].key);
  }
}
