/**
 The document-store rules of the Firebase service over the `vaultEntries` collection,
 modelled as a map from document id to document. The id `addDoc` generates and the time
 `Timestamp.now()` reads are parameters; which matching document `snap.docs[0]` names is left
 open (some matching document).
 */
module VaultStore {
  import opened Wrappers

  type Id = string

  /** The payload the vault hands to `saveEntry`: the lookup keys in clear, the secret sealed. */
  datatype Payload = Payload(name: string, username: string, ciphertext: string, iv: string, salt: string)

  /** A stored document: the payload fields, its owner and its timestamps. */
  datatype Doc = Doc(userId: string, name: string, username: string,
                     ciphertext: string, iv: string, salt: string,
                     createdAt: nat, updatedAt: Option<nat>)

  type Store = map<Id, Doc>

  /** What `loadEntries` returns for one document: its id next to its data. */
  datatype Entry = Entry(id: Id, doc: Doc)

  /** What `saveEntry` leaves behind: the collection, and the id it returns. */
  datatype Saved = Saved(store: Store, id: Id)

  /** The three `where` clauses of the `saveEntry` query. */
  predicate Matches(d: Doc, uid: string, name: string, username: string) {
    d.userId == uid && d.name == name && d.username == username
  }

  ghost predicate HasMatch(store: Store, uid: string, p: Payload) {
    exists id :: id in store && Matches(store[id], uid, p.name, p.username)
  }

  /** `updateDoc(ref, {...payload, updatedAt})`: the payload fields and `updatedAt` replace
      their old values; every other field stays. */
  function Merge(d: Doc, p: Payload, now: nat): Doc {
    d.(name := p.name, username := p.username, ciphertext := p.ciphertext, iv := p.iv,
       salt := p.salt, updatedAt := Some(now))
  }

  /** `addDoc(col, {...payload, userId: uid, createdAt})`. */
  function NewDoc(uid: string, p: Payload, now: nat): Doc {
    Doc(uid, p.name, p.username, p.ciphertext, p.iv, p.salt, now, None)
  }

  /**
   `saveEntry(uid, payload)`: an upsert keyed by owner, name and username. When some document
   matches, that document is merged with the payload and its id returned; otherwise one new
   document is added under the fresh id `addDoc` generated.
   */
  ghost function SaveEntry(store: Store, uid: string, p: Payload, now: nat, freshId: Id): (r: Saved)
    requires freshId !in store
    ensures HasMatch(store, uid, p) ==>
              && r.id in store && Matches(store[r.id], uid, p.name, p.username)
              && r.store.Keys == store.Keys
              && r.store[r.id] == Doc(uid, p.name, p.username, p.ciphertext, p.iv, p.salt,
                                      store[r.id].createdAt, Some(now))
    ensures !HasMatch(store, uid, p) ==>
              && r.id == freshId
              && r.store.Keys == store.Keys + {freshId}
              && r.store[freshId] == Doc(uid, p.name, p.username, p.ciphertext, p.iv, p.salt, now, None)
              && |r.store| == |store| + 1
    ensures r.id in r.store && Matches(r.store[r.id], uid, p.name, p.username)
    ensures forall id :: id in store && id != r.id ==> id in r.store && r.store[id] == store[id]
  {
    if HasMatch(store, uid, p) then
      var id :| id in store && Matches(store[id], uid, p.name, p.username);
      Saved(store[id := Merge(store[id], p, now)], id)
    else
      Saved(store[freshId := NewDoc(uid, p, now)], freshId)
  }

  /** `loadEntries(uid)`: the documents the `userId` query returns, each with its id. */
  function LoadEntries(store: Store, uid: string): (r: set<Entry>)
    ensures forall e :: e in r <==> e.id in store && store[e.id] == e.doc && e.doc.userId == uid
  {
    set id | id in store && store[id].userId == uid :: Entry(id, store[id])
  }

  /** `deleteEntry(id)`: the document is gone, whether or not it existed, and nothing else moves. */
  function DeleteEntry(store: Store, id: Id): (r: Store)
    ensures id !in r
    ensures forall k :: k != id ==> (k in r <==> k in store)
    ensures forall k :: k in r ==> k in store && r[k] == store[k]
  {
    store - {id}
  }

  /** Saving the same owner, name and username a second time adds no document. */
  lemma SaveTwiceAddsNothing(store: Store, uid: string, p: Payload, q: Payload,
                             now: nat, later: nat, fresh1: Id, fresh2: Id)
    requires fresh1 !in store
    requires q.name == p.name && q.username == p.username
    requires fresh2 !in SaveEntry(store, uid, p, now, fresh1).store
    ensures var first := SaveEntry(store, uid, p, now, fresh1);
            var second := SaveEntry(first.store, uid, q, later, fresh2);
            second.store.Keys == first.store.Keys && |second.store| == |first.store|
  {
    var first := SaveEntry(store, uid, p, now, fresh1);
    assert HasMatch(first.store, uid, q) by {
      assert first.id in first.store && Matches(first.store[first.id], uid, q.name, q.username);
    }
  }

  /** No two documents share owner, name and username. */
  ghost predicate UniqueKeys(store: Store) {
    forall i, j :: i in store && j in store && i != j ==>
      !Matches(store[j], store[i].userId, store[i].name, store[i].username)
  }

  /** Upserts that are the only writes keep the lookup keys unique, so the document
      `saveEntry` updates is the one matching document. */
  lemma SaveKeepsKeysUnique(store: Store, uid: string, p: Payload, now: nat, freshId: Id)
    requires freshId !in store
    requires UniqueKeys(store)
    ensures UniqueKeys(SaveEntry(store, uid, p, now, freshId).store)
    ensures forall id :: id in store && Matches(store[id], uid, p.name, p.username) ==>
              SaveEntry(store, uid, p, now, freshId).id == id
  {
    var r := SaveEntry(store, uid, p, now, freshId);
    forall i, j | i in r.store && j in r.store && i != j
      ensures !Matches(r.store[j], r.store[i].userId, r.store[i].name, r.store[i].username)
    {
      if i == r.id || j == r.id {
        var k := if i == r.id then j else i;
        assert k in store && r.store[k] == store[k];
        if HasMatch(store, uid, p) {
          assert !Matches(store[k], uid, p.name, p.username);
        }
      }
    }
  }

  /** A save by one owner leaves what every other owner loads unchanged. */
  lemma SaveIsolatesOwners(store: Store, uid: string, other: string, p: Payload, now: nat, freshId: Id)
    requires freshId !in store
    requires other != uid
    ensures LoadEntries(SaveEntry(store, uid, p, now, freshId).store, other) == LoadEntries(store, other)
  {
    var r := SaveEntry(store, uid, p, now, freshId);
    forall e | e in LoadEntries(r.store, other)
      ensures e in LoadEntries(store, other)
    {
      assert e.id != r.id;
    }
  }

  /** After a save, the owner loads the saved document under the returned id. */
  lemma LoadAfterSave(store: Store, uid: string, p: Payload, now: nat, freshId: Id)
    requires freshId !in store
    ensures var r := SaveEntry(store, uid, p, now, freshId);
            exists d :: Entry(r.id, d) in LoadEntries(r.store, uid) &&
                        d.name == p.name && d.username == p.username &&
                        d.ciphertext == p.ciphertext && d.iv == p.iv && d.salt == p.salt
  {
    var r := SaveEntry(store, uid, p, now, freshId);
    var d := r.store[r.id];
    assert Entry(r.id, d) in LoadEntries(r.store, uid);
  }

  /** A delete takes exactly the deleted document out of what its owner loads. */
  lemma LoadAfterDelete(store: Store, uid: string, id: Id)
    ensures LoadEntries(DeleteEntry(store, id), uid) == set e | e in LoadEntries(store, uid) && e.id != id
  {
  }
}
