/**
 * The note data-access layer: the domain `Note`, the list projection, and the
 * store whose operations each perform one request against the note table,
 * scoped by the owning user's id as partition key.
 */
module NoteStore {
  import opened Wrappers
  import opened NoteKeys
  import opened NoteTable
  import UpdateExpression

  /**
   * A note as the store returns it. `title` and `body` are the attributes of
   * the item read back; they are `None` only on an item that an update of a
   * missing note created without that attribute.
   */
  datatype Note = Note(id: string, userId: string, title: Option<string>, body: Option<string>)

  /** One entry of the note list: the id and title, never the body. */
  datatype ListItem = ListItem(id: string, title: Option<string>)

  /** `{ pk: userId, sk: idToSk(id) }`: the key of the note `id` of user `userId`. */
  function NoteKey(userId: string, id: string): Key {
    Key(userId, IdToSk(id))
  }

  /** Every sort key in the table carries the `note#` prefix. */
  ghost predicate AllPrefixed(t: Table) {
    forall k :: k in t ==> HasPrefix(k.sk)
  }

  /**
   * `getNote`: looks up the note at `(userId, idToSk(id))`. On a hit the
   * returned `id` is the stored sort key itself (`note#<id>`), not the id:
   * unlike the other operations this one does not strip the prefix.
   */
  function GetNote(t: Table, id: string, userId: string): (r: Option<Note>)
    ensures r.None? <==> NoteKey(userId, id) !in t
    ensures r.Some? ==> var item := t[NoteKey(userId, id)];
                        && r.value.id == IdToSk(id)
                        && r.value.userId == userId
                        && r.value.title == item.title
                        && r.value.body == item.body
  {
    var key := NoteKey(userId, id);
    match GetItem(t, key)
    case None => None
    case Some(item) => Some(Note(key.sk, key.pk, item.title, item.body))
  }

  /** The item an update leaves behind: supplied fields replaced, the others kept. */
  function Patched(prior: Item, title: Option<string>, body: Option<string>): Item {
    Item(if title.Some? then title else prior.title,
         if body.Some? then body else prior.body)
  }

  /** The note store: the table it is bound to is its only state. */
  class NoteStore {
    var table: Table

    ghost predicate Valid()
      reads this
    {
      AllPrefixed(table)
    }

    /** A store over an empty table. */
    constructor ()
      ensures Valid()
      ensures table == map[]
    {
      table := map[];
    }

    /**
     * `getNoteListItems`: one `{id, title}` per item in the user's partition,
     * with the id stripped of its prefix, in whatever order the table yields
     * them. `keys` names the item each entry was projected from. Every listed
     * id leads `getNote` back to a note of the same user.
     */
    method GetNoteListItems(userId: string) returns (items: seq<ListItem>, ghost keys: seq<Key>)
      requires Valid()
      ensures |items| == |keys|
      ensures forall i :: 0 <= i < |keys| ==>
                keys[i] in table && keys[i].pk == userId &&
                items[i] == ListItem(SkToId(keys[i].sk), table[keys[i]].title)
      ensures forall i, j :: 0 <= i < j < |keys| ==> keys[i] != keys[j]
      ensures forall k :: k in table && k.pk == userId ==> k in keys
      ensures Partition(table, userId) == map[] ==> items == []
      ensures forall i :: 0 <= i < |items| ==> GetNote(table, items[i].id, userId).Some?
    {
      var pending := table.Keys;
      items, keys := [], [];
      while pending != {}
        invariant pending <= table.Keys
        invariant |items| == |keys|
        invariant forall i :: 0 <= i < |keys| ==>
                    keys[i] in table && keys[i] !in pending && keys[i].pk == userId &&
                    items[i] == ListItem(SkToId(keys[i].sk), table[keys[i]].title)
        invariant forall i, j :: 0 <= i < j < |keys| ==> keys[i] != keys[j]
        invariant forall k :: k in table && k !in pending && k.pk == userId ==> k in keys
        decreases pending
      {
        var k :| k in pending;
        if k.pk == userId {
          items := items + [ListItem(SkToId(k.sk), table[k].title)];
          keys := keys + [k];
        }
        pending := pending - {k};
      }
      if keys != [] {
        assert keys[0] in Partition(table, userId);
      }
      forall i | 0 <= i < |items|
        ensures GetNote(table, items[i].id, userId).Some?
      {
        ListedIdFindsNote(table, keys[i]);
      }
    }

    /**
     * `createNote`: puts the item `(userId, idToSk(freshId))` with the given
     * title and body and returns the note read back from the put item. The id
     * generator is outside the model: `freshId` is its result.
     */
    method CreateNote(userId: string, title: string, body: string, freshId: string)
      returns (note: Note)
      requires Valid()
      modifies this
      ensures Valid()
      ensures table == PutItem(old(table), NoteKey(userId, freshId), Item(Some(title), Some(body)))
      ensures note == Note(freshId, userId, Some(title), Some(body))
    {
      var key := Key(userId, IdToSk(freshId));
      var item := Item(Some(title), Some(body));
      table := PutItem(table, key, item);
      note := Note(SkToId(key.sk), key.pk, item.title, item.body);
    }

    /** `deleteNote`: removes the item at `(userId, idToSk(id))`, if there is one. */
    method DeleteNote(id: string, userId: string)
      requires Valid()
      modifies this
      ensures Valid()
      ensures table == DeleteItem(old(table), NoteKey(userId, id))
    {
      table := DeleteItem(table, NoteKey(userId, id));
    }

    /**
     * `updateNote`: builds the partial-update request from the supplied
     * fields, sends it for the key `(userId, idToSk(id))`, and returns the
     * note reconstructed from the item as it is after the update. A request
     * with neither field is rejected by the table and changes nothing.
     */
    method UpdateNote(id: string, userId: string, title: Option<string>, body: Option<string>)
      returns (r: Result<Note, Error>)
      requires Valid()
      modifies this
      ensures Valid()
      ensures r.Failure? <==> title.None? && body.None?
      ensures r.Failure? ==> table == old(table)
      ensures r.Success? ==>
                var key := NoteKey(userId, id);
                && table == PutItem(old(table), key, Patched(PriorItem(old(table), key), title, body))
                && r.value == Note(id, userId, table[key].title, table[key].body)
    {
      var exp, values := UpdateExpression.Build(title, body);
      var key := NoteKey(userId, id);
      var result := UpdateItem(table, key, exp, values);
      match result
      case Failure(e) =>
        r := Failure(e);
      case Success(updated) =>
        table := updated;
        var attributes := updated[key];
        r := Success(Note(SkToId(key.sk), key.pk, attributes.title, attributes.body));
    }
  }

  /**
   * The asymmetry of `getNote`: the returned `id` is the full sort key
   * `note#<id>`, which differs from the id that was asked for and decodes
   * back to it.
   */
  lemma GetNoteReturnsSortKey(t: Table, id: string, userId: string)
    requires NoteKey(userId, id) in t
    ensures GetNote(t, id, userId).Some?
    ensures GetNote(t, id, userId).value.id == Prefix + id
    ensures GetNote(t, id, userId).value.id != id
    ensures SkToId(GetNote(t, id, userId).value.id) == id
  {
  }

  /** `getNote` only ever sees the caller's own partition. */
  lemma GetNoteSeesOnlyOwnPartition(t: Table, id: string, userId: string)
    ensures GetNote(t, id, userId) == GetNote(Partition(t, userId), id, userId)
  {
  }

  /**
   * Ownership isolation: a put or delete under another user's partition
   * changes neither what `getNote` nor what the list query sees for `userId`.
   */
  lemma OtherUsersWritesInvisible(t: Table, key: Key, item: Item, id: string, userId: string)
    requires key.pk != userId
    ensures GetNote(PutItem(t, key, item), id, userId) == GetNote(t, id, userId)
    ensures GetNote(DeleteItem(t, key), id, userId) == GetNote(t, id, userId)
    ensures Partition(PutItem(t, key, item), userId) == Partition(t, userId)
    ensures Partition(DeleteItem(t, key), userId) == Partition(t, userId)
  {
    WriteElsewhereInvisible(t, key, item, userId);
  }

  /** A put or delete at one key leaves every other note as `getNote` sees it. */
  lemma WritesKeepOtherNotes(t: Table, key: Key, item: Item, id: string, userId: string)
    requires NoteKey(userId, id) != key
    ensures GetNote(PutItem(t, key, item), id, userId) == GetNote(t, id, userId)
    ensures GetNote(DeleteItem(t, key), id, userId) == GetNote(t, id, userId)
  {
  }

  /** `createNote` then `getNote` by the same user finds the title and body written. */
  lemma CreateThenGet(t: Table, userId: string, freshId: string, title: string, body: string)
    ensures GetNote(PutItem(t, NoteKey(userId, freshId), Item(Some(title), Some(body))), freshId, userId)
            == Some(Note(IdToSk(freshId), userId, Some(title), Some(body)))
  {
  }

  /** With a fresh id, `createNote` adds exactly one item. */
  lemma CreateAddsOneItem(t: Table, userId: string, freshId: string, item: Item)
    requires NoteKey(userId, freshId) !in t
    ensures |PutItem(t, NoteKey(userId, freshId), item)| == |t| + 1
  {
  }

  /** After `deleteNote` the note is gone; deleting it again changes nothing. */
  lemma DeleteThenGet(t: Table, id: string, userId: string)
    ensures GetNote(DeleteItem(t, NoteKey(userId, id)), id, userId).None?
    ensures DeleteItem(DeleteItem(t, NoteKey(userId, id)), NoteKey(userId, id))
            == DeleteItem(t, NoteKey(userId, id))
  {
    DeleteIdempotent(t, NoteKey(userId, id));
  }

  /**
   * Partial-update independence: after an update, `getNote` sees each
   * supplied field's new value and the stored value of each absent field.
   */
  lemma UpdateThenGet(t: Table, id: string, userId: string, title: Option<string>, body: Option<string>)
    requires NoteKey(userId, id) in t
    ensures var key := NoteKey(userId, id);
            var n := GetNote(PutItem(t, key, Patched(PriorItem(t, key), title, body)), id, userId);
            && n.Some?
            && (title.Some? ==> n.value.title == title)
            && (title.None? ==> n.value.title == t[key].title)
            && (body.Some? ==> n.value.body == body)
            && (body.None? ==> n.value.body == t[key].body)
  {
  }

  /**
   * An update of a note that does not exist creates it (the table's update
   * is an upsert), carrying only the supplied fields.
   */
  lemma UpdateOfMissingNoteCreatesIt(t: Table, id: string, userId: string, title: Option<string>, body: Option<string>)
    requires NoteKey(userId, id) !in t
    ensures var key := NoteKey(userId, id);
            GetNote(PutItem(t, key, Patched(PriorItem(t, key), title, body)), id, userId)
            == Some(Note(IdToSk(id), userId, title, body))
  {
  }

  /** Every id the list returns finds its note again through `getNote`. */
  lemma ListedIdFindsNote(t: Table, key: Key)
    requires AllPrefixed(t)
    requires key in t
    ensures GetNote(t, SkToId(key.sk), key.pk) == Some(Note(key.sk, key.pk, t[key].title, t[key].body))
  {
  }

  /**
   * The scenario of a note's life: create "Groceries"/"milk, eggs" for
   * `userId`, read it, update only the body, read it, delete it, read it,
   * and delete it once more.
   */
  method GroceriesScenario(userId: string, freshId: string)
    returns (created: Option<Note>, updated: Option<Note>, deleted: Option<Note>, redeleted: Option<Note>)
    ensures created == Some(Note(Prefix + freshId, userId, Some("Groceries"), Some("milk, eggs")))
    ensures updated == Some(Note(Prefix + freshId, userId, Some("Groceries"), Some("milk, eggs, bread")))
    ensures deleted == None && redeleted == None
  {
    var store := new NoteStore();
    var note := store.CreateNote(userId, "Groceries", "milk, eggs", freshId);
    created := GetNote(store.table, note.id, userId);
    var _ := store.UpdateNote(note.id, userId, None, Some("milk, eggs, bread"));
    updated := GetNote(store.table, note.id, userId);
    store.DeleteNote(note.id, userId);
    deleted := GetNote(store.table, note.id, userId);
    store.DeleteNote(note.id, userId);
    redeleted := GetNote(store.table, note.id, userId);
  }
}
