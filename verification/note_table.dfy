/**
 * The key-value table the note store runs against, as an in-memory map from
 * the composite primary key `(pk, sk)` to the item's other attributes, with
 * the single-item operations the store calls: get, put, delete and update.
 */
module NoteTable {
  import opened Wrappers
  import UpdateExpression

  /** The composite primary key: partition key (user id) and sort key. */
  datatype Key = Key(pk: string, sk: string)

  /**
   * The non-key attributes of an item. An attribute is `None` when the item
   * does not carry it: the service stores whatever attributes were written.
   */
  datatype Item = Item(title: Option<string>, body: Option<string>)

  type Table = map<Key, Item>

  /** Why the service refuses an update request. */
  datatype Error =
    /** The update expression is a bare `"set"` that assigns nothing. */
    | EmptyUpdate

  /** `get`: the item stored at `key`, if any. */
  function GetItem(t: Table, key: Key): (r: Option<Item>)
    ensures r.Some? <==> key in t
    ensures r.Some? ==> r.value == t[key]
  {
    if key in t then Some(t[key]) else None
  }

  /** `put`: stores `item` at `key`, replacing any item already there. */
  function PutItem(t: Table, key: Key, item: Item): (t': Table)
    ensures t'.Keys == t.Keys + {key}
    ensures t'[key] == item
    ensures forall k :: k in t && k != key ==> t'[k] == t[k]
  {
    t[key := item]
  }

  /** `delete`: removes the item at `key`; a missing key is not an error. */
  function DeleteItem(t: Table, key: Key): (t': Table)
    ensures t'.Keys == t.Keys - {key}
    ensures forall k :: k in t' ==> t'[k] == t[k]
  {
    t - {key}
  }

  /**
   * The attributes an update starts from: the stored item, or (because an
   * update of a missing key creates the item) an item with no attributes.
   */
  function PriorItem(t: Table, key: Key): Item {
    if key in t then t[key] else Item(None, None)
  }

  /**
   * `update` with the expression `set title = :t, body = :b` (or a part of
   * it) and the value dictionary `values`: `title` takes the value of `:t`
   * and `body` that of `:b` when the dictionary holds them; other attributes
   * keep their prior value. The item is created when it does not exist. The
   * expression `"set"` with no assignment after it is rejected.
   */
  function UpdateItem(t: Table, key: Key, exp: string, values: map<string, string>): (r: Result<Table, Error>)
    ensures r.Failure? <==> exp == "set"
    ensures r.Success? ==> r.value.Keys == t.Keys + {key}
    ensures r.Success? ==> forall k :: k in t && k != key ==> r.value[k] == t[k]
    ensures r.Success? && UpdateExpression.TitleValue in values ==>
              r.value[key].title == Some(values[UpdateExpression.TitleValue])
    ensures r.Success? && UpdateExpression.TitleValue !in values ==>
              r.value[key].title == PriorItem(t, key).title
    ensures r.Success? && UpdateExpression.BodyValue in values ==>
              r.value[key].body == Some(values[UpdateExpression.BodyValue])
    ensures r.Success? && UpdateExpression.BodyValue !in values ==>
              r.value[key].body == PriorItem(t, key).body
  {
    if exp == "set" then
      Failure(EmptyUpdate)
    else
      var prior := PriorItem(t, key);
      var title := if UpdateExpression.TitleValue in values
                   then Some(values[UpdateExpression.TitleValue]) else prior.title;
      var body := if UpdateExpression.BodyValue in values
                  then Some(values[UpdateExpression.BodyValue]) else prior.body;
      Success(t[key := Item(title, body)])
  }

  /** `query` with `pk = :pk`: the items of one partition. */
  function Partition(t: Table, pk: string): (p: Table)
    ensures forall k :: k in p <==> k in t && k.pk == pk
    ensures forall k :: k in p ==> p[k] == t[k]
  {
    map k | k in t && k.pk == pk :: t[k]
  }

  /** Deleting twice has the effect of deleting once; deleting a missing key changes nothing. */
  lemma DeleteIdempotent(t: Table, key: Key)
    ensures DeleteItem(DeleteItem(t, key), key) == DeleteItem(t, key)
    ensures key !in t ==> DeleteItem(t, key) == t
  {
  }

  /** A write to another user's partition leaves this user's partition as it was. */
  lemma WriteElsewhereInvisible(t: Table, key: Key, item: Item, pk: string)
    requires key.pk != pk
    ensures Partition(PutItem(t, key, item), pk) == Partition(t, pk)
    ensures Partition(DeleteItem(t, key), pk) == Partition(t, pk)
  {
  }
}
