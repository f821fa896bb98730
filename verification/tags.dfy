/** The tag entity and its table. The tag class itself is not part of this
    model's sources; its shape is read off the fields the services use. */
module Tags {
  import opened Wrappers

  datatype Tag = Tag(id: int, name: string, description: Option<string>, postCount: Option<int>)

  type TagTable = map<int, Tag>

  predicate WellKeyed(tags: TagTable) {
    forall id :: id in tags ==> tags[id].id == id
  }

  /** Tag names are unique. */
  predicate NamesUnique(tags: TagTable) {
    forall a, b :: a in tags && b in tags && a != b ==> tags[a].name != tags[b].name
  }

  predicate Valid(tags: TagTable) {
    WellKeyed(tags) && NamesUnique(tags)
  }

  /** Some tag other than `except` carries `name`. */
  predicate NameHeldByOther(tags: TagTable, name: string, except: Option<int>) {
    exists id :: id in tags && tags[id].name == name && Some(id) != except
  }
}
