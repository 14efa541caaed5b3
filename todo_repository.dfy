/** `TodoRepository`: the in-memory store of to-do items behind the Todo API. */
module TodoRepositories {
  import opened Wrappers

  /** A to-do item. The repository and the controller assign its `Key` in place. */
  class TodoItem {
    var key: Option<string>
    var name: Option<string>

    constructor (name: Option<string>)
      ensures key == None && this.name == name
    {
      key := None;
      this.name := name;
    }
  }

  /** The static dictionary `_todos`: one per process, shared by every repository instance. */
  class TodoStore {
    var todos: map<string, TodoItem>

    constructor ()
      ensures todos == map[]
    {
      todos := map[];
    }
  }

  /** The keys of the stored items that carry the given name. */
  ghost function Named(todos: map<string, TodoItem>, name: string): set<string>
    reads todos.Values
  {
    set k | k in todos && todos[k].name == Some(name)
  }

  /** Storing an item under a key not yet in use adds one to the count of its name and leaves the others alone. */
  lemma NamedAfterInsert(todos: map<string, TodoItem>, key: string, item: TodoItem, name: string)
    requires key !in todos
    ensures item.name == Some(name) ==> |Named(todos[key := item], name)| == |Named(todos, name)| + 1
    ensures item.name != Some(name) ==> |Named(todos[key := item], name)| == |Named(todos, name)|
  {
    var before := Named(todos, name);
    var after := Named(todos[key := item], name);
    if item.name == Some(name) {
      assert after == before + {key};
    } else {
      assert after == before;
    }
  }

  class TodoRepository {
    /** The static `_todos` that this instance works on. */
    const store: TodoStore

    /**
     * The constructor stores one more item named "Item1" in the shared dictionary, under the key
     * that `Create` draws. The new GUID string is the parameter `freshKey`.
     */
    constructor (store: TodoStore, freshKey: string)
      modifies store
      ensures this.store == store
      ensures freshKey in store.todos && fresh(store.todos[freshKey])
      ensures store.todos == old(store.todos)[freshKey := store.todos[freshKey]]
      ensures store.todos[freshKey].key == Some(freshKey) && store.todos[freshKey].name == Some("Item1")
      ensures freshKey !in old(store.todos) ==>
        |Named(store.todos, "Item1")| == old(|Named(store.todos, "Item1")|) + 1
    {
      this.store := store;
      new;
      ghost var before := store.todos;
      var item := new TodoItem(Some("Item1"));
      Create(item, freshKey);
      if freshKey !in before {
        NamedAfterInsert(before, freshKey, item, "Item1");
      }
    }

    /** `Create`: sets `item.Key` to the new key and stores the item under it; nothing else changes. */
    method Create(item: TodoItem, freshKey: string)
      modifies store, item
      ensures item.key == Some(freshKey) && item.name == old(item.name)
      ensures store.todos == old(store.todos)[freshKey := item]
    {
      item.key := Some(freshKey);
      store.todos := store.todos[freshKey := item];
    }

    /**
     * `Get()`: the stored values, each once per key holding it, in some key order that the model
     * leaves open (`keys`).
     */
    method GetAll() returns (items: seq<TodoItem>, ghost keys: seq<string>)
      ensures |items| == |keys|
      ensures forall i, j :: 0 <= i < j < |keys| ==> keys[i] != keys[j]
      ensures forall k :: k in store.todos <==> k in keys
      ensures forall i :: 0 <= i < |keys| ==> keys[i] in store.todos && items[i] == store.todos[keys[i]]
      ensures forall x :: x in items <==> x in store.todos.Values
    {
      var todos := store.todos;
      var left := todos.Keys;
      items, keys := [], [];
      while left != {}
        invariant left <= todos.Keys
        invariant |items| == |keys|
        invariant forall i, j :: 0 <= i < j < |keys| ==> keys[i] != keys[j]
        invariant forall k :: k in todos ==> (k in keys <==> k !in left)
        invariant forall i :: 0 <= i < |keys| ==> keys[i] in todos && items[i] == todos[keys[i]]
        decreases left
      {
        var k :| k in left;
        items, keys := items + [todos[k]], keys + [k];
        left := left - {k};
      }
      forall x | x in todos.Values ensures x in items {
        var k :| k in todos && todos[k] == x;
        var i :| 0 <= i < |keys| && keys[i] == k;
        assert items[i] == x;
      }
    }

    /** `Get(key)`: the item stored under `key`, or null when there is none. The store is not changed. */
    method Get(key: string) returns (item: TodoItem?)
      ensures key in store.todos ==> item == store.todos[key]
      ensures key !in store.todos ==> item == null
    {
      if key in store.todos {
        item := store.todos[key];
      } else {
        item := null;
      }
    }

    /** `Delete(key)`: removes exactly `key` and returns what it held; an absent key returns null and changes nothing. */
    method Delete(key: string) returns (item: TodoItem?)
      modifies store
      ensures key in old(store.todos) ==> item == old(store.todos[key])
      ensures key !in old(store.todos) ==> item == null
      ensures store.todos == old(store.todos) - {key}
    {
      if key in store.todos {
        item := store.todos[key];
        store.todos := store.todos - {key};
      } else {
        item := null;
      }
    }

    /**
     * `Update(item)`: an upsert under `item.Key`, whether or not the key was present; a null key
     * throws ArgumentNullException and changes nothing.
     */
    method Update(item: TodoItem) returns (outcome: Outcome)
      modifies store
      ensures item.key == None ==> outcome == Fail(ArgumentNull) && store.todos == old(store.todos)
      ensures item.key.Some? ==> outcome == Pass && store.todos == old(store.todos)[item.key.value := item]
    {
      match item.key
      case None =>
        outcome := Fail(ArgumentNull);
      case Some(k) =>
        store.todos := store.todos[k := item];
        outcome := Pass;
    }

    /** Every stored item's `Key` is the key it is stored under. */
    ghost predicate KeysConsistent()
      reads this, store, store.todos.Values
    {
      forall k :: k in store.todos ==> store.todos[k].key == Some(k)
    }
  }

  /** `Delete(k)` followed by `Get(k)` finds nothing. */
  method DeleteThenGet(repo: TodoRepository, key: string) returns (item: TodoItem?)
    modifies repo.store
    ensures item == null
  {
    var _ := repo.Delete(key);
    item := repo.Get(key);
  }

  /** `n` constructions with distinct fresh keys leave `n` more items named "Item1" in the shared store. */
  method ConstructMany(store: TodoStore, freshKeys: seq<string>) returns (repos: seq<TodoRepository>)
    requires forall i, j :: 0 <= i < j < |freshKeys| ==> freshKeys[i] != freshKeys[j]
    requires forall i :: 0 <= i < |freshKeys| ==> freshKeys[i] !in store.todos
    modifies store
    ensures |repos| == |freshKeys|
    ensures |Named(store.todos, "Item1")| == old(|Named(store.todos, "Item1")|) + |freshKeys|
  {
    repos := [];
    var i := 0;
    while i < |freshKeys|
      invariant 0 <= i <= |freshKeys| && |repos| == i
      invariant forall j :: i <= j < |freshKeys| ==> freshKeys[j] !in store.todos
      invariant |Named(store.todos, "Item1")| == old(|Named(store.todos, "Item1")|) + i
    {
      var r := new TodoRepository(store, freshKeys[i]);
      repos := repos + [r];
      i := i + 1;
    }
  }
}
