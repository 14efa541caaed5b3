/**
 * `TodoController`: the decisions each endpoint of the Todo API makes and what it does to the
 * repository. HTTP results are the `Response` datatype.
 */
module TodoControllers {
  import opened Wrappers
  import opened TodoRepositories

  /** The route name `Post` links the created item to. */
  const GetTodoRoute: string := "GetTodo"

  datatype Response =
    | Found(item: TodoItem)                                    // ObjectResult(item)
    | NotFound                                                 // 404
    | BadRequest                                               // 400
    | CreatedAtRoute(routeName: string, id: string, value: TodoItem)  // 201
    | NoContent                                                // 204
    | Faulted(error: Exception)                                // an exception escaped the action

  class TodoController {
    const repo: TodoRepository

    constructor (repo: TodoRepository)
      ensures this.repo == repo
    {
      this.repo := repo;
    }

    /** `GET api/todo`: every stored item, as the repository's `Get()` lists them. */
    method GetAll() returns (items: seq<TodoItem>, ghost keys: seq<string>)
      ensures |items| == |keys|
      ensures forall i, j :: 0 <= i < j < |keys| ==> keys[i] != keys[j]
      ensures forall k :: k in repo.store.todos <==> k in keys
      ensures forall i :: 0 <= i < |keys| ==> keys[i] in repo.store.todos && items[i] == repo.store.todos[keys[i]]
      ensures forall x :: x in items <==> x in repo.store.todos.Values
    {
      items, keys := repo.GetAll();
    }

    /** `GET api/todo/{id}`: the stored item, or NotFound exactly when there is none. */
    method GetById(id: string) returns (r: Response)
      ensures r == NotFound <==> id !in repo.store.todos
      ensures id in repo.store.todos ==> r == Found(repo.store.todos[id])
    {
      var item := repo.Get(id);
      if item == null {
        return NotFound;
      }
      return Found(item);
    }

    /** `POST api/todo`: a null body is a bad request; otherwise the item is created under a fresh key. */
    method Post(item: TodoItem?, freshKey: string) returns (r: Response)
      modifies repo.store, item
      ensures item == null ==> r == BadRequest && repo.store.todos == old(repo.store.todos)
      ensures item != null ==>
        && r == CreatedAtRoute(GetTodoRoute, freshKey, item)
        && item.key == Some(freshKey)
        && item.name == old(item.name)
        && repo.store.todos == old(repo.store.todos)[freshKey := item]
      ensures old(repo.KeysConsistent()) && (item == null || item !in old(repo.store.todos.Values)) ==>
        repo.KeysConsistent()
    {
      if item == null {
        return BadRequest;
      }
      repo.Create(item, freshKey);
      return CreatedAtRoute(GetTodoRoute, freshKey, item);
    }

    /**
     * `PUT api/todo/{id}`: the body must be present and carry `id` as its key, which is checked
     * before any lookup; an absent `id` is NotFound; otherwise the body replaces the stored item.
     */
    method Put(id: string, item: TodoItem?) returns (r: Response)
      modifies repo.store
      ensures item == null || item.key != Some(id) ==>
        r == BadRequest && repo.store.todos == old(repo.store.todos)
      ensures item != null && item.key == Some(id) && id !in old(repo.store.todos) ==>
        r == NotFound && repo.store.todos == old(repo.store.todos)
      ensures item != null && item.key == Some(id) && id in old(repo.store.todos) ==>
        r == NoContent && repo.store.todos == old(repo.store.todos)[id := item]
      ensures r == NoContent ==> repo.store.todos.Keys == old(repo.store.todos.Keys)
      ensures old(repo.KeysConsistent()) ==> repo.KeysConsistent()
    {
      if item == null || item.key != Some(id) {
        return BadRequest;
      }
      var todo := repo.Get(id);
      if todo == null {
        return NotFound;
      }
      var _ := repo.Update(item);
      return NoContent;
    }

    /**
     * `PATCH api/todo/{id}`: the body's key is not checked against `id`; when `id` is stored, the
     * body takes over the stored item's `Key` and is upserted under it. A stored item whose `Key`
     * is null makes `Update` throw.
     */
    method Patch(id: string, item: TodoItem?) returns (r: Response)
      modifies repo.store, item
      ensures item == null ==> r == BadRequest && repo.store.todos == old(repo.store.todos)
      ensures item != null && id !in old(repo.store.todos) ==>
        r == NotFound && repo.store.todos == old(repo.store.todos) && item.key == old(item.key)
      ensures item != null && id in old(repo.store.todos) ==>
        && item.key == old(repo.store.todos[id].key)
        && (item.key == None ==> r == Faulted(ArgumentNull) && repo.store.todos == old(repo.store.todos))
        && (item.key.Some? ==> r == NoContent && repo.store.todos == old(repo.store.todos)[item.key.value := item])
      ensures item != null ==> item.name == old(item.name)
      ensures r == NoContent && old(repo.KeysConsistent()) ==>
        repo.store.todos.Keys == old(repo.store.todos.Keys)
      ensures old(repo.KeysConsistent()) && (item == null || item !in old((repo.store.todos - {id}).Values)) ==>
        repo.KeysConsistent()
    {
      if item == null {
        return BadRequest;
      }
      var todo := repo.Get(id);
      if todo == null {
        return NotFound;
      }
      item.key := todo.key;
      var outcome := repo.Update(item);
      if outcome.Fail? {
        return Faulted(outcome.error);
      }
      ghost var before := old(repo.store.todos);
      if old(repo.KeysConsistent()) && item !in (before - {id}).Values {
        forall k | k in repo.store.todos
          ensures repo.store.todos[k].key == Some(k)
        {
          if k != id {
            assert (before - {id})[k] in (before - {id}).Values;
            assert before[k].key == old(before[k].key);
          }
        }
      }
      return NoContent;
    }

    /** `DELETE api/todo/{id}`: NotFound and no change when `id` is absent; otherwise it is removed. */
    method Delete(id: string) returns (r: Response)
      modifies repo.store
      ensures id !in old(repo.store.todos) ==> r == NotFound && repo.store.todos == old(repo.store.todos)
      ensures id in old(repo.store.todos) ==> r == NoContent && repo.store.todos == old(repo.store.todos) - {id}
      ensures old(repo.KeysConsistent()) ==> repo.KeysConsistent()
    {
      var todo := repo.Get(id);
      if todo == null {
        return NotFound;
      }
      var _ := repo.Delete(id);
      return NoContent;
    }
  }
}
