/**
 * The in-memory student registry behind the five HTTP handlers: an ordered
 * collection of records and the counter that numbers new records. Each
 * handler runs to completion before the next starts, so each is one method
 * (or, for the two reads, one function) on the registry.
 */
module StudentRegistry {
  import opened Records

  /** What a handler sends back: status code and body, without the HTTP framing. */
  datatype Response =
    | Created(record: Record)        // 201, the new record as JSON
    | Ok(record: Record)             // 200, one record as JSON
    | OkList(records: seq<Record>)   // 200, the whole collection as a JSON array
    | NotFound                       // 404, the text "Not Found"
    | NoContent                      // 204, no body
  {
    /** The HTTP status code the handler sets. */
    function Status(): (code: int)
      ensures code == 201 <==> Created?
      ensures code == 200 <==> Ok? || OkList?
      ensures code == 404 <==> NotFound?
      ensures code == 204 <==> NoContent?
    {
      match this
      case Created(_) => 201
      case Ok(_) => 200
      case OkList(_) => 200
      case NotFound => 404
      case NoContent => 204
    }
  }

  /**
   * 2^53. The counter is a JavaScript number (a double): every integer up to
   * here is exact, and from here on adding 1 rounds back to the same value.
   */
  const CounterLimit: int := 0x20_0000_0000_0000

  /** `idCounter++` on a double holding an integer in [1, 2^53]. */
  function NextCounter(c: int): (r: int)
    requires 1 <= c <= CounterLimit
    ensures c <= r <= CounterLimit
    ensures r == c <==> c == CounterLimit
    ensures c < CounterLimit ==> r == c + 1
  {
    if c < CounterLimit then c + 1 else c
  }

  class Registry {
    /** The records, in insertion order. */
    var students: seq<Record>
    /** The id the next created record is given. */
    var idCounter: int
    /**
     * Every id the counter has handed out so far, whether or not its record
     * still exists. Valid() pins it to 1 .. idCounter - 1, plus 2^53 once the
     * counter has stuck there and handed that value out.
     */
    ghost var issued: set<int>

    /** The counter starts at 1, only moves forward and stops at 2^53. */
    ghost predicate Valid()
      reads this
    {
      && 1 <= idCounter <= CounterLimit
      && (forall i :: 1 <= i < idCounter ==> i in issued)
      && (forall i :: i in issued ==> 1 <= i < idCounter || i == CounterLimit)
    }

    /**
     * Every stored record carries a distinct numeric id below the counter.
     * This holds as long as no request body has carried an "id" field.
     */
    ghost predicate IdsUnique()
      reads this
    {
      IdsFresh(students, idCounter)
    }

    constructor ()
      ensures Valid() && IdsUnique()
      ensures students == [] && idCounter == 1 && issued == {}
    {
      students := [];
      idCounter := 1;
      issued := {};
    }

    /**
     * POST /students: the record is `{id: idCounter, ...body}` (so a body
     * "id" wins), the counter moves on by one (until it sticks at 2^53)
     * and the record is appended.
     */
    method Create(body: Record) returns (resp: Response)
      requires Valid()
      modifies this
      ensures Valid()
      ensures idCounter == NextCounter(old(idCounter))
      ensures old(idCounter) < CounterLimit ==> idCounter == old(idCounter) + 1 && old(idCounter) !in old(issued)
      ensures old(idCounter) == CounterLimit ==> idCounter == old(idCounter)
      ensures issued == old(issued) + {old(idCounter)}
      ensures students == old(students) + [WithId(old(idCounter), body)]
      ensures resp == Created(WithId(old(idCounter), body)) && resp.Status() == 201
      ensures old(IdsUnique()) ==> FindIndex(old(students), old(idCounter)) == -1
      ensures old(IdsUnique()) && "id" !in body && old(idCounter) < CounterLimit ==>
        IdsUnique() && Get(old(idCounter)) == Ok(WithId(old(idCounter), body))
    {
      var student := WithId(idCounter, body);
      issued := issued + {idCounter};
      idCounter := NextCounter(idCounter);
      students := students + [student];
      resp := Created(student);
      if old(IdsUnique()) && "id" !in body && old(idCounter) < CounterLimit {
        CreateKeepsIdsFresh(old(students), old(idCounter), body);
        CreatedIsFound(old(students), old(idCounter), body);
      }
    }

    /** GET /students: the whole collection, in its stored order. */
    function List(): (resp: Response)
      reads this
      ensures resp.OkList? && resp.records == students && resp.Status() == 200
    {
      OkList(students)
    }

    /** GET /students/:id: the first record whose id matches, or 404. */
    function Get(id: int): (resp: Response)
      reads this
      ensures resp == NotFound <==> forall i :: 0 <= i < |students| ==> !Matches(students[i], id)
      ensures resp != NotFound ==> resp == Ok(students[FindIndex(students, id)])
    {
      FindIsAtFindIndex(students, id);
      match Find(students, id)
      case Some(student) => Ok(student)
      case None => NotFound
    }

    /**
     * PUT /students/:id: the first matching record is replaced, in place, by
     * `{id: id, ...body}`; fields missing from the body are dropped. With no
     * match nothing changes and the answer is 404.
     */
    method Update(id: int, body: Record) returns (resp: Response)
      requires Valid()
      modifies this
      ensures Valid() && idCounter == old(idCounter) && issued == old(issued)
      ensures |students| == |old(students)|
      ensures FindIndex(old(students), id) == -1 ==> students == old(students) && resp == NotFound
      ensures FindIndex(old(students), id) != -1 ==>
        && students[FindIndex(old(students), id)] == WithId(id, body)
        && resp == Ok(WithId(id, body))
      ensures forall i :: 0 <= i < |students| && i != FindIndex(old(students), id) ==> students[i] == old(students)[i]
      ensures old(IdsUnique()) && "id" !in body ==> IdsUnique()
    {
      var index := FindIndex(students, id);
      if index != -1 {
        students := students[index := WithId(id, body)];
        resp := Ok(students[index]);
        if old(IdsUnique()) && "id" !in body {
          UpdateKeepsIdsFresh(old(students), idCounter, id, body);
        }
      } else {
        resp := NotFound;
      }
    }

    /**
     * DELETE /students/:id: every matching record is filtered out and the
     * answer is always 204, whether zero, one or several records matched.
     */
    method Delete(id: int) returns (resp: Response)
      requires Valid()
      modifies this
      ensures Valid() && idCounter == old(idCounter) && issued == old(issued)
      ensures students == RemoveMatching(old(students), id)
      ensures resp == NoContent && resp.Status() == 204
      ensures Get(id) == NotFound
      ensures FindIndex(old(students), id) == -1 ==> students == old(students)
      ensures old(IdsUnique()) ==> IdsUnique()
      ensures old(IdsUnique()) && FindIndex(old(students), id) != -1 ==>
        var k := FindIndex(old(students), id);
        students == old(students)[..k] + old(students)[k + 1..]
    {
      ghost var before := students;
      students := RemoveMatching(students, id);
      resp := NoContent;
      if IdsFresh(before, idCounter) {
        RemoveKeepsIdsFresh(before, idCounter, id);
        if FindIndex(before, id) != -1 {
          RemoveMatchingUnique(before, idCounter, id);
        }
      }
    }
  }

  /**
   * Once the counter has reached 2^53, two creates in a row hand out the same
   * id, even when neither body carries "id".
   */
  method CreateTwiceAtLimit(registry: Registry, first: Record, second: Record)
    returns (a: Response, b: Response)
    requires registry.Valid() && registry.idCounter == CounterLimit
    requires "id" !in first && "id" !in second
    modifies registry
    ensures a.Created? && b.Created?
    ensures Matches(a.record, CounterLimit) && Matches(b.record, CounterLimit)
    ensures registry.idCounter == CounterLimit
  {
    a := registry.Create(first);
    b := registry.Create(second);
  }

  /**
   * A client session: two creates, a list, a replacing update that drops a
   * field, a delete, and a get that no longer finds the deleted record.
   */
  method ExampleSession() {
    var registry := new Registry();
    var alice := map["name" := JString("Alice"), "age" := JNumber(20)];
    var bob := map["name" := JString("Bob"), "age" := JNumber(22)];
    var r := registry.Create(alice);
    assert r.Status() == 201 && r.record["id"] == JNumber(1) && r.record["name"] == JString("Alice");
    r := registry.Create(bob);
    assert r.Status() == 201 && r.record["id"] == JNumber(2);
    assert registry.List().records == [WithId(1, alice), WithId(2, bob)];
    r := registry.Update(1, map["name" := JString("Alice2")]);
    assert r.Status() == 200 && r.record.Keys == {"id", "name"} && r.record["id"] == JNumber(1);
    r := registry.Delete(2);
    assert registry.Get(2) == NotFound;
    assert |registry.students| == 1;
    r := registry.Create(bob);
    assert r.record["id"] == JNumber(3);
  }
}
