/**
 * Student records as the request handlers see them: JSON objects, keyed by
 * field name, plus the three array operations the handlers use on the
 * collection (find, findIndex and filter) and the object spread that builds
 * a record from an id and a request body.
 */
module Records {

  /** A JSON value as delivered by the body parser. Numbers are integers here. */
  datatype Value =
    | JNull
    | JBool(b: bool)
    | JNumber(n: int)
    | JString(s: string)
    | JArray(items: seq<Value>)
    | JObject(fields: map<string, Value>)

  /** A student record, or a request body: a JSON object. */
  type Record = map<string, Value>

  datatype Option<T> = None | Some(value: T)

  /** The handlers' test `s.id == req.params.id`, with the path parameter already an integer. */
  predicate Matches(r: Record, id: int): (b: bool)
    ensures b ==> HasId(r) && IdOf(r) == id
    ensures HasId(r) ==> (b <==> IdOf(r) == id)
    ensures !HasId(r) ==> !b
  {
    "id" in r && r["id"] == JNumber(id)
  }

  /**
   * The record built by `{ id: x, ...body }`: every body field is copied,
   * and the spread comes last, so a body that carries "id" overrides x.
   */
  function WithId(x: int, body: Record): (r: Record)
    ensures r.Keys == body.Keys + {"id"}
    ensures forall k :: k in body ==> r[k] == body[k]
    ensures r["id"] == (if "id" in body then body["id"] else JNumber(x))
    ensures "id" !in body ==> Matches(r, x)
  {
    map["id" := JNumber(x)] + body
  }

  /**
   * `students.findIndex(s => s.id == id)`: the index of the first matching
   * record, or -1 when no record matches.
   */
  function FindIndex(s: seq<Record>, id: int): (k: int)
    ensures -1 <= k < |s|
    ensures k == -1 <==> forall i :: 0 <= i < |s| ==> !Matches(s[i], id)
    ensures 0 <= k ==> Matches(s[k], id) && forall j :: 0 <= j < k ==> !Matches(s[j], id)
  {
    if |s| == 0 then -1
    else if Matches(s[0], id) then 0
    else
      var k := FindIndex(s[1..], id);
      if k == -1 then -1 else k + 1
  }

  /**
   * `students.find(s => s.id == id)`: the first matching record, or None
   * (JavaScript's `undefined`) when no record matches.
   */
  function Find(s: seq<Record>, id: int): (r: Option<Record>)
    ensures r.None? <==> forall i :: 0 <= i < |s| ==> !Matches(s[i], id)
    ensures r.Some? ==> Matches(r.value, id) && r.value in s
  {
    if |s| == 0 then None
    else if Matches(s[0], id) then Some(s[0])
    else Find(s[1..], id)
  }

  /** Find and FindIndex agree: find returns the record at the index findIndex reports. */
  lemma {:induction false} FindIsAtFindIndex(s: seq<Record>, id: int)
    ensures Find(s, id) == (if FindIndex(s, id) == -1 then None else Some(s[FindIndex(s, id)]))
  {
    if |s| > 0 && !Matches(s[0], id) {
      FindIsAtFindIndex(s[1..], id);
    }
  }

  /**
   * `students.filter(s => s.id != id)`: the records that do not match, in
   * their original relative order.
   */
  function RemoveMatching(s: seq<Record>, id: int): (r: seq<Record>)
    ensures forall i :: 0 <= i < |r| ==> !Matches(r[i], id)
    ensures |r| <= |s|
    ensures |r| == |s| <==> forall i :: 0 <= i < |s| ==> !Matches(s[i], id)
    ensures (forall i :: 0 <= i < |s| ==> !Matches(s[i], id)) ==> r == s
  {
    if |s| == 0 then []
    else if Matches(s[0], id) then RemoveMatching(s[1..], id)
    else [s[0]] + RemoveMatching(s[1..], id)
  }

  /** A record survives the filter exactly when it was present and does not match. */
  lemma {:induction false} RemoveMatchingMembers(s: seq<Record>, id: int, x: Record)
    ensures x in RemoveMatching(s, id) <==> x in s && !Matches(x, id)
  {
    if |s| > 0 {
      RemoveMatchingMembers(s[1..], id, x);
      assert x in s <==> x == s[0] || x in s[1..];
    }
  }

  /** Filtering distributes over concatenation, so it keeps relative order. */
  lemma {:induction false} RemoveMatchingAppend(a: seq<Record>, b: seq<Record>, id: int)
    ensures RemoveMatching(a + b, id) == RemoveMatching(a, id) + RemoveMatching(b, id)
  {
    if |a| > 0 {
      assert (a + b)[1..] == a[1..] + b;
      RemoveMatchingAppend(a[1..], b, id);
    } else {
      assert a + b == b;
    }
  }

  /** The filter on a single record keeps it exactly when it does not match. */
  lemma RemoveMatchingSingle(x: Record, id: int)
    ensures RemoveMatching([x], id) == if Matches(x, id) then [] else [x]
  {
  }

  /** The record carries a numeric id. */
  predicate HasId(r: Record) {
    "id" in r && r["id"].JNumber?
  }

  function IdOf(r: Record): (n: int)
    requires HasId(r)
  {
    r["id"].n
  }

  /**
   * The numbering invariant of the collection: every record carries a
   * numeric id in [1, counter), and no two records carry the same id.
   */
  ghost predicate IdsFresh(s: seq<Record>, counter: int) {
    && 1 <= counter
    && (forall i :: 0 <= i < |s| ==> HasId(s[i]) && 1 <= IdOf(s[i]) < counter)
    && (forall i, j :: 0 <= i < j < |s| && HasId(s[i]) && HasId(s[j]) ==> IdOf(s[i]) != IdOf(s[j]))
  }

  /** Appending `{id: counter, ...body}` for a body without "id" keeps ids fresh once the counter moves on. */
  lemma CreateKeepsIdsFresh(s: seq<Record>, counter: int, body: Record)
    requires IdsFresh(s, counter)
    requires "id" !in body
    ensures IdsFresh(s + [WithId(counter, body)], counter + 1)
  {
  }

  /**
   * For a body without "id", the record just appended with the counter's id
   * is the first (and only) one findIndex finds for that id.
   */
  lemma CreatedIsFound(s: seq<Record>, counter: int, body: Record)
    requires IdsFresh(s, counter)
    requires "id" !in body
    ensures FindIndex(s + [WithId(counter, body)], counter) == |s|
  {
    var t := s + [WithId(counter, body)];
    assert Matches(t[|s|], counter);
  }

  /**
   * Replacing the first record that matches `id` by `{id: id, ...body}`, for
   * a body without "id", keeps ids fresh: the new record has the old id.
   */
  lemma UpdateKeepsIdsFresh(s: seq<Record>, counter: int, id: int, body: Record)
    requires IdsFresh(s, counter)
    requires "id" !in body
    requires FindIndex(s, id) != -1
    ensures IdsFresh(s[FindIndex(s, id) := WithId(id, body)], counter)
  {
  }

  /** Filtering keeps ids fresh: it only drops records. */
  lemma {:induction false} RemoveKeepsIdsFresh(s: seq<Record>, counter: int, id: int)
    requires IdsFresh(s, counter)
    ensures IdsFresh(RemoveMatching(s, id), counter)
  {
    if |s| > 0 {
      var tail := s[1..];
      TailKeepsIdsFresh(s, counter);
      RemoveKeepsIdsFresh(tail, counter, id);
      if !Matches(s[0], id) {
        var r := RemoveMatching(s, id);
        assert r == [s[0]] + RemoveMatching(tail, id);
        forall i, j | 0 <= i < j < |r|
          ensures IdOf(r[i]) != IdOf(r[j])
        {
          if i == 0 {
            RemoveMatchingMembers(tail, id, r[j]);
            assert r[j] in tail;
            var m :| 0 <= m < |tail| && tail[m] == r[j];
            assert s[m + 1] == r[j];
          }
        }
      }
    }
  }

  /** Dropping the first record keeps ids fresh. */
  lemma TailKeepsIdsFresh(s: seq<Record>, counter: int)
    requires IdsFresh(s, counter) && |s| > 0
    ensures IdsFresh(s[1..], counter)
  {
  }

  /** When only position k matches, the filter removes exactly that position. */
  lemma RemoveOnlyMatch(s: seq<Record>, id: int, k: int)
    requires 0 <= k < |s| && Matches(s[k], id)
    requires forall i :: 0 <= i < |s| && i != k ==> !Matches(s[i], id)
    ensures RemoveMatching(s, id) == s[..k] + s[k + 1..]
  {
    var before, after := s[..k], s[k + 1..];
    assert s == before + ([s[k]] + after);
    assert forall i :: 0 <= i < |before| ==> !Matches(before[i], id);
    assert forall i :: 0 <= i < |after| ==> !Matches(after[i], id) by {
      forall i | 0 <= i < |after| ensures !Matches(after[i], id) {
        assert after[i] == s[k + 1 + i];
      }
    }
    RemoveMatchingAppend(before, [s[k]] + after, id);
    RemoveMatchingAppend([s[k]], after, id);
  }

  /**
   * With distinct ids, the filter removes exactly the one record that
   * findIndex finds: the collection shrinks by one and nothing else moves.
   */
  lemma {:induction false} RemoveMatchingUnique(s: seq<Record>, counter: int, id: int)
    requires IdsFresh(s, counter)
    requires FindIndex(s, id) != -1
    ensures var k := FindIndex(s, id); RemoveMatching(s, id) == s[..k] + s[k + 1..]
    ensures |RemoveMatching(s, id)| == |s| - 1
  {
    RemoveOnlyMatch(s, id, FindIndex(s, id));
  }
}
