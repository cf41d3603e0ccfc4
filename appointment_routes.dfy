/** The in-memory appointment list behind the appointment routes: list
    all, create, update by id and delete by id. */
module AppointmentRoutes {

  /** A field value of a stored record, as far as the routes look at it:
      a JSON string (ids are compared as strings), the creation time the
      server stamps, or any other JSON value, kept as its text. */
  datatype Value = Str(s: string) | Date(millis: int) | Other(json: string)

  /** A record: its fields by name. */
  type Appointment = map<string, Value>

  const NotFoundMessage := "Appointment not found"
  const DeletedMessage := "Appointment deleted successfully"

  /** `apt.id === id`: the record has a string id equal to `id`; a record
      without an id, or with an id that is not a string, matches none. */
  predicate Matches(apt: Appointment, id: string)
  {
    "id" in apt && apt["id"] == Str(id)
  }

  /** `{ id: uuid, ...body, createdAt: now }`: the generated id unless the
      body brings its own, the body's fields, and the server's time. */
  function NewAppointment(uuid: string, body: Appointment, now: int): (apt: Appointment)
    ensures apt.Keys == body.Keys + {"id", "createdAt"}
    ensures apt["createdAt"] == Date(now)
    ensures "id" in body ==> apt["id"] == body["id"]
    ensures "id" !in body ==> apt["id"] == Str(uuid)
    ensures forall k :: k in body && k != "createdAt" ==> apt[k] == body[k]
  {
    (map["id" := Str(uuid)] + body)["createdAt" := Date(now)]
  }

  /** `{ ...current, ...body }`: every field of both, the body winning. */
  function Merge(current: Appointment, body: Appointment): (apt: Appointment)
    ensures apt.Keys == current.Keys + body.Keys
    ensures forall k :: k in body ==> apt[k] == body[k]
    ensures forall k :: k in current && k !in body ==> apt[k] == current[k]
  {
    current + body
  }

  /** `findIndex`: the position of the first record with the id, or -1. */
  function FindIndex(s: seq<Appointment>, id: string): (i: int)
    ensures -1 <= i < |s|
    ensures i == -1 <==> forall k :: 0 <= k < |s| ==> !Matches(s[k], id)
    ensures i >= 0 ==> Matches(s[i], id)
    ensures forall k :: 0 <= k < i ==> !Matches(s[k], id)
  {
    if s == [] then -1
    else if Matches(s[0], id) then 0
    else
      var j := FindIndex(s[1..], id);
      if j == -1 then -1 else j + 1
  }

  /** `filter(apt => apt.id !== id)`: the records without the id. */
  function Without(s: seq<Appointment>, id: string): (r: seq<Appointment>)
    ensures |r| <= |s|
  {
    if s == [] then []
    else (if Matches(s[0], id) then [] else [s[0]]) + Without(s[1..], id)
  }

  /** Exactly the records without the id are kept. */
  lemma {:induction false} WithoutMembers(s: seq<Appointment>, id: string)
    ensures forall a :: a in Without(s, id) <==> a in s && !Matches(a, id)
    decreases |s|
  {
    if s != [] {
      WithoutMembers(s[1..], id);
      assert s == [s[0]] + s[1..];
    }
  }

  /** Filtering works record by record: the kept records stay in their
      order, whatever is on either side. */
  lemma {:induction false} WithoutConcat(a: seq<Appointment>, b: seq<Appointment>, id: string)
    ensures Without(a + b, id) == Without(a, id) + Without(b, id)
    decreases |a|
  {
    if a == [] {
      assert a + b == b;
    } else {
      var head := if Matches(a[0], id) then [] else [a[0]];
      var left, right := Without(a[1..], id), Without(b, id);
      assert Without(a + b, id) == head + (left + right) by {
        assert a + b == [a[0]] + (a[1..] + b);
        WithoutCons(a[0], a[1..] + b, id);
        WithoutConcat(a[1..], b, id);
      }
      assert Without(a, id) == head + left by {
        assert a == [a[0]] + a[1..];
        WithoutCons(a[0], a[1..], id);
      }
      assert head + (left + right) == (head + left) + right;
    }
  }

  /** The first record is kept or dropped on its own. */
  lemma WithoutCons(x: Appointment, rest: seq<Appointment>, id: string)
    ensures Without([x] + rest, id) == (if Matches(x, id) then [] else [x]) + Without(rest, id)
  {
    assert ([x] + rest)[1..] == rest;
  }

  /** Deleting shortens the list exactly when some record has the id, and
      otherwise leaves it as it was. */
  lemma {:induction false} WithoutShrinks(s: seq<Appointment>, id: string)
    ensures |Without(s, id)| < |s| <==> FindIndex(s, id) >= 0
    ensures FindIndex(s, id) == -1 ==> Without(s, id) == s
    decreases |s|
  {
    if s != [] {
      WithoutShrinks(s[1..], id);
    }
  }

  /** A record just created under a fresh id, with no id in its body, is
      deleted by that id and nothing else goes with it. */
  lemma CreateThenDelete(s: seq<Appointment>, uuid: string, body: Appointment, now: int)
    requires FindIndex(s, uuid) == -1
    requires "id" !in body
    ensures Without(s + [NewAppointment(uuid, body, now)], uuid) == s
  {
    var created := NewAppointment(uuid, body, now);
    WithoutConcat(s, [created], uuid);
    WithoutShrinks(s, uuid);
    assert Without([created], uuid) == [];
  }

  /** An update whose body leaves the id alone keeps the record where the
      next lookup by that id finds it. */
  lemma UpdateKeepsPosition(s: seq<Appointment>, id: string, body: Appointment)
    requires FindIndex(s, id) >= 0
    requires "id" !in body
    ensures var i := FindIndex(s, id);
      FindIndex(s[i := Merge(s[i], body)], id) == i
  {
    var i := FindIndex(s, id);
    var t := s[i := Merge(s[i], body)];
    assert Matches(t[i], id);
    assert forall k :: 0 <= k < i ==> t[k] == s[k];
    FindIndexAt(t, id, i);
  }

  /** The first matching record is at `i` when it matches and none before
      it does. */
  lemma FindIndexAt(s: seq<Appointment>, id: string, i: nat)
    requires i < |s| && Matches(s[i], id)
    requires forall k :: 0 <= k < i ==> !Matches(s[k], id)
    ensures FindIndex(s, id) == i
  {
    var j := FindIndex(s, id);
    assert j != -1;
    assert !(j < i) && !(i < j);
  }

  /** What a route sends back. */
  datatype Body = Record(apt: Appointment) | Records(list: seq<Appointment>) | Message(text: string)

  datatype Reply = Reply(status: nat, body: Body)

  /** The module-level `appointments` list and the four routes on it. */
  class AppointmentStore {

    var appointments: seq<Appointment>

    constructor()
      ensures appointments == []
    {
      appointments := [];
    }

    /** GET `/`: the whole list, in order, unchanged. */
    method List() returns (reply: Reply)
      ensures reply == Reply(200, Records(appointments))
    {
      reply := Reply(200, Records(appointments));
    }

    /** POST `/`: the new record is appended, and sent back with 201. */
    method Create(uuid: string, body: Appointment, now: int) returns (reply: Reply)
      modifies this
      ensures appointments == old(appointments) + [NewAppointment(uuid, body, now)]
      ensures reply == Reply(201, Record(NewAppointment(uuid, body, now)))
    {
      var created := NewAppointment(uuid, body, now);
      appointments := appointments + [created];
      reply := Reply(201, Record(created));
    }

    /** PUT `/:id`: the first record with the id gets the body merged over
        it and is sent back; with no such record the list is unchanged and
        the reply is 404. */
    method Update(id: string, body: Appointment) returns (reply: Reply)
      modifies this
      ensures var i := FindIndex(old(appointments), id);
        if i >= 0 then
          appointments == old(appointments)[i := Merge(old(appointments)[i], body)]
          && reply == Reply(200, Record(appointments[i]))
        else
          appointments == old(appointments) && reply == Reply(404, Message(NotFoundMessage))
    {
      var appointmentIndex := FindIndex(appointments, id);
      if appointmentIndex > -1 {
        appointments := appointments[appointmentIndex := Merge(appointments[appointmentIndex], body)];
        reply := Reply(200, Record(appointments[appointmentIndex]));
      } else {
        reply := Reply(404, Message(NotFoundMessage));
      }
    }

    /** DELETE `/:id`: every record with the id is removed; success is
        reported exactly when the list got shorter, and a 404 leaves the
        list as it was. */
    method Delete(id: string) returns (reply: Reply)
      modifies this
      ensures appointments == Without(old(appointments), id)
      ensures reply == if |appointments| < |old(appointments)| then Reply(200, Message(DeletedMessage))
                       else Reply(404, Message(NotFoundMessage))
      ensures reply.status == 404 <==> FindIndex(old(appointments), id) == -1
      ensures reply.status == 404 ==> appointments == old(appointments)
    {
      var initialLength := |appointments|;
      WithoutShrinks(appointments, id);
      appointments := Without(appointments, id);
      if |appointments| < initialLength {
        reply := Reply(200, Message(DeletedMessage));
      } else {
        reply := Reply(404, Message(NotFoundMessage));
      }
    }
  }
}
