/** The user service: the collection of student records, held in memory, and
    the operations that validate, insert, delete, update and find records,
    each answering with a `{code, message, body}` envelope. */
module Service {
  import opened Outcomes
  import opened Username
  import opened Students

  class UserService {
    /** The stored records, in insertion order. */
    var records: seq<Student>

    constructor (initial: seq<Student>)
      ensures records == initial
    {
      records := initial;
    }

    /** existingSeatNumbers: decodes every stored name in turn, remembering
        whether one carries the seat number; a short stored name throws. */
    method ExistingSeatNumbers(seatNumber: string) returns (r: Outcome<bool>)
      ensures r == SeatLookup(seatNumber, records)
    {
      var exist := false;
      var i := 0;
      while i < |records|
        invariant 0 <= i <= |records|
        invariant forall j :: 0 <= j < i ==> Decodable(records[j])
        invariant exist <==> exists j :: 0 <= j < i && HasSeat(records[j], seatNumber)
      {
        var info := Format(records[i].name);
        if info.Thrown? {
          return Thrown(info.message);
        }
        assert HasSeat(records[i], seatNumber) <==> info.value.seatNumber == seatNumber;
        if info.value.seatNumber == seatNumber {
          exist := true;
        }
        i := i + 1;
      }
      return Ok(exist);
    }

    /** userNameValidator over the stored records. */
    method UserNameValidator(userName: string) returns (r: Outcome<Verdict>)
      ensures r == Validate(userName, records)
    {
      if |userName| < MinLength {
        return Ok(FormatIncorrect);
      }
      var info := Format(userName).value;
      if info.schoolName != School {
        return Ok(SchoolNotTku);
      }
      if !IsFourDigits(info.seatNumber) {
        return Ok(SeatFormatIncorrect);
      }
      var taken := ExistingSeatNumbers(info.seatNumber);
      if taken.Thrown? {
        return Thrown(taken.message);
      }
      if taken.value {
        return Ok(SeatExists);
      }
      return Ok(Passed);
    }

    /** insertOne: validation, then the capacity check, then the new record
        with the next sid and the generated `_id` is appended. A throw during
        validation is caught and reported as a server error. */
    method InsertOne(info: StudentInput, generatedId: ObjectId) returns (resp: Resp)
      modifies this
      ensures Validate(info.name, old(records)).Thrown? ==>
        resp == Resp(500, "server error", NoBody) && records == old(records)
      ensures Validate(info.name, old(records)).Ok? && Validate(info.name, old(records)).value != Passed ==>
        resp == Resp(403, Message(Validate(info.name, old(records)).value), NoBody) && records == old(records)
      ensures Validate(info.name, old(records)) == Ok(Passed) && |old(records)| >= Capacity ==>
        resp == Resp(403, "student list is full", NoBody) && records == old(records)
      ensures Validate(info.name, old(records)) == Ok(Passed) && |old(records)| < Capacity ==>
        var s := Student(generatedId, info.name, NextSid(old(records)), info.fields);
        resp == Resp(200, "insert success", Saved(s)) && records == old(records) + [s]
      ensures WellFormed(old(records)) ==> WellFormed(records)
    {
      resp := Resp(200, "", NoBody);
      var verdict := UserNameValidator(info.name);
      if verdict.Thrown? {
        resp := resp.(message := "server error", code := 500);
        return;
      }
      if verdict.value != Passed {
        resp := resp.(code := 403, message := Message(verdict.value));
        return;
      }
      var studentCount := |records|;
      if studentCount >= Capacity {
        resp := resp.(message := "student list is full", code := 403);
        return;
      }
      var newSid := NextSid(records);
      var s := Student(generatedId, info.name, newSid, info.fields);
      if WellFormed(records) {
        AppendKeepsWellFormed(records, s);
      }
      records := records + [s];
      resp := resp.(body := Saved(s), message := "insert success");
    }

    /** deletedByName: removes the first record with exactly that name. */
    method DeletedByName(name: string) returns (resp: Resp)
      modifies this
      ensures FirstWithName(old(records), name).None? ==>
        resp == Resp(404, "user not found", NoBody) && records == old(records)
      ensures FirstWithName(old(records), name).Some? ==>
        resp == Resp(200, "sucess", Deleted(1))
        && records == RemoveAt(old(records), FirstWithName(old(records), name).value)
      ensures WellFormed(old(records)) ==> WellFormed(records)
    {
      resp := Resp(200, "", NoBody);
      var user := FirstWithName(records, name);
      if user.Some? {
        if WellFormed(records) {
          RemoveKeepsWellFormed(records, user.value);
        }
        records := RemoveAt(records, user.value);
        resp := resp.(message := "sucess", body := Deleted(1));
      } else {
        resp := resp.(code := 404, message := "user not found");
      }
    }

    /** updateByName: sets the update data, without `_id` and `sid`, on the
        first record with exactly that name and answers with the updated
        record. */
    method UpdateByName(name: string, updateData: Patch) returns (resp: Resp)
      modifies this
      ensures FirstWithName(old(records), name).None? ==>
        resp == Resp(404, "User not found", NoBody) && records == old(records)
      ensures FirstWithName(old(records), name).Some? ==>
        var k := FirstWithName(old(records), name).value;
        var u := UpdatedRecord(old(records)[k], updateData);
        resp == Resp(200, "Update successful", Saved(u)) && records == old(records)[k := u]
      ensures WellFormed(old(records)) ==> WellFormed(records)
    {
      resp := Resp(200, "", NoBody);
      var updateFields := StripIdentity(updateData);
      var user := FirstWithName(records, name);
      if user.Some? {
        var k := user.value;
        var u := SetFields(records[k], updateFields);
        if WellFormed(records) {
          UpdateKeepsWellFormed(records, k, updateData);
        }
        records := records[k := u];
        resp := resp.(body := Saved(u), message := "Update successful");
      } else {
        resp := resp.(code := 404, message := "User not found");
      }
    }

    /** findByName: answers with the first record with exactly that name. */
    method FindByName(name: string) returns (resp: Resp)
      ensures FirstWithName(records, name).None? ==> resp == Resp(404, "user not found", NoBody)
      ensures FirstWithName(records, name).Some? ==>
        resp == Resp(200, "find success", Saved(records[FirstWithName(records, name).value]))
      ensures resp.body.Saved? ==> resp.body.student in records && resp.body.student.name == name
    {
      resp := Resp(200, "", NoBody);
      var user := FirstWithName(records, name);
      if user.Some? {
        resp := resp.(body := Saved(records[user.value]), message := "find success");
      } else {
        resp := resp.(code := 404, message := "user not found");
      }
    }
  }

  /** An example of sid assignment: a name inserted next to a record
      with sid 5 receives sid 6 and decodes to seat number "1760". */
  method ExampleInsert()
  {
    var existing := Student("a1", "tkuim0005", 5, map[]);
    var service := new UserService([existing]);
    assert Format(existing.name).value.seatNumber == "0005";
    assert !SeatTaken("1760", [existing]);
    WellFormedNamePasses("bm", "1760", [existing]);
    assert School + "bm" + "1760" == "tkubm1760";
    assert NextSid([existing]) == 6;
    var resp := service.InsertOne(StudentInput(None, "tkubm1760", Some(99), map[]), "a2");
    assert resp.code == 200 && resp.body.Saved?;
    assert resp.body.student.sid == 6;
    assert Format(resp.body.student.name) == Ok(SeatInfo("tku", "bm", "1760"));
  }

  /** A second name with the same seat number is refused. */
  method ExampleDuplicate()
  {
    var existing := Student("a1", "tkubm1760", 5, map[]);
    var service := new UserService([existing]);
    DuplicateSeatRejected();
    var again := service.InsertOne(StudentInput(None, "tkuee1760", None, map[]), "a3");
    assert again == Resp(403, "座號已存在", NoBody);
  }

  /** Find, update and delete by name, and their answers for a missing name. */
  method ExampleLookups()
  {
    var existing := Student("a1", "tkubm1760", 6, map[]);
    var service := new UserService([existing]);
    var found := service.FindByName("tkubm1760");
    assert found.code == 200;
    var missing := service.FindByName("tkuzz9999");
    assert missing == Resp(404, "user not found", NoBody);
    var updated := service.UpdateByName("tkubm1760", Patch(Some("x"), None, Some(1), map["image" := "p.png"]));
    assert updated.code == 200 && updated.body.student.sid == 6 && updated.body.student.id == "a1";
    var deleted := service.DeletedByName("tkubm1760");
    assert deleted.code == 200 && service.records == [];
  }
}
