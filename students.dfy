/** The student records held by the service, and the pure logic the service
    runs over them: user-name validation, seat-number lookup, sid assignment,
    lookup by name and the field update. */
module Students {
  import opened Outcomes
  import opened Username

  type ObjectId = string

  /** The most records the service accepts. */
  const Capacity := 200

  /** The school every valid user name starts with. */
  const School := "tku"

  /** The fields of a record other than `_id`, `name` and `sid`, by name.
      Those three have fields of their own, so a map never carries them a
      second time. */
  type OtherFields = m: map<string, string> | "_id" !in m && "name" !in m && "sid" !in m witness map[]

  /** A stored record: its generated `_id`, its `name` (an encoded user name),
      its sequential `sid`, and its other fields. */
  datatype Student = Student(id: ObjectId, name: string, sid: nat, fields: OtherFields)

  /** The record a client submits for insertion; its `_id` and `sid`, when
      present, are replaced by the service. */
  datatype StudentInput = StudentInput(id: Option<ObjectId>, name: string, sid: Option<nat>, fields: OtherFields)

  /** The data a client submits for an update: every field it carries is set
      on the matched record. */
  datatype Patch = Patch(id: Option<ObjectId>, name: Option<string>, sid: Option<nat>, fields: OtherFields)

  /** The body of a response envelope. */
  datatype Body = NoBody | Saved(student: Student) | Deleted(deletedCount: nat)

  /** The response envelope `{code, message, body}`. */
  datatype Resp = Resp(code: int, message: string, body: Body)

  // ---------------------------------------------------------------------
  // Seat numbers of stored records

  /** The formatter accepts the record's name. */
  predicate Decodable(s: Student)
  {
    |s.name| >= MinLength
  }

  /** The record's name decodes to the given seat number. */
  predicate HasSeat(s: Student, seatNumber: string)
  {
    Decodable(s) && Format(s.name).value.seatNumber == seatNumber
  }

  predicate AllDecodable(rs: seq<Student>)
  {
    forall i :: 0 <= i < |rs| ==> Decodable(rs[i])
  }

  predicate SeatTaken(seatNumber: string, rs: seq<Student>)
  {
    exists i :: 0 <= i < |rs| && HasSeat(rs[i], seatNumber)
  }

  /** existingSeatNumbers as a value: the records are decoded in order, the
      first short name throws, and otherwise the answer is whether some
      record carries the seat number. */
  function SeatLookup(seatNumber: string, rs: seq<Student>): (r: Outcome<bool>)
    ensures r.Thrown? <==> !AllDecodable(rs)
    ensures r.Thrown? ==> r.message == InvalidFormatError
    ensures r.Ok? ==> (r.value <==> SeatTaken(seatNumber, rs))
  {
    if rs == [] then
      Ok(false)
    else
      match Format(rs[0].name)
      case Thrown(m) => Thrown(m)
      case Ok(info) =>
        var rest := SeatLookup(seatNumber, rs[1..]);
        assert forall i :: 1 <= i < |rs| ==> rs[i] == rs[1..][i - 1];
        if rest.Thrown? then rest
        else
          if info.seatNumber == seatNumber then
            assert HasSeat(rs[0], seatNumber);
            Ok(true)
          else
            Ok(rest.value)
  }

  // ---------------------------------------------------------------------
  // User-name validation

  /** The outcomes of userNameValidator, one per message. */
  datatype Verdict = FormatIncorrect | SchoolNotTku | SeatFormatIncorrect | SeatExists | Passed

  function Message(v: Verdict): (message: string)
  {
    match v
    case FormatIncorrect => "學生名字格式不正確，應為 tku + 科系縮寫 + 四碼座號，例如: tkubm1760"
    case SchoolNotTku => "校名必須為 tku"
    case SeatFormatIncorrect => "座號格式不正確，必須為四位數字。"
    case SeatExists => "座號已存在"
    case Passed => "驗證通過"
  }

  /** The last four characters of a name of at least seven. */
  function SeatPart(userName: string): (seatNumber: string)
    requires |userName| >= MinLength
  {
    userName[|userName| - SeatLength..]
  }

  /** userNameValidator: the checks run in a fixed order and the first that
      fails decides the verdict; the seat-number scan may throw. */
  function Validate(userName: string, rs: seq<Student>): (r: Outcome<Verdict>)
    ensures |userName| < MinLength ==> r == Ok(FormatIncorrect)
    ensures |userName| >= MinLength && userName[..SchoolLength] != School ==> r == Ok(SchoolNotTku)
    ensures |userName| >= MinLength && userName[..SchoolLength] == School && !IsFourDigits(SeatPart(userName))
            ==> r == Ok(SeatFormatIncorrect)
    ensures r.Thrown? <==>
      |userName| >= MinLength && userName[..SchoolLength] == School && IsFourDigits(SeatPart(userName))
      && !AllDecodable(rs)
    ensures r == Ok(SeatExists) <==>
      |userName| >= MinLength && userName[..SchoolLength] == School && IsFourDigits(SeatPart(userName))
      && AllDecodable(rs) && SeatTaken(SeatPart(userName), rs)
    ensures r == Ok(Passed) <==>
      |userName| >= MinLength && userName[..SchoolLength] == School && IsFourDigits(SeatPart(userName))
      && AllDecodable(rs) && !SeatTaken(SeatPart(userName), rs)
  {
    if |userName| < MinLength then
      Ok(FormatIncorrect)
    else
      var info := Format(userName).value;
      if info.schoolName != School then
        Ok(SchoolNotTku)
      else if !IsFourDigits(info.seatNumber) then
        Ok(SeatFormatIncorrect)
      else
        match SeatLookup(info.seatNumber, rs)
        case Thrown(m) => Thrown(m)
        case Ok(taken) => if taken then Ok(SeatExists) else Ok(Passed)
  }

  /** A name made of "tku", any department and four digits that no stored
      record uses is accepted, provided every stored name decodes. */
  lemma WellFormedNamePasses(department: string, seatNumber: string, rs: seq<Student>)
    requires IsFourDigits(seatNumber)
    requires AllDecodable(rs) && !SeatTaken(seatNumber, rs)
    ensures Validate(School + department + seatNumber, rs) == Ok(Passed)
  {
  }

  /** The code does not ask for a department: "tku1760" is accepted. */
  lemma EmptyDepartmentPasses()
    ensures Validate("tku1760", []) == Ok(Passed)
  {
  }

  /** A second name with the seat number of a stored one is refused, whatever
      its department. */
  lemma DuplicateSeatRejected()
    ensures Validate("tkuee1760", [Student("a1", "tkubm1760", 5, map[])]) == Ok(SeatExists)
  {
    var stored := [Student("a1", "tkubm1760", 5, map[])];
    assert HasSeat(stored[0], "1760");
    assert SeatPart("tkuee1760") == "1760";
  }

  // ---------------------------------------------------------------------
  // Seat id assignment

  /** The largest sid in a non-empty collection. */
  function MaxSid(rs: seq<Student>): (m: nat)
    requires rs != []
    ensures forall i :: 0 <= i < |rs| ==> rs[i].sid <= m
    ensures exists i :: 0 <= i < |rs| && rs[i].sid == m
  {
    if |rs| == 1 then
      rs[0].sid
    else
      var m' := MaxSid(rs[1..]);
      assert forall i :: 1 <= i < |rs| ==> rs[i] == rs[1..][i - 1];
      if rs[0].sid >= m' then rs[0].sid else m'
  }

  /** The sid of the next inserted record: one more than the largest stored
      sid, or 1 in an empty collection. */
  function NextSid(rs: seq<Student>): (sid: nat)
    ensures rs == [] ==> sid == 1
    ensures rs != [] ==> exists i :: 0 <= i < |rs| && sid == rs[i].sid + 1
    ensures forall i :: 0 <= i < |rs| ==> rs[i].sid < sid
  {
    if rs == [] then 1 else MaxSid(rs) + 1
  }

  // ---------------------------------------------------------------------
  // Lookup by name and update

  /** The record `findOne({name})` matches: the first with exactly that name. */
  function FirstWithName(rs: seq<Student>, name: string): (r: Option<nat>)
    ensures r.None? <==> forall i :: 0 <= i < |rs| ==> rs[i].name != name
    ensures r.Some? ==> r.value < |rs| && rs[r.value].name == name
    ensures r.Some? ==> forall j :: 0 <= j < r.value ==> rs[j].name != name
  {
    if rs == [] then
      None
    else if rs[0].name == name then
      Some(0)
    else
      var rest := FirstWithName(rs[1..], name);
      assert forall i :: 1 <= i < |rs| ==> rs[i] == rs[1..][i - 1];
      match rest
      case None => None
      case Some(k) => Some(k + 1)
  }

  /** `$set`: every field the patch carries replaces the record's. */
  function SetFields(s: Student, p: Patch): (u: Student)
  {
    Student(
      if p.id.Some? then p.id.value else s.id,
      if p.name.Some? then p.name.value else s.name,
      if p.sid.Some? then p.sid.value else s.sid,
      s.fields + p.fields)
  }

  /** The copy of the update data with `_id` and `sid` deleted. */
  function StripIdentity(p: Patch): (q: Patch)
  {
    p.(id := None, sid := None)
  }

  /** updateByName's change to the matched record: the patch without its
      identity fields is set on it, so `_id` and `sid` survive whatever the
      patch holds, and the name and other fields are the patch's where it
      has them. */
  function UpdatedRecord(s: Student, p: Patch): (u: Student)
    ensures u.id == s.id && u.sid == s.sid
    ensures u.name == (if p.name.Some? then p.name.value else s.name)
    ensures u.fields.Keys == s.fields.Keys + p.fields.Keys
    ensures forall k :: k in p.fields ==> u.fields[k] == p.fields[k]
    ensures forall k :: k in s.fields && k !in p.fields ==> u.fields[k] == s.fields[k]
  {
    SetFields(s, StripIdentity(p))
  }

  /** Without stripping, `$set` would overwrite the identity fields. */
  lemma SetWithoutStripChangesSid()
    ensures exists s: Student, p: Patch :: SetFields(s, p).sid != s.sid
  {
    var s := Student("a", "tkubm1760", 1, map[]);
    var p := Patch(None, None, Some(2), map[]);
    assert SetFields(s, p).sid != s.sid;
  }

  /** The collection without the record at index i. */
  function RemoveAt(rs: seq<Student>, i: nat): (r: seq<Student>)
    requires i < |rs|
    ensures |r| == |rs| - 1
    ensures multiset(r) + multiset{rs[i]} == multiset(rs)
  {
    assert rs == rs[..i] + [rs[i]] + rs[i + 1..];
    rs[..i] + rs[i + 1..]
  }

  // ---------------------------------------------------------------------
  // Invariants of the collection

  predicate SidsDistinct(rs: seq<Student>)
  {
    forall i, j :: 0 <= i < j < |rs| ==> rs[i].sid != rs[j].sid
  }

  /** What the service's operations keep: no more records than the capacity,
      and no two records with the same sid. */
  predicate WellFormed(rs: seq<Student>)
  {
    |rs| <= Capacity && SidsDistinct(rs)
  }

  /** An accepted insertion keeps the collection well formed. */
  lemma AppendKeepsWellFormed(rs: seq<Student>, s: Student)
    requires WellFormed(rs) && |rs| < Capacity
    requires s.sid == NextSid(rs)
    ensures WellFormed(rs + [s])
  {
  }

  /** A deletion keeps the collection well formed. */
  lemma RemoveKeepsWellFormed(rs: seq<Student>, k: nat)
    requires WellFormed(rs) && k < |rs|
    ensures WellFormed(RemoveAt(rs, k))
  {
  }

  /** An update keeps the collection well formed: it changes no sid. */
  lemma UpdateKeepsWellFormed(rs: seq<Student>, k: nat, p: Patch)
    requires WellFormed(rs) && k < |rs|
    ensures WellFormed(rs[k := UpdatedRecord(rs[k], p)])
  {
  }

  // ---------------------------------------------------------------------
  // Seat-number uniqueness: intended, kept by insertion, not by update

  /** Every stored name decodes and no two share a seat number. */
  predicate SeatsUnique(rs: seq<Student>)
  {
    && AllDecodable(rs)
    && forall i, j :: 0 <= i < j < |rs| ==> SeatPart(rs[i].name) != SeatPart(rs[j].name)
  }

  /** Inserting a record whose name passed validation keeps seat numbers
      unique. */
  lemma AcceptedNameKeepsSeatsUnique(rs: seq<Student>, s: Student)
    requires SeatsUnique(rs)
    requires Validate(s.name, rs) == Ok(Passed)
    ensures SeatsUnique(rs + [s])
  {
    var rs' := rs + [s];
    var seat := SeatPart(s.name);
    assert !SeatTaken(seat, rs);
    forall i | 0 <= i < |rs'| ensures Decodable(rs'[i]) {
      if i < |rs| { assert rs'[i] == rs[i]; }
    }
    forall i, j | 0 <= i < j < |rs'| ensures SeatPart(rs'[i].name) != SeatPart(rs'[j].name) {
      assert rs'[i] == rs[i];
      if j < |rs| {
        assert rs'[j] == rs[j];
      } else {
        assert rs'[j] == s;
        assert !HasSeat(rs[i], seat);
      }
    }
  }

  /** A deletion keeps seat numbers unique. */
  lemma RemoveKeepsSeatsUnique(rs: seq<Student>, k: nat)
    requires SeatsUnique(rs) && k < |rs|
    ensures SeatsUnique(RemoveAt(rs, k))
  {
    var rs' := RemoveAt(rs, k);
    assert forall i :: 0 <= i < |rs'| ==> rs'[i] == rs[if i < k then i else i + 1];
  }

  /** An update may rename the matched record onto the seat number of
      another record: the uniqueness that insertion checks is not an
      invariant of the collection. */
  lemma UpdateCanDuplicateSeat(rs: seq<Student>, name: string, p: Patch, j: nat)
    requires FirstWithName(rs, name).Some?
    requires j < |rs| && j != FirstWithName(rs, name).value && Decodable(rs[j])
    requires p.name.Some? && |p.name.value| >= MinLength
    requires SeatPart(p.name.value) == SeatPart(rs[j].name)
    ensures !SeatsUnique(rs[FirstWithName(rs, name).value := UpdatedRecord(rs[FirstWithName(rs, name).value], p)])
  {
    var k := FirstWithName(rs, name).value;
    var rs' := rs[k := UpdatedRecord(rs[k], p)];
    assert rs'[j] == rs[j] && rs'[k].name == p.name.value;
    if j < k {
      assert SeatPart(rs'[j].name) == SeatPart(rs'[k].name);
    } else {
      assert SeatPart(rs'[k].name) == SeatPart(rs'[j].name);
    }
  }

}
