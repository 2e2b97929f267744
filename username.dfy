/** Decoding of a student user name such as "tkubm1760": a three-letter
    school name, a department abbreviation of any length, and a four-character
    seat number, found by fixed positions. */
module Username {
  import opened Outcomes

  const SchoolLength := 3
  const SeatLength := 4
  /** The shortest name that holds a school name and a seat number. */
  const MinLength := SchoolLength + SeatLength

  /** The message of the error the formatter throws on a short name. */
  const InvalidFormatError := "無效的用戶名格式"

  datatype SeatInfo = SeatInfo(schoolName: string, department: string, seatNumber: string)

  /** Reassembles a decoded name. */
  function Join(info: SeatInfo): (userName: string)
  {
    info.schoolName + info.department + info.seatNumber
  }

  /** userNameFormator: throws on a name shorter than seven characters (the
      empty name included); otherwise splits it into its first three
      characters, its last four, and what lies between. */
  function Format(userName: string): (r: Outcome<SeatInfo>)
    ensures r.Thrown? <==> |userName| < MinLength
    ensures r.Thrown? ==> r.message == InvalidFormatError
    ensures r.Ok? ==>
      && r.value.schoolName == userName[..SchoolLength]
      && r.value.seatNumber == userName[|userName| - SeatLength..]
      && |r.value.department| == |userName| - MinLength
      && Join(r.value) == userName
  {
    if |userName| < MinLength then
      Thrown(InvalidFormatError)
    else
      var n := |userName|;
      var info := SeatInfo(userName[..SchoolLength], userName[SchoolLength..n - SeatLength], userName[n - SeatLength..]);
      assert Join(info) == userName by {
        assert userName == userName[..SchoolLength] + userName[SchoolLength..n - SeatLength] + userName[n - SeatLength..];
      }
      Ok(info)
  }

  /** Decoding undoes joining: any school name of three characters, any
      department and any seat number of four characters come back out of
      the name they form. */
  lemma FormatJoin(info: SeatInfo)
    requires |info.schoolName| == SchoolLength && |info.seatNumber| == SeatLength
    ensures Format(Join(info)) == Ok(info)
  {
  }

  /** A character matched by `\d` in a regular expression without the
      Unicode flag. */
  predicate IsDigit(c: char)
  {
    '0' <= c <= '9'
  }

  /** The test `/^\d{4}$/`: exactly four ASCII digits and nothing else. */
  predicate IsFourDigits(s: string)
  {
    |s| == SeatLength && forall i :: 0 <= i < |s| ==> IsDigit(s[i])
  }
}
