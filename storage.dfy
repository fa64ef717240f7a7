/** What of a parsed résumé is kept: the insert binds six of the record's
    seven fields, in the order of its column list, and leaves out the
    leadership experience. The database itself is not modelled. */
module Storage {
  import opened Optional
  import opened ResumeParser

  /** The keys of the dictionary `parse_resume` returns. */
  const RecordKeys: seq<string> :=
    ["name", "email", "phone", "education", "work_experience", "leadership_experience", "skills"]

  /** The column list of the insert statement. */
  const Columns: seq<string> := ["name", "email", "phone", "education", "work_experience", "skills"]

  /** `data[key]` on the returned dictionary: the field under that key, or
      nothing for a key the dictionary does not have. */
  function Lookup(r: ResumeRecord, key: string): (v: Option<string>)
    ensures v.Some? <==> key in RecordKeys
  {
    if key == "name" then Some(r.name)
    else if key == "email" then Some(r.email)
    else if key == "phone" then Some(r.phone)
    else if key == "education" then Some(r.education)
    else if key == "work_experience" then Some(r.workExperience)
    else if key == "leadership_experience" then Some(r.leadershipExperience)
    else if key == "skills" then Some(r.skills)
    else None
  }

  /** The parameter tuple of the insert. */
  function ToRow(r: ResumeRecord): (row: seq<string>)
    ensures |row| == |Columns|
  {
    [r.name, r.email, r.phone, r.education, r.workExperience, r.skills]
  }

  /** Each value of the row is the record's field under the key its column
      names: the tuple and the column list agree position by position. */
  lemma RowFollowsColumns(r: ResumeRecord)
    ensures forall k :: 0 <= k < |Columns| ==> Lookup(r, Columns[k]) == Some(ToRow(r)[k])
  {
    assert Columns[0] == "name" && Columns[1] == "email" && Columns[2] == "phone";
    assert Columns[3] == "education" && Columns[4] == "work_experience" && Columns[5] == "skills";
  }

  /** The leadership experience is the one field of the record the row does
      not hold. */
  lemma LeadershipNotStored()
    ensures "leadership_experience" in RecordKeys && "leadership_experience" !in Columns
    ensures forall c :: c in Columns ==> c in RecordKeys
  {
    assert RecordKeys[5] == "leadership_experience";
    assert forall k :: 0 <= k < |Columns| ==> Columns[k] != "leadership_experience";
  }

  /** Two records give the same row exactly when they agree on every field
      but the leadership experience. */
  lemma SameRowIff(a: ResumeRecord, b: ResumeRecord)
    ensures ToRow(a) == ToRow(b) <==>
            a.(leadershipExperience := b.leadershipExperience) == b
  {
    if ToRow(a) == ToRow(b) {
      assert ToRow(a)[0] == ToRow(b)[0] && ToRow(a)[1] == ToRow(b)[1] && ToRow(a)[2] == ToRow(b)[2];
      assert ToRow(a)[3] == ToRow(b)[3] && ToRow(a)[4] == ToRow(b)[4] && ToRow(a)[5] == ToRow(b)[5];
    }
  }
}
