/**
 * The older single-user dashboard page: a birthday list kept under the storage key `birthdays`,
 * with add, delete and a find-only edit. Its records carry a name, a date, a relationship,
 * notes and an id; the other fields of the record are empty.
 */
module Script {
  import opened Wrappers
  import opened Seqs
  import opened Calendar
  import opened Birthdays

  /** The record the add form builds. */
  function FormRecord(name: string, date: DateField, relationship: string, notes: string, id: string): (r: Birthday)
    ensures r.name == name && r.date == date && r.relationship == relationship && r.notes == notes && r.id == id
    ensures r.mongoId == "" && r.photoUrl == "" && r.userId == ""
  {
    Birthday(id, "", name, date, relationship, "", "", notes, "", "")
  }

  function RecordId(b: Birthday): string
  {
    b.id
  }

  class BirthdayDashboard {
    var birthdays: seq<Birthday>
    /** The `birthdays` storage entry. */
    var storedBirthdays: seq<Birthday>

    /** The constructor: the stored list, or an empty one when nothing is stored. */
    constructor(stored: seq<Birthday>)
      ensures birthdays == stored && storedBirthdays == stored
    {
      birthdays, storedBirthdays := stored, stored;
    }

    /** `addBirthday`: a missing name or date changes nothing; otherwise exactly one record is
        appended and the list is written back. */
    method AddBirthday(name: string, date: DateField, relationship: string, notes: string, id: string)
      returns (added: bool)
      modifies this
      ensures added <==> name != "" && !date.NoDate?
      ensures !added ==> birthdays == old(birthdays) && storedBirthdays == old(storedBirthdays)
      ensures added ==> birthdays == old(birthdays) + [FormRecord(name, date, relationship, notes, id)]
                        && storedBirthdays == birthdays
    {
      if name == "" || date.NoDate? {
        return false;
      }
      birthdays := birthdays + [FormRecord(name, date, relationship, notes, id)];
      storedBirthdays := birthdays;
      added := true;
    }

    /** `deleteBirthday`: once confirmed, every record with that id is dropped, the others keep
        their order, and the list is written back. */
    method DeleteBirthday(id: string, confirmed: bool)
      modifies this
      ensures !confirmed ==> birthdays == old(birthdays) && storedBirthdays == old(storedBirthdays)
      ensures confirmed ==> birthdays == Filter(old(birthdays), KeyIsNot(RecordId, id)) && storedBirthdays == birthdays
      ensures confirmed ==> forall b :: b in birthdays ==> b.id != id
      ensures confirmed ==> forall b :: b in old(birthdays) && b.id != id ==> b in birthdays
      ensures confirmed ==> IsSubsequence(birthdays, old(birthdays))
    {
      if confirmed {
        var kept := Filter(birthdays, KeyIsNot(RecordId, id));
        FilterIsSubsequence(birthdays, KeyIsNot(RecordId, id));
        forall b | b in kept
          ensures b.id != id
        {
          assert RecordId(b) == b.id;
          assert KeyIsNot(RecordId, id)(b) == (RecordId(b) != id);
        }
        forall b | b in birthdays && b.id != id
          ensures b in kept
        {
          assert RecordId(b) == b.id;
          assert KeyIsNot(RecordId, id)(b) == (RecordId(b) != id);
        }
        birthdays := kept;
        storedBirthdays := kept;
      }
    }

    /** `editBirthday`: only looks the record up (to show a message); nothing changes. */
    method EditBirthday(id: string) returns (found: Option<Birthday>)
      ensures found.Some? ==> found.value in birthdays && found.value.id == id
      ensures found.None? <==> forall b :: b in birthdays ==> b.id != id
    {
      var i := FirstIndex(birthdays, KeyIs(RecordId, id));
      if i.Some? {
        return Some(birthdays[i.value]);
      }
      forall b | b in birthdays
        ensures b.id != id
      {
        var j :| 0 <= j < |birthdays| && birthdays[j] == b;
        assert !KeyIs(RecordId, id)(birthdays[j]);
      }
      found := None;
    }
  }
}
