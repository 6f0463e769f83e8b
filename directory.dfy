/** The local doctor directory of app.py: the `doctors` table as a sequence
    of rows, its seeding at start-up (`init_db`) and its rendering into the
    text that is pasted into a prompt (`get_local_doctors`). */
module Directory {
  import opened Text

  /** One row of the `doctors` table, in the column order of the SELECT. */
  datatype Doctor = Doctor(name: string, specialty: string, hospital: string, location: string, contact: string)

  /** The f-string of app.py:64 for one row. */
  function Render(d: Doctor): string
  {
    "- " + d.name + " (" + d.specialty + ") at " + d.hospital + ", " + d.location + ". Contact: " + d.contact
  }

  /** The renderings of the rows, in row order (the `doc_list` that app.py builds). */
  function Renders(rows: seq<Doctor>): seq<string>
  {
    seq(|rows|, k requires 0 <= k < |rows| => Render(rows[k]))
  }

  /** The directory text: the renderings joined by newlines. It is empty
      exactly when there are no rows, and otherwise starts with the first
      row's line. */
  function DirectoryText(rows: seq<Doctor>): (text: string)
    ensures text == "" <==> rows == []
    ensures rows != [] ==> Render(rows[0]) <= text
  {
    var lines := Renders(rows);
    assert rows != [] ==> "- " <= Render(rows[0]);
    Join(lines, "\n")
  }

  /** No field of the row contains a line break. */
  predicate SingleLine(d: Doctor)
  {
    '\n' !in d.name && '\n' !in d.specialty && '\n' !in d.hospital
    && '\n' !in d.location && '\n' !in d.contact
  }

  /** A row whose fields have no line break renders as exactly one line. */
  lemma RenderIsOneLine(d: Doctor)
    requires SingleLine(d)
    ensures '\n' !in Render(d)
  {
    var parts := ["- ", d.name, " (", d.specialty, ") at ", d.hospital, ", ", d.location, ". Contact: ", d.contact];
    forall k | 0 <= k < |Render(d)|
      ensures Render(d)[k] != '\n'
    {
      assert Render(d) == parts[0] + parts[1] + parts[2] + parts[3] + parts[4] + parts[5] + parts[6] + parts[7] + parts[8] + parts[9];
    }
  }

  /** n rows with line-break-free fields give exactly n lines, one per row
      and in row order; no rows give the empty text. */
  lemma DirectoryLines(rows: seq<Doctor>)
    requires forall k :: 0 <= k < |rows| ==> SingleLine(rows[k])
    ensures rows == [] ==> DirectoryText(rows) == ""
    ensures rows != [] ==> Split(DirectoryText(rows), '\n') == Renders(rows)
    ensures rows != [] ==> |Split(DirectoryText(rows), '\n')| == |rows|
  {
    if rows != [] {
      var lines := Renders(rows);
      forall k | 0 <= k < |lines|
        ensures '\n' !in lines[k]
      {
        RenderIsOneLine(rows[k]);
      }
      SplitJoin(lines, '\n');
    }
  }

  /** The five rows that `init_db` inserts into an empty table (app.py:45-51). */
  const SampleDoctors: seq<Doctor> := [
    Doctor("Dr. Priya Sharma", "General Physician", "Apollo Clinic", "Bangalore", "080-12345678"),
    Doctor("Dr. Rajan Mehta", "Cardiologist", "Fortis Hospital", "Bangalore", "080-87654321"),
    Doctor("Dr. Anita Rao", "Neurologist", "Manipal Hospital", "Bangalore", "080-11223344"),
    Doctor("Dr. Suresh Kumar", "Dermatologist", "Columbia Asia", "Bangalore", "080-55667788"),
    Doctor("Dr. Meena Iyer", "Nutritionist", "Narayana Health", "Bangalore", "080-99887766")
  ]

  /** The table after the count test of `init_db`: the sample rows are added
      only to an empty table, and a non-empty table is left alone. */
  function Seeded(rows: seq<Doctor>): (r: seq<Doctor>)
    ensures |rows| == 0 ==> r == SampleDoctors && |r| == 5
    ensures |rows| != 0 ==> r == rows
    ensures r != []
  {
    if |rows| == 0 then rows + SampleDoctors else rows
  }

  /** Seeding is idempotent: a second `init_db` changes nothing, so two
      start-ups on an empty table still leave exactly the five sample rows. */
  lemma SeedIdempotent(rows: seq<Doctor>)
    ensures Seeded(Seeded(rows)) == Seeded(rows)
    ensures rows == [] ==> Seeded(Seeded(rows)) == SampleDoctors
  {
  }

  /** The `healthcare.db` file as far as app.py sees it: whether the
      `doctors` table exists, and its rows in the order SELECT returns them. */
  class Database {
    var created: bool
    var doctors: seq<Doctor>

    /** The state of the file when the program starts (left by an earlier run,
        by another script, or absent). */
    constructor (hasTable: bool, rows: seq<Doctor>)
      ensures created == hasTable
      ensures doctors == (if hasTable then rows else [])
    {
      created := hasTable;
      doctors := if hasTable then rows else [];
    }

    /** `init_db` (app.py:37-54): create the table if it does not exist, then
        insert the sample rows when it holds no row. */
    method InitDb()
      modifies this
      ensures created
      ensures doctors == Seeded(if old(created) then old(doctors) else [])
    {
      if !created {
        created := true;
        doctors := [];
      }
      if |doctors| == 0 {
        doctors := doctors + SampleDoctors;
      }
    }

    /** `get_local_doctors` (app.py:56-65): fetch every row and render the
        directory text, one line per row, joined by newlines. The table must
        exist; the SELECT fails otherwise. */
    method GetLocalDoctors() returns (text: string)
      requires created
      ensures text == DirectoryText(doctors)
    {
      var rows := doctors;
      var docList: seq<string> := [];
      for i := 0 to |rows|
        invariant |docList| == i
        invariant forall k :: 0 <= k < i ==> docList[k] == Render(rows[k])
      {
        docList := docList + [Render(rows[i])];
      }
      assert docList == Renders(rows);
      text := Join(docList, "\n");
    }
  }
}
