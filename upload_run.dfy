/**
 * processCsvFile of Api/CompetitorUploadController as a store object whose tables
 * the row loop updates in place, proved against the functions of UploadIntake.
 */
module UploadRun {
  import opened Php
  import opened UploadHeader
  import opened UploadIntake

  class UploadStore {
    var contestants: map<string, Contestant>
    var tutors: set<Tutor>
    var schools: set<string>
    var levels: set<string>
    var grades: set<string>
    var areas: set<string>
    var inscriptions: set<Inscription>

    function State(): Store
      reads this
    {
      Store(contestants, tutors, schools, levels, grades, areas, inscriptions)
    }

    constructor (start: Store)
      ensures State() == start
    {
      contestants := start.contestants;
      tutors := start.tutors;
      schools := start.schools;
      levels := start.levels;
      grades := start.grades;
      areas := start.areas;
      inscriptions := start.inscriptions;
    }

    /** The full name split into name and last name. */
    static method NameOf(fullName: string) returns (name: string, lastname: string)
      ensures (name, lastname) == SplitName(fullName)
    {
      name, lastname := fullName, "";
      var nameParts := Words(fullName, Whitespace);
      if |nameParts| >= 2 {
        lastname := nameParts[|nameParts| - 1];
        name := Trim(JoinWith(nameParts[..|nameParts| - 1], " "));
      }
    }

    /** The tutor, school, level and grade firstOrCreate calls of one complete row. */
    method Lookups(f: Fields) returns (tutor: Option<Tutor>, school: Option<string>, grade: Option<string>)
      modifies this
      ensures tutor == TutorOf(f) && school == NonBlank(f.school) && grade == NonBlank(f.grade)
      ensures State() == old(State()).(tutors := old(tutors) + OptionSet(tutor),
                                       schools := old(schools) + OptionSet(school),
                                       levels := old(levels) + {f.level},
                                       grades := old(grades) + OptionSet(grade))
    {
      tutor := None;
      if f.phone != "" || f.email != "" {
        tutor := Some(Tutor(OrNull(f.phone), OrNull(f.email)));
        tutors := tutors + {tutor.value};
      }
      school := None;
      if f.school != "" {
        school := Some(f.school);
        schools := schools + {f.school};
      }
      levels := levels + {f.level};
      grade := None;
      if f.grade != "" {
        grade := Some(f.grade);
        grades := grades + {f.grade};
      }
    }

    /** The lookups and the contestant updateOrCreate of one complete row. */
    method Upsert(f: Fields)
      modifies this
      ensures State() == Catalogued(old(State()), f)
    {
      var tutor, school, grade := Lookups(f);
      var name, lastname := NameOf(f.fullName);
      var contestant := Contestant(name, lastname, NonBlank(f.gender), tutor, school, NonBlank(f.department), grade);
      assert contestant == ContestantOf(f);
      contestants := contestants[f.document := contestant];
    }

    /** The foreach over one row's area names, with the names seen in the row. */
    method AddAreas(document: string, level: string, names: seq<string>) returns (created: nat, skipped: nat)
      modifies this
      ensures AreaPass(State(), AreaLoop(old(State()), document, level, names).seen, created, skipped) ==
              AreaLoop(old(State()), document, level, names)
    {
      ghost var s0 := State();
      var seen: set<string> := {};
      created, skipped := 0, 0;
      var i := 0;
      while i < |names|
        invariant 0 <= i <= |names|
        invariant AreaPass(State(), seen, created, skipped) == AreaLoop(s0, document, level, names[..i])
      {
        assert names[..i + 1][..i] == names[..i];
        var areaName := names[i];
        areas := areas + {areaName};
        if areaName in seen {
          skipped := skipped + 1;
        } else {
          seen := seen + {areaName};
          var inscription := Inscription(document, areaName, level);
          if inscription !in inscriptions {
            inscriptions := inscriptions + {inscription};
            created := created + 1;
          }
        }
        i := i + 1;
      }
      assert names[..|names|] == names;
    }

    /** The work on a row whose mandatory fields are all present. */
    method StoreRow(f: Fields, st: Stats) returns (st': Stats)
      modifies this
      ensures (State(), st') == Stored(old(State()), st, f)
    {
      var wasRecentlyCreated := f.document !in contestants;
      Upsert(f);
      var created, skipped := AddAreas(f.document, f.level, AreaNames(f.areas));
      st' := Stats(st.processed + 1,
                   st.createdContestants + (if wasRecentlyCreated then 1 else 0),
                   st.updatedContestants + (if wasRecentlyCreated then 0 else 1),
                   st.createdInscriptions + created,
                   st.skippedDuplicateArea + skipped,
                   st.errors);
    }

    /** One turn of the row loop. */
    method ProcessRow(row: seq<string>, idx: map<string, nat>, st: Stats) returns (st': Stats)
      modifies this
      ensures (State(), st') == RowStep(old(State()), st, row, idx)
    {
      var f := FieldsOf(row, idx);
      if f.fullName == "" || f.document == "" || f.areas == "" || f.level == "" {
        var processed := st.processed + 1;
        return st.(processed := processed, errors := st.errors + [RowError(processed, MissingFieldsMessage)]);
      }
      st' := StoreRow(f, st);
    }

    /** The while loop over the records after the header. */
    method ProcessRows(rows: seq<seq<string>>, idx: map<string, nat>) returns (stats: Stats)
      modifies this
      ensures (State(), stats) == Rows(old(State()), NoStats, rows, idx)
    {
      ghost var s0 := State();
      stats := NoStats;
      var i := 0;
      while i < |rows|
        invariant 0 <= i <= |rows|
        invariant (State(), stats) == Rows(s0, NoStats, rows[..i], idx)
      {
        assert rows[..i + 1][..i] == rows[..i];
        stats := ProcessRow(rows[i], idx, stats);
        i := i + 1;
      }
      assert rows[..|rows|] == rows;
    }

    /** processCsvFile over the records fgetcsv yields, header first. */
    method ProcessCsvFile(records: seq<seq<string>>) returns (outcome: Outcome)
      modifies this
      ensures (outcome, State()) == FileOf(old(State()), records)
    {
      if records == [] {
        return EmptyFile;
      }
      var normalizedHeader := NormalizeHeader(records[0]);
      var idx := BuildIndex(normalizedHeader);
      var missing := Missing(RequiredLabels, idx);
      if missing != [] {
        return MissingColumns(missing);
      }
      var stats := ProcessRows(records[1..], idx);
      outcome := Processed(stats);
    }
  }
}
