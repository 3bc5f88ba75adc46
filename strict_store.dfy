/**
 * The tables the strict CSV intake writes to, keyed by their natural keys:
 * contestants by CI document (the column is unique), grades and levels by
 * name, areas by name, and the olympiad-area offers as (olympiad, area) pairs.
 * Registrations carry no unique key, so they form a sequence.
 */
module StrictStore {
  import opened Php

  /** One CSV row after array_combine: column label to cell value. */
  type Record = map<string, string>

  /** `$data[$key]`, with a missing key read as the empty string. */
  function Get(data: Record, key: string): string {
    if key in data then data[key] else ""
  }

  datatype Contestant = Contestant(
    firstName: string, lastName: string, ci: string, gender: string,
    school: string, department: string, phone: string, email: string,
    tutorName: string, tutorNumber: string)

  datatype Registration = Registration(
    ci: string, olympiadId: int, areaId: int, grade: Option<string>, level: Option<string>)

  datatype Db = Db(
    contestants: map<string, Contestant>,
    grades: set<string>,
    levels: set<string>,
    areas: map<string, int>,
    offered: set<(int, int)>,
    registrations: seq<Registration>)

  /** The e-mail addresses of the stored contestants. */
  function Emails(db: Db): set<string> {
    set c | c in db.contestants.Values :: c.email
  }

  /** The area names of a row: the AREA cell split on runs of ',' and ';', each piece trimmed. */
  function AreaNames(cell: string): (names: seq<string>)
    ensures |names| == |SplitRuns(cell, {',', ';'})|
  {
    var pieces := SplitRuns(cell, {',', ';'});
    seq(|pieces|, i requires 0 <= i < |pieces| => Trim(pieces[i]))
  }

  /** The area id of `name` when that area exists and the olympiad offers it. */
  predicate Offered(areas: map<string, int>, offered: set<(int, int)>, olympiad: int, name: string) {
    name in areas && (olympiad, areas[name]) in offered
  }

  /** One registration per listed area that exists and is offered, in list order. */
  function RegistrationsFor(areas: map<string, int>, offered: set<(int, int)>, ci: string, olympiad: int,
                            names: seq<string>, grade: Option<string>, level: Option<string>): (rs: seq<Registration>)
    ensures |rs| <= |names|
    ensures forall k :: 0 <= k < |rs| ==>
      rs[k].ci == ci && rs[k].olympiadId == olympiad && rs[k].grade == grade && rs[k].level == level
  {
    if names == [] then []
    else
      var init := RegistrationsFor(areas, offered, ci, olympiad, names[..|names| - 1], grade, level);
      var n := names[|names| - 1];
      if Offered(areas, offered, olympiad, n) then init + [Registration(ci, olympiad, areas[n], grade, level)]
      else init
  }

  /** The contestant row Contestant::create stores for a CSV record. */
  function NewContestant(data: Record): Contestant {
    Contestant(Get(data, "NOMBRE"), Get(data, "APELLIDO"), Get(data, "CI"), Upper(Get(data, "GENERO")),
               Get(data, "COLEGIO"), Get(data, "DEPARTAMENTO"), Get(data, "CELULAR"), Get(data, "E-MAIL"),
               Get(data, "NOMBRE TUTOR"), Get(data, "NUMERO TUTOR"))
  }

  /** The grade a registration refers to: the trimmed GRADO when it is not empty. */
  function GradeOf(data: Record): Option<string> {
    if IsEmpty(Get(data, "GRADO")) then None else Some(Trim(Get(data, "GRADO")))
  }

  /** The level a level lookup reads: NIVEL, or failing that a " NIVEL" key. */
  function LevelValue(data: Record): string {
    if "NIVEL" in data then data["NIVEL"] else Get(data, " NIVEL")
  }

  function LevelOf(data: Record): Option<string> {
    if IsEmpty(LevelValue(data)) then None else Some(Trim(LevelValue(data)))
  }

  function AddName(names: set<string>, n: Option<string>): set<string> {
    if n.Some? then names + {n.value} else names
  }

  /** The store after createContestantAndRegistration on a record. */
  function Created(db: Db, data: Record, olympiad: int): Db {
    var ci := Get(data, "CI");
    db.(contestants := db.contestants[ci := NewContestant(data)],
        grades := AddName(db.grades, GradeOf(data)),
        levels := AddName(db.levels, LevelOf(data)),
        registrations := db.registrations +
          RegistrationsFor(db.areas, db.offered, ci, olympiad, AreaNames(Get(data, "AREA")), GradeOf(data), LevelOf(data)))
  }

  /** Creating a contestant adds exactly its CI to the contestants, keeps the catalogs of
      areas and offers, and only appends registrations, all of them for that contestant. */
  lemma CreatedShape(db: Db, data: Record, olympiad: int)
    requires Get(data, "CI") !in db.contestants
    ensures var db' := Created(db, data, olympiad);
      db'.contestants.Keys == db.contestants.Keys + {Get(data, "CI")} &&
      |db'.contestants| == |db.contestants| + 1 &&
      (forall c :: c in db.contestants ==> db'.contestants[c] == db.contestants[c]) &&
      db'.areas == db.areas && db'.offered == db.offered &&
      db'.registrations[..|db.registrations|] == db.registrations &&
      forall k :: |db.registrations| <= k < |db'.registrations| ==>
        db'.registrations[k].ci == Get(data, "CI") && db'.registrations[k].olympiadId == olympiad
  {
    var db' := Created(db, data, olympiad);
    assert db'.contestants.Keys == db.contestants.Keys + {Get(data, "CI")};
  }

  /** A registration is created for every listed area exactly when each of them is offered. */
  lemma {:induction false} RegistrationsForAll(areas: map<string, int>, offered: set<(int, int)>, ci: string,
                                                olympiad: int, names: seq<string>,
                                                grade: Option<string>, level: Option<string>)
    ensures |RegistrationsFor(areas, offered, ci, olympiad, names, grade, level)| == |names| <==>
      forall k :: 0 <= k < |names| ==> Offered(areas, offered, olympiad, names[k])
  {
    if names != [] {
      var init := names[..|names| - 1];
      RegistrationsForAll(areas, offered, ci, olympiad, init, grade, level);
      assert forall k :: 0 <= k < |init| ==> init[k] == names[k];
    }
  }

  /** The database as the strict controller uses it. Areas and offers are read, never written. */
  class Database {
    var contestants: map<string, Contestant>
    var grades: set<string>
    var levels: set<string>
    var registrations: seq<Registration>
    const areas: map<string, int>
    const offered: set<(int, int)>

    function State(): Db
      reads this
    {
      Db(contestants, grades, levels, areas, offered, registrations)
    }

    constructor (start: Db)
      ensures State() == start
    {
      contestants := start.contestants;
      grades := start.grades;
      levels := start.levels;
      registrations := start.registrations;
      areas := start.areas;
      offered := start.offered;
    }

    /** createContestantAndRegistration: the contestant, firstOrCreate of grade and level,
        and one registration per area that exists and is offered. The CI column is unique,
        so the CI must not be stored yet. */
    method CreateContestantAndRegistration(data: Record, olympiad: int)
      requires Get(data, "CI") !in contestants
      modifies this
      ensures State() == Created(old(State()), data, olympiad)
    {
      var ci := Get(data, "CI");
      contestants := contestants[ci := NewContestant(data)];
      var grade := GradeOf(data);
      if grade.Some? {
        grades := grades + {grade.value};
      }
      var level := LevelOf(data);
      if level.Some? {
        levels := levels + {level.value};
      }
      AddRegistrations(ci, olympiad, AreaNames(Get(data, "AREA")), grade, level);
    }

    /** The area loop of createContestantAndRegistration. */
    method AddRegistrations(ci: string, olympiad: int, names: seq<string>,
                            grade: Option<string>, level: Option<string>)
      modifies `registrations
      ensures registrations == old(registrations) + RegistrationsFor(areas, offered, ci, olympiad, names, grade, level)
    {
      var i := 0;
      while i < |names|
        invariant 0 <= i <= |names|
        invariant registrations == old(registrations) + RegistrationsFor(areas, offered, ci, olympiad, names[..i], grade, level)
      {
        var n := names[i];
        assert names[..i + 1][..i] == names[..i];
        if n in areas && (olympiad, areas[n]) in offered {
          registrations := registrations + [Registration(ci, olympiad, areas[n], grade, level)];
        }
        i := i + 1;
      }
      assert names[..|names|] == names;
    }
  }
}
