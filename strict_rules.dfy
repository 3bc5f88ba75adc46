/**
 * validateContestantData of the strict intake: every rule is checked and each
 * failing rule adds one message; a row is valid exactly when no rule failed.
 * The patterns have no /u modifier, so PCRE matches them on bytes: each byte
 * of a two-byte accented letter counts as one character of the class.
 */
module StrictRules {
  import opened Php
  import opened StrictStore

  /** \s without /u: tab, newline, vertical tab, form feed, carriage return, space. */
  predicate IsSpaceByte(c: char) {
    c == ' ' || '\t' <= c <= '\r'
  }

  /** The bytes of the UTF-8 encodings of áéíóúÁÉÍÓÚñÑ: the lead byte C3 and the twelve
      continuation bytes. */
  predicate IsAccentByte(c: char) {
    c == '\U{C3}' || c == '\U{A1}' || c == '\U{A9}' || c == '\U{AD}' || c == '\U{B3}' || c == '\U{BA}' ||
    c == '\U{81}' || c == '\U{89}' || c == '\U{8D}' || c == '\U{93}' || c == '\U{9A}' || c == '\U{B1}' ||
    c == '\U{91}'
  }

  predicate IsDigit(c: char) {
    '0' <= c <= '9'
  }

  predicate IsAsciiLetter(c: char) {
    'a' <= c <= 'z' || 'A' <= c <= 'Z'
  }

  /** The three character classes of the rules. */
  datatype CharClass = Letters | LettersAndDigits | Digits

  predicate InClass(c: char, k: CharClass) {
    match k
    case Letters => IsAsciiLetter(c) || IsAccentByte(c) || IsSpaceByte(c)
    case LettersAndDigits => IsAsciiLetter(c) || IsDigit(c) || IsAccentByte(c) || IsSpaceByte(c)
    case Digits => IsDigit(c)
  }

  /** `[class]{lo,hi}` covering the whole string. */
  predicate Run(s: string, k: CharClass, lo: nat, hi: nat) {
    lo <= |s| <= hi && forall i :: 0 <= i < |s| ==> InClass(s[i], k)
  }

  /** `/^[class]{lo,hi}$/`: `$` also matches just before a final newline. */
  predicate Matches(s: string, k: CharClass, lo: nat, hi: nat) {
    Run(s, k, lo, hi) || (|s| > 0 && s[|s| - 1] == '\n' && Run(s[..|s| - 1], k, lo, hi))
  }

  /** `/^[class]+$/`. */
  predicate MatchesSome(s: string, k: CharClass) {
    Matches(s, k, 1, |s|)
  }

  /** The reasons a row is refused, in the order the rules are checked. */
  datatype Failure =
    | Required(field: string)
    | FirstNameFormat
    | LastNameFormat
    | CiFormat
    | CiTaken
    | GenderValue
    | DepartmentFormat
    | SchoolFormat
    | PhoneFormat
    | EmailFormat
    | EmailTaken
    | TooManyAreas
    | UnknownArea(name: string)
    | AreaNotOffered(name: string)
    | GradeFormat
    | LevelFormat
    | LevelRequired
    | TutorNameFormat
    | TutorNumberFormat

  function Message(f: Failure): string {
    match f
    case Required(field) => field + " is required"
    case FirstNameFormat => "First Name must be 2-50 characters and contain only letters"
    case LastNameFormat => "Last Name must be 2-50 characters and contain only letters"
    case CiFormat => "CI Document must be 8-13 digits"
    case CiTaken => "CI Document already exists"
    case GenderValue => "Gender must be F or M"
    case DepartmentFormat => "Department must be 2-50 characters and contain only letters"
    case SchoolFormat => "School must be 2-100 characters and contain only alphanumeric characters"
    case PhoneFormat => "Phone must be exactly 8 digits"
    case EmailFormat => "Email format is invalid"
    case EmailTaken => "Email already exists"
    case TooManyAreas => "Maximum 3 areas allowed"
    case UnknownArea(name) => "Area '" + name + "' does not exist"
    case AreaNotOffered(name) => "Area '" + name + "' is not configured for the selected Olympiad"
    case GradeFormat => "Grade must contain only letters"
    case LevelFormat => "Level must be 2-50 characters and contain only letters"
    case LevelRequired => "Level is required"
    case TutorNameFormat => "Tutor Name must be 2-50 characters and contain only letters"
    case TutorNumberFormat => "Tutor Number must be exactly 8 digits"
  }

  function Messages(fs: seq<Failure>): (ms: seq<string>)
    ensures |ms| == |fs|
  {
    seq(|fs|, i requires 0 <= i < |fs| => Message(fs[i]))
  }

  /** The required columns with the labels their messages use. */
  const RequiredFields: seq<(string, string)> := [
    ("CI", "CI Document"), ("NOMBRE", "First Name"), ("APELLIDO", "Last Name"),
    ("GENERO", "Gender"), ("DEPARTAMENTO", "Department"), ("COLEGIO", "School"),
    ("AREA", "Area"), ("GRADO", "Grade"), ("NUMERO TUTOR", "Tutor Number"),
    ("NOMBRE TUTOR", "Tutor Name")]

  function RequiredFailures(data: Record, fields: seq<(string, string)>): (fs: seq<Failure>)
    ensures |fs| <= |fields|
    ensures Ruled(fs, 0)
  {
    if fields == [] then []
    else
      var init := RequiredFailures(data, fields[..|fields| - 1]);
      var f := fields[|fields| - 1];
      if IsEmpty(Get(data, f.0)) then init + [Required(f.1)] else init
  }

  /** A format rule that applies only to a non-empty value. */
  function FormatFailure(v: string, k: CharClass, lo: nat, hi: nat, f: Failure): (fs: seq<Failure>)
    ensures forall j :: 0 <= j < |fs| ==> fs[j] == f
    ensures Ruled(fs, Rule(f))
  {
    if !IsEmpty(v) && !Matches(v, k, lo, hi) then [f] else []
  }

  function CiFailures(ci: string, db: Db): (fs: seq<Failure>)
    ensures Ruled(fs, 3)
  {
    if IsEmpty(ci) then []
    else if !Matches(ci, Digits, 8, 13) then [CiFormat]
    else if ci in db.contestants then [CiTaken]
    else []
  }

  function GenderFailures(g: string): (fs: seq<Failure>)
    ensures Ruled(fs, 4)
  {
    if !IsEmpty(g) && Upper(g) != "F" && Upper(g) != "M" then [GenderValue] else []
  }

  /** filter_var(FILTER_VALIDATE_EMAIL) is the parameter `validEmail`. */
  function EmailFailures(e: string, db: Db, validEmail: string -> bool): (fs: seq<Failure>)
    ensures Ruled(fs, 8)
  {
    if IsEmpty(e) then []
    else if !validEmail(e) then [EmailFormat]
    else if e in Emails(db) then [EmailTaken]
    else []
  }

  /** The per-name area checks: unknown names, then names the olympiad does not offer. */
  function AreaChecks(names: seq<string>, db: Db, olympiad: int): (fs: seq<Failure>)
    ensures |fs| <= |names|
    ensures forall k :: 0 <= k < |fs| ==> fs[k].UnknownArea? || fs[k].AreaNotOffered?
  {
    if names == [] then []
    else
      var init := AreaChecks(names[..|names| - 1], db, olympiad);
      var n := names[|names| - 1];
      if n !in db.areas then init + [UnknownArea(n)]
      else if (olympiad, db.areas[n]) !in db.offered then init + [AreaNotOffered(n)]
      else init
  }

  function AreaFailures(cell: string, db: Db, olympiad: int): (fs: seq<Failure>)
    ensures Ruled(fs, 9)
  {
    if IsEmpty(cell) then []
    else
      var names := AreaNames(cell);
      (if |names| > 3 then [TooManyAreas] else []) + AreaChecks(names, db, olympiad)
  }

  function GradeFailures(grade: string): (fs: seq<Failure>)
    ensures Ruled(fs, 10)
  {
    if !IsEmpty(grade) && !MatchesSome(grade, Letters) then [GradeFormat] else []
  }

  function LevelFailures(level: string): (fs: seq<Failure>)
    ensures Ruled(fs, 11)
  {
    (if !IsEmpty(level) && !Matches(level, Letters, 2, 50) then [LevelFormat] else []) +
    (if IsEmpty(level) then [LevelRequired] else [])
  }

  /** The outcome of rule `j`, numbered in the order validateContestantData checks them. */
  function Piece(j: nat, data: Record, db: Db, olympiad: int, validEmail: string -> bool): (fs: seq<Failure>)
    requires j < 14
    ensures Ruled(fs, j)
  {
    match j
    case 0 => RequiredFailures(data, RequiredFields)
    case 1 => FormatFailure(Get(data, "NOMBRE"), Letters, 2, 50, FirstNameFormat)
    case 2 => FormatFailure(Get(data, "APELLIDO"), Letters, 2, 50, LastNameFormat)
    case 3 => CiFailures(Get(data, "CI"), db)
    case 4 => GenderFailures(Get(data, "GENERO"))
    case 5 => FormatFailure(Get(data, "DEPARTAMENTO"), Letters, 2, 50, DepartmentFormat)
    case 6 => FormatFailure(Get(data, "COLEGIO"), LettersAndDigits, 2, 100, SchoolFormat)
    case 7 => FormatFailure(Get(data, "CELULAR"), Digits, 8, 8, PhoneFormat)
    case 8 => EmailFailures(Get(data, "E-MAIL"), db, validEmail)
    case 9 => AreaFailures(Get(data, "AREA"), db, olympiad)
    case 10 => GradeFailures(Get(data, "GRADO"))
    case 11 => LevelFailures(LevelValue(data))
    case 12 => FormatFailure(Get(data, "NOMBRE TUTOR"), Letters, 2, 50, TutorNameFormat)
    case 13 => FormatFailure(Get(data, "NUMERO TUTOR"), Digits, 8, 8, TutorNumberFormat)
  }

  function Pieces(data: Record, db: Db, olympiad: int, validEmail: string -> bool): (ps: seq<seq<Failure>>)
    ensures |ps| == 14
    ensures forall j :: 0 <= j < 14 ==> ps[j] == Piece(j, data, db, olympiad, validEmail)
  {
    seq(14, j requires 0 <= j < 14 => Piece(j, data, db, olympiad, validEmail))
  }

  function Flatten(ps: seq<seq<Failure>>): seq<Failure> {
    if ps == [] then [] else Flatten(ps[..|ps| - 1]) + ps[|ps| - 1]
  }

  /** Every failed rule of a row: the messages are accumulated, never cut short. */
  function Failures(data: Record, db: Db, olympiad: int, validEmail: string -> bool): seq<Failure> {
    Flatten(Pieces(data, db, olympiad, validEmail))
  }

  /** The rule a failure belongs to: its position in Pieces. */
  function Rule(f: Failure): nat {
    match f
    case Required(_) => 0
    case FirstNameFormat => 1
    case LastNameFormat => 2
    case CiFormat => 3
    case CiTaken => 3
    case GenderValue => 4
    case DepartmentFormat => 5
    case SchoolFormat => 6
    case PhoneFormat => 7
    case EmailFormat => 8
    case EmailTaken => 8
    case TooManyAreas => 9
    case UnknownArea(_) => 9
    case AreaNotOffered(_) => 9
    case GradeFormat => 10
    case LevelFormat => 11
    case LevelRequired => 11
    case TutorNameFormat => 12
    case TutorNumberFormat => 13
  }

  /** Every failure in `fs` belongs to rule `j`. */
  predicate Ruled(fs: seq<Failure>, j: nat) {
    forall k :: 0 <= k < |fs| ==> Rule(fs[k]) == j
  }

  lemma {:induction false} FlattenEmpty(ps: seq<seq<Failure>>)
    ensures Flatten(ps) == [] <==> forall j :: 0 <= j < |ps| ==> ps[j] == []
  {
    if ps != [] {
      var init := ps[..|ps| - 1];
      FlattenEmpty(init);
      assert forall j :: 0 <= j < |init| ==> init[j] == ps[j];
    }
  }

  /** A failure can only come from the piece of its own rule. */
  lemma {:induction false} InFlatten(ps: seq<seq<Failure>>, x: Failure)
    requires forall j :: 0 <= j < |ps| ==> Ruled(ps[j], j)
    ensures x in Flatten(ps) <==> Rule(x) < |ps| && x in ps[Rule(x)]
  {
    if ps != [] {
      var init := ps[..|ps| - 1];
      assert forall j :: 0 <= j < |init| ==> init[j] == ps[j];
      InFlatten(init, x);
      if x in ps[|ps| - 1] {
        var k :| 0 <= k < |ps[|ps| - 1]| && ps[|ps| - 1][k] == x;
        assert Ruled(ps[|ps| - 1], |ps| - 1);
      }
    }
  }

  /** Membership in the failure list is decided by the one rule the failure belongs to. */
  lemma InFailures(data: Record, db: Db, olympiad: int, validEmail: string -> bool, x: Failure)
    ensures Rule(x) < 14
    ensures x in Failures(data, db, olympiad, validEmail) <==> x in Pieces(data, db, olympiad, validEmail)[Rule(x)]
  {
    InFlatten(Pieces(data, db, olympiad, validEmail), x);
  }

  /** The row passes validateContestantData. */
  predicate Valid(data: Record, db: Db, olympiad: int, validEmail: string -> bool) {
    Failures(data, db, olympiad, validEmail) == []
  }

  // ---------------------------------------------------------------------
  // An independent statement of what an accepted row looks like.

  predicate CiAcceptable(ci: string, db: Db) {
    Matches(ci, Digits, 8, 13) && ci !in db.contestants
  }

  predicate EmailAcceptable(e: string, db: Db, validEmail: string -> bool) {
    IsEmpty(e) || (validEmail(e) && e !in Emails(db))
  }

  predicate AreasAcceptable(cell: string, db: Db, olympiad: int) {
    var names := AreaNames(cell);
    |names| <= 3 && forall k :: 0 <= k < |names| ==> Offered(db.areas, db.offered, olympiad, names[k])
  }

  /** Rule `j` as a positive condition on the cells of a row. Apart from rule 0, which
      asks for the required cells, a rule only constrains a cell that is filled. */
  predicate RuleHolds(j: nat, data: Record, db: Db, olympiad: int, validEmail: string -> bool)
    requires j < 14
  {
    match j
    case 0 => RequiredPresent(data)
    case 1 => IsEmpty(Get(data, "NOMBRE")) || Matches(Get(data, "NOMBRE"), Letters, 2, 50)
    case 2 => IsEmpty(Get(data, "APELLIDO")) || Matches(Get(data, "APELLIDO"), Letters, 2, 50)
    case 3 => IsEmpty(Get(data, "CI")) || CiAcceptable(Get(data, "CI"), db)
    case 4 => IsEmpty(Get(data, "GENERO")) || Upper(Get(data, "GENERO")) in ["F", "M"]
    case 5 => IsEmpty(Get(data, "DEPARTAMENTO")) || Matches(Get(data, "DEPARTAMENTO"), Letters, 2, 50)
    case 6 => IsEmpty(Get(data, "COLEGIO")) || Matches(Get(data, "COLEGIO"), LettersAndDigits, 2, 100)
    case 7 => IsEmpty(Get(data, "CELULAR")) || Matches(Get(data, "CELULAR"), Digits, 8, 8)
    case 8 => EmailAcceptable(Get(data, "E-MAIL"), db, validEmail)
    case 9 => IsEmpty(Get(data, "AREA")) || AreasAcceptable(Get(data, "AREA"), db, olympiad)
    case 10 => IsEmpty(Get(data, "GRADO")) || MatchesSome(Get(data, "GRADO"), Letters)
    case 11 => !IsEmpty(LevelValue(data)) && Matches(LevelValue(data), Letters, 2, 50)
    case 12 => IsEmpty(Get(data, "NOMBRE TUTOR")) || Matches(Get(data, "NOMBRE TUTOR"), Letters, 2, 50)
    case 13 => IsEmpty(Get(data, "NUMERO TUTOR")) || Matches(Get(data, "NUMERO TUTOR"), Digits, 8, 8)
  }

  /** Every rule holds. */
  predicate Acceptable(data: Record, db: Db, olympiad: int, validEmail: string -> bool) {
    forall j :: 0 <= j < 14 ==> RuleHolds(j, data, db, olympiad, validEmail)
  }

  lemma {:induction false} RequiredFailuresNone(data: Record, fields: seq<(string, string)>)
    ensures RequiredFailures(data, fields) == [] <==>
      forall k :: 0 <= k < |fields| ==> !IsEmpty(Get(data, fields[k].0))
  {
    if fields != [] {
      var init := fields[..|fields| - 1];
      RequiredFailuresNone(data, init);
      assert forall k :: 0 <= k < |init| ==> init[k] == fields[k];
    }
  }

  lemma {:induction false} AreaChecksNone(names: seq<string>, db: Db, olympiad: int)
    ensures AreaChecks(names, db, olympiad) == [] <==>
      forall k :: 0 <= k < |names| ==> Offered(db.areas, db.offered, olympiad, names[k])
  {
    if names != [] {
      var init := names[..|names| - 1];
      AreaChecksNone(init, db, olympiad);
      assert forall k :: 0 <= k < |init| ==> init[k] == names[k];
    }
  }

  /** A rule reports nothing exactly when it holds. */
  lemma PieceIff(j: nat, data: Record, db: Db, olympiad: int, validEmail: string -> bool)
    requires j < 14
    ensures Piece(j, data, db, olympiad, validEmail) == [] <==> RuleHolds(j, data, db, olympiad, validEmail)
  {
    if j == 0 {
      RequiredFailuresNone(data, RequiredFields);
    } else if j == 9 {
      AreaChecksNone(AreaNames(Get(data, "AREA")), db, olympiad);
    }
  }

  /** The ten required cells are filled. */
  predicate RequiredPresent(data: Record) {
    forall k :: 0 <= k < |RequiredFields| ==> !IsEmpty(Get(data, RequiredFields[k].0))
  }

  lemma RequiredPresentCells(data: Record)
    requires RequiredPresent(data)
    ensures !IsEmpty(Get(data, "CI")) && !IsEmpty(Get(data, "NOMBRE")) && !IsEmpty(Get(data, "APELLIDO")) &&
      !IsEmpty(Get(data, "GENERO")) && !IsEmpty(Get(data, "DEPARTAMENTO")) && !IsEmpty(Get(data, "COLEGIO")) &&
      !IsEmpty(Get(data, "AREA")) && !IsEmpty(Get(data, "GRADO")) && !IsEmpty(Get(data, "NUMERO TUTOR")) &&
      !IsEmpty(Get(data, "NOMBRE TUTOR"))
  {
    assert RequiredFields[0].0 == "CI" && RequiredFields[1].0 == "NOMBRE" && RequiredFields[2].0 == "APELLIDO";
    assert RequiredFields[3].0 == "GENERO" && RequiredFields[4].0 == "DEPARTAMENTO" && RequiredFields[5].0 == "COLEGIO";
    assert RequiredFields[6].0 == "AREA" && RequiredFields[7].0 == "GRADO" && RequiredFields[8].0 == "NUMERO TUTOR";
    assert RequiredFields[9].0 == "NOMBRE TUTOR";
  }

  /** A row is valid exactly when it meets every rule. */
  lemma ValidIffAcceptable(data: Record, db: Db, olympiad: int, validEmail: string -> bool)
    ensures Valid(data, db, olympiad, validEmail) <==> Acceptable(data, db, olympiad, validEmail)
  {
    var ps := Pieces(data, db, olympiad, validEmail);
    FlattenEmpty(ps);
    forall j | 0 <= j < 14
      ensures ps[j] == [] <==> RuleHolds(j, data, db, olympiad, validEmail)
    {
      PieceIff(j, data, db, olympiad, validEmail);
    }
  }

  /** A valid row names a fresh CI and gets one registration for each of its areas. */
  lemma ValidRowRegistersAll(data: Record, db: Db, olympiad: int, validEmail: string -> bool,
                             grade: Option<string>, level: Option<string>)
    requires Valid(data, db, olympiad, validEmail)
    ensures !IsEmpty(Get(data, "CI")) && Get(data, "CI") !in db.contestants
    ensures var names := AreaNames(Get(data, "AREA"));
      1 <= |names| <= 3 &&
      |RegistrationsFor(db.areas, db.offered, Get(data, "CI"), olympiad, names, grade, level)| == |names|
    ensures GradeOf(data).Some? && LevelOf(data).Some?
  {
    ValidIffAcceptable(data, db, olympiad, validEmail);
    assert RuleHolds(0, data, db, olympiad, validEmail) && RuleHolds(3, data, db, olympiad, validEmail);
    assert RuleHolds(9, data, db, olympiad, validEmail) && RuleHolds(11, data, db, olympiad, validEmail);
    RequiredPresentCells(data);
    RegistrationsForAll(db.areas, db.offered, Get(data, "CI"), olympiad, AreaNames(Get(data, "AREA")), grade, level);
  }

  // ---------------------------------------------------------------------
  // Single rules: each message is reported exactly when its own rule fails,
  // whatever the other cells hold.

  /** 'CI Document must be 8-13 digits' exactly for a filled CI that is not 8 to 13 digits;
      'CI Document already exists' exactly for a well-formed CI that is already stored. */
  lemma CiRule(data: Record, db: Db, olympiad: int, validEmail: string -> bool)
    ensures var ci, fs := Get(data, "CI"), Failures(data, db, olympiad, validEmail);
      (CiFormat in fs <==> !IsEmpty(ci) && !Matches(ci, Digits, 8, 13)) &&
      (CiTaken in fs <==> !IsEmpty(ci) && Matches(ci, Digits, 8, 13) && ci in db.contestants)
  {
    InFailures(data, db, olympiad, validEmail, CiFormat);
    InFailures(data, db, olympiad, validEmail, CiTaken);
  }

  /** 'Gender must be F or M' exactly for a filled gender whose upper case is neither. */
  lemma GenderRule(data: Record, db: Db, olympiad: int, validEmail: string -> bool)
    ensures var g := Get(data, "GENERO");
      GenderValue in Failures(data, db, olympiad, validEmail) <==> !IsEmpty(g) && Upper(g) !in ["F", "M"]
  {
    InFailures(data, db, olympiad, validEmail, GenderValue);
  }

  /** The phone and the tutor number, when filled, must be exactly eight digits. */
  lemma PhoneRule(data: Record, db: Db, olympiad: int, validEmail: string -> bool)
    ensures var p := Get(data, "CELULAR");
      PhoneFormat in Failures(data, db, olympiad, validEmail) <==> !IsEmpty(p) && !Matches(p, Digits, 8, 8)
  {
    InFailures(data, db, olympiad, validEmail, PhoneFormat);
  }

  lemma TutorNumberRule(data: Record, db: Db, olympiad: int, validEmail: string -> bool)
    ensures var t := Get(data, "NUMERO TUTOR");
      TutorNumberFormat in Failures(data, db, olympiad, validEmail) <==> !IsEmpty(t) && !Matches(t, Digits, 8, 8)
  {
    InFailures(data, db, olympiad, validEmail, TutorNumberFormat);
  }

  /** 'Maximum 3 areas allowed' exactly when a filled AREA cell splits into more than three names. */
  lemma AreaCountRule(data: Record, db: Db, olympiad: int, validEmail: string -> bool)
    ensures var a := Get(data, "AREA");
      TooManyAreas in Failures(data, db, olympiad, validEmail) <==> !IsEmpty(a) && |AreaNames(a)| > 3
  {
    InFailures(data, db, olympiad, validEmail, TooManyAreas);
  }

  /** 'Level is required' exactly when the level is empty, and then the row is refused. */
  lemma LevelRule(data: Record, db: Db, olympiad: int, validEmail: string -> bool)
    ensures LevelRequired in Failures(data, db, olympiad, validEmail) <==> IsEmpty(LevelValue(data))
    ensures IsEmpty(LevelValue(data)) ==> !Valid(data, db, olympiad, validEmail)
  {
    InFailures(data, db, olympiad, validEmail, LevelRequired);
  }

  /** Without a newline in the cell, a digit rule is a plain length-and-digits condition. */
  lemma DigitsWithoutNewline(s: string, lo: nat, hi: nat)
    requires '\n' !in s
    ensures Matches(s, Digits, lo, hi) <==> lo <= |s| <= hi && forall i :: 0 <= i < |s| ==> '0' <= s[i] <= '9'
  {
  }

  /** PCRE's `$` lets one trailing newline through: a CI of eight digits and a newline passes. */
  lemma DollarAllowsFinalNewline()
    ensures Matches("12345678\n", Digits, 8, 13)
    ensures !Run("12345678\n", Digits, 8, 13)
  {
    assert !IsDigit("12345678\n"[8]);
    assert "12345678\n"[..8] == "12345678";
  }
}
