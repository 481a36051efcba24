/**
 * The text format read by loadData: one record per line, fields separated by
 * ';' with optional whitespace around each separator.
 *   P;firstName;lastName;ssn
 *   M;badge;firstName;lastName;ssn;specialization
 * A line is trimmed and split with the regular expression "\s*;\s*"; anything
 * that is not one of the two shapes (including a badge Integer.parseInt
 * rejects) is an offending line, reported with its 1-based line number.
 */
module LineFormat {
  import opened Wrappers
  import opened Text
  import opened Persons
  import opened Sequences
  import opened Records

  /** The text between consecutive ';' characters: the split before any whitespace is removed. */
  function Pieces(s: string): (r: seq<string>)
    ensures |r| >= 1 && |r| == Count(s, ';') + 1
    ensures forall i :: 0 <= i < |r| ==> ';' !in r[i]
  {
    if s == [] then [[]]
    else if s[0] == ';' then [[]] + Pieces(s[1..])
    else
      var p := Pieces(s[1..]);
      [[s[0]] + p[0]] + p[1..]
  }

  function Count(s: string, c: char): nat {
    if s == [] then 0 else (if s[0] == c then 1 else 0) + Count(s[1..], c)
  }

  /** The fields written out again with ';' between them. */
  function Join(fs: seq<string>): (r: string)
    requires |fs| >= 1
  {
    if |fs| == 1 then fs[0] else fs[0] + ";" + Join(fs[1..])
  }

  /** Splitting at every ';' and joining again gives back the text. */
  lemma {:induction false} JoinPieces(s: string)
    ensures Join(Pieces(s)) == s
  {
    if s != [] {
      JoinPieces(s[1..]);
      var p := Pieces(s[1..]);
      if s[0] != ';' {
        if |p| == 1 {
          assert Pieces(s) == [[s[0]] + p[0]];
        } else {
          var r := Pieces(s);
          assert r[1..] == p[1..];
          assert Join(r) == [s[0]] + p[0] + ";" + Join(p[1..]);
          assert Join(p) == p[0] + ";" + Join(p[1..]);
        }
      }
    }
  }

  /** Fields without ';' are exactly what splitting their join gives back. */
  lemma {:induction false} PiecesJoin(fs: seq<string>)
    requires |fs| >= 1 && forall i :: 0 <= i < |fs| ==> ';' !in fs[i]
    ensures Pieces(Join(fs)) == fs
  {
    if |fs| == 1 {
      PiecesNoSeparator(fs[0]);
    } else {
      PiecesJoin(fs[1..]);
      PiecesPrefix(fs[0], Join(fs[1..]));
      assert Join(fs) == fs[0] + (";" + Join(fs[1..]));
    }
  }

  lemma {:induction false} PiecesNoSeparator(s: string)
    requires ';' !in s
    ensures Pieces(s) == [s]
  {
    if s != [] {
      assert ';' !in s[1..];
      PiecesNoSeparator(s[1..]);
      assert s == [s[0]] + s[1..];
    }
  }

  /** A first field x followed by ";" and a rest: the pieces are x, then the pieces of the rest. */
  lemma {:induction false} PiecesPrefix(x: string, rest: string)
    requires ';' !in x
    ensures Pieces(x + (";" + rest)) == [x] + Pieces(rest)
  {
    if x == [] {
      assert x + (";" + rest) == ";" + rest;
      assert (";" + rest)[1..] == rest;
    } else {
      assert ';' !in x[1..];
      PiecesPrefix(x[1..], rest);
      var s := x + (";" + rest);
      assert s[0] == x[0] && s[1..] == x[1..] + (";" + rest);
      assert x == [x[0]] + x[1..];
    }
  }

  /** A separator match of "\s*;\s*" swallows the whitespace on both sides of the ';'. */
  function StripPiece(p: string, left: bool, right: bool): (r: string)
    ensures |r| <= |p|
    ensures exists i, j :: StrippedAround(p, i, j, IsRegexSpace) && r == p[i..j]
    ensures !left ==> r == p[..|r|]
    ensures !right ==> r == p[|p| - |r|..]
    ensures left && r != [] ==> !IsRegexSpace(r[0])
    ensures right && r != [] ==> !IsRegexSpace(r[|r| - 1])
  {
    if left && right then StripAround(p, IsRegexSpace)
    else if left then
      var r := StripStart(p, IsRegexSpace);
      assert StrippedAround(p, |p| - |r|, |p|, IsRegexSpace) && r == p[|p| - |r|..|p|];
      r
    else if right then
      var r := StripEnd(p, IsRegexSpace);
      assert StrippedAround(p, 0, |r|, IsRegexSpace) && r == p[0..|r|];
      r
    else
      assert StrippedAround(p, 0, |p|, IsRegexSpace) && p == p[0..|p|];
      p
  }

  /** Removes the empty strings at the end, as String.split with limit 0 does. */
  function DropTrailingEmpty(fs: seq<string>): (r: seq<string>)
    ensures |r| <= |fs| && r == fs[..|r|]
    ensures r == [] || r[|r| - 1] != []
    ensures forall i :: |r| <= i < |fs| ==> fs[i] == []
  {
    if fs != [] && fs[|fs| - 1] == [] then DropTrailingEmpty(fs[..|fs| - 1]) else fs
  }

  /**
   * String.split("\\s*;\\s*"): with no separator the whole text is the one
   * field; otherwise the pieces between separators lose the whitespace next
   * to each separator, and trailing empty fields are dropped.
   */
  function Fields(s: string): (r: seq<string>)
    ensures ';' !in s ==> r == [s]
    ensures forall i :: 0 <= i < |r| ==> ';' !in r[i]
    ensures |r| <= Count(s, ';') + 1
  {
    if ';' !in s then [s]
    else
      var ps := Pieces(s);
      var n := |ps|;
      DropTrailingEmpty(seq(n, i requires 0 <= i < n => StripPiece(ps[i], i > 0, i < n - 1)))
  }

  /** What a field must look like to survive a round trip: no ';', and no whitespace at either end. */
  predicate CleanField(f: string) {
    ';' !in f && (f == [] || (!IsTrimmable(f[0]) && !IsTrimmable(f[|f| - 1])))
  }

  /** A line made of clean fields, the first and the last non-empty, splits back into those fields. */
  lemma FieldsJoin(fs: seq<string>)
    requires |fs| >= 2 && forall i :: 0 <= i < |fs| ==> CleanField(fs[i])
    requires fs[0] != [] && fs[|fs| - 1] != []
    ensures Trim(Join(fs)) == Join(fs)
    ensures Fields(Trim(Join(fs))) == fs
  {
    var s := Join(fs);
    assert Trim(s) == s by {
      JoinStart(fs);
      JoinEnd(fs);
    }
    assert Pieces(s) == fs by {
      PiecesJoin(fs);
    }
    assert ';' in s by {
      assert Count(s, ';') >= 1;
      CountMember(s, ';');
    }
    FieldsOfCleanPieces(s);
  }

  lemma {:induction false} CountMember(s: string, c: char)
    ensures Count(s, c) > 0 ==> c in s
  {
    if s != [] {
      CountMember(s[1..], c);
    }
  }

  /** When every piece is clean and the last is non-empty, the split is the pieces themselves. */
  lemma FieldsOfCleanPieces(s: string)
    requires ';' in s
    requires forall i :: 0 <= i < |Pieces(s)| ==> CleanField(Pieces(s)[i])
    requires Pieces(s)[|Pieces(s)| - 1] != []
    ensures Fields(s) == Pieces(s)
  {
    var ps := Pieces(s);
    var n := |ps|;
    var stripped := seq(n, i requires 0 <= i < n => StripPiece(ps[i], i > 0, i < n - 1));
    forall i | 0 <= i < n
      ensures stripped[i] == ps[i]
    {
      StripClean(ps[i], i > 0, i < n - 1);
    }
    assert stripped == ps;
  }

  lemma StripClean(f: string, left: bool, right: bool)
    requires CleanField(f)
    ensures StripPiece(f, left, right) == f
  {
  }

  lemma JoinStart(fs: seq<string>)
    requires |fs| >= 1 && fs[0] != []
    ensures Join(fs) != [] && Join(fs)[0] == fs[0][0]
  {
  }

  lemma {:induction false} JoinEnd(fs: seq<string>)
    requires |fs| >= 1 && fs[|fs| - 1] != []
    ensures Join(fs) != [] && Join(fs)[|Join(fs)| - 1] == fs[|fs| - 1][|fs[|fs| - 1]| - 1]
  {
    if |fs| > 1 {
      JoinEnd(fs[1..]);
    }
  }

  /** What one line asks the clinic to do. */
  datatype Command =
    | RegisterPatient(firstName: string, lastName: string, ssn: string)
    | RegisterDoctor(firstName: string, lastName: string, ssn: string, badgeId: int, specialization: string)
    | Offending

  /**
   * The decision loadData's per-line lambda takes on the split fields: a "P"
   * line with four fields registers a patient, an "M" line with six fields and
   * a parseable badge registers a doctor, and every other line is offending.
   */
  function ClassifyFields(parts: seq<string>): Command {
    if |parts| > 0 && parts[0] == "P" && |parts| == 4 then
      RegisterPatient(parts[1], parts[2], parts[3])
    else if |parts| > 0 && parts[0] == "M" && |parts| == 6 then
      match ParseInt(parts[1])
      case Some(badgeId) => RegisterDoctor(parts[2], parts[3], parts[4], badgeId, parts[5])
      case None => Offending
    else Offending
  }

  /**
   * The decision in both directions: which field lists register a patient or
   * a doctor, and that the registered values are exactly the fields read.
   */
  lemma ClassifyFieldsCases(parts: seq<string>)
    ensures var r := ClassifyFields(parts);
      (r.RegisterPatient? <==> |parts| == 4 && parts[0] == "P") &&
      (r.RegisterDoctor? <==> |parts| == 6 && parts[0] == "M" && ParseInt(parts[1]).Some?) &&
      (r.RegisterPatient? ==> parts == ["P", r.firstName, r.lastName, r.ssn]) &&
      (r.RegisterDoctor? ==>
        ParseInt(parts[1]) == Some(r.badgeId) && parts == ["M", parts[1], r.firstName, r.lastName, r.ssn, r.specialization])
  {
  }

  /** The per-line lambda: trim, split, decide. */
  function Classify(line: string): Command {
    ClassifyFields(Fields(Trim(line)))
  }

  /** A patient line laid out with clean fields is read back as that patient. */
  lemma ClassifyPatientLine(firstName: string, lastName: string, ssn: string)
    requires CleanField(firstName) && CleanField(lastName) && CleanField(ssn) && ssn != []
    ensures Classify(Join(["P", firstName, lastName, ssn])) == RegisterPatient(firstName, lastName, ssn)
  {
    ClassifyJoin(["P", firstName, lastName, ssn]);
  }

  /** A doctor line laid out with clean fields and a 32-bit badge is read back as that doctor. */
  lemma ClassifyDoctorLine(badgeId: int, firstName: string, lastName: string, ssn: string, specialization: string)
    requires MinInt32 <= badgeId <= MaxInt32
    requires CleanField(firstName) && CleanField(lastName) && CleanField(ssn)
    requires CleanField(specialization) && specialization != []
    ensures Classify(Join(["M", IntToString(badgeId), firstName, lastName, ssn, specialization]))
      == RegisterDoctor(firstName, lastName, ssn, badgeId, specialization)
  {
    var b := IntToString(badgeId);
    var fs := ["M", b, firstName, lastName, ssn, specialization];
    IntToStringClean(badgeId);
    ClassifyJoin(fs);
    ParseIntRoundTrip(badgeId);
    ClassifyDoctorFields(fs, badgeId);
  }

  /** A six-field "M" line with a parseable badge registers the doctor it names. */
  lemma ClassifyDoctorFields(parts: seq<string>, badgeId: int)
    requires |parts| == 6 && parts[0] == "M" && ParseInt(parts[1]) == Some(badgeId)
    ensures ClassifyFields(parts) == RegisterDoctor(parts[2], parts[3], parts[4], badgeId, parts[5])
  {
  }

  /** A line joined from clean fields is classified on exactly those fields. */
  lemma ClassifyJoin(fs: seq<string>)
    requires |fs| >= 2 && forall i :: 0 <= i < |fs| ==> CleanField(fs[i])
    requires fs[0] != [] && fs[|fs| - 1] != []
    ensures Classify(Join(fs)) == ClassifyFields(fs)
  {
    FieldsJoin(fs);
  }

  lemma IntToStringClean(n: int)
    ensures CleanField(IntToString(n))
  {
    var r := IntToString(n);
    assert forall i :: 0 <= i < |r| ==> r[i] == '-' || IsDigit(r[i]);
    if n < 0 {
      assert r[|r| - 1] == NatToString(-n)[|NatToString(-n)| - 1];
    }
  }

  /** loadData's listener callback offending(lineNumber, line). */
  datatype Report = Report(lineNumber: nat, line: string)

  /** The number of commands that register something: what loadData returns. */
  function AcceptedCount(cmds: seq<Command>): nat {
    if cmds == [] then 0
    else AcceptedCount(cmds[..|cmds| - 1]) + (if cmds[|cmds| - 1].Offending? then 0 else 1)
  }

  /** The calls to the listener for the lines and what each asks for, in order; line numbers count from 1. */
  function Reports(lines: seq<string>, cmds: seq<Command>): seq<Report>
    requires |lines| == |cmds|
  {
    if lines == [] then []
    else
      var n := |lines|;
      Reports(lines[..n - 1], cmds[..n - 1]) + (if cmds[n - 1].Offending? then [Report(n, lines[n - 1])] else [])
  }

  /** Every line is either counted or reported, never both. */
  lemma {:induction false} CountedOrReported(lines: seq<string>, cmds: seq<Command>)
    requires |lines| == |cmds|
    ensures AcceptedCount(cmds) + |Reports(lines, cmds)| == |lines|
  {
    if lines != [] {
      CountedOrReported(lines[..|lines| - 1], cmds[..|cmds| - 1]);
    }
  }

  /** Each report names an offending line by its own text and its 1-based number. */
  lemma {:induction false} ReportsAreOffending(lines: seq<string>, cmds: seq<Command>)
    requires |lines| == |cmds|
    ensures forall k :: 0 <= k < |Reports(lines, cmds)| ==>
      1 <= Reports(lines, cmds)[k].lineNumber <= |lines| &&
      lines[Reports(lines, cmds)[k].lineNumber - 1] == Reports(lines, cmds)[k].line &&
      cmds[Reports(lines, cmds)[k].lineNumber - 1].Offending?
  {
    if lines != [] {
      var n := |lines|;
      var init, cinit := lines[..n - 1], cmds[..n - 1];
      ReportsAreOffending(init, cinit);
      var r, ri := Reports(lines, cmds), Reports(init, cinit);
      forall k | 0 <= k < |r|
        ensures 1 <= r[k].lineNumber <= n && lines[r[k].lineNumber - 1] == r[k].line
        ensures cmds[r[k].lineNumber - 1].Offending?
      {
        if k < |ri| {
          assert r[k] == ri[k];
          assert lines[r[k].lineNumber - 1] == init[r[k].lineNumber - 1];
          assert cmds[r[k].lineNumber - 1] == cinit[r[k].lineNumber - 1];
        }
      }
    }
  }

  /** Reports come in increasing line order, so no line is reported twice. */
  lemma {:induction false} ReportsAscending(lines: seq<string>, cmds: seq<Command>)
    requires |lines| == |cmds|
    ensures forall k :: 0 <= k < |Reports(lines, cmds)| ==> Reports(lines, cmds)[k].lineNumber <= |lines|
    ensures forall k, l :: 0 <= k < l < |Reports(lines, cmds)| ==>
      Reports(lines, cmds)[k].lineNumber < Reports(lines, cmds)[l].lineNumber
  {
    if lines != [] {
      var n := |lines|;
      var init, cinit := lines[..n - 1], cmds[..n - 1];
      ReportsAscending(init, cinit);
      var r, ri := Reports(lines, cmds), Reports(init, cinit);
      assert forall k :: 0 <= k < |ri| ==> r[k] == ri[k];
    }
  }

  /** Every offending line is reported. */
  lemma {:induction false} OffendingReported(lines: seq<string>, cmds: seq<Command>)
    requires |lines| == |cmds|
    ensures forall i :: 0 <= i < |lines| && cmds[i].Offending? ==> Report(i + 1, lines[i]) in Reports(lines, cmds)
  {
    if lines != [] {
      var n := |lines|;
      var init, cinit := lines[..n - 1], cmds[..n - 1];
      OffendingReported(init, cinit);
      var r, ri := Reports(lines, cmds), Reports(init, cinit);
      assert multiset(ri) <= multiset(r) by {
        if cmds[n - 1].Offending? {
          assert r == ri + [Report(n, lines[n - 1])];
        } else {
          assert r == ri;
        }
      }
      forall i | 0 <= i < n && cmds[i].Offending?
        ensures Report(i + 1, lines[i]) in r
      {
        if i < n - 1 {
          assert lines[i] == init[i] && cmds[i] == cinit[i];
          assert Report(i + 1, init[i]) in multiset(ri);
        }
      }
    }
  }

  // ---------------------------------------------------------------- effect on the indices

  /** What an index entry holds, apart from mutable links: the person and what kind of record it is. */
  datatype Registration = Registration(person: Person, role: Role)

  /** The record a register command creates. */
  function RegistrationOf(c: Command): (r: Registration)
    requires !c.Offending?
    ensures r.person == Person(c.firstName, c.lastName, c.ssn)
    ensures c.RegisterPatient? <==> r.role.Plain?
  {
    match c
    case RegisterPatient(firstName, lastName, ssn) => Registration(Person(firstName, lastName, ssn), Plain)
    case RegisterDoctor(firstName, lastName, ssn, badgeId, specialization) =>
      Registration(Person(firstName, lastName, ssn), Physician(badgeId, specialization))
  }

  /** What each line asks for, in order. */
  function Commands(lines: seq<string>): (r: seq<Command>)
    ensures |r| == |lines| && forall i :: 0 <= i < |lines| ==> r[i] == Classify(lines[i])
  {
    seq(|lines|, i requires 0 <= i < |lines| => Classify(lines[i]))
  }

  /** The patient index after the commands: each register command puts its record under its SSN if absent. */
  function LoadPatients(idx: map<string, Registration>, cmds: seq<Command>): map<string, Registration> {
    if cmds == [] then idx
    else
      var prev, c := LoadPatients(idx, cmds[..|cmds| - 1]), cmds[|cmds| - 1];
      if c.Offending? then prev else PutIfAbsent(prev, c.ssn, RegistrationOf(c))
  }

  /** The doctor index after the commands: each doctor command puts its record under its badge if absent. */
  function LoadDoctors(idx: map<int, Registration>, cmds: seq<Command>): map<int, Registration> {
    if cmds == [] then idx
    else
      var prev, c := LoadDoctors(idx, cmds[..|cmds| - 1]), cmds[|cmds| - 1];
      if c.RegisterDoctor? then PutIfAbsent(prev, c.badgeId, RegistrationOf(c)) else prev
  }

  /** Loading adds exactly the SSNs of the accepted lines, and never replaces an entry. */
  lemma {:induction false} LoadPatientsKeys(idx: map<string, Registration>, cmds: seq<Command>, k: string)
    ensures k in LoadPatients(idx, cmds) <==>
      k in idx || exists i :: 0 <= i < |cmds| && !cmds[i].Offending? && cmds[i].ssn == k
    ensures k in idx ==> LoadPatients(idx, cmds)[k] == idx[k]
  {
    if cmds != [] {
      var init := cmds[..|cmds| - 1];
      LoadPatientsKeys(idx, init, k);
      assert forall i :: 0 <= i < |init| ==> cmds[i] == init[i];
    }
  }

  /** A new SSN gets the record of the first accepted line that names it. */
  lemma {:induction false} LoadPatientsFirstWins(idx: map<string, Registration>, cmds: seq<Command>, i: nat)
    requires i < |cmds| && !cmds[i].Offending? && cmds[i].ssn !in idx
    requires forall j :: 0 <= j < i ==> cmds[j].Offending? || cmds[j].ssn != cmds[i].ssn
    ensures cmds[i].ssn in LoadPatients(idx, cmds)
    ensures LoadPatients(idx, cmds)[cmds[i].ssn] == RegistrationOf(cmds[i])
  {
    var init := cmds[..|cmds| - 1];
    assert forall j :: 0 <= j < |init| ==> init[j] == cmds[j];
    if i == |cmds| - 1 {
      LoadPatientsKeys(idx, init, cmds[i].ssn);
    } else {
      LoadPatientsFirstWins(idx, init, i);
    }
  }

  /** Loading adds exactly the badges of the accepted doctor lines, and never replaces an entry. */
  lemma {:induction false} LoadDoctorsKeys(idx: map<int, Registration>, cmds: seq<Command>, k: int)
    ensures k in LoadDoctors(idx, cmds) <==>
      k in idx || exists i :: 0 <= i < |cmds| && cmds[i].RegisterDoctor? && cmds[i].badgeId == k
    ensures k in idx ==> LoadDoctors(idx, cmds)[k] == idx[k]
  {
    if cmds != [] {
      var init := cmds[..|cmds| - 1];
      LoadDoctorsKeys(idx, init, k);
      assert forall i :: 0 <= i < |init| ==> cmds[i] == init[i];
    }
  }

  /** A new badge gets the record of the first doctor line that names it. */
  lemma {:induction false} LoadDoctorsFirstWins(idx: map<int, Registration>, cmds: seq<Command>, i: nat)
    requires i < |cmds| && cmds[i].RegisterDoctor? && cmds[i].badgeId !in idx
    requires forall j :: 0 <= j < i ==> !cmds[j].RegisterDoctor? || cmds[j].badgeId != cmds[i].badgeId
    ensures cmds[i].badgeId in LoadDoctors(idx, cmds)
    ensures LoadDoctors(idx, cmds)[cmds[i].badgeId] == RegistrationOf(cmds[i])
  {
    var init := cmds[..|cmds| - 1];
    assert forall j :: 0 <= j < |init| ==> init[j] == cmds[j];
    if i == |cmds| - 1 {
      LoadDoctorsKeys(idx, init, cmds[i].badgeId);
    } else {
      LoadDoctorsFirstWins(idx, init, i);
    }
  }

  /** Reading one more line: what the count and the reports add for it. */
  lemma CountStep(cmds: seq<Command>, i: nat)
    requires i < |cmds|
    ensures AcceptedCount(cmds[..i + 1]) == AcceptedCount(cmds[..i]) + (if cmds[i].Offending? then 0 else 1)
  {
    assert cmds[..i + 1][..i] == cmds[..i];
  }

  lemma ReportsStep(lines: seq<string>, cmds: seq<Command>, i: nat)
    requires |lines| == |cmds| && i < |cmds|
    ensures Reports(lines[..i + 1], cmds[..i + 1]) ==
      Reports(lines[..i], cmds[..i]) + (if cmds[i].Offending? then [Report(i + 1, lines[i])] else [])
  {
    assert lines[..i + 1][..i] == lines[..i];
    assert cmds[..i + 1][..i] == cmds[..i];
  }

  /** Loading one more command: what it adds to each index. */
  lemma LoadPatientsStep(idx: map<string, Registration>, cmds: seq<Command>, i: nat)
    requires i < |cmds|
    ensures var c, prev := cmds[i], LoadPatients(idx, cmds[..i]);
      LoadPatients(idx, cmds[..i + 1]) == if c.Offending? then prev else PutIfAbsent(prev, c.ssn, RegistrationOf(c))
  {
    assert cmds[..i + 1][..i] == cmds[..i];
  }

  lemma LoadDoctorsStep(idx: map<int, Registration>, cmds: seq<Command>, i: nat)
    requires i < |cmds|
    ensures var c, prev := cmds[i], LoadDoctors(idx, cmds[..i]);
      LoadDoctors(idx, cmds[..i + 1]) == if c.RegisterDoctor? then PutIfAbsent(prev, c.badgeId, RegistrationOf(c)) else prev
  {
    assert cmds[..i + 1][..i] == cmds[..i];
  }
}
