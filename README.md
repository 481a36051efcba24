# Clinic registry in Dafny

A model of a small clinic registry (package `clinic`, Java). The clinic keeps
two indices:

- patients keyed by SSN;
- doctors keyed by badge number.

A doctor is also a patient. `addDoctor` offers the same object to both
indices, so a doctor can be looked up as a patient and assigned to a doctor.

Each patient names at most one assigned doctor. Each doctor keeps the list of
its patients. `assignPatientToDoctor` keeps the two sides in agreement: it
takes the patient out of the old doctor's list and appends it to the new
doctor's list.

On top of the indices sit:

- lookups that fail with `NoSuchPatient` or `NoSuchDoctor`;
- a bulk loader that reads `P;first;last;ssn` and
  `M;badge;first;last;ssn;specialization` lines and reports every other line
  with its 1-based number;
- four read-only reports: idle doctors, busy doctors, doctors by number of
  patients, and patients per specialization.

Modules, one per concern:

- `Wrappers`: `Option`.
- `Text`: what the code uses from `String` and `Integer`:
  - `trim`;
  - the regex whitespace class;
  - `parseInt`;
  - int rendering;
  - `%3d`;
  - `compareTo`.
- `Persons`: the immutable `Person` value and its `toString`.
- `Sequences`: `ArrayList.remove`, `Stream.filter`, the stable `Stream.sorted`
  and `Map.putIfAbsent`. Each is stated on sequences or maps.
- `Records`:
  - the `Patient` and `Doctor` classes, whose fields are updated in place;
  - `ALPHABETICAL_ORDER`;
  - `Doctor.toString`.

  A Java `Doctor extends Patient`. Here a `Doctor` owns the `Patient` object
  that stands for it in the patient index and in other doctors' lists. That
  object's `role` makes it render in the doctor format.
- `Queries`: the four stream pipelines. Each is a function over the roster.
  The roster is the doctor index in `TreeMap` order (ascending badge), with
  each doctor's list size.
- `LineFormat`:
  - the line format and the `split("\\s*;\\s*")` semantics, including the
    dropped trailing empty fields;
  - the per-line decision;
  - the count and the reports `loadData` produces;
  - the effect of a sequence of lines on the two indices.
- `Registry`:
  - the link invariant (`WellLinked`), stated on snapshots of the mutable
    fields;
  - the pure specification of a reassignment (`Reassign`), with the lemmas
    that it keeps the invariant;
  - the `Clinic` class. Its methods change the heap and are proved to produce
    exactly those snapshots.

Integers are unbounded where the list sizes and totals are concerned. Badge
numbers that come from text pass through the 32-bit `ParseInt`.

## Model

| member | source | states |
|---|---|---|
| Text.StripStart | clinic/Clinic.java:94 | the result is the longest suffix whose first character is not stripped; every dropped character satisfies the predicate |
| Text.StripEnd | clinic/Clinic.java:94 | the result is the longest prefix whose last character is not stripped; every dropped character satisfies the predicate |
| Text.IsTrimmable | clinic/Clinic.java:94 | definition: the characters String.trim removes, every code point up to U+0020 |
| Text.IsRegexSpace | clinic/Clinic.java:94 | definition: the regex class `\s`, that is space, tab, line feed, vertical tab, form feed and carriage return |
| Text.StrippedAround | clinic/Clinic.java:94 | definition: a slice is what remains when only characters of the class are removed from the two ends |
| Text.StripAround | clinic/Clinic.java:94 | the result is the slice left after removing only characters of the class from both ends, neither of its ends is in the class, and text whose ends are not in the class is returned unchanged |
| Text.Trim | clinic/Clinic.java:94 | String.trim: the result is the slice of the input left after removing only characters up to U+0020 from both ends, and it neither starts nor ends with one; text without such ends is returned unchanged |
| Text.ParseInt | clinic/Clinic.java:100 | succeeds exactly for an optional sign followed by at least one ASCII digit with a value in the 32-bit range; the value is the signed decimal value |
| Text.NatToString | clinic/Doctor.java:62 | definition: the shortest decimal rendering of a natural number; non-empty and all digits |
| Text.NatToStringValue | clinic/Doctor.java:62 | the decimal rendering of a badge reads back as that number |
| Text.IntToString | clinic/Doctor.java:62 | the rendering is non-empty and starts with '-' exactly for negative numbers |
| Text.ParseIntRoundTrip | clinic/Clinic.java:100 | parsing a rendered int gives it back exactly when it is inside the 32-bit range, and fails otherwise |
| Text.PadLeft3 | clinic/Clinic.java:140 | "%3d": width is max(3, digits); the digits end the text; only spaces come before them |
| Text.LexLeReflexive | clinic/Doctor.java:58 | compareTo(a, a) <= 0 |
| Text.LexLeTotal | clinic/Doctor.java:58 | any two strings are ordered one way or the other |
| Text.LexLeAntisymmetric | clinic/Doctor.java:58 | strings ordered both ways are equal |
| Text.LexLeTransitive | clinic/Doctor.java:58 | the string order is transitive |
| Text.LexLe | clinic/Doctor.java:58 | definition: `a.compareTo(b) <= 0`, lexicographic by character code with a proper prefix first |
| Persons.Describe | clinic/Person.java:31-33 | the text starts with the last name and a space, ends with "(ssn)", and has the length of its parts |
| Persons.DescribeInjective | clinic/Person.java:31-33 | two persons whose names contain no space and whose descriptions are equal are the same person |
| Sequences.RemoveFirst | clinic/Doctor.java:50-52 | ArrayList.remove: an absent element changes nothing; a present one shortens the list by one |
| Sequences.RemoveFirstCount | clinic/Doctor.java:50-52 | exactly one occurrence of the element leaves the multiset, or none when there is none |
| Sequences.RemoveFirstShape | clinic/Doctor.java:50-52 | the elements before the first occurrence stay in place and the rest close up: only the first occurrence goes |
| Sequences.FilterMembers | clinic/Clinic.java:118 | Stream.filter: the result is no longer than the input, holds only input elements that satisfy the predicate, holds every input element that does, and is empty exactly when none does |
| Sequences.FilterMultiset | clinic/Clinic.java:118 | every element that satisfies the predicate is kept as often as it occurs, and nothing is added |
| Sequences.FilterConcat | clinic/Clinic.java:118 | filtering a concatenation filters each part in turn, so the kept elements stay in input order |
| Sequences.FilterSingle | clinic/Clinic.java:118 | a single element is kept exactly when it satisfies the predicate |
| Sequences.FilterKeepsOrder | clinic/Clinic.java:117-118 | filtering a sorted sequence gives a sorted sequence |
| Sequences.Insert | clinic/Clinic.java:119 | insertion adds exactly one element to the multiset |
| Sequences.InsertIndex | clinic/Clinic.java:119 | the position is the first element the new one is ordered before or tied with, or the end |
| Sequences.InsertPosition | clinic/Clinic.java:119 | Insert puts the element right at that position, so it lands before every element it ties with |
| Sequences.SortBy | clinic/Clinic.java:119 | the sort is a permutation |
| Sequences.InsertSorted | clinic/Clinic.java:119 | inserting an element that the tie-break puts before every element of a sorted sequence keeps the order and the tie-break |
| Sequences.SortStable | clinic/Clinic.java:119 | Stream.sorted is stable: sorted by the comparator, with comparator-equal elements kept in input order |
| Sequences.SortSorted | clinic/Clinic.java:155-156 | the sort output is ordered by the comparator |
| Sequences.SortedUnique | clinic/Clinic.java:155-156 | two permutations sorted by an antisymmetric order are equal |
| Sequences.SortedWithTiesUnique | clinic/Clinic.java:119 | a stable sort's output is the only permutation with that order and tie-break |
| Sequences.PutIfAbsent | clinic/Clinic.java:24 | the key set gains the key; existing entries keep their values; a new key gets the value |
| Records.DescribeDoctor | clinic/Doctor.java:61-63 | a doctor's text begins with its person's description, with the length of the added badge and specialization |
| Records.DescribeDoctorBadge | clinic/Doctor.java:61-63 | after the person's description come " [", a badge that parses back to the badge, "]: " and the specialization |
| Records.AlphabeticalTotalPreorder | clinic/Doctor.java:57-58 | ALPHABETICAL_ORDER is total and transitive, so it is a valid comparator |
| Records.AlphabeticalTies | clinic/Doctor.java:57-58 | two persons compare equal exactly when both names agree; the SSN plays no part |
| Records.AlphabeticalLe | clinic/Doctor.java:57-58 | definition: ALPHABETICAL_ORDER, by last name, and by first name only when the last names are equal |
| Records.Patient.constructor | clinic/Patient.java:12-14 | a new patient holds the given person and has no assigned doctor |
| Records.Patient.ForDoctor | clinic/Doctor.java:16-17 | the patient side of a new doctor holds the person and also has no assigned doctor |
| Records.Patient.GetAssignedDoctor | clinic/Patient.java:20-22 | empty exactly when the field is null; otherwise it holds that doctor |
| Records.Patient.SetAssignedDoctor | clinic/Patient.java:28-30 | the field becomes the doctor, replacing the previous one; person and role are constants |
| Records.Patient.ToString | clinic/Person.java:31-33 | a plain patient renders as its person; the patient side of a doctor renders in the doctor format |
| Records.Doctor.constructor | clinic/Doctor.java:16-20 | the badge and specialization given; an empty list; a fresh, unassigned patient side with the given person |
| Records.Doctor.AddPatient | clinic/Doctor.java:42-44 | the list becomes the old list with the patient appended |
| Records.Doctor.RemovePatient | clinic/Doctor.java:50-52 | the list loses the first identical element, is unchanged if there is none, and shrinks by at most one |
| Records.Doctor.ToString | clinic/Doctor.java:61-63 | the doctor's text extends its person's description |
| Queries.IdleDoctors | clinic/Clinic.java:116-122 | one Doctor.toString line per doctor of the idle order, in that order |
| Queries.DescribeView | clinic/Clinic.java:120 | definition: Doctor::toString of the viewed doctor |
| Queries.ByName | clinic/Clinic.java:119 | definition: ALPHABETICAL_ORDER on doctor views |
| Queries.IdleOrder | clinic/Clinic.java:117-119 | definition: keep the doctors with no patients, then sort them stably by name |
| Queries.ByNameTotalPreorder | clinic/Doctor.java:57-58 | the name order on doctor views is a valid comparator |
| Queries.IdleOrderSpec | clinic/Clinic.java:117-121 | exactly the doctors with no patients, each once, sorted by name; doctors with equal names keep ascending badge order |
| Queries.IdleOrderLength | clinic/Clinic.java:117-118 | never more idle doctors than doctors |
| Queries.IdleOrderUnique | clinic/Clinic.java:117-121 | any sequence with that content and order is the one idleDoctors builds |
| Queries.BusyOf | clinic/Clinic.java:130-131 | keeps exactly the doctors whose count times the number of doctors exceeds the total; empty exactly when there are none |
| Queries.AboveMeanIsAboveAverage | clinic/Clinic.java:125-131 | the division-free test agrees with "count > the exact mean" |
| Queries.BusyOfOrdered | clinic/Clinic.java:130-131 | the busy doctors stay in ascending badge order |
| Queries.BusyDoctorsExact | clinic/Clinic.java:130-133 | a doctor's badge is listed exactly when its count exceeds the mean |
| Queries.BusyDoctorsAscending | clinic/Clinic.java:130-133 | only badges of the index are listed, strictly ascending, so none twice |
| Queries.BusyEmptyWhenEven | clinic/Clinic.java:124-134 | no doctors, or all counts equal, gives an empty result |
| Queries.BusyNonEmptyWhenUneven | clinic/Clinic.java:124-134 | two different counts make the result non-empty |
| Queries.BusyDoctors | clinic/Clinic.java:130-133 | definition: the badges of the doctors above the mean, in index order |
| Queries.DoctorsByNumPatients | clinic/Clinic.java:136-146 | one "%3d : badge last first" line per doctor of the load order, in that order |
| Queries.ByLoad | clinic/Clinic.java:138-139 | definition: count descending, then last name, then first name |
| Queries.LoadOrder | clinic/Clinic.java:137-139 | definition: all doctors sorted stably by that comparator |
| Queries.DescribeLoad | clinic/Clinic.java:140-144 | definition: `String.format("%3d : %d %s %s", count, badge, last, first)` |
| Queries.ByLoadTotalPreorder | clinic/Clinic.java:138-139 | count descending, then last name, then first name is a valid comparator |
| Queries.LoadOrderSpec | clinic/Clinic.java:137-139 | a permutation of all doctors ranked by that comparator; full ties keep ascending badge order |
| Queries.LoadOrderUnique | clinic/Clinic.java:137-139 | that order is the only permutation with that ranking |
| Queries.TotalOfMember | clinic/Clinic.java:151-153 | an entry is in a well-formed grouping exactly when it holds the positive total of its key |
| Queries.AddLoadSpec | clinic/Clinic.java:151-153 | adding one doctor's count keeps one entry per key, adds to its key only, adds to the grand total, and adds the key |
| Queries.GroupSpec | clinic/Clinic.java:149-153 | the grouping has one positive entry per specialization with patients, holding the sum of its counts; the sums total all list sizes |
| Queries.GroupLength | clinic/Clinic.java:149-156 | never more groups, and never more lines, than doctors |
| Queries.CountPatientsPerSpecialization | clinic/Clinic.java:148-159 | one "%3d - spec" line per entry of the ranked grouping, in that order |
| Queries.Group | clinic/Clinic.java:150-153 | definition: drop doctors with no patients, then sum the counts per specialization |
| Queries.BySpecTotal | clinic/Clinic.java:155-156 | definition: sum descending, then specialization name ascending |
| Queries.SpecializationOrder | clinic/Clinic.java:149-156 | definition: the grouping sorted by that comparator |
| Queries.DescribeSpecTotal | clinic/Clinic.java:157 | definition: `String.format("%3d - %s", total, specialization)` |
| Queries.BySpecTotalOrder | clinic/Clinic.java:155-156 | sum descending, then name ascending, is a total order on entries |
| Queries.GroupingsAgree | clinic/Clinic.java:151-154 | two well-formed groupings with the same totals hold the same entries, whatever the map's iteration order |
| Queries.SpecializationOrderSpec | clinic/Clinic.java:148-156 | exactly the specializations with non-zero totals, each once with its sum, ranked; the sums total all list sizes |
| Queries.SpecializationOrderUnique | clinic/Clinic.java:151-156 | any ranked grouping with these sums is this one, so the result does not depend on the grouping map's order |
| LineFormat.Pieces | clinic/Clinic.java:94 | one piece more than there are ';' characters, and no piece holds a ';' |
| LineFormat.JoinPieces | clinic/Clinic.java:94 | joining the pieces with ';' gives back the text |
| LineFormat.PiecesJoin | clinic/Clinic.java:94 | the pieces of fields joined with ';' are those fields |
| LineFormat.StripPiece | clinic/Clinic.java:94 | the piece loses exactly the regex whitespace next to a separator: the result is the piece with only `\s` removed from the ends a separator touches, no `\s` is left at those ends, and an end no separator touches is kept |
| LineFormat.DropTrailingEmpty | clinic/Clinic.java:94 | a prefix ending in a non-empty field; everything dropped is empty |
| LineFormat.Fields | clinic/Clinic.java:94 | text without ';' is one field; no field holds ';'; at most one field more than there are separators |
| LineFormat.FieldsJoin | clinic/Clinic.java:94 | a line of clean fields, first and last non-empty, is left alone by trim and splits back into those fields |
| LineFormat.ClassifyFieldsCases | clinic/Clinic.java:95-106 | a patient exactly for four fields starting "P"; a doctor exactly for six fields starting "M" with a parseable badge; the values are the fields read; all else offending |
| LineFormat.ClassifyFields | clinic/Clinic.java:95-106 | definition: "P" with four fields registers a patient, "M" with six fields and a parseable badge a doctor, anything else is offending |
| LineFormat.Classify | clinic/Clinic.java:94-106 | definition: trim, split on `\s*;\s*`, then decide on the fields |
| LineFormat.ClassifyJoin | clinic/Clinic.java:94-96 | a line joined from clean fields is decided on exactly those fields |
| LineFormat.ClassifyPatientLine | clinic/Clinic.java:94-98 | a written-out patient line reads back as that patient |
| LineFormat.ClassifyDoctorLine | clinic/Clinic.java:94-102 | a written-out doctor line with a 32-bit badge reads back as that doctor |
| LineFormat.CountedOrReported | clinic/Clinic.java:91-113 | the returned count plus the number of reports is the number of lines |
| LineFormat.AcceptedCount | clinic/Clinic.java:109 | definition: the number of lines that register something, which loadData returns |
| LineFormat.Reports | clinic/Clinic.java:104-108 | definition: one listener call per offending line, with its 1-based number and raw text, in line order |
| LineFormat.ReportsAreOffending | clinic/Clinic.java:105-110 | each report carries a line number from 1 to n, the raw text of that line, and that line is offending |
| LineFormat.ReportsAscending | clinic/Clinic.java:89-92 | report line numbers rise strictly, so no line is reported twice |
| LineFormat.OffendingReported | clinic/Clinic.java:104-110 | every offending line is reported with its number and text |
| LineFormat.RegistrationOf | clinic/Clinic.java:96-100 | an accepted line registers the person it names, as a plain patient exactly for a "P" line |
| LineFormat.Commands | clinic/Clinic.java:91-94 | one decision per line, in line order |
| LineFormat.LoadPatientsKeys | clinic/Clinic.java:96-100 | the patient index gains exactly the SSNs of accepted lines, and no entry is replaced |
| LineFormat.LoadPatientsFirstWins | clinic/Clinic.java:24 | a new SSN gets the record of the first accepted line that names it |
| LineFormat.LoadPatients | clinic/Clinic.java:96-100 | definition: each accepted line puts its person under its SSN when absent |
| LineFormat.LoadDoctorsKeys | clinic/Clinic.java:99-100 | the doctor index gains exactly the badges of accepted doctor lines, and no entry is replaced |
| LineFormat.LoadDoctorsFirstWins | clinic/Clinic.java:39 | a new badge gets the record of the first doctor line that names it |
| LineFormat.LoadDoctors | clinic/Clinic.java:99-100 | definition: each doctor line puts its doctor under its badge when absent |
| Registry.WellLinked | clinic/Clinic.java:57-62 | definition of the invariant: keys are the records' own SSN and badge; a patient's doctor is registered and lists it exactly once; every listed patient is registered and names the listing doctor |
| Registry.Reassign | clinic/Clinic.java:57-62 | the reassignment neither adds nor removes a doctor's list |
| Registry.ListedOnlyByOwnDoctor | clinic/Clinic.java:57-62 | under the link invariant a patient appears in no list but its own doctor's |
| Registry.ListedAtMostOnce | clinic/Clinic.java:57-62 | a patient appears at most once in any list, and exactly once in its doctor's |
| Registry.ReassignCount | clinic/Clinic.java:57-62 | after the reassignment the patient is in the new doctor's list exactly once and in no other list |
| Registry.ReassignKeepsOthers | clinic/Clinic.java:57-62 | every other patient's count in every list is unchanged |
| Registry.ReassignOthersUnchanged | clinic/Clinic.java:57-62 | lists of doctors that are neither the old nor the new doctor are unchanged |
| Registry.ReassignListed | clinic/Clinic.java:57-62 | a list holds nothing new after the reassignment but the patient itself |
| Registry.ReassignLinksListed | clinic/Clinic.java:57-62 | after the reassignment every patient's doctor lists it exactly once |
| Registry.ReassignListsLinked | clinic/Clinic.java:57-62 | after the reassignment every listed patient names the listing doctor |
| Registry.ReassignWellLinked | clinic/Clinic.java:57-62 | the reassignment keeps the link invariant |
| Registry.ReassignInSteps | clinic/Clinic.java:58-62 | the reassignment is: remove from the named doctor's list (if any), then append to the new doctor's list |
| Registry.AddPatientWellLinked | clinic/Clinic.java:23-25 | a new unlisted, unassigned patient keeps the link invariant |
| Registry.AddDoctorWellLinked | clinic/Clinic.java:35-40 | a new doctor with an empty list, named by nobody, keeps the link invariant |
| Registry.LinksAgree | clinic/Clinic.java:69-80 | a doctor lists an SSN exactly when that patient names the doctor |
| Registry.ListedSsnsDistinct | clinic/Clinic.java:78-80 | no SSN is listed twice by one doctor |
| Registry.MinExists | clinic/Clinic.java:21 | a non-empty key set has a least key |
| Registry.Min | clinic/Clinic.java:21 | the least key of the set |
| Registry.SortedKeys | clinic/Clinic.java:21 | TreeMap iteration order: each key once, strictly ascending |
| Registry.RosterOf | clinic/Clinic.java:117 | one view per doctor of the index |
| Registry.RosterOrdered | clinic/Clinic.java:117 | the roster is in ascending badge order |
| Registry.RosterViews | clinic/Clinic.java:117 | each roster entry views the doctor under its badge, with that doctor's list size |
| Registry.RosterCovers | clinic/Clinic.java:117 | every doctor of the index is on the roster |
| Registry.IdleLine | clinic/Clinic.java:116-122 | each idleDoctors line is the description of a registered doctor with an empty list |
| Registry.IdleRosterSound | clinic/Clinic.java:116-122 | every idleDoctors line describes an idle doctor |
| Registry.IdleRosterComplete | clinic/Clinic.java:116-122 | every idle doctor's description is among the lines |
| Registry.BusyRoster | clinic/Clinic.java:124-134 | a badge is listed exactly when its list is longer than the mean; only registered badges; strictly ascending |
| Registry.Clinic.constructor | clinic/Clinic.java:20-21 | both indices start empty and the invariant holds |
| Registry.Clinic.PutPatient | clinic/Clinic.java:24 | putIfAbsent into the patient index; the new SSN's link is null; the lists are untouched; the invariant holds |
| Registry.Clinic.PutDoctor | clinic/Clinic.java:39 | putIfAbsent into the doctor index; the new badge's list is empty; the links are untouched; the invariant holds |
| Registry.Clinic.AddPatient | clinic/Clinic.java:23-25 | first-wins: a taken SSN changes nothing; otherwise a fresh unassigned patient is added; doctors untouched; invariant kept |
| Registry.Clinic.AddDoctor | clinic/Clinic.java:35-40 | two independent putIfAbsents of one fresh doctor; each existing entry survives; when both are new, the two indices share the object |
| Registry.Clinic.GetPatient | clinic/Clinic.java:27-33 | NoSuchPatient exactly for an unknown SSN; otherwise that record's toString |
| Registry.Clinic.GetDoctor | clinic/Clinic.java:42-48 | NoSuchDoctor exactly for an unknown badge; otherwise that doctor's toString |
| Registry.Clinic.GetAssignedDoctor | clinic/Clinic.java:65-72 | NoSuchPatient for an unknown SSN; NoSuchDoctor exactly for an unassigned patient; otherwise the badge of a registered doctor |
| Registry.Clinic.GetAssignedPatients | clinic/Clinic.java:74-81 | NoSuchDoctor exactly for an unknown badge; otherwise the SSNs of the live list, in order |
| Registry.Clinic.AssignedPatientsMatchDoctor | clinic/Clinic.java:65-81 | getAssignedPatients(b) holds an SSN exactly when getAssignedDoctor of it is b, and holds each SSN at most once |
| Registry.Clinic.Detach | clinic/Clinic.java:58 | the patient is removed from its named doctor's list; no other list or link changes |
| Registry.Clinic.Attach | clinic/Clinic.java:61-62 | the patient names the new doctor and is appended to its list; nothing else changes |
| Registry.Clinic.AssignPatientToDoctor | clinic/Clinic.java:50-63 | NoSuchPatient before NoSuchDoctor, both with no change; on success the lists are the reassignment, only the patient's link changes, getAssignedDoctor answers the badge, and the invariant holds |
| Registry.Clinic.Roster | clinic/Clinic.java:117 | one view per doctor |
| Registry.Clinic.IdleDoctors | clinic/Clinic.java:116-122 | every line describes a doctor with an empty list, and every such doctor is described; line i describes the i-th doctor of the idle order, which holds exactly the idle doctors, sorted by name with ties by badge |
| Registry.Clinic.BusyDoctors | clinic/Clinic.java:124-134 | exactly the badges whose list exceeds the mean, registered, strictly ascending |
| Registry.Clinic.DoctorsByNumPatients | clinic/Clinic.java:136-146 | one line per doctor, rendering a permutation of the index ranked by count, then name, with full ties by badge |
| Registry.Clinic.CountPatientsPerSpecialization | clinic/Clinic.java:148-159 | one line per specialization with patients, with its sum, ranked; the sums total all assigned patients |
| Registry.Clinic.Perform | clinic/Clinic.java:95-103 | an accepted line applies its putIfAbsent(s) to the indices; an offending line changes nothing; a patient added has no doctor and a doctor added has an empty list, every other link and list is unchanged; the invariant holds |
| Registry.Clinic.LoadCommand | clinic/Clinic.java:94-106 | one classified line keeps the load's running account: the indices are the first-wins load of the lines so far, no record the load started with is replaced, only records added since are unlinked, and the invariant holds |
| Registry.Clinic.LoadData | clinic/Clinic.java:87-114 | returns the accepted count and the reports for the lines; the indices become the first-wins load of the lines; no entry is replaced; every record added by the load is unlinked (no doctor, empty list) while all earlier links and lists are unchanged; the invariant holds |

## Left out

- Reading lines from a `Reader` through a `BufferedReader` is not modelled, and neither is `IOException`. The lines are a parameter.
- The one-argument `loadData` overload (clinic/Clinic.java:83-85) only passes a null listener. It is not modelled separately.
- The `ErrorListener` callback is replaced by the returned sequence of reports. With a null listener the source reports nothing, and the returned count is the same.
- `AtomicInteger` is just a counter in this single-threaded loop. It is modelled as a plain variable, and concurrency is not modelled.
- Registry.Clinic.LoadData: stated on unbounded integers. The `(int)` cast of the `long` count and the `int` line counter are not modelled as wrapping, because they would wrap only beyond 2^31 lines.
- Registry.Clinic.LoadData: a record the load adds is described by its immutable part (person and kind) and its empty link; the ensures does not say that it is a fresh object, nor that a doctor line's two entries are one object (Registry.Clinic.AddDoctor states both for a single line).
  - That a doctor line whose SSN was free puts the same object into both indices is stated per call by Registry.Clinic.AddDoctor.
  - Across a whole load this sharing is not stated.
- Queries.BusyOf: the double mean is compared by cross-multiplication, `count * N > total`. This is exact. It can differ from the double comparison only once sums exceed 2^53, where the double is rounded.
- Text.ParseInt: accepts ASCII digits only. `Integer.parseInt` also accepts other Unicode decimal digits.
- Text.LexLe: compares strings as sequences of Dafny characters. `String.compareTo` compares UTF-16 code units, so the two differ only for characters outside the Basic Multilingual Plane.
- The `catch (Exception e)` in `loadData` catches the `NumberFormatException` of `parseInt`; that case is modelled as the badge-parse failure branch of the line decision.
- A listener that throws is not modelled: the returned reports assume the listener returns normally. In the source, a `RuntimeException` from the first `offending` call (clinic/Clinic.java:105) is caught, the listener is called a second time for the same line (clinic/Clinic.java:108), and a second throw leaves the stream and ends the load.
- The exception classes `NoSuchPatient` and `NoSuchDoctor` have no logic. They are the two variants of `Registry.Error`.
- `Person`'s getters are the datatype's field selectors, so they need no members of their own.
- `Doctor.getBadgeId` and `getSpecialization` are the class's constants.
- `Doctor.getAssignedPatients` is the live field read in `Lists()`.
- `split` is modelled as a function.
  - A regex match of `\s*;\s*` is taken to swallow the whitespace on both sides of each `;`; no other regex behaviour is modelled.
  - Empty fields at the end are dropped, as `split` with limit 0 does.
  - A line that is all separators yields no fields, and such a line is offending.
