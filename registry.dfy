/**
 * The Clinic facade: a patient index keyed by SSN and a doctor index keyed by
 * badge, both TreeMaps, plus the two-sided link between a patient and the
 * doctor it is assigned to (the patient's field, the doctor's list).
 *
 * The link invariant is stated on snapshots of the mutable fields (the map
 * from badge to patient list and from SSN to assigned doctor), so that the
 * reassignment can be specified and proved correct as a function on values;
 * the class then shows that its heap updates produce exactly those snapshots.
 */
module Registry {
  import opened Wrappers
  import opened Text
  import opened Persons
  import opened Sequences
  import opened Records
  import opened Queries
  import opened LineFormat

  /** NoSuchPatient and NoSuchDoctor, the two checked exceptions. */
  datatype Error = NoSuchPatient | NoSuchDoctor

  datatype Result<T> = Ok(value: T) | Err(error: Error)

  // ---------------------------------------------------------------- the link invariant on values

  /**
   * The indices and the links agree: every key is its record's own SSN or
   * badge; a patient's assigned doctor is registered under its badge and
   * lists the patient exactly once; every listed patient is registered and
   * names that doctor back.
   */
  predicate WellLinked(patients: map<string, Patient>, doctors: map<int, Doctor>,
                       lists: map<int, seq<Patient>>, links: map<string, Doctor?>) {
    lists.Keys == doctors.Keys && links.Keys == patients.Keys &&
    KeyedBySsn(patients) && KeyedByBadge(doctors) &&
    LinksListed(patients, doctors, lists, links) && ListsLinked(patients, doctors, lists, links)
  }

  predicate KeyedBySsn(patients: map<string, Patient>) {
    forall s :: s in patients ==> patients[s].person.ssn == s
  }

  predicate KeyedByBadge(doctors: map<int, Doctor>) {
    forall b :: b in doctors ==> doctors[b].badgeId == b
  }

  /** A patient's doctor is registered under its badge and lists the patient exactly once. */
  predicate LinksListed(patients: map<string, Patient>, doctors: map<int, Doctor>,
                        lists: map<int, seq<Patient>>, links: map<string, Doctor?>)
    requires lists.Keys == doctors.Keys && links.Keys == patients.Keys
  {
    forall s :: s in links && links[s] != null ==>
      links[s].badgeId in doctors && doctors[links[s].badgeId] == links[s] &&
      multiset(lists[links[s].badgeId])[patients[s]] == 1
  }

  /** Every listed patient is registered and names the listing doctor. */
  predicate ListsLinked(patients: map<string, Patient>, doctors: map<int, Doctor>,
                        lists: map<int, seq<Patient>>, links: map<string, Doctor?>)
    requires lists.Keys == doctors.Keys && links.Keys == patients.Keys
  {
    forall b, i :: b in lists && 0 <= i < |lists[b]| ==>
      lists[b][i].person.ssn in patients && patients[lists[b][i].person.ssn] == lists[b][i] &&
      links[lists[b][i].person.ssn] == doctors[b]
  }

  /** The patient lists after assignPatientToDoctor: p leaves every list and is appended to the one under badge. */
  function Reassign(lists: map<int, seq<Patient>>, p: Patient, badge: int): (r: map<int, seq<Patient>>)
    ensures r.Keys == lists.Keys
  {
    map b | b in lists :: if b == badge then RemoveFirst(lists[b], p) + [p] else RemoveFirst(lists[b], p)
  }

  /** A registered patient is listed only by the doctor it is linked to. */
  lemma ListedOnlyByOwnDoctor(patients: map<string, Patient>, doctors: map<int, Doctor>,
                              lists: map<int, seq<Patient>>, links: map<string, Doctor?>, ssn: string, b: int)
    requires WellLinked(patients, doctors, lists, links)
    requires ssn in patients && b in doctors && links[ssn] != doctors[b]
    ensures patients[ssn] !in lists[b]
  {
  }

  /** A registered patient occurs at most once in any list. */
  lemma ListedAtMostOnce(patients: map<string, Patient>, doctors: map<int, Doctor>,
                         lists: map<int, seq<Patient>>, links: map<string, Doctor?>, ssn: string, b: int)
    requires WellLinked(patients, doctors, lists, links)
    requires ssn in patients && b in doctors
    ensures multiset(lists[b])[patients[ssn]] <= 1
    ensures links[ssn] == doctors[b] ==> multiset(lists[b])[patients[ssn]] == 1
  {
    if links[ssn] != doctors[b] {
      ListedOnlyByOwnDoctor(patients, doctors, lists, links, ssn, b);
    }
  }

  /** After the reassignment the patient is listed once by the new doctor and by no other. */
  lemma ReassignCount(patients: map<string, Patient>, doctors: map<int, Doctor>,
                      lists: map<int, seq<Patient>>, links: map<string, Doctor?>, ssn: string, badge: int, b: int)
    requires WellLinked(patients, doctors, lists, links)
    requires ssn in patients && badge in doctors && b in doctors
    ensures multiset(Reassign(lists, patients[ssn], badge)[b])[patients[ssn]] == if b == badge then 1 else 0
  {
    ListedAtMostOnce(patients, doctors, lists, links, ssn, b);
    RemoveFirstCount(lists[b], patients[ssn]);
  }

  /** The reassignment leaves every other object's count in every list as it was. */
  lemma ReassignKeepsOthers(lists: map<int, seq<Patient>>, p: Patient, badge: int, q: Patient, b: int)
    requires q != p && b in lists
    ensures multiset(Reassign(lists, p, badge)[b])[q] == multiset(lists[b])[q]
  {
    var rest := RemoveFirst(lists[b], p);
    RemoveFirstCount(lists[b], p);
    if b == badge {
      assert multiset(rest + [p]) == multiset(rest) + multiset{p};
    }
  }

  /** The reassignment touches only the lists of the old and the new doctor. */
  lemma ReassignOthersUnchanged(patients: map<string, Patient>, doctors: map<int, Doctor>,
                                lists: map<int, seq<Patient>>, links: map<string, Doctor?>, ssn: string, badge: int, b: int)
    requires WellLinked(patients, doctors, lists, links)
    requires ssn in patients && b in doctors && b != badge && links[ssn] != doctors[b]
    ensures Reassign(lists, patients[ssn], badge)[b] == lists[b]
  {
    ListedOnlyByOwnDoctor(patients, doctors, lists, links, ssn, b);
  }

  /** Whatever a list holds after the reassignment is the patient itself or was listed there before. */
  lemma ReassignListed(lists: map<int, seq<Patient>>, p: Patient, badge: int, b: int, i: nat)
    requires b in lists && i < |Reassign(lists, p, badge)[b]|
    ensures Reassign(lists, p, badge)[b][i] == p || Reassign(lists, p, badge)[b][i] in lists[b]
  {
    var q := Reassign(lists, p, badge)[b][i];
    var rest := RemoveFirst(lists[b], p);
    RemoveFirstCount(lists[b], p);
    assert q in multiset(Reassign(lists, p, badge)[b]);
    if q != p {
      assert q in multiset(rest) by {
        if b == badge {
          assert multiset(rest + [p]) == multiset(rest) + multiset{p};
        }
      }
    }
  }

  lemma ReassignLinksListed(patients: map<string, Patient>, doctors: map<int, Doctor>,
                            lists: map<int, seq<Patient>>, links: map<string, Doctor?>, ssn: string, badge: int)
    requires WellLinked(patients, doctors, lists, links)
    requires ssn in patients && badge in doctors
    ensures LinksListed(patients, doctors, Reassign(lists, patients[ssn], badge), links[ssn := doctors[badge]])
  {
    var p := patients[ssn];
    var lists': map<int, seq<Patient>> := Reassign(lists, p, badge);
    var links': map<string, Doctor?> := links[ssn := doctors[badge]];
    forall s | s in links' && links'[s] != null
      ensures links'[s].badgeId in doctors && doctors[links'[s].badgeId] == links'[s]
      ensures multiset(lists'[links'[s].badgeId])[patients[s]] == 1
    {
      if s == ssn {
        ReassignCount(patients, doctors, lists, links, ssn, badge, badge);
      } else {
        assert patients[s].person.ssn == s;
        ReassignKeepsOthers(lists, p, badge, patients[s], links[s].badgeId);
      }
    }
  }

  lemma ReassignListsLinked(patients: map<string, Patient>, doctors: map<int, Doctor>,
                            lists: map<int, seq<Patient>>, links: map<string, Doctor?>, ssn: string, badge: int)
    requires WellLinked(patients, doctors, lists, links)
    requires ssn in patients && badge in doctors
    ensures ListsLinked(patients, doctors, Reassign(lists, patients[ssn], badge), links[ssn := doctors[badge]])
  {
    var p := patients[ssn];
    var lists': map<int, seq<Patient>> := Reassign(lists, p, badge);
    var links': map<string, Doctor?> := links[ssn := doctors[badge]];
    forall b: int, i: int | b in lists' && 0 <= i < |lists'[b]|
      ensures lists'[b][i].person.ssn in patients && patients[lists'[b][i].person.ssn] == lists'[b][i]
      ensures links'[lists'[b][i].person.ssn] == doctors[b]
    {
      var q := lists'[b][i];
      ReassignListed(lists, p, badge, b, i);
      if q == p {
        ReassignCount(patients, doctors, lists, links, ssn, badge, b);
        assert q in multiset(lists'[b]);
      } else {
        var j :| 0 <= j < |lists[b]| && lists[b][j] == q;
        assert q.person.ssn in patients && patients[q.person.ssn] == q;
      }
    }
  }

  /**
   * The reassignment in the two steps the source takes: the patient leaves the
   * list of the doctor it names (the only list holding it), then joins the end
   * of the new doctor's list.
   */
  lemma ReassignInSteps(patients: map<string, Patient>, doctors: map<int, Doctor>,
                        lists: map<int, seq<Patient>>, links: map<string, Doctor?>, ssn: string, badge: int)
    requires WellLinked(patients, doctors, lists, links)
    requires ssn in patients && badge in doctors
    ensures var p := patients[ssn];
      var mid := if links[ssn] == null then lists
        else lists[links[ssn].badgeId := RemoveFirst(lists[links[ssn].badgeId], p)];
      badge in mid && Reassign(lists, p, badge) == mid[badge := mid[badge] + [p]]
  {
    var p := patients[ssn];
    if links[ssn] == null {
      forall b | b in lists
        ensures p !in lists[b]
      {
        ListedOnlyByOwnDoctor(patients, doctors, lists, links, ssn, b);
      }
      ReassignFromUnlisted(lists, p, badge);
    } else {
      var ob := links[ssn].badgeId;
      forall b | b in lists && b != ob
        ensures p !in lists[b]
      {
        ListedOnlyByOwnDoctor(patients, doctors, lists, links, ssn, b);
      }
      ReassignFromListed(lists, p, badge, ob);
    }
  }

  lemma ReassignFromUnlisted(lists: map<int, seq<Patient>>, p: Patient, badge: int)
    requires badge in lists
    requires forall b :: b in lists ==> p !in lists[b]
    ensures Reassign(lists, p, badge) == lists[badge := lists[badge] + [p]]
  {
    var r, target := Reassign(lists, p, badge), lists[badge := lists[badge] + [p]];
    forall b | b in lists
      ensures r[b] == target[b]
    {
    }
  }

  lemma ReassignFromListed(lists: map<int, seq<Patient>>, p: Patient, badge: int, ob: int)
    requires badge in lists && ob in lists
    requires forall b :: b in lists && b != ob ==> p !in lists[b]
    ensures var mid := lists[ob := RemoveFirst(lists[ob], p)];
      Reassign(lists, p, badge) == mid[badge := mid[badge] + [p]]
  {
    var mid := lists[ob := RemoveFirst(lists[ob], p)];
    var r, target := Reassign(lists, p, badge), mid[badge := mid[badge] + [p]];
    forall b | b in lists
      ensures r[b] == target[b]
    {
    }
  }

  /** Reassigning one patient keeps the indices and their links in agreement. */
  lemma ReassignWellLinked(patients: map<string, Patient>, doctors: map<int, Doctor>,
                           lists: map<int, seq<Patient>>, links: map<string, Doctor?>, ssn: string, badge: int)
    requires WellLinked(patients, doctors, lists, links)
    requires ssn in patients && badge in doctors
    ensures WellLinked(patients, doctors, Reassign(lists, patients[ssn], badge), links[ssn := doctors[badge]])
  {
    ReassignLinksListed(patients, doctors, lists, links, ssn, badge);
    ReassignListsLinked(patients, doctors, lists, links, ssn, badge);
  }

  /** Registering a new patient, listed nowhere and linked to no doctor, keeps the agreement. */
  lemma AddPatientWellLinked(patients: map<string, Patient>, doctors: map<int, Doctor>,
                             lists: map<int, seq<Patient>>, links: map<string, Doctor?>, ssn: string, p: Patient)
    requires WellLinked(patients, doctors, lists, links)
    requires ssn !in patients && p.person.ssn == ssn
    requires forall b :: b in lists ==> p !in lists[b]
    ensures WellLinked(patients[ssn := p], doctors, lists, links[ssn := null])
  {
    var patients', links' := patients[ssn := p], links[ssn := null];
    forall b: int, i: int | b in lists && 0 <= i < |lists[b]|
      ensures lists[b][i].person.ssn in patients' && patients'[lists[b][i].person.ssn] == lists[b][i]
      ensures links'[lists[b][i].person.ssn] == doctors[b]
    {
      assert lists[b][i] != p;
    }
  }

  /** Registering a new doctor with an empty list, named by no patient, keeps the agreement. */
  lemma AddDoctorWellLinked(patients: map<string, Patient>, doctors: map<int, Doctor>,
                            lists: map<int, seq<Patient>>, links: map<string, Doctor?>, d: Doctor)
    requires WellLinked(patients, doctors, lists, links)
    requires d.badgeId !in doctors
    requires forall s :: s in links ==> links[s] != d
    ensures WellLinked(patients, doctors[d.badgeId := d], lists[d.badgeId := []], links)
  {
  }

  /** Both sides of the link say the same: a doctor lists an SSN exactly when that patient names the doctor. */
  lemma LinksAgree(patients: map<string, Patient>, doctors: map<int, Doctor>,
                   lists: map<int, seq<Patient>>, links: map<string, Doctor?>, ssn: string, b: int)
    requires WellLinked(patients, doctors, lists, links)
    requires b in doctors
    ensures (exists i :: 0 <= i < |lists[b]| && lists[b][i].person.ssn == ssn) <==> ssn in links && links[ssn] == doctors[b]
  {
    if ssn in links && links[ssn] == doctors[b] {
      assert patients[ssn] in multiset(lists[b]);
      var i :| 0 <= i < |lists[b]| && lists[b][i] == patients[ssn];
      assert lists[b][i].person.ssn == ssn;
    }
  }

  /** No SSN is listed twice by a doctor. */
  lemma ListedSsnsDistinct(patients: map<string, Patient>, doctors: map<int, Doctor>,
                           lists: map<int, seq<Patient>>, links: map<string, Doctor?>, b: int, i: nat, j: nat)
    requires WellLinked(patients, doctors, lists, links)
    requires b in doctors && i < j < |lists[b]|
    ensures lists[b][i].person.ssn != lists[b][j].person.ssn
  {
    var l := lists[b];
    assert multiset(l)[l[i]] >= 1 + multiset(l[i + 1..])[l[i]] by {
      assert l == l[..i] + [l[i]] + l[i + 1..];
    }
    assert l[j] in l[i + 1..] by {
      assert l[i + 1..][j - i - 1] == l[j];
    }
    ListedAtMostOnce(patients, doctors, lists, links, l[i].person.ssn, b);
  }

  // ---------------------------------------------------------------- the TreeMap key order

  /** A non-empty set has an element. */
  lemma HasElement(s: set<int>)
    requires s != {}
    ensures exists x :: x in s
  {
    if forall x :: x !in s {
      assert false;
    }
  }

  lemma {:induction false} MinExists(s: set<int>)
    requires s != {}
    ensures exists m :: m in s && forall x :: x in s ==> m <= x
  {
    HasElement(s);
    var e :| e in s;
    if s == {e} {
      assert forall x :: x in s ==> e <= x;
    } else {
      var rest := s - {e};
      MinExists(rest);
      var m' :| m' in rest && forall x :: x in rest ==> m' <= x;
      var m := if e < m' then e else m';
      forall x | x in s
        ensures m <= x
      {
        if x != e {
          assert x in rest;
        }
      }
      assert m in s;
    }
  }

  /** The least key. */
  function Min(s: set<int>): (m: int)
    requires s != {}
    ensures m in s && forall x :: x in s ==> m <= x
  {
    MinExists(s);
    var m :| m in s && forall x :: x in s ==> m <= x;
    m
  }

  /** The keys of a TreeMap<Integer, _> in iteration order. */
  function SortedKeys(s: set<int>): (r: seq<int>)
    ensures |r| == |s|
    ensures forall x :: x in s <==> x in r
    ensures forall i, j :: 0 <= i < j < |r| ==> r[i] < r[j]
    decreases |s|
  {
    if s == {} then []
    else
      var m := Min(s);
      var rest := SortedKeys(s - {m});
      assert forall j :: 0 <= j < |rest| ==> m < rest[j];
      [m] + rest
  }

  /** What a query sees of a doctor. */
  function ViewOf(d: Doctor, load: nat): DoctorView {
    DoctorView(d.asPatient.person, d.badgeId, d.specialization, load)
  }

  /** The doctor index in iteration order (ascending badge), each doctor with the size of its list. */
  function RosterOf(doctors: map<int, Doctor>, lists: map<int, seq<Patient>>): (r: seq<DoctorView>)
    requires lists.Keys == doctors.Keys
    ensures |r| == |doctors|
  {
    var keys := SortedKeys(doctors.Keys);
    seq(|keys|, i requires 0 <= i < |keys| => ViewOf(doctors[keys[i]], |lists[keys[i]]|))
  }

  /** When every doctor sits under its own badge, the roster is in ascending badge order. */
  lemma RosterOrdered(doctors: map<int, Doctor>, lists: map<int, seq<Patient>>)
    requires lists.Keys == doctors.Keys && KeyedByBadge(doctors)
    ensures SortedBy(RosterOf(doctors, lists), ByBadge)
  {
    var keys, r := SortedKeys(doctors.Keys), RosterOf(doctors, lists);
    assert forall i :: 0 <= i < |keys| ==> keys[i] in doctors.Keys;
    assert forall i :: 0 <= i < |r| ==> r[i].badgeId == keys[i];
  }

  /** Each roster entry is the view of the doctor under its badge, with that doctor's list size. */
  lemma RosterViews(doctors: map<int, Doctor>, lists: map<int, seq<Patient>>, i: nat)
    requires lists.Keys == doctors.Keys && KeyedByBadge(doctors)
    requires i < |RosterOf(doctors, lists)|
    ensures RosterOf(doctors, lists)[i].badgeId in doctors
    ensures RosterOf(doctors, lists)[i] == ViewOf(doctors[RosterOf(doctors, lists)[i].badgeId], |lists[RosterOf(doctors, lists)[i].badgeId]|)
  {
    var keys, r := SortedKeys(doctors.Keys), RosterOf(doctors, lists);
    assert keys[i] in doctors.Keys;
    assert r[i] == ViewOf(doctors[keys[i]], |lists[keys[i]]|);
  }

  /** Every doctor of the index is on the roster. */
  lemma RosterCovers(doctors: map<int, Doctor>, lists: map<int, seq<Patient>>, b: int) returns (i: nat)
    requires lists.Keys == doctors.Keys && KeyedByBadge(doctors) && b in doctors
    ensures i < |RosterOf(doctors, lists)| && RosterOf(doctors, lists)[i].badgeId == b
  {
    var keys, r := SortedKeys(doctors.Keys), RosterOf(doctors, lists);
    assert b in keys;
    i :| 0 <= i < |keys| && keys[i] == b;
    assert r[i] == ViewOf(doctors[keys[i]], |lists[keys[i]]|);
  }

  /** The doctor a line of idleDoctors describes. */
  lemma IdleLine(doctors: map<int, Doctor>, lists: map<int, seq<Patient>>, i: nat) returns (b: int)
    requires lists.Keys == doctors.Keys && KeyedByBadge(doctors)
    requires i < |IdleDoctors(RosterOf(doctors, lists))|
    ensures b in doctors && lists[b] == [] && IdleDoctors(RosterOf(doctors, lists))[i] == doctors[b].ToString()
  {
    var roster := RosterOf(doctors, lists);
    var order := IdleOrder(roster);
    RosterOrdered(doctors, lists);
    IdleOrderSpec(roster);
    var v := order[i];
    assert v in order;
    var j :| 0 <= j < |roster| && roster[j] == v;
    RosterViews(doctors, lists, j);
    b := v.badgeId;
  }

  /** The line is the description of some doctor of the index whose list is empty. */
  ghost predicate DescribesIdle(doctors: map<int, Doctor>, lists: map<int, seq<Patient>>, line: string) {
    exists b :: b in doctors && b in lists && lists[b] == [] && line == doctors[b].ToString()
  }

  /** Every line of idleDoctors describes a doctor with an empty list. */
  lemma IdleRosterSound(doctors: map<int, Doctor>, lists: map<int, seq<Patient>>)
    requires lists.Keys == doctors.Keys && KeyedByBadge(doctors)
    ensures forall i :: 0 <= i < |IdleDoctors(RosterOf(doctors, lists))| ==>
      DescribesIdle(doctors, lists, IdleDoctors(RosterOf(doctors, lists))[i])
  {
    forall i | 0 <= i < |IdleDoctors(RosterOf(doctors, lists))|
      ensures DescribesIdle(doctors, lists, IdleDoctors(RosterOf(doctors, lists))[i])
    {
      var b := IdleLine(doctors, lists, i);
    }
  }

  /** Every doctor with an empty list is described by a line of idleDoctors. */
  lemma IdleRosterComplete(doctors: map<int, Doctor>, lists: map<int, seq<Patient>>)
    requires lists.Keys == doctors.Keys && KeyedByBadge(doctors)
    ensures forall b :: b in doctors && lists[b] == [] ==> doctors[b].ToString() in IdleDoctors(RosterOf(doctors, lists))
  {
    forall b | b in doctors && lists[b] == []
      ensures doctors[b].ToString() in IdleDoctors(RosterOf(doctors, lists))
    {
      IdleListed(doctors, lists, b);
    }
  }

  lemma IdleListed(doctors: map<int, Doctor>, lists: map<int, seq<Patient>>, b: int)
    requires lists.Keys == doctors.Keys && KeyedByBadge(doctors)
    requires b in doctors && lists[b] == []
    ensures doctors[b].ToString() in IdleDoctors(RosterOf(doctors, lists))
  {
    var roster := RosterOf(doctors, lists);
    var order, r := IdleOrder(roster), IdleDoctors(roster);
    RosterOrdered(doctors, lists);
    IdleOrderSpec(roster);
    var j := RosterCovers(doctors, lists, b);
    RosterViews(doctors, lists, j);
    assert roster[j] in order;
    var k :| 0 <= k < |order| && order[k] == roster[j];
    assert r[k] == doctors[b].ToString();
  }

  /** busyDoctors names each doctor whose list is longer than the mean, and only those, in ascending badge order. */
  lemma BusyRoster(doctors: map<int, Doctor>, lists: map<int, seq<Patient>>)
    requires lists.Keys == doctors.Keys && KeyedByBadge(doctors)
    ensures forall b :: b in doctors ==>
      (b in BusyDoctors(RosterOf(doctors, lists)) <==> |lists[b]| * |doctors| > TotalLoad(RosterOf(doctors, lists)))
    ensures forall k :: 0 <= k < |BusyDoctors(RosterOf(doctors, lists))| ==> BusyDoctors(RosterOf(doctors, lists))[k] in doctors
    ensures forall k, l :: 0 <= k < l < |BusyDoctors(RosterOf(doctors, lists))| ==>
      BusyDoctors(RosterOf(doctors, lists))[k] < BusyDoctors(RosterOf(doctors, lists))[l]
  {
    var roster := RosterOf(doctors, lists);
    var r := BusyDoctors(roster);
    RosterOrdered(doctors, lists);
    BusyDoctorsAscending(roster);
    forall b | b in doctors
      ensures b in r <==> |lists[b]| * |doctors| > TotalLoad(roster)
    {
      var j := RosterCovers(doctors, lists, b);
      RosterViews(doctors, lists, j);
      BusyDoctorsExact(roster, j);
    }
    forall k | 0 <= k < |r|
      ensures r[k] in doctors
    {
      var j :| 0 <= j < |roster| && roster[j].badgeId == r[k];
      RosterViews(doctors, lists, j);
    }
  }

  /** The immutable part of a patient index: each record's person and kind. */
  function EntriesOf(patients: map<string, Patient>): (r: map<string, Registration>)
    ensures r.Keys == patients.Keys
  {
    map s | s in patients :: Registration(patients[s].person, patients[s].role)
  }

  /** The immutable part of a doctor index. */
  function DoctorEntriesOf(doctors: map<int, Doctor>): (r: map<int, Registration>)
    ensures r.Keys == doctors.Keys
  {
    map b | b in doctors :: Registration(doctors[b].asPatient.person, Physician(doctors[b].badgeId, doctors[b].specialization))
  }

  lemma EntriesOfPut(patients: map<string, Patient>, ssn: string, p: Patient)
    ensures EntriesOf(PutIfAbsent(patients, ssn, p)) == PutIfAbsent(EntriesOf(patients), ssn, Registration(p.person, p.role))
  {
  }

  lemma DoctorEntriesOfPut(doctors: map<int, Doctor>, badge: int, d: Doctor)
    ensures DoctorEntriesOf(PutIfAbsent(doctors, badge, d)) ==
      PutIfAbsent(DoctorEntriesOf(doctors), badge, Registration(d.asPatient.person, Physician(d.badgeId, d.specialization)))
  {
  }

  /** What a load starts from: the index, its records and their links before the first line. */
  datatype LoadStart = LoadStart(
    patientEntries: map<string, Registration>, doctorEntries: map<int, Registration>,
    patients: map<string, Patient>, doctors: map<int, Doctor>,
    links: map<string, Doctor?>, lists: map<int, seq<Patient>>)

  class Clinic {
    var patients: map<string, Patient>
    var doctors: map<int, Doctor>

    /** Each doctor's patient list, by badge. */
    function Lists(): (r: map<int, seq<Patient>>)
      reads this, doctors.Values
      ensures r.Keys == doctors.Keys
    {
      map b | b in doctors :: doctors[b].assignedPatients
    }

    /** Each patient's assigned doctor, by SSN. */
    function Links(): (r: map<string, Doctor?>)
      reads this, patients.Values
      ensures r.Keys == patients.Keys
    {
      map s | s in patients :: patients[s].assignedDoctor
    }

    ghost predicate Valid()
      reads this, patients.Values, doctors.Values
    {
      WellLinked(patients, doctors, Lists(), Links())
    }

    /** The immutable part of the patient index. */
    function PatientEntries(): (r: map<string, Registration>)
      reads this
      ensures r.Keys == patients.Keys
    {
      EntriesOf(patients)
    }

    /** The immutable part of the doctor index. */
    function DoctorEntries(): (r: map<int, Registration>)
      reads this
      ensures r.Keys == doctors.Keys
    {
      DoctorEntriesOf(doctors)
    }

    /** An empty clinic. */
    constructor ()
      ensures Valid()
      ensures patients == map[] && doctors == map[]
    {
      patients := map[];
      doctors := map[];
    }

    /** patients.putIfAbsent for a record that no doctor lists or is named by. */
    method PutPatient(ssn: string, p: Patient)
      requires Valid()
      requires p.person.ssn == ssn && p.assignedDoctor == null
      requires forall b :: b in doctors ==> p !in doctors[b].assignedPatients
      modifies this
      ensures Valid()
      ensures patients == PutIfAbsent(old(patients), ssn, p) && doctors == old(doctors)
      ensures Lists() == old(Lists())
      ensures Links() == if ssn in old(patients) then old(Links()) else old(Links())[ssn := null]
    {
      if ssn !in patients {
        ghost var lists, links := Lists(), Links();
        AddPatientWellLinked(patients, doctors, lists, links, ssn, p);
        patients := patients[ssn := p];
        assert Lists() == lists;
        assert Links() == links[ssn := null];
      }
    }

    /** doctors.putIfAbsent for a doctor with an empty list that no patient names. */
    method PutDoctor(d: Doctor)
      requires Valid()
      requires d.assignedPatients == []
      requires forall s :: s in patients ==> patients[s].assignedDoctor != d
      modifies this
      ensures Valid()
      ensures doctors == PutIfAbsent(old(doctors), d.badgeId, d) && patients == old(patients)
      ensures Lists() == if d.badgeId in old(doctors) then old(Lists()) else old(Lists())[d.badgeId := []]
      ensures Links() == old(Links())
    {
      if d.badgeId !in doctors {
        ghost var lists, links := Lists(), Links();
        AddDoctorWellLinked(patients, doctors, lists, links, d);
        doctors := doctors[d.badgeId := d];
        assert Links() == links;
        assert Lists() == lists[d.badgeId := []];
      }
    }

    /** addPatient: registers a new plain patient unless the SSN is already taken. */
    method AddPatient(firstName: string, lastName: string, ssn: string)
      requires Valid()
      modifies this
      ensures Valid()
      ensures doctors == old(doctors)
      ensures PatientEntries() == PutIfAbsent(old(PatientEntries()), ssn, Registration(Person(firstName, lastName, ssn), Plain))
      ensures Extends(patients, old(patients))
      ensures ssn !in old(patients) ==> fresh(patients[ssn]) && patients[ssn].assignedDoctor == null
      ensures Lists() == old(Lists())
      ensures Links() == if ssn in old(patients) then old(Links()) else old(Links())[ssn := null]
    {
      ghost var lists, links := Lists(), Links();
      var patient := new Patient(firstName, lastName, ssn);
      assert Lists() == lists;
      assert Links() == links;
      EntriesOfPut(patients, ssn, patient);
      PutPatient(ssn, patient);
    }

    /**
     * addDoctor: builds the doctor and offers the same object to both
     * indices; each keeps what it already holds under that key.
     */
    method AddDoctor(firstName: string, lastName: string, ssn: string, badgeId: int, specialization: string)
      requires Valid()
      modifies this
      ensures Valid()
      ensures PatientEntries() ==
        PutIfAbsent(old(PatientEntries()), ssn, Registration(Person(firstName, lastName, ssn), Physician(badgeId, specialization)))
      ensures DoctorEntries() ==
        PutIfAbsent(old(DoctorEntries()), badgeId, Registration(Person(firstName, lastName, ssn), Physician(badgeId, specialization)))
      ensures Extends(patients, old(patients)) && Extends(doctors, old(doctors))
      ensures ssn !in old(patients) && badgeId !in old(doctors) ==> patients[ssn] == doctors[badgeId].asPatient
      ensures badgeId !in old(doctors) ==> fresh(doctors[badgeId]) && doctors[badgeId].assignedPatients == []
      ensures Links() == if ssn in old(patients) then old(Links()) else old(Links())[ssn := null]
      ensures Lists() == if badgeId in old(doctors) then old(Lists()) else old(Lists())[badgeId := []]
    {
      ghost var lists, links := Lists(), Links();
      var doctor := new Doctor(firstName, lastName, ssn, badgeId, specialization);
      assert Lists() == lists;
      assert Links() == links;
      assert forall s :: s in links ==> links[s] != doctor;
      EntriesOfPut(patients, ssn, doctor.asPatient);
      PutPatient(ssn, doctor.asPatient);
      assert forall s :: s in patients ==> Links()[s] != doctor;
      DoctorEntriesOfPut(doctors, badgeId, doctor);
      PutDoctor(doctor);
    }

    /** getPatient: the patient's description, or NoSuchPatient. */
    function GetPatient(ssn: string): (r: Result<string>)
      reads this
      ensures r.Err? <==> ssn !in patients
      ensures r.Err? ==> r.error == NoSuchPatient
      ensures r.Ok? ==> r.value == patients[ssn].ToString()
    {
      if ssn in patients then Ok(patients[ssn].ToString()) else Err(NoSuchPatient)
    }

    /** getDoctor: the doctor's description, or NoSuchDoctor. */
    function GetDoctor(badgeId: int): (r: Result<string>)
      reads this
      ensures r.Err? <==> badgeId !in doctors
      ensures r.Err? ==> r.error == NoSuchDoctor
      ensures r.Ok? ==> r.value == doctors[badgeId].ToString()
    {
      if badgeId in doctors then Ok(doctors[badgeId].ToString()) else Err(NoSuchDoctor)
    }

    /** getAssignedDoctor: the badge of the patient's doctor; NoSuchPatient before NoSuchDoctor. */
    function GetAssignedDoctor(ssn: string): (r: Result<int>)
      reads this, patients.Values
      ensures ssn !in patients <==> r == Err(NoSuchPatient)
      ensures ssn in patients ==> (r == Err(NoSuchDoctor) <==> Links()[ssn] == null)
      ensures r.Ok? ==> ssn in patients && Links()[ssn] != null && r.value == Links()[ssn].badgeId
      ensures Valid() && r.Ok? ==> r.value in doctors && doctors[r.value] == Links()[ssn]
    {
      if ssn !in patients then Err(NoSuchPatient)
      else match patients[ssn].GetAssignedDoctor()
        case None => Err(NoSuchDoctor)
        case Some(doctor) => Ok(doctor.badgeId)
    }

    /** getAssignedPatients: the SSNs on the doctor's list, in list order, or NoSuchDoctor. */
    function GetAssignedPatients(badgeId: int): (r: Result<seq<string>>)
      reads this, doctors.Values
      ensures r.Err? <==> badgeId !in doctors
      ensures r.Err? ==> r.error == NoSuchDoctor
      ensures r.Ok? ==> |r.value| == |Lists()[badgeId]|
      ensures r.Ok? ==> forall i :: 0 <= i < |r.value| ==> r.value[i] == Lists()[badgeId][i].person.ssn
    {
      if badgeId !in doctors then Err(NoSuchDoctor)
      else
        var list := doctors[badgeId].assignedPatients;
        Ok(seq(|list|, i requires 0 <= i < |list| => list[i].person.ssn))
    }

    /**
     * getAssignedPatients and getAssignedDoctor answer the same question from
     * the two ends: the doctor lists the SSN exactly when the patient names
     * that doctor, and lists it once.
     */
    lemma AssignedPatientsMatchDoctor(badgeId: int, ssn: string)
      requires Valid() && badgeId in doctors
      ensures ssn in GetAssignedPatients(badgeId).value <==> GetAssignedDoctor(ssn) == Ok(badgeId)
      ensures forall i, j :: 0 <= i < j < |GetAssignedPatients(badgeId).value| ==>
        GetAssignedPatients(badgeId).value[i] != GetAssignedPatients(badgeId).value[j]
    {
      var r := GetAssignedPatients(badgeId).value;
      LinksAgree(patients, doctors, Lists(), Links(), ssn, badgeId);
      if ssn in r {
        var i :| 0 <= i < |r| && r[i] == ssn;
        assert Lists()[badgeId][i].person.ssn == ssn;
      }
      forall i, j | 0 <= i < j < |r|
        ensures r[i] != r[j]
      {
        ListedSsnsDistinct(patients, doctors, Lists(), Links(), badgeId, i, j);
      }
    }

    /** The first half of a reassignment: the patient leaves the list of the doctor it names, if any. */
    method Detach(ssn: string)
      requires ssn in patients && KeyedByBadge(doctors)
      requires patients[ssn].assignedDoctor != null ==>
        patients[ssn].assignedDoctor.badgeId in doctors && doctors[patients[ssn].assignedDoctor.badgeId] == patients[ssn].assignedDoctor
      modifies doctors.Values
      ensures Links() == old(Links())
      ensures old(Links())[ssn] == null ==> Lists() == old(Lists())
      ensures old(Links())[ssn] != null ==> var ob := old(Links())[ssn].badgeId;
        ob in old(Lists()) && Lists() == old(Lists())[ob := RemoveFirst(old(Lists())[ob], patients[ssn])]
    {
      var patient := patients[ssn];
      ghost var lists := Lists();
      match patient.GetAssignedDoctor() {
        case Some(oldDoctor) =>
          ghost var ob := oldDoctor.badgeId;
          assert ob in doctors && doctors[ob] == oldDoctor;
          oldDoctor.RemovePatient(patient);
          forall b | b in doctors
            ensures doctors[b].assignedPatients == if b == ob then RemoveFirst(lists[ob], patient) else lists[b]
          {
            assert doctors[b].badgeId == b;
          }
          assert Lists() == lists[ob := RemoveFirst(lists[ob], patient)];
        case None =>
      }
    }

    /** The second half: the patient names the new doctor and joins the end of its list. */
    method Attach(ssn: string, badgeId: int)
      requires ssn in patients && badgeId in doctors
      requires KeyedBySsn(patients) && KeyedByBadge(doctors)
      modifies patients[ssn], doctors[badgeId]
      ensures Links() == old(Links())[ssn := doctors[badgeId]]
      ensures Lists() == old(Lists())[badgeId := old(Lists())[badgeId] + [patients[ssn]]]
    {
      var patient, doctor := patients[ssn], doctors[badgeId];
      ghost var lists, links := Lists(), Links();
      patient.SetAssignedDoctor(doctor);
      forall s | s in patients
        ensures patients[s].assignedDoctor == if s == ssn then doctor else links[s]
      {
        assert patients[s].person.ssn == s;
      }
      assert Links() == links[ssn := doctor];
      assert Lists() == lists;
      ghost var linked := Links();
      doctor.AddPatient(patient);
      assert Links() == linked;
      forall b | b in doctors
        ensures doctors[b].assignedPatients == if b == badgeId then lists[badgeId] + [patient] else lists[b]
      {
        assert doctors[b].badgeId == b;
      }
      assert Lists() == lists[badgeId := lists[badgeId] + [patient]];
    }

    /**
     * assignPatientToDoctor: NoSuchPatient, then NoSuchDoctor, change
     * nothing; otherwise the patient leaves the list of its previous doctor
     * (if any), names the new doctor, and is appended to the new doctor's list.
     */
    method AssignPatientToDoctor(ssn: string, badgeId: int) returns (r: Result<()>)
      requires Valid()
      modifies patients.Values, doctors.Values
      ensures Valid()
      ensures ssn !in patients ==> r == Err(NoSuchPatient)
      ensures ssn in patients && badgeId !in doctors ==> r == Err(NoSuchDoctor)
      ensures ssn in patients && badgeId in doctors ==> r == Ok(())
      ensures r.Err? ==> Lists() == old(Lists()) && Links() == old(Links())
      ensures r.Ok? ==> Lists() == Reassign(old(Lists()), patients[ssn], badgeId)
      ensures r.Ok? ==> Links() == old(Links())[ssn := doctors[badgeId]]
      ensures r.Ok? ==> GetAssignedDoctor(ssn) == Ok(badgeId)
    {
      if ssn !in patients {
        return Err(NoSuchPatient);
      }
      if badgeId !in doctors {
        return Err(NoSuchDoctor);
      }
      ghost var lists, links := Lists(), Links();
      assert links[ssn] == patients[ssn].assignedDoctor;
      Detach(ssn);
      Attach(ssn, badgeId);
      ReassignInSteps(patients, doctors, lists, links, ssn, badgeId);
      ReassignWellLinked(patients, doctors, lists, links, ssn, badgeId);
      return Ok(());
    }

    /** The doctor index in iteration order (ascending badge), as the queries see it. */
    function Roster(): (r: seq<DoctorView>)
      reads this, doctors.Values
      ensures |r| == |doctors|
    {
      RosterOf(doctors, Lists())
    }

    /** idleDoctors: the descriptions of exactly the doctors with no patients. */
    function IdleDoctors(): (r: seq<string>)
      requires Valid()
      reads this, patients.Values, doctors.Values
      ensures |r| <= |doctors|
      ensures forall i :: 0 <= i < |r| ==> DescribesIdle(doctors, Lists(), r[i])
      ensures forall b :: b in doctors && Lists()[b] == [] ==> doctors[b].ToString() in r
      ensures |r| == |IdleOrder(Roster())| && forall i :: 0 <= i < |r| ==> r[i] == DescribeView(IdleOrder(Roster())[i])
      ensures multiset(IdleOrder(Roster())) == multiset(Filter(Roster(), IsIdle))
      ensures SortedWithTies(IdleOrder(Roster()), ByName, ByBadge)
    {
      RosterOrdered(doctors, Lists());
      IdleOrderSpec(Roster());
      IdleRosterSound(doctors, Lists());
      IdleRosterComplete(doctors, Lists());
      IdleOrderLength(Roster());
      Queries.IdleDoctors(Roster())
    }

    /** busyDoctors: the badges of exactly the doctors with more patients than the mean, ascending. */
    function BusyDoctors(): (r: seq<int>)
      requires Valid()
      reads this, patients.Values, doctors.Values
      ensures forall b :: b in doctors ==> (b in r <==> |Lists()[b]| * |doctors| > TotalLoad(Roster()))
      ensures forall k :: 0 <= k < |r| ==> r[k] in doctors
      ensures forall k, l :: 0 <= k < l < |r| ==> r[k] < r[l]
    {
      BusyRoster(doctors, Lists());
      Queries.BusyDoctors(Roster())
    }

    /**
     * doctorsByNumPatients: one line per doctor, rendering a permutation of the
     * doctor index ranked by count descending, then name; full ties by badge.
     */
    function DoctorsByNumPatients(): (r: seq<string>)
      requires Valid()
      reads this, patients.Values, doctors.Values
      ensures |r| == |doctors|
      ensures forall i :: 0 <= i < |r| ==> r[i] == DescribeLoad(LoadOrder(Roster())[i])
      ensures multiset(LoadOrder(Roster())) == multiset(Roster())
      ensures SortedWithTies(LoadOrder(Roster()), ByLoad, ByBadge)
    {
      RosterOrdered(doctors, Lists());
      LoadOrderSpec(Roster());
      Queries.DoctorsByNumPatients(Roster())
    }

    /**
     * countPatientsPerSpecialization: at most one line per doctor, one per
     * specialization with patients, holding its sum, ranked by sum descending
     * and then by name; the sums add up to all patients assigned.
     */
    function CountPatientsPerSpecialization(): (r: seq<string>)
      reads this, doctors.Values
      ensures |r| <= |doctors|
      ensures |r| == |SpecializationOrder(Roster())|
      ensures forall i :: 0 <= i < |r| ==> r[i] == DescribeSpecTotal(SpecializationOrder(Roster())[i])
      ensures forall e :: e in SpecializationOrder(Roster()) <==> e.total > 0 && e.total == SpecLoad(Roster(), e.specialization)
      ensures SumTotals(SpecializationOrder(Roster())) == TotalLoad(Roster())
      ensures SortedBy(SpecializationOrder(Roster()), BySpecTotal)
    {
      var roster := Roster();
      GroupLength(roster);
      SpecializationOrderSpec(roster);
      Queries.CountPatientsPerSpecialization(roster)
    }

    /** The registration an accepted line asks for; nothing for an offending one. */
    method Perform(command: Command)
      requires Valid()
      modifies this
      ensures Valid()
      ensures PatientEntries() ==
        if command.Offending? then old(PatientEntries()) else PutIfAbsent(old(PatientEntries()), command.ssn, RegistrationOf(command))
      ensures DoctorEntries() ==
        if command.RegisterDoctor? then PutIfAbsent(old(DoctorEntries()), command.badgeId, RegistrationOf(command)) else old(DoctorEntries())
      ensures Extends(patients, old(patients)) && Extends(doctors, old(doctors))
      ensures Links() ==
        if command.Offending? || command.ssn in old(patients) then old(Links()) else old(Links())[command.ssn := null]
      ensures Lists() ==
        if command.RegisterDoctor? && command.badgeId !in old(doctors) then old(Lists())[command.badgeId := []] else old(Lists())
      ensures FilledFrom(Links(), old(Links()), null) && FilledFrom(Lists(), old(Lists()), [])
    {
      ghost var links, lists := Links(), Lists();
      match command {
        case RegisterPatient(firstName, lastName, ssn) =>
          AddPatient(firstName, lastName, ssn);
          FilledFromPut(links, ssn, null);
          FilledFromPut(lists, 0, []);
        case RegisterDoctor(firstName, lastName, ssn, badgeId, specialization) =>
          AddDoctor(firstName, lastName, ssn, badgeId, specialization);
          FilledFromPut(links, ssn, null);
          FilledFromPut(lists, badgeId, []);
        case Offending =>
          FilledFromPut(links, "", null);
          FilledFromPut(lists, 0, []);
      }
    }

    /**
     * The running account of a load: the index is what the commands done so
     * far make of the index it started from, every record it started with is
     * still there, and only the records added since carry no link.
     */
    ghost predicate LoadedSince(start: LoadStart, done: seq<Command>)
      reads this, patients.Values, doctors.Values
    {
      && Valid()
      && PatientEntries() == LoadPatients(start.patientEntries, done)
      && DoctorEntries() == LoadDoctors(start.doctorEntries, done)
      && Extends(patients, start.patients) && Extends(doctors, start.doctors)
      && start.links.Keys == start.patients.Keys && start.lists.Keys == start.doctors.Keys
      && FilledFrom(Links(), start.links, null) && FilledFrom(Lists(), start.lists, [])
    }

    /** One line of loadData once classified: registers what it describes. */
    method LoadCommand(command: Command, ghost start: LoadStart, ghost done: seq<Command>)
      requires LoadedSince(start, done)
      modifies this
      ensures LoadedSince(start, done + [command])
    {
      ghost var patientsBefore, doctorsBefore, linksBefore, listsBefore := patients, doctors, Links(), Lists();
      assert (done + [command])[..|done|] == done;
      Perform(command);
      ExtendsTransitive(patients, patientsBefore, start.patients);
      ExtendsTransitive(doctors, doctorsBefore, start.doctors);
      FilledFromTransitive(Links(), linksBefore, start.links, null);
      FilledFromTransitive(Lists(), listsBefore, start.lists, []);
    }

    /**
     * loadData: reads the lines in order, registering what each accepted line
     * describes; returns the number of accepted lines and the reports for the
     * offending ones.
     */
    method LoadData(lines: seq<string>) returns (loaded: nat, reports: seq<Report>)
      requires Valid()
      modifies this
      ensures Valid()
      ensures loaded == AcceptedCount(Commands(lines)) && reports == Reports(lines, Commands(lines))
      ensures PatientEntries() == LoadPatients(old(PatientEntries()), Commands(lines))
      ensures DoctorEntries() == LoadDoctors(old(DoctorEntries()), Commands(lines))
      ensures Extends(patients, old(patients)) && Extends(doctors, old(doctors))
      ensures FilledFrom(Links(), old(Links()), null) && FilledFrom(Lists(), old(Lists()), [])
    {
      loaded, reports := 0, [];
      ghost var cmds := Commands(lines);
      ghost var start := LoadStart(PatientEntries(), DoctorEntries(), patients, doctors, Links(), Lists());
      var lineCounter := 1;
      var i := 0;
      while i < |lines|
        invariant 0 <= i <= |lines| && lineCounter == i + 1
        invariant loaded == AcceptedCount(cmds[..i]) && reports == Reports(lines[..i], cmds[..i])
        invariant LoadedSince(start, cmds[..i])
      {
        var line := lines[i];
        var currentLine := lineCounter;
        lineCounter := lineCounter + 1;
        var command := Classify(line);
        assert command == cmds[i];
        CountStep(cmds, i);
        ReportsStep(lines, cmds, i);
        PrefixStep(cmds, i);
        LoadCommand(command, start, cmds[..i]);
        if command.Offending? {
          reports := reports + [Report(currentLine, line)];
        } else {
          loaded := loaded + 1;
        }
        i := i + 1;
      }
      assert lines[..i] == lines;
      assert cmds[..i] == cmds;
    }
  }
}
