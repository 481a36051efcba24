/**
 * Patient and Doctor records. A Doctor is also a Patient: it owns the Patient
 * object that stands for it wherever a patient is expected (the patient
 * index, another doctor's list), and that object renders as a doctor.
 * Object identity is reference identity, as in the Java lists this models.
 */
module Records {
  import opened Wrappers
  import opened Text
  import opened Persons
  import opened Sequences

  /** What a patient record is: a plain patient, or the patient side of a doctor. */
  datatype Role = Plain | Physician(badgeId: int, specialization: string)

  /** Doctor.toString: the person's description, then " [badge]: specialization". */
  function DescribeDoctor(p: Person, badgeId: int, specialization: string): (r: string)
    ensures |r| == |Describe(p)| + |IntToString(badgeId)| + 5 + |specialization|
    ensures r[..|Describe(p)|] == Describe(p)
  {
    Describe(p) + " [" + IntToString(badgeId) + "]: " + specialization
  }

  /** The badge written between the brackets of a doctor's description reads back as that badge. */
  lemma DescribeDoctorBadge(p: Person, badgeId: int, specialization: string)
    requires MinInt32 <= badgeId <= MaxInt32
    ensures var r, k := DescribeDoctor(p, badgeId, specialization), |Describe(p)| + 2;
      r[k - 2..k] == " [" &&
      ParseInt(r[k..k + |IntToString(badgeId)|]) == Some(badgeId) &&
      r[k + |IntToString(badgeId)|..k + |IntToString(badgeId)| + 3] == "]: " &&
      r[k + |IntToString(badgeId)| + 3..] == specialization
  {
    var d, b := Describe(p), IntToString(badgeId);
    var r := DescribeDoctor(p, badgeId, specialization);
    var k := |d| + 2;
    assert r == (d + " [") + b + ("]: " + specialization);
    assert r[k - 2..k] == " [";
    assert r[k..k + |b|] == b;
    assert r[k + |b|..] == "]: " + specialization;
    ParseIntRoundTrip(badgeId);
  }

  /** Doctor.ALPHABETICAL_ORDER: by last name, and by first name only when the last names are equal. */
  predicate AlphabeticalLe(a: Person, b: Person) {
    if a.lastName != b.lastName then LexLe(a.lastName, b.lastName) else LexLe(a.firstName, b.firstName)
  }

  /** ALPHABETICAL_ORDER is a valid comparator: total and transitive. */
  lemma AlphabeticalTotalPreorder()
    ensures TotalPreorder(AlphabeticalLe)
  {
    forall a: Person, b: Person
      ensures AlphabeticalLe(a, b) || AlphabeticalLe(b, a)
    {
      LexLeTotal(a.lastName, b.lastName);
      LexLeTotal(a.firstName, b.firstName);
    }
    forall a: Person, b: Person, c: Person | AlphabeticalLe(a, b) && AlphabeticalLe(b, c)
      ensures AlphabeticalLe(a, c)
    {
      LexLeTransitive(a.lastName, b.lastName, c.lastName);
      LexLeTransitive(a.firstName, b.firstName, c.firstName);
      LexLeAntisymmetric(a.lastName, b.lastName);
      LexLeAntisymmetric(b.lastName, c.lastName);
      LexLeAntisymmetric(a.lastName, c.lastName);
    }
  }

  /** ALPHABETICAL_ORDER ranks two persons equal exactly when both names agree; the SSN plays no part. */
  lemma AlphabeticalTies(a: Person, b: Person)
    ensures AlphabeticalLe(a, b) && AlphabeticalLe(b, a) <==> a.lastName == b.lastName && a.firstName == b.firstName
  {
    LexLeAntisymmetric(a.lastName, b.lastName);
    LexLeAntisymmetric(a.firstName, b.firstName);
    LexLeReflexive(a.firstName);
  }

  class Patient {
    const person: Person
    const role: Role
    var assignedDoctor: Doctor?

    /** Patient(firstName, lastName, ssn): no doctor yet. */
    constructor (firstName: string, lastName: string, ssn: string)
      ensures person == Person(firstName, lastName, ssn) && role == Plain
      ensures assignedDoctor == null
    {
      person := Person(firstName, lastName, ssn);
      role := Plain;
      assignedDoctor := null;
    }

    /** The patient side built by Doctor's constructor (the super call): no doctor yet. */
    constructor ForDoctor(firstName: string, lastName: string, ssn: string, badgeId: int, specialization: string)
      ensures person == Person(firstName, lastName, ssn) && role == Physician(badgeId, specialization)
      ensures assignedDoctor == null
    {
      person := Person(firstName, lastName, ssn);
      role := Physician(badgeId, specialization);
      assignedDoctor := null;
    }

    /** Optional.ofNullable(assignedDoctor). */
    function GetAssignedDoctor(): (r: Option<Doctor>)
      reads this
      ensures r.None? <==> assignedDoctor == null
      ensures r.Some? ==> r.value == assignedDoctor
    {
      if assignedDoctor == null then None else Some(assignedDoctor)
    }

    /** Overwrites the single assigned doctor; name and SSN are constants and stay as they were. */
    method SetAssignedDoctor(doctor: Doctor)
      modifies this
      ensures assignedDoctor == doctor
      ensures GetAssignedDoctor() == Some(doctor)
    {
      assignedDoctor := doctor;
    }

    /** toString, dispatched on what the object is: a plain patient renders as a person, a doctor as a doctor. */
    function ToString(): (r: string)
      ensures role.Plain? ==> r == Describe(person)
      ensures role.Physician? ==> r == DescribeDoctor(person, role.badgeId, role.specialization)
    {
      match role
      case Plain => Describe(person)
      case Physician(badgeId, specialization) => DescribeDoctor(person, badgeId, specialization)
    }
  }

  class Doctor {
    /** The patient object that is this doctor in the patient index and in other doctors' lists. */
    const asPatient: Patient
    const badgeId: int
    const specialization: string
    var assignedPatients: seq<Patient>

    /** Doctor(firstName, lastName, ssn, badgeId, specialization): no patients yet. */
    constructor (firstName: string, lastName: string, ssn: string, badgeId: int, specialization: string)
      ensures fresh(asPatient)
      ensures asPatient.person == Person(firstName, lastName, ssn)
      ensures asPatient.role == Physician(badgeId, specialization)
      ensures asPatient.assignedDoctor == null
      ensures this.badgeId == badgeId && this.specialization == specialization
      ensures assignedPatients == []
    {
      asPatient := new Patient.ForDoctor(firstName, lastName, ssn, badgeId, specialization);
      this.badgeId := badgeId;
      this.specialization := specialization;
      assignedPatients := [];
    }

    /** addPatient: ArrayList.add appends at the end. */
    method AddPatient(patient: Patient)
      modifies this
      ensures assignedPatients == old(assignedPatients) + [patient]
      ensures |assignedPatients| == |old(assignedPatients)| + 1
      ensures multiset(assignedPatients)[patient] == multiset(old(assignedPatients))[patient] + 1
    {
      assignedPatients := assignedPatients + [patient];
    }

    /** removePatient: ArrayList.remove drops the first identical object, if present. */
    method RemovePatient(patient: Patient)
      modifies this
      ensures assignedPatients == RemoveFirst(old(assignedPatients), patient)
      ensures patient !in old(assignedPatients) ==> assignedPatients == old(assignedPatients)
      ensures |old(assignedPatients)| - 1 <= |assignedPatients| <= |old(assignedPatients)|
    {
      assignedPatients := RemoveFirst(assignedPatients, patient);
    }

    /** toString: Person.toString followed by the badge and the specialization. */
    function ToString(): (r: string)
      ensures |r| > |Describe(asPatient.person)| && r[..|Describe(asPatient.person)|] == Describe(asPatient.person)
    {
      DescribeDoctor(asPatient.person, badgeId, specialization)
    }
  }
}
