/**
 * The four read-only aggregate queries of the clinic: idle doctors, busy
 * doctors, doctors ranked by number of patients, and patient totals per
 * specialization. Each is a stream pipeline over the doctor index; here it is
 * a function over the roster, the doctors in the order the index yields them
 * (ascending badge), each seen as a DoctorView.
 */
module Queries {
  import opened Text
  import opened Persons
  import opened Records
  import opened Sequences

  /** What a query reads of one doctor: identity, badge, specialization and the size of its patient list. */
  datatype DoctorView = DoctorView(person: Person, badgeId: int, specialization: string, load: nat)

  /** The order of the doctor index: ascending badge. */
  predicate ByBadge(a: DoctorView, b: DoctorView) {
    a.badgeId < b.badgeId
  }

  /** Doctor::toString of the viewed doctor. */
  function DescribeView(v: DoctorView): string {
    DescribeDoctor(v.person, v.badgeId, v.specialization)
  }

  function Badges(vs: seq<DoctorView>): (r: seq<int>)
    ensures |r| == |vs| && forall i :: 0 <= i < |vs| ==> r[i] == vs[i].badgeId
  {
    seq(|vs|, i requires 0 <= i < |vs| => vs[i].badgeId)
  }

  /** The sum of all list sizes. */
  function TotalLoad(roster: seq<DoctorView>): nat {
    if roster == [] then 0 else roster[0].load + TotalLoad(roster[1..])
  }

  // ---------------------------------------------------------------- idleDoctors

  predicate IsIdle(v: DoctorView) {
    v.load == 0
  }

  /** Doctor.ALPHABETICAL_ORDER on views. */
  predicate ByName(a: DoctorView, b: DoctorView) {
    AlphabeticalLe(a.person, b.person)
  }

  /** filter(no patients), then sorted(ALPHABETICAL_ORDER). */
  function IdleOrder(roster: seq<DoctorView>): seq<DoctorView> {
    SortBy(Filter(roster, IsIdle), ByName)
  }

  /** idleDoctors: the idle doctors in alphabetical order, each rendered by Doctor.toString. */
  function IdleDoctors(roster: seq<DoctorView>): (r: seq<string>)
    ensures |r| == |IdleOrder(roster)|
    ensures forall i :: 0 <= i < |r| ==> r[i] == DescribeView(IdleOrder(roster)[i])
  {
    var order := IdleOrder(roster);
    seq(|order|, i requires 0 <= i < |order| => DescribeView(order[i]))
  }

  lemma ByNameTotalPreorder()
    ensures TotalPreorder(ByName)
  {
    AlphabeticalTotalPreorder();
    forall a: DoctorView, b: DoctorView
      ensures ByName(a, b) || ByName(b, a)
    {
      assert AlphabeticalLe(a.person, b.person) || AlphabeticalLe(b.person, a.person);
    }
    forall a: DoctorView, b: DoctorView, c: DoctorView | ByName(a, b) && ByName(b, c)
      ensures ByName(a, c)
    {
      assert AlphabeticalLe(a.person, b.person) && AlphabeticalLe(b.person, c.person);
    }
  }

  /**
   * idleDoctors keeps exactly the doctors without patients, each once, ordered
   * by last name and then first name; doctors with equal names keep the index's
   * ascending badge order because the sort is stable.
   */
  lemma IdleOrderSpec(roster: seq<DoctorView>)
    requires SortedBy(roster, ByBadge)
    ensures multiset(IdleOrder(roster)) == multiset(Filter(roster, IsIdle))
    ensures forall v :: v in IdleOrder(roster) <==> v in roster && v.load == 0
    ensures SortedWithTies(IdleOrder(roster), ByName, ByBadge)
  {
    var idle := Filter(roster, IsIdle);
    FilterMembers(roster, IsIdle);
    FilterKeepsOrder(roster, IsIdle, ByBadge);
    ByNameTotalPreorder();
    SortStable(idle, ByName, ByBadge);
    forall v
      ensures v in IdleOrder(roster) <==> v in roster && v.load == 0
    {
      assert v in IdleOrder(roster) <==> v in multiset(idle);
      if v in roster && v.load == 0 {
        var i :| 0 <= i < |roster| && roster[i] == v;
        assert v in idle;
      }
    }
  }

  lemma IdleOrderLength(roster: seq<DoctorView>)
    ensures |IdleOrder(roster)| <= |roster|
  {
    var idle := Filter(roster, IsIdle);
    FilterMembers(roster, IsIdle);
    assert |IdleOrder(roster)| == |multiset(IdleOrder(roster))| == |multiset(idle)| == |idle|;
  }

  /** Any sequence with that content and that order is the one idleDoctors builds. */
  lemma IdleOrderUnique(roster: seq<DoctorView>, other: seq<DoctorView>)
    requires SortedBy(roster, ByBadge)
    requires multiset(other) == multiset(Filter(roster, IsIdle))
    requires SortedWithTies(other, ByName, ByBadge)
    ensures other == IdleOrder(roster)
  {
    IdleOrderSpec(roster);
    SortedWithTiesUnique(other, IdleOrder(roster), ByName, ByBadge);
  }

  // ---------------------------------------------------------------- busyDoctors

  /** The count exceeds the mean total / n, stated without division. */
  predicate AboveMean(v: DoctorView, n: nat, total: nat) {
    v.load * n > total
  }

  /** filter(count > mean): the doctors above the mean, in index order. */
  function BusyOf(roster: seq<DoctorView>): (r: seq<DoctorView>)
    ensures |r| <= |roster|
    ensures forall k :: 0 <= k < |r| ==> r[k] in roster && AboveMean(r[k], |roster|, TotalLoad(roster))
    ensures forall i :: 0 <= i < |roster| && AboveMean(roster[i], |roster|, TotalLoad(roster)) ==> roster[i] in r
    ensures r == [] <==> forall i :: 0 <= i < |roster| ==> !AboveMean(roster[i], |roster|, TotalLoad(roster))
  {
    var n, total := |roster|, TotalLoad(roster);
    var above := v => AboveMean(v, n, total);
    FilterMembers(roster, above);
    Filter(roster, above)
  }

  /** busyDoctors: the badges of the doctors above the mean, in index order. */
  function BusyDoctors(roster: seq<DoctorView>): seq<int> {
    Badges(BusyOf(roster))
  }

  /** The division-free test is the comparison with the exact mean. */
  lemma AboveMeanIsAboveAverage(v: DoctorView, roster: seq<DoctorView>)
    requires roster != []
    ensures AboveMean(v, |roster|, TotalLoad(roster)) <==> v.load as real > TotalLoad(roster) as real / |roster| as real
  {
    var n, t, c := |roster| as real, TotalLoad(roster) as real, v.load as real;
    var mean := t / n;
    assert mean * n == t;
    assert (v.load * |roster|) as real == c * n;
    if c > mean {
      assert c * n > mean * n;
    } else {
      assert c * n <= mean * n;
    }
  }

  lemma BusyOfOrdered(roster: seq<DoctorView>)
    requires SortedBy(roster, ByBadge)
    ensures SortedBy(BusyOf(roster), ByBadge)
  {
    var n, total := |roster|, TotalLoad(roster);
    FilterKeepsOrder(roster, v => AboveMean(v, n, total), ByBadge);
  }

  /** busyDoctors names a doctor of the index exactly when its count exceeds the mean. */
  lemma BusyDoctorsExact(roster: seq<DoctorView>, i: nat)
    requires SortedBy(roster, ByBadge) && i < |roster|
    ensures roster[i].badgeId in BusyDoctors(roster) <==> AboveMean(roster[i], |roster|, TotalLoad(roster))
  {
    var busy, r := BusyOf(roster), BusyDoctors(roster);
    if AboveMean(roster[i], |roster|, TotalLoad(roster)) {
      var k :| 0 <= k < |busy| && busy[k] == roster[i];
      assert r[k] == roster[i].badgeId;
    }
  }

  /** busyDoctors names only badges of the index, in ascending order, so each at most once. */
  lemma BusyDoctorsAscending(roster: seq<DoctorView>)
    requires SortedBy(roster, ByBadge)
    ensures forall k :: 0 <= k < |BusyDoctors(roster)| ==>
      exists i :: 0 <= i < |roster| && roster[i].badgeId == BusyDoctors(roster)[k]
    ensures forall k, l :: 0 <= k < l < |BusyDoctors(roster)| ==> BusyDoctors(roster)[k] < BusyDoctors(roster)[l]
  {
    var busy, r := BusyOf(roster), BusyDoctors(roster);
    BusyOfOrdered(roster);
    forall k | 0 <= k < |r|
      ensures exists i :: 0 <= i < |roster| && roster[i].badgeId == r[k]
    {
      assert busy[k] in roster;
      var j :| 0 <= j < |roster| && roster[j] == busy[k];
      assert roster[j].badgeId == r[k];
    }
    forall k, l | 0 <= k < l < |r|
      ensures r[k] < r[l]
    {
      assert ByBadge(busy[k], busy[l]);
    }
  }

  lemma {:induction false} TotalLoadConstant(roster: seq<DoctorView>, c: nat)
    requires forall i :: 0 <= i < |roster| ==> roster[i].load == c
    ensures TotalLoad(roster) == c * |roster|
  {
    if roster != [] {
      TotalLoadConstant(roster[1..], c);
    }
  }

  /** A bound on every count bounds the total. */
  lemma {:induction false} TotalLoadBelow(roster: seq<DoctorView>, bound: nat)
    requires forall i :: 0 <= i < |roster| ==> roster[i].load <= bound
    ensures TotalLoad(roster) <= bound * |roster|
  {
    if roster != [] {
      TotalLoadBelow(roster[1..], bound);
    }
  }

  /** One count strictly below the bound makes the bound strict. */
  lemma {:induction false} TotalLoadStrictlyBelow(roster: seq<DoctorView>, bound: nat, i: nat)
    requires forall k :: 0 <= k < |roster| ==> roster[k].load <= bound
    requires i < |roster| && roster[i].load < bound
    ensures TotalLoad(roster) < bound * |roster|
  {
    if i == 0 {
      TotalLoadBelow(roster[1..], bound);
    } else {
      TotalLoadStrictlyBelow(roster[1..], bound, i - 1);
    }
  }

  lemma {:induction false} MaxLoadExists(roster: seq<DoctorView>) returns (m: nat)
    requires roster != []
    ensures m < |roster| && forall i :: 0 <= i < |roster| ==> roster[i].load <= roster[m].load
  {
    if |roster| == 1 {
      m := 0;
    } else {
      var m' := MaxLoadExists(roster[1..]);
      assert forall i :: 1 <= i < |roster| ==> roster[i] == roster[1..][i - 1];
      m := if roster[0].load >= roster[m' + 1].load then 0 else m' + 1;
    }
  }

  /** With no doctors, or when every doctor has the same count, nobody is busy. */
  lemma BusyEmptyWhenEven(roster: seq<DoctorView>)
    requires forall i, j :: 0 <= i < |roster| && 0 <= j < |roster| ==> roster[i].load == roster[j].load
    ensures BusyDoctors(roster) == []
  {
    if roster != [] {
      TotalLoadConstant(roster, roster[0].load);
    }
  }

  /** As soon as two counts differ, the doctor with the largest count is busy. */
  lemma BusyNonEmptyWhenUneven(roster: seq<DoctorView>)
    requires exists i, j :: 0 <= i < |roster| && 0 <= j < |roster| && roster[i].load != roster[j].load
    ensures BusyDoctors(roster) != []
  {
    var m := MaxLoadExists(roster);
    var i, j :| 0 <= i < |roster| && 0 <= j < |roster| && roster[i].load != roster[j].load;
    var low := if roster[i].load < roster[m].load then i else j;
    TotalLoadStrictlyBelow(roster, roster[m].load, low);
    assert AboveMean(roster[m], |roster|, TotalLoad(roster));
  }

  // ---------------------------------------------------------------- doctorsByNumPatients

  /** Count descending, then last name, then first name. */
  predicate ByLoad(a: DoctorView, b: DoctorView) {
    a.load > b.load || (a.load == b.load && AlphabeticalLe(a.person, b.person))
  }

  function LoadOrder(roster: seq<DoctorView>): seq<DoctorView> {
    SortBy(roster, ByLoad)
  }

  /** String.format("%3d : %d %s %s", count, badge, lastName, firstName). */
  function DescribeLoad(v: DoctorView): string {
    PadLeft3(v.load) + " : " + IntToString(v.badgeId) + " " + v.person.lastName + " " + v.person.firstName
  }

  /** doctorsByNumPatients: every doctor, ranked, one formatted line each. */
  function DoctorsByNumPatients(roster: seq<DoctorView>): (r: seq<string>)
    ensures |r| == |roster|
    ensures forall i :: 0 <= i < |r| ==> r[i] == DescribeLoad(LoadOrder(roster)[i])
  {
    var order := LoadOrder(roster);
    assert |order| == |multiset(order)| == |roster|;
    seq(|order|, i requires 0 <= i < |order| => DescribeLoad(order[i]))
  }

  lemma ByLoadTotalPreorder()
    ensures TotalPreorder(ByLoad)
  {
    AlphabeticalTotalPreorder();
    forall a: DoctorView, b: DoctorView
      ensures ByLoad(a, b) || ByLoad(b, a)
    {
      assert AlphabeticalLe(a.person, b.person) || AlphabeticalLe(b.person, a.person);
    }
    forall a: DoctorView, b: DoctorView, c: DoctorView | ByLoad(a, b) && ByLoad(b, c)
      ensures ByLoad(a, c)
    {
      if a.load == b.load == c.load {
        assert AlphabeticalLe(a.person, b.person) && AlphabeticalLe(b.person, c.person);
      }
    }
  }

  /**
   * doctorsByNumPatients lists every doctor exactly once, by count descending,
   * then last name, then first name; full ties keep ascending badge order.
   */
  lemma LoadOrderSpec(roster: seq<DoctorView>)
    requires SortedBy(roster, ByBadge)
    ensures multiset(LoadOrder(roster)) == multiset(roster)
    ensures SortedWithTies(LoadOrder(roster), ByLoad, ByBadge)
  {
    ByLoadTotalPreorder();
    SortStable(roster, ByLoad, ByBadge);
  }

  lemma LoadOrderUnique(roster: seq<DoctorView>, other: seq<DoctorView>)
    requires SortedBy(roster, ByBadge)
    requires multiset(other) == multiset(roster)
    requires SortedWithTies(other, ByLoad, ByBadge)
    ensures other == LoadOrder(roster)
  {
    LoadOrderSpec(roster);
    SortedWithTiesUnique(other, LoadOrder(roster), ByLoad, ByBadge);
  }

  // ---------------------------------------------------------------- countPatientsPerSpecialization

  /** One entry of the grouping map: a specialization and the summed list sizes of its doctors. */
  datatype SpecTotal = SpecTotal(specialization: string, total: nat)

  /** Collectors.summingInt for one more doctor of specialization spec with n patients. */
  function AddLoad(groups: seq<SpecTotal>, spec: string, n: nat): seq<SpecTotal> {
    if groups == [] then [SpecTotal(spec, n)]
    else if groups[0].specialization == spec then [SpecTotal(spec, groups[0].total + n)] + groups[1..]
    else [groups[0]] + AddLoad(groups[1..], spec, n)
  }

  /** filter(has patients), then groupingBy(specialization, summingInt(count)). */
  function Group(roster: seq<DoctorView>): seq<SpecTotal> {
    if roster == [] then []
    else if roster[0].load == 0 then Group(roster[1..])
    else AddLoad(Group(roster[1..]), roster[0].specialization, roster[0].load)
  }

  /** The sum of the counts of the doctors with that specialization. */
  function SpecLoad(roster: seq<DoctorView>, spec: string): nat {
    if roster == [] then 0
    else (if roster[0].specialization == spec then roster[0].load else 0) + SpecLoad(roster[1..], spec)
  }

  /** The total a grouping holds for spec, 0 when it has no entry. */
  function TotalOf(groups: seq<SpecTotal>, spec: string): nat {
    if groups == [] then 0
    else if groups[0].specialization == spec then groups[0].total
    else TotalOf(groups[1..], spec)
  }

  function SumTotals(groups: seq<SpecTotal>): nat {
    if groups == [] then 0 else groups[0].total + SumTotals(groups[1..])
  }

  /** What a grouping map's entry set is: one entry per key, every sum positive. */
  predicate WellGrouped(groups: seq<SpecTotal>) {
    (forall i, j :: 0 <= i < j < |groups| ==> groups[i].specialization != groups[j].specialization) &&
    (forall i :: 0 <= i < |groups| ==> groups[i].total > 0)
  }

  lemma {:induction false} TotalOfMember(groups: seq<SpecTotal>, e: SpecTotal)
    requires WellGrouped(groups)
    ensures e in groups <==> e.total > 0 && TotalOf(groups, e.specialization) == e.total
  {
    if groups != [] {
      assert WellGrouped(groups[1..]);
      TotalOfMember(groups[1..], e);
      if groups[0].specialization == e.specialization {
        assert e !in groups[1..] by {
          forall k | 1 <= k < |groups|
            ensures groups[k] != e
          {
            assert groups[k].specialization != groups[0].specialization;
          }
        }
      }
    }
  }

  lemma AddLoadSpec(groups: seq<SpecTotal>, spec: string, n: nat)
    requires WellGrouped(groups) && n > 0
    ensures WellGrouped(AddLoad(groups, spec, n))
    ensures forall s :: TotalOf(AddLoad(groups, spec, n), s) == TotalOf(groups, s) + (if s == spec then n else 0)
    ensures SumTotals(AddLoad(groups, spec, n)) == SumTotals(groups) + n
    ensures forall s :: s in Specializations(AddLoad(groups, spec, n)) <==> s in Specializations(groups) || s == spec
  {
    AddLoadTotals(groups, spec, n);
    AddLoadKeys(groups, spec, n);
    AddLoadWellGrouped(groups, spec, n);
  }

  lemma {:induction false} AddLoadTotals(groups: seq<SpecTotal>, spec: string, n: nat)
    ensures forall s :: TotalOf(AddLoad(groups, spec, n), s) == TotalOf(groups, s) + (if s == spec then n else 0)
    ensures SumTotals(AddLoad(groups, spec, n)) == SumTotals(groups) + n
  {
    if groups != [] && groups[0].specialization != spec {
      AddLoadTotals(groups[1..], spec, n);
      assert AddLoad(groups, spec, n)[1..] == AddLoad(groups[1..], spec, n);
    }
  }

  lemma {:induction false} AddLoadKeys(groups: seq<SpecTotal>, spec: string, n: nat)
    ensures forall s :: s in Specializations(AddLoad(groups, spec, n)) <==> s in Specializations(groups) || s == spec
  {
    if groups != [] {
      var r := AddLoad(groups, spec, n);
      if groups[0].specialization != spec {
        AddLoadKeys(groups[1..], spec, n);
        assert Specializations(r) == [groups[0].specialization] + Specializations(AddLoad(groups[1..], spec, n));
        assert Specializations(groups) == [groups[0].specialization] + Specializations(groups[1..]);
      } else {
        assert Specializations(r) == Specializations(groups);
      }
    } else {
      assert Specializations(AddLoad(groups, spec, n)) == [spec];
    }
  }

  lemma {:induction false} AddLoadWellGrouped(groups: seq<SpecTotal>, spec: string, n: nat)
    requires WellGrouped(groups) && n > 0
    ensures WellGrouped(AddLoad(groups, spec, n))
  {
    var r := AddLoad(groups, spec, n);
    if groups != [] && groups[0].specialization != spec {
      var rest := AddLoad(groups[1..], spec, n);
      assert WellGrouped(groups[1..]);
      AddLoadWellGrouped(groups[1..], spec, n);
      AddLoadKeys(groups[1..], spec, n);
      assert r == [groups[0]] + rest;
      forall i, j | 0 <= i < j < |r|
        ensures r[i].specialization != r[j].specialization
      {
        if i == 0 {
          assert r[j].specialization in Specializations(rest) by {
            assert Specializations(rest)[j - 1] == r[j].specialization;
          }
          if r[j].specialization != spec {
            var k :| 0 <= k < |groups[1..]| && Specializations(groups[1..])[k] == r[j].specialization;
            assert groups[k + 1].specialization == r[j].specialization;
          }
        } else {
          assert r[i] == rest[i - 1] && r[j] == rest[j - 1];
        }
      }
    } else if groups != [] {
      forall i, j | 0 <= i < j < |r|
        ensures r[i].specialization != r[j].specialization
      {
        assert r[i].specialization == groups[i].specialization && r[j].specialization == groups[j].specialization;
      }
    }
  }

  function Specializations(groups: seq<SpecTotal>): (r: seq<string>)
    ensures |r| == |groups| && forall i :: 0 <= i < |groups| ==> r[i] == groups[i].specialization
  {
    seq(|groups|, i requires 0 <= i < |groups| => groups[i].specialization)
  }

  /**
   * The grouping has one entry for each specialization whose doctors have any
   * patients at all, holding the sum of their counts; the sums add up to the
   * total of all list sizes.
   */
  lemma {:induction false} GroupSpec(roster: seq<DoctorView>)
    ensures WellGrouped(Group(roster))
    ensures forall s :: TotalOf(Group(roster), s) == SpecLoad(roster, s)
    ensures SumTotals(Group(roster)) == TotalLoad(roster)
  {
    if roster != [] {
      GroupSpec(roster[1..]);
      if roster[0].load > 0 {
        AddLoadSpec(Group(roster[1..]), roster[0].specialization, roster[0].load);
      }
    }
  }

  lemma {:induction false} AddLoadLength(groups: seq<SpecTotal>, spec: string, n: nat)
    ensures |AddLoad(groups, spec, n)| <= |groups| + 1
  {
    if groups != [] && groups[0].specialization != spec {
      AddLoadLength(groups[1..], spec, n);
    }
  }

  /** There are never more groups than doctors, so never more lines than doctors. */
  lemma {:induction false} GroupLength(roster: seq<DoctorView>)
    ensures |Group(roster)| <= |roster|
    ensures |SpecializationOrder(roster)| <= |roster|
  {
    if roster != [] {
      GroupLength(roster[1..]);
      AddLoadLength(Group(roster[1..]), roster[0].specialization, roster[0].load);
    }
    var g := Group(roster);
    assert |SortBy(g, BySpecTotal)| == |multiset(SortBy(g, BySpecTotal))| == |multiset(g)| == |g|;
  }

  /** Summed patients descending, then specialization name ascending. */
  predicate BySpecTotal(a: SpecTotal, b: SpecTotal) {
    a.total > b.total || (a.total == b.total && LexLe(a.specialization, b.specialization))
  }

  function SpecializationOrder(roster: seq<DoctorView>): seq<SpecTotal> {
    SortBy(Group(roster), BySpecTotal)
  }

  /** String.format("%3d - %s", total, specialization). */
  function DescribeSpecTotal(e: SpecTotal): string {
    PadLeft3(e.total) + " - " + e.specialization
  }

  /** countPatientsPerSpecialization: one formatted line per specialization with patients, ranked. */
  function CountPatientsPerSpecialization(roster: seq<DoctorView>): (r: seq<string>)
    ensures |r| == |SpecializationOrder(roster)|
    ensures forall i :: 0 <= i < |r| ==> r[i] == DescribeSpecTotal(SpecializationOrder(roster)[i])
  {
    var order := SpecializationOrder(roster);
    seq(|order|, i requires 0 <= i < |order| => DescribeSpecTotal(order[i]))
  }

  lemma BySpecTotalOrder()
    ensures TotalPreorder(BySpecTotal) && Antisymmetric(BySpecTotal)
  {
    forall a: SpecTotal, b: SpecTotal
      ensures BySpecTotal(a, b) || BySpecTotal(b, a)
    {
      LexLeTotal(a.specialization, b.specialization);
    }
    forall a: SpecTotal, b: SpecTotal, c: SpecTotal | BySpecTotal(a, b) && BySpecTotal(b, c)
      ensures BySpecTotal(a, c)
    {
      LexLeTransitive(a.specialization, b.specialization, c.specialization);
    }
    forall a: SpecTotal, b: SpecTotal | BySpecTotal(a, b) && BySpecTotal(b, a)
      ensures a == b
    {
      LexLeAntisymmetric(a.specialization, b.specialization);
    }
  }

  /** A well-formed grouping is determined, up to order, by its totals. */
  lemma GroupingsAgree(g: seq<SpecTotal>, h: seq<SpecTotal>)
    requires WellGrouped(g) && WellGrouped(h)
    requires forall s :: TotalOf(g, s) == TotalOf(h, s)
    ensures multiset(g) == multiset(h)
  {
    forall e
      ensures multiset(g)[e] == multiset(h)[e]
    {
      TotalOfMember(g, e);
      TotalOfMember(h, e);
      DistinctOnce(g, e);
      DistinctOnce(h, e);
    }
  }

  lemma {:induction false} DistinctOnce(g: seq<SpecTotal>, e: SpecTotal)
    requires WellGrouped(g)
    ensures multiset(g)[e] == if e in g then 1 else 0
  {
    if g != [] {
      assert WellGrouped(g[1..]);
      DistinctOnce(g[1..], e);
      assert g == [g[0]] + g[1..];
      if g[0] == e {
        assert e !in g[1..] by {
          forall k | 1 <= k < |g|
            ensures g[k] != e
          {
            assert g[k].specialization != g[0].specialization;
          }
        }
      }
    }
  }

  /**
   * countPatientsPerSpecialization: each specialization with a non-zero total
   * appears once, with its sum; the lines are ranked by total descending, then
   * by name; and any ranking of any grouping with these sums is this one, so
   * the unordered grouping map cannot change the result.
   */
  lemma SpecializationOrderSpec(roster: seq<DoctorView>)
    ensures WellGrouped(SpecializationOrder(roster))
    ensures forall e :: e in SpecializationOrder(roster) <==> e.total > 0 && e.total == SpecLoad(roster, e.specialization)
    ensures SumTotals(SpecializationOrder(roster)) == TotalLoad(roster)
    ensures SortedBy(SpecializationOrder(roster), BySpecTotal)
  {
    var g := Group(roster);
    var r := SpecializationOrder(roster);
    GroupSpec(roster);
    BySpecTotalOrder();
    SortSorted(g, BySpecTotal);
    assert multiset(r) == multiset(g);
    SameMultisetWellGrouped(g, r);
    forall e
      ensures e in r <==> e.total > 0 && e.total == SpecLoad(roster, e.specialization)
    {
      TotalOfMember(g, e);
      assert e in r <==> e in multiset(g);
    }
    SumTotalsSort(g);
  }

  lemma SpecializationOrderUnique(roster: seq<DoctorView>, other: seq<SpecTotal>)
    requires WellGrouped(other)
    requires forall s :: TotalOf(other, s) == SpecLoad(roster, s)
    requires SortedBy(other, BySpecTotal)
    ensures other == SpecializationOrder(roster)
  {
    var g := Group(roster);
    GroupSpec(roster);
    GroupingsAgree(other, g);
    BySpecTotalOrder();
    SortSorted(g, BySpecTotal);
    SortedUnique(other, SpecializationOrder(roster), BySpecTotal);
  }

  lemma SameMultisetWellGrouped(g: seq<SpecTotal>, h: seq<SpecTotal>)
    requires WellGrouped(g) && multiset(g) == multiset(h)
    ensures WellGrouped(h)
  {
    forall i | 0 <= i < |h|
      ensures h[i].total > 0
    {
      assert h[i] in multiset(g);
    }
    forall i, j | 0 <= i < j < |h|
      ensures h[i].specialization != h[j].specialization
    {
      if h[i].specialization == h[j].specialization {
        assert h[i] in multiset(g) && h[j] in multiset(g);
        var a :| 0 <= a < |g| && g[a] == h[i];
        var b :| 0 <= b < |g| && g[b] == h[j];
        assert a == b;
        assert h[i] == h[j];
        assert multiset(h)[h[i]] >= 2 by {
          assert h == h[..i] + [h[i]] + h[i + 1..j] + [h[j]] + h[j + 1..];
        }
        DistinctOnce(g, h[i]);
      }
    }
  }

  lemma {:induction false} SumTotalsInsert(e: SpecTotal, s: seq<SpecTotal>)
    ensures SumTotals(Insert(e, s, BySpecTotal)) == e.total + SumTotals(s)
  {
    if s != [] && !BySpecTotal(e, s[0]) {
      SumTotalsInsert(e, s[1..]);
    }
  }

  lemma {:induction false} SumTotalsSort(s: seq<SpecTotal>)
    ensures SumTotals(SortBy(s, BySpecTotal)) == SumTotals(s)
  {
    if s != [] {
      SumTotalsSort(s[1..]);
      SumTotalsInsert(s[0], SortBy(s[1..], BySpecTotal));
    }
  }
}
