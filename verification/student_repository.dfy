/** The in-memory student repository (src/Repositories/StudentRepository.php): five
    seeded students keyed by id, with lookups, filters, an ordering by average and
    aggregate statistics. None of the queries changes the store. */
module StudentRepository {
  import opened Wrappers
  import opened Status
  import opened PhpArray
  import opened StudentModel
  import Text
  import Calc = AcademicCalculator
  import Sorting
  import Validator
  import Helpers

  datatype Repo = Repo(students: seq<Entry<Student>>, nextId: int)

  /** Keys are distinct and every student is stored under its own id. */
  predicate Valid(r: Repo) {
    && DistinctKeys(r.students)
    && forall i :: 0 <= i < |r.students| ==> r.students[i].value.id == Some(r.students[i].key)
  }

  // ---------------------------------------------------------------- seeding

  /** One fixture row: names, e-mail, CI, phone, semester and grades. */
  datatype SeedRow = SeedRow(
    nombre: string, paterno: string, materno: string, email: string,
    ci: string, telefono: Option<string>, semestre: int, notas: seq<real>)

  const SeedRows: seq<SeedRow> := [
    SeedRow("Ana", "García", "Pérez", "ana.garcia@est.edu.bo", "12345678-LP", Some("+59178451234"), 7, [85.0, 90.0, 88.0, 92.0]),
    SeedRow("Luis", "Pérez", "Mamani", "luis.perez@est.edu.bo", "23456789-SC", Some("+59176542345"), 6, [78.0, 82.0, 85.0, 80.0]),
    SeedRow("María", "López", "Quispe", "maria.lopez@est.edu.bo", "34567890-CB", Some("+59172345678"), 5, [95.0, 92.0, 98.0, 94.0]),
    SeedRow("Carlos", "Ruiz", "Condori", "carlos.ruiz@est.edu.bo", "45678901-LP", Some("+59178234567"), 7, [65.0, 70.0, 68.0, 72.0]),
    SeedRow("Sofia", "Torres", "Apaza", "sofia.torres@est.edu.bo", "56789012-SC", None, 4, [58.0, 62.0, 65.0, 60.0])
  ]

  /** `sprintf('2024-%05d', $k)`. */
  function SeedCodigo(k: int): string {
    "2024-" + Text.FormatInt(k, 5)
  }

  /** The student the loop builds from row `i`, given the id it draws. */
  function SeedStudent(row: SeedRow, i: int, id: int): Student {
    Student(Some(id), SeedCodigo(i + 1), row.nombre, row.paterno, row.materno, row.email,
      row.ci, row.telefono, row.semestre, if i == 4 then Inactive else Active, row.notas)
  }

  /** The `foreach` of `seedData` from row `i` on. */
  function SeedFrom(rows: seq<SeedRow>, i: nat, r: Repo): Repo
    decreases |rows| - i
  {
    if i >= |rows| then r
    else
      var st := SeedStudent(rows[i], i, r.nextId);
      SeedFrom(rows, i + 1, Repo(Put(r.students, r.nextId, st), r.nextId + 1))
  }

  /** The constructor: an empty store with `nextId` 1, then the fixtures. */
  function Construct(): Repo {
    SeedFrom(SeedRows, 0, Repo([], 1))
  }

  /** Row `k` of any fixture list lands at position `k` under id `k + 1`, and `nextId`
      ends one past the last id. */
  lemma {:induction false} SeedFromShape(rows: seq<SeedRow>, i: nat, r: Repo)
    requires i <= |rows| && |r.students| == i && r.nextId == i + 1
    requires forall k :: 0 <= k < i ==> r.students[k] == Entry(k + 1, SeedStudent(rows[k], k, k + 1))
    ensures var out := SeedFrom(rows, i, r);
      && |out.students| == |rows| && out.nextId == |rows| + 1
      && forall k :: 0 <= k < |rows| ==> out.students[k] == Entry(k + 1, SeedStudent(rows[k], k, k + 1))
    decreases |rows| - i
  {
    if i < |rows| {
      assert r.nextId !in Keys(r.students);
      var st := SeedStudent(rows[i], i, r.nextId);
      var r' := Repo(Put(r.students, r.nextId, st), r.nextId + 1);
      assert r'.students == r.students + [Entry(i + 1, st)];
      SeedFromShape(rows, i + 1, r');
    }
  }

  /** The shape `ConstructEntries` establishes, kept abstract so that proofs about the
      fixtures need not unfold the constructor. */
  predicate Seeded(r: Repo) {
    && |r.students| == 5
    && forall k :: 0 <= k < 5 ==> r.students[k] == Entry(k + 1, SeedStudent(SeedRows[k], k, k + 1))
  }

  /** After construction: five students with ids 1..5 in order, built from the fixture
      rows, and `nextId` 6. */
  lemma ConstructEntries()
    ensures Seeded(Construct()) && Construct().nextId == 6
  {
    SeedFromShape(SeedRows, 0, Repo([], 1));
  }

  /** The fixture codes for the single-digit counters: `2024-0000` and the digit. */
  lemma SeedCodigoDigit(k: int)
    requires 0 <= k < 10
    ensures SeedCodigo(k) == "2024-0000" + [Text.DigitChar(k)]
  {
    assert Text.NatToString(k) == [Text.DigitChar(k)];
    assert Text.Zeros(4) == "0000";
  }

  /** A fixture code is the helper's code for the year 2024, so it passes the code
      validator exactly when the counter fits in five digits. */
  lemma SeedCodigoValid(k: int)
    ensures SeedCodigo(k) == Helpers.GenerarCodigoEstudiante(2024, k)
    ensures Validator.CodigoEstudiante(Some(SeedCodigo(k))) <==> 0 <= k <= 99999
  {
    FixtureYear();
    Helpers.CodigoValidExactly(2024, k);
  }

  /** The fixture year renders as its four digits. */
  lemma FixtureYear()
    ensures Text.FormatInt(2024, 4) == "2024"
  {
    assert Text.NatToString(2) == "2";
    assert Text.NatToString(20) == Text.NatToString(2) + "0";
    assert Text.NatToString(202) == Text.NatToString(20) + "2";
    assert Text.NatToString(2024) == Text.NatToString(202) + "4";
  }

  /** A seeded store is valid, only the fifth student is inactive, and the codes run
      from 2024-00001 to 2024-00005. */
  lemma SeededShape(r: Repo)
    requires Seeded(r)
    ensures Valid(r)
    ensures forall k :: 0 <= k < 5 ==> r.students[k].key == k + 1
    ensures forall k :: 0 <= k < 5 ==> r.students[k].value.codigo == "2024-0000" + [Text.DigitChar(k + 1)]
    ensures forall k :: 0 <= k < 5 ==> (r.students[k].value.estado == Inactive <==> r.students[k].key == 5)
  {
    forall k | 0 <= k < 5
      ensures r.students[k].value.codigo == "2024-0000" + [Text.DigitChar(k + 1)]
    {
      SeedCodigoDigit(k + 1);
    }
  }

  // ---------------------------------------------------------------- lookups

  /** `findAll`: the students in insertion order. */
  function FindAll(r: Repo): (all: seq<Student>)
    ensures |all| == |r.students|
    ensures forall i :: 0 <= i < |all| ==> all[i] == r.students[i].value
  {
    Values(r.students)
  }

  /** `findById`: the student stored under `id`, or null. */
  function FindById(r: Repo, id: int): (res: Option<Student>)
    ensures res.None? <==> id !in Keys(r.students)
    ensures res.Some? ==> Entry(id, res.value) in r.students
  {
    Get(r.students, id)
  }

  function HasCodigo(c: string): Student -> bool {
    (s: Student) => s.codigo == c
  }

  /** `findByCodigo`: the first stored student, in insertion order, with exactly that code. */
  function FindByCodigo(r: Repo, c: string): (res: Option<Student>)
    ensures res.None? <==> forall i :: 0 <= i < |r.students| ==> r.students[i].value.codigo != c
    ensures res.Some? ==> res.value.codigo == c
    ensures res.Some? ==> exists i :: (0 <= i < |r.students| && r.students[i].value == res.value
      && forall j :: 0 <= j < i ==> r.students[j].value.codigo != c)
  {
    var found := Filter(r.students, HasCodigo(c));
    FilterFirst(r.students, HasCodigo(c));
    if |found| > 0 then Some(found[0].value) else None
  }

  // ---------------------------------------------------------------- filters

  function MatchesQuery(q: string): Student -> bool {
    (s: Student) => Text.Contains(Text.ToLower(NombreCompleto(s)), Text.ToLower(q))
  }

  /** `search`: the students whose lower-cased full name contains the lower-cased query. */
  function Search(r: Repo, q: string): (res: seq<Entry<Student>>)
    ensures forall i :: 0 <= i < |res| ==> (res[i] in r.students
      && Text.Contains(Text.ToLower(NombreCompleto(res[i].value)), Text.ToLower(q)))
    ensures forall i :: 0 <= i < |r.students| ==>
      (Text.Contains(Text.ToLower(NombreCompleto(r.students[i].value)), Text.ToLower(q)) ==> r.students[i] in res)
  {
    Filter(r.students, MatchesQuery(q))
  }

  /** The search ignores the case of the query, and the empty query finds everyone. */
  lemma SearchCaseInsensitive(r: Repo, q: string)
    ensures Search(r, q) == Search(r, Text.ToLower(q))
    ensures Search(r, "") == r.students
  {
    Text.ToLowerIdempotent(q);
    FilterCongruent(r.students, MatchesQuery(q), MatchesQuery(Text.ToLower(q)));
    forall i | 0 <= i < |r.students| ensures MatchesQuery("")(r.students[i].value) {
      var hay := Text.ToLower(NombreCompleto(r.students[i].value));
      assert "" <= hay[0..];
    }
    FilterAll(r.students, MatchesQuery(""));
  }

  function InSemestre(sem: int): Student -> bool {
    (s: Student) => s.semestre == sem
  }

  /** `findBySemestre`. */
  function FindBySemestre(r: Repo, sem: int): (res: seq<Entry<Student>>)
    ensures forall i :: 0 <= i < |res| ==> res[i] in r.students && res[i].value.semestre == sem
    ensures forall i :: 0 <= i < |r.students| && r.students[i].value.semestre == sem ==> r.students[i] in res
  {
    Filter(r.students, InSemestre(sem))
  }

  function HasEstado(e: StudentStatus): Student -> bool {
    (s: Student) => s.estado == e
  }

  /** `findByEstado`. */
  function FindByEstado(r: Repo, e: StudentStatus): (res: seq<Entry<Student>>)
    ensures forall i :: 0 <= i < |res| ==> res[i] in r.students && res[i].value.estado == e
    ensures forall i :: 0 <= i < |r.students| && r.students[i].value.estado == e ==> r.students[i] in res
  {
    Filter(r.students, HasEstado(e))
  }

  function Passes(s: Student): bool { EstaAprobado(s) }

  /** `findAprobados`. */
  function FindAprobados(r: Repo): (res: seq<Entry<Student>>)
    ensures forall i :: 0 <= i < |res| ==> res[i] in r.students && EstaAprobado(res[i].value)
    ensures forall i :: 0 <= i < |r.students| && EstaAprobado(r.students[i].value) ==> r.students[i] in res
  {
    Filter(r.students, Passes)
  }

  /** `findReprobados`. */
  function FindReprobados(r: Repo): (res: seq<Entry<Student>>)
    ensures forall i :: 0 <= i < |res| ==> res[i] in r.students && !EstaAprobado(res[i].value)
    ensures forall i :: 0 <= i < |r.students| && !EstaAprobado(r.students[i].value) ==> r.students[i] in res
  {
    Filter(r.students, Not(Passes))
  }

  /** Passing and failing students partition the store. */
  lemma AprobadosReprobadosPartition(r: Repo)
    ensures |FindAprobados(r)| + |FindReprobados(r)| == |r.students|
    ensures forall i :: 0 <= i < |r.students| ==>
      (r.students[i] in FindAprobados(r) || r.students[i] in FindReprobados(r))
    ensures forall e :: e in FindAprobados(r) ==> e !in FindReprobados(r)
  {
    FilterPartition(r.students, Passes);
    forall e | e in FindAprobados(r) ensures e !in FindReprobados(r) {
      var i :| 0 <= i < |FindAprobados(r)| && FindAprobados(r)[i] == e;
      assert EstaAprobado(e.value);
    }
  }

  // ---------------------------------------------------------------- ordering

  function NegPromedio(s: Student): real { -Promedio(s) }

  /** `orderByPromedio`: every student once, by average, highest first when `descendente`. */
  function OrderByPromedio(r: Repo, descendente: bool): (res: seq<Student>)
    ensures multiset(res) == multiset(FindAll(r))
    ensures descendente ==> forall i, j :: 0 <= i < j < |res| ==> Promedio(res[i]) >= Promedio(res[j])
    ensures !descendente ==> forall i, j :: 0 <= i < j < |res| ==> Promedio(res[i]) <= Promedio(res[j])
  {
    var key := if descendente then NegPromedio else Promedio;
    var res := Sorting.Sort(FindAll(r), key);
    assert forall i, j :: 0 <= i < j < |res| ==> key(res[i]) <= key(res[j]);
    res
  }

  // ---------------------------------------------------------------- statistics

  datatype Estadisticas = Estadisticas(
    total: int,
    aprobados: int,
    reprobados: int,
    promedioGeneral: real,
    tasaAprobacion: real)

  /** Each student's average, in store order. */
  function Promedios(r: Repo): (ps: seq<real>)
    ensures |ps| == |r.students| && forall i :: 0 <= i < |ps| ==> ps[i] == Promedio(r.students[i].value)
  {
    seq(|r.students|, i requires 0 <= i < |r.students| => Promedio(r.students[i].value))
  }

  /** `getEstadisticas`: the counts, the pass rate as a percentage of the total and the
      overall mean, taken over the students' averages. */
  function GetEstadisticas(r: Repo): (e: Estadisticas)
    ensures e.total == |r.students|
    ensures e.aprobados == |FindAprobados(r)|
    ensures e.aprobados + e.reprobados == e.total && 0 <= e.reprobados
    ensures e.tasaAprobacion == Porcentaje(e.aprobados, e.total)
    ensures e.promedioGeneral == Calc.CalcularPromedio(Promedios(r))
  {
    var total := |r.students|;
    var aprobados := |FindAprobados(r)|;
    Estadisticas(total, aprobados, total - aprobados, Calc.CalcularPromedio(Promedios(r)),
      Porcentaje(aprobados, total))
  }

  /** The failing count is the size of `findReprobados`. */
  lemma EstadisticasReprobados(r: Repo)
    ensures GetEstadisticas(r).reprobados == |FindReprobados(r)|
  {
    FilterPartition(r.students, Passes);
  }

  /** `($part / $total) * 100`, or 0 for an empty total. */
  function Porcentaje(part: int, total: int): (p: real)
    ensures total == 0 ==> p == 0.0
    ensures total > 0 ==> p * total as real == 100.0 * part as real
    ensures 0 <= part <= total ==> 0.0 <= p <= 100.0
  {
    if total > 0 then
      var q := part as real / total as real;
      assert q * total as real == part as real;
      q * 100.0
    else 0.0
  }

  // ---------------------------------------------------------------- the seeded data

  /** The mean of four grades. */
  lemma PromedioOfFour(s: Student, a: real, b: real, c: real, d: real)
    requires s.notas == [a, b, c, d]
    ensures Promedio(s) == (a + b + c + d) / 4.0
  {
    var n := s.notas;
    assert Calc.Sum(n[3..]) == d by { assert n[3..][1..] == []; }
    assert Calc.Sum(n[2..]) == c + d by { assert n[2..][1..] == n[3..]; }
    assert Calc.Sum(n[1..]) == b + c + d by { assert n[1..][1..] == n[2..]; }
    assert Calc.Sum(n) == a + b + c + d;
  }

  /** The seeded averages: 88.75, 81.25, 94.75, 68.75 and 61.25. */
  lemma SeededPromedios(r: Repo)
    requires Seeded(r)
    ensures Promedios(r) == [88.75, 81.25, 94.75, 68.75, 61.25]
  {
    PromedioOfFour(r.students[0].value, 85.0, 90.0, 88.0, 92.0);
    PromedioOfFour(r.students[1].value, 78.0, 82.0, 85.0, 80.0);
    PromedioOfFour(r.students[2].value, 95.0, 92.0, 98.0, 94.0);
    PromedioOfFour(r.students[3].value, 65.0, 70.0, 68.0, 72.0);
    PromedioOfFour(r.students[4].value, 58.0, 62.0, 65.0, 60.0);
  }

  /** The mean of the five seeded averages. */
  lemma SeedMean(ps: seq<real>)
    requires ps == [88.75, 81.25, 94.75, 68.75, 61.25]
    ensures Calc.CalcularPromedio(ps) == 78.95
  {
    assert Calc.Sum(ps[4..]) == 61.25 by { assert ps[4..][1..] == []; }
    assert Calc.Sum(ps[3..]) == 68.75 + 61.25 by { assert ps[3..][1..] == ps[4..]; }
    assert Calc.Sum(ps[2..]) == 94.75 + 68.75 + 61.25 by { assert ps[2..][1..] == ps[3..]; }
    assert Calc.Sum(ps[1..]) == 81.25 + 94.75 + 68.75 + 61.25 by { assert ps[1..][1..] == ps[2..]; }
    assert Calc.Sum(ps) == 394.75;
  }

  /** With the fixtures everyone passes: 5 of 5, a 100% rate and an overall mean of 78.95. */
  lemma SeededEstadisticas(r: Repo)
    requires Seeded(r)
    ensures var e := GetEstadisticas(r);
      e.total == 5 && e.aprobados == 5 && e.reprobados == 0
      && e.tasaAprobacion == 100.0 && e.promedioGeneral == 78.95
  {
    SeededPromedios(r);
    var ps := Promedios(r);
    forall i | 0 <= i < 5 ensures Passes(r.students[i].value) {
      assert Promedio(r.students[i].value) == ps[i];
    }
    FilterAll(r.students, Passes);
    SeedMean(ps);
    assert Porcentaje(5, 5) == 100.0;
  }

  /** A student whose average beats every other student's heads the descending order. */
  lemma {:induction false} BestStudentFirst(r: Repo, k: int)
    requires 0 <= k < |r.students|
    requires forall j :: 0 <= j < |r.students| && j != k ==>
      Promedio(r.students[j].value) < Promedio(r.students[k].value)
    ensures var top := OrderByPromedio(r, true);
      |top| == |r.students| && top[0] == r.students[k].value
  {
    var all := FindAll(r);
    var top := OrderByPromedio(r, true);
    assert |top| == |multiset(top)| == |multiset(all)| == |all|;
    assert top[0] in multiset(all);
    var i :| 0 <= i < |all| && all[i] == top[0];
    assert all[k] in multiset(top);
    var m :| 0 <= m < |top| && top[m] == all[k];
  }

  /** Ordered by average, highest first, the fixtures start with student 3 (94.75). */
  lemma SeededTopStudent(r: Repo)
    requires Seeded(r)
    ensures var top := OrderByPromedio(r, true);
      |top| == 5 && top[0].id == Some(3)
  {
    SeededPromedios(r);
    forall j | 0 <= j < 5 && j != 2
      ensures Promedio(r.students[j].value) < Promedio(r.students[2].value)
    {
      assert Promedio(r.students[j].value) == Promedios(r)[j];
    }
    BestStudentFirst(r, 2);
  }
}
