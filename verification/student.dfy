/** The student record (src/Models/Student.php) and the values derived from it: full
    name, average, pass and activity flags, its array form and its academic report. */
module StudentModel {
  import opened Wrappers
  import opened Status
  import Text
  import Calc = AcademicCalculator

  datatype Student = Student(
    id: Option<int>,
    codigo: string,
    nombre: string,
    apellidoPaterno: string,
    apellidoMaterno: string,
    email: string,
    ci: string,
    telefono: Option<string>,
    semestre: int,
    estado: StudentStatus,
    notas: seq<real>)

  /** `getNombreCompleto`: the given name and both surnames, separated by single spaces. */
  function NombreCompleto(s: Student): (r: string)
    ensures |r| == |s.nombre| + |s.apellidoPaterno| + |s.apellidoMaterno| + 2
  {
    s.nombre + " " + s.apellidoPaterno + " " + s.apellidoMaterno
  }

  /** When no name part contains a space, the full name splits back into its parts. */
  lemma NombreCompletoSplits(s: Student)
    requires ' ' !in s.nombre && ' ' !in s.apellidoPaterno && ' ' !in s.apellidoMaterno
    ensures Text.Split(NombreCompleto(s), ' ') == [s.nombre, s.apellidoPaterno, s.apellidoMaterno]
  {
    var parts := [s.nombre, s.apellidoPaterno, s.apellidoMaterno];
    assert Text.Join(parts, ' ') == NombreCompleto(s) by {
      assert Text.Join(parts[1..], ' ') == s.apellidoPaterno + " " + s.apellidoMaterno by {
        assert parts[1..][1..] == [s.apellidoMaterno];
      }
    }
    Text.SplitJoin(parts, ' ');
  }

  /** `agregarNota`: appends one grade and touches nothing else. */
  function AgregarNota(s: Student, nota: real): (r: Student)
    ensures |r.notas| == |s.notas| + 1 && r.notas[..|s.notas|] == s.notas
    ensures r.notas[|s.notas|] == nota
    ensures r.(notas := s.notas) == s
  {
    s.(notas := s.notas + [nota])
  }

  /** `getPromedio`: the mean grade, 0 with no grades. */
  function Promedio(s: Student): (r: real)
    ensures |s.notas| == 0 ==> r == 0.0
    ensures |s.notas| > 0 ==> r * |s.notas| as real == Calc.Sum(s.notas)
  {
    if |s.notas| == 0 then 0.0 else Calc.Sum(s.notas) / |s.notas| as real
  }

  /** The student's average is the calculator's mean of the same grades. */
  lemma PromedioIsCalculatorMean(s: Student)
    ensures Promedio(s) == Calc.CalcularPromedio(s.notas)
  {
  }

  /** Adding a grade moves the total by exactly that grade. */
  lemma PromedioAfterAgregarNota(s: Student, nota: real)
    ensures Promedio(AgregarNota(s, nota)) * (|s.notas| + 1) as real
         == Promedio(s) * |s.notas| as real + nota
  {
    Calc.SumAppend(s.notas, [nota]);
    assert Calc.Sum([nota]) == nota;
  }

  /** `estaAprobado`. */
  predicate EstaAprobado(s: Student) {
    Promedio(s) >= Calc.PassMark
  }

  /** `estaActivo`. */
  predicate EstaActivo(s: Student) {
    s.estado == Active
  }

  /** The pass flag agrees with the calculator's pass test and letter. */
  lemma EstaAprobadoAgrees(s: Student)
    ensures EstaAprobado(s) <==> Calc.Aprobo(Calc.CalcularPromedio(s.notas), Calc.PassMark)
    ensures EstaAprobado(s) <==> Calc.ObtenerLetra(Promedio(s)) != "F"
  {
  }

  /** The associative array `toArray` returns. */
  datatype StudentArray = StudentArray(
    id: Option<int>,
    codigo: string,
    nombre: string,
    apellidoPaterno: string,
    apellidoMaterno: string,
    nombreCompleto: string,
    email: string,
    ci: string,
    telefono: Option<string>,
    semestre: int,
    estado: string,
    estadoLabel: string,
    notas: seq<real>,
    promedio: real,
    aprobado: bool,
    activo: bool)

  /** `toArray`: the stored fields with the derived values beside them. */
  function ToArray(s: Student): (a: StudentArray)
    ensures a.nombreCompleto == NombreCompleto(s)
    ensures a.promedio == Calc.CalcularPromedio(s.notas)
    ensures a.aprobado <==> a.promedio >= Calc.PassMark
    ensures a.activo <==> a.estado == "active"
    ensures a.estadoLabel == StatusLabel(s.estado)
    ensures a.estado in {"active", "inactive", "graduated", "suspended"} && StatusFrom(a.estado) == s.estado
  {
    StudentArray(s.id, s.codigo, s.nombre, s.apellidoPaterno, s.apellidoMaterno,
      NombreCompleto(s), s.email, s.ci, s.telefono, s.semestre,
      StatusValue(s.estado), StatusLabel(s.estado), s.notas,
      Promedio(s), EstaAprobado(s), EstaActivo(s))
  }

  /** The academic report `generarReporte` returns. */
  datatype Reporte = Reporte(
    id: Option<int>,
    codigo: string,
    nombreCompleto: string,
    email: string,
    semestre: int,
    notas: seq<real>,
    promedio: real,
    letra: string,
    aprobado: bool,
    mejorNota: real,
    peorNota: real,
    mediana: real,
    activo: bool,
    estadoLabel: string)

  /** `generarReporte`: letter and pass flag come from the rounded average. */
  function GenerarReporte(s: Student): (r: Reporte)
    ensures r.notas == s.notas
    ensures |s.notas| > 0 ==> r.mejorNota == Calc.Max(s.notas) && r.peorNota == Calc.Min(s.notas)
    ensures |s.notas| == 0 ==> r.mejorNota == 0.0 && r.peorNota == 0.0 && r.promedio == 0.0
    ensures -0.005 <= r.promedio - Promedio(s) <= 0.005
    ensures r.aprobado <==> r.promedio >= Calc.PassMark
    ensures r.letra == Calc.ObtenerLetra(r.promedio)
  {
    var stats := Calc.CalcularEstadisticas(s.notas);
    Reporte(s.id, s.codigo, NombreCompleto(s), s.email, s.semestre,
      s.notas, stats.promedio, Calc.ObtenerLetra(stats.promedio),
      Calc.Aprobo(stats.promedio, Calc.PassMark), stats.maximo, stats.minimo, stats.mediana,
      EstaActivo(s), StatusLabel(s.estado))
  }

  /** Because the report rounds first, it can pass a student whose exact average fails:
      a single grade of 59.996 rounds to 60.00. */
  lemma ReportRoundingCanPass(s: Student)
    requires s.notas == [59.996]
    ensures !EstaAprobado(s) && GenerarReporte(s).aprobado
  {
    assert Calc.Sum(s.notas) == 59.996;
    assert Calc.Round2(59.996) == 60.0 by {
      assert (59.996 * 100.0 + 0.5).Floor == 6000;
    }
  }
}
