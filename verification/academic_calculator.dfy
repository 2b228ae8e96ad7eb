/** The academic calculator (src/Services/AcademicCalculator.php): mean, letter grade,
    pass test, descriptive statistics and the grade still needed to pass, over grades
    as exact reals. */
module AcademicCalculator {
  import Sorting

  /** The pass mark the calculator and the student model use by default. */
  const PassMark: real := 60.0

  // ---------------------------------------------------------------- sums and means

  /** `array_sum`. */
  function Sum(s: seq<real>): real
  {
    if |s| == 0 then 0.0 else s[0] + Sum(s[1..])
  }

  lemma {:induction false} SumAppend(a: seq<real>, b: seq<real>)
    ensures Sum(a + b) == Sum(a) + Sum(b)
    decreases |a|
  {
    if |a| == 0 {
      assert a + b == b;
    } else {
      assert (a + b)[1..] == a[1..] + b;
      SumAppend(a[1..], b);
    }
  }

  /** Dropping the first grade removes one copy of it from the multiset. */
  lemma TailMultiset(a: seq<real>)
    requires |a| > 0
    ensures multiset(a[1..]) == multiset(a) - multiset{a[0]}
  {
    assert a == [a[0]] + a[1..];
  }

  lemma SplitAt(b: seq<real>, i: int)
    requires 0 <= i < |b|
    ensures b == b[..i] + [b[i]] + b[i + 1..]
  {
  }

  /** Dropping the grade at position `i` removes one copy of it from the multiset. */
  lemma RemoveAtMultiset(b: seq<real>, i: int)
    requires 0 <= i < |b|
    ensures multiset(b[..i] + b[i + 1..]) == multiset(b) - multiset{b[i]}
  {
    SplitAt(b, i);
  }

  /** The sum is the grade at position `i` plus the sum of the others. */
  lemma SumRemoveAt(b: seq<real>, i: int)
    requires 0 <= i < |b|
    ensures Sum(b) == b[i] + Sum(b[..i] + b[i + 1..])
  {
    SplitAt(b, i);
    SumSplit(b[..i], b[i], b[i + 1..]);
  }

  lemma SumSplit(x: seq<real>, v: real, y: seq<real>)
    ensures Sum(x + [v] + y) == v + Sum(x + y)
  {
    SumAppend(x + [v], y);
    SumAppend(x, [v]);
    SumAppend(x, y);
    SumSingle(v);
  }

  lemma SumSingle(v: real)
    ensures Sum([v]) == v
  {
    assert [v][1..] == [];
  }

  /** The sum does not depend on the order of the grades. */
  lemma {:induction false} SumPermutation(a: seq<real>, b: seq<real>)
    requires multiset(a) == multiset(b)
    ensures Sum(a) == Sum(b)
    decreases |a|
  {
    if |a| > 0 {
      assert a[0] in multiset(b);
      var i :| 0 <= i < |b| && b[i] == a[0];
      TailMultiset(a);
      RemoveAtMultiset(b, i);
      SumPermutation(a[1..], b[..i] + b[i + 1..]);
      SumRemoveAt(b, i);
    } else {
      assert |b| == |multiset(b)| == 0;
    }
  }

  /** Every grade at least `lo` (at most `hi`) bounds the sum by `n·lo` (`n·hi`). */
  lemma {:induction false} SumBounds(s: seq<real>, lo: real, hi: real)
    requires forall i :: 0 <= i < |s| ==> lo <= s[i] <= hi
    ensures |s| as real * lo <= Sum(s) <= |s| as real * hi
    decreases |s|
  {
    if |s| > 0 {
      SumBounds(s[1..], lo, hi);
    }
  }

  /** `calcularPromedio`: the arithmetic mean, 0 for no grades. */
  function CalcularPromedio(notas: seq<real>): (r: real)
    ensures |notas| == 0 ==> r == 0.0
    ensures |notas| > 0 ==> r * |notas| as real == Sum(notas)
  {
    if |notas| == 0 then 0.0 else Sum(notas) / |notas| as real
  }

  // ---------------------------------------------------------------- letters and passing

  /** `obtenerLetra`: the first band the average reaches. */
  function ObtenerLetra(promedio: real): string
  {
    if promedio >= 90.0 then "A"
    else if promedio >= 80.0 then "B"
    else if promedio >= 70.0 then "C"
    else if promedio >= 60.0 then "D"
    else "F"
  }

  /** The rank of a letter, from F (0) to A (4). */
  function LetterRank(l: string): int
  {
    if l == "A" then 4 else if l == "B" then 3 else if l == "C" then 2 else if l == "D" then 1 else 0
  }

  /** The letter bands, stated as the half-open intervals they cover. */
  lemma LetterBands(p: real)
    ensures ObtenerLetra(p) == "A" <==> 90.0 <= p
    ensures ObtenerLetra(p) == "B" <==> 80.0 <= p < 90.0
    ensures ObtenerLetra(p) == "C" <==> 70.0 <= p < 80.0
    ensures ObtenerLetra(p) == "D" <==> 60.0 <= p < 70.0
    ensures ObtenerLetra(p) == "F" <==> p < 60.0
  {
  }

  /** A higher average never earns a worse letter. */
  lemma LetterMonotone(p: real, q: real)
    requires p <= q
    ensures LetterRank(ObtenerLetra(p)) <= LetterRank(ObtenerLetra(q))
  {
  }

  /** `aprobo($promedio, $notaMinima)`. */
  function Aprobo(promedio: real, notaMinima: real): bool
  {
    promedio >= notaMinima
  }

  /** With the default pass mark, passing is exactly not getting an F. */
  lemma PassingIsNotF(p: real)
    ensures Aprobo(p, PassMark) <==> ObtenerLetra(p) != "F"
  {
  }

  // ---------------------------------------------------------------- min, max, median

  /** `min($notas)`. */
  function Min(s: seq<real>): (m: real)
    requires |s| > 0
    ensures m in s
    ensures forall i :: 0 <= i < |s| ==> m <= s[i]
  {
    if |s| == 1 then s[0]
    else
      var rest := Min(s[1..]);
      if s[0] <= rest then s[0] else rest
  }

  /** `max($notas)`. */
  function Max(s: seq<real>): (m: real)
    requires |s| > 0
    ensures m in s
    ensures forall i :: 0 <= i < |s| ==> s[i] <= m
  {
    if |s| == 1 then s[0]
    else
      var rest := Max(s[1..]);
      if s[0] >= rest then s[0] else rest
  }

  function Id(x: real): real { x }

  /** Ascending order on grades. */
  predicate Sorted(s: seq<real>) {
    forall i, j :: 0 <= i < j < |s| ==> s[i] <= s[j]
  }

  /** The grades after `sort($notas)`. */
  function SortedGrades(s: seq<real>): (t: seq<real>)
    ensures |t| == |s| && multiset(t) == multiset(s) && Sorted(t)
  {
    var t := Sorting.Sort(s, Id);
    assert Sorted(t) by {
      forall i, j | 0 <= i < j < |t| ensures t[i] <= t[j] {
        assert Id(t[i]) <= Id(t[j]);
      }
    }
    t
  }

  /** The first grade of a sorted sequence is at most any of its grades. */
  lemma FirstIsLeast(a: seq<real>, x: real)
    requires Sorted(a) && x in multiset(a)
    ensures a[0] <= x
  {
    var j :| 0 <= j < |a| && a[j] == x;
  }

  lemma SortedTail(a: seq<real>)
    requires |a| > 0 && Sorted(a)
    ensures Sorted(a[1..])
  {
    forall i, j | 0 <= i < j < |a| - 1 ensures a[1..][i] <= a[1..][j] {
      assert a[1..][i] == a[i + 1] && a[1..][j] == a[j + 1];
    }
  }

  /** Two sorted sequences with the same grades start with the same grade, and their
      tails hold the same grades too. */
  lemma SameHead(a: seq<real>, b: seq<real>)
    requires Sorted(a) && Sorted(b) && |a| > 0
    requires multiset(a) == multiset(b)
    ensures |b| > 0 && a[0] == b[0] && multiset(a[1..]) == multiset(b[1..])
  {
    assert |a| == |multiset(a)| == |b|;
    FirstIsLeast(a, b[0]);
    FirstIsLeast(b, a[0]);
    TailMultiset(a);
    TailMultiset(b);
  }

  lemma ConsEqual(a: seq<real>, b: seq<real>)
    requires |a| > 0 && |b| > 0 && a[0] == b[0] && a[1..] == b[1..]
    ensures a == b
  {
    assert a == [a[0]] + a[1..] && b == [b[0]] + b[1..];
  }

  /** A sorted sequence is determined by its multiset of elements. */
  lemma {:induction false} SortedUnique(a: seq<real>, b: seq<real>)
    requires Sorted(a) && Sorted(b)
    requires multiset(a) == multiset(b)
    ensures a == b
    decreases |a|
  {
    if |a| > 0 {
      SameHead(a, b);
      SortedTail(a);
      SortedTail(b);
      SortedUnique(a[1..], b[1..]);
      ConsEqual(a, b);
    } else {
      assert |b| == |multiset(b)| == 0;
    }
  }

  /** The middle of a sorted list of grades: the middle grade for an odd count, the mean
      of the two middle ones for an even count. */
  function MedianaOrdenada(t: seq<real>): real
    requires |t| > 0
  {
    var medio := |t| / 2;
    if |t| % 2 == 0 then (t[medio - 1] + t[medio]) / 2.0 else t[medio]
  }

  /** The median as `calcularEstadisticas` computes it: the middle of the sorted grades. */
  function Mediana(s: seq<real>): real
    requires |s| > 0
  {
    MedianaOrdenada(SortedGrades(s))
  }

  /** A grade lies between the smallest and the largest grade. */
  lemma BetweenMinMax(s: seq<real>, x: real)
    requires x in s
    ensures Min(s) <= x <= Max(s)
  {
    var i :| 0 <= i < |s| && s[i] == x;
  }

  /** Every position of the sorted grades holds one of the grades. */
  lemma SortedGradeIn(s: seq<real>, i: int)
    requires 0 <= i < |s|
    ensures SortedGrades(s)[i] in s
  {
    var t := SortedGrades(s);
    assert t[i] in multiset(t);
  }

  /** The middle of a sorted list lies between any bounds of its middle grade(s). */
  lemma MedianaOrdenadaBetween(t: seq<real>, lo: real, hi: real)
    requires |t| > 0 && lo <= t[|t| / 2] <= hi
    requires |t| % 2 == 0 ==> lo <= t[|t| / 2 - 1] <= hi
    ensures lo <= MedianaOrdenada(t) <= hi
    ensures |t| % 2 == 1 ==> MedianaOrdenada(t) == t[|t| / 2]
  {
  }

  /** The median lies between the smallest and the largest grade, and for an odd count
      it is one of the grades. */
  lemma MedianaBounds(s: seq<real>)
    requires |s| > 0
    ensures Min(s) <= Mediana(s) <= Max(s)
    ensures |s| % 2 == 1 ==> Mediana(s) in s
  {
    var t := SortedGrades(s);
    var medio := |t| / 2;
    SortedGradeIn(s, medio);
    BetweenMinMax(s, t[medio]);
    if |t| % 2 == 0 {
      SortedGradeIn(s, medio - 1);
      BetweenMinMax(s, t[medio - 1]);
    }
    MedianaOrdenadaBetween(t, Min(s), Max(s));
  }

  // ---------------------------------------------------------------- statistics

  datatype Estadisticas = Estadisticas(
    promedio: real,
    minimo: real,
    maximo: real,
    mediana: real,
    totalNotas: int)

  /** PHP's `round($x, 2)` on an exact value: to the nearest hundredth, halves away
      from zero. */
  function Round2(x: real): (r: real)
    ensures -0.005 <= r - x <= 0.005
    ensures (r * 100.0).Floor as real == r * 100.0
  {
    var y := if x >= 0.0 then x * 100.0 else -x * 100.0;
    var f := (y + 0.5).Floor;
    var r := if x >= 0.0 then f as real / 100.0 else -(f as real) / 100.0;
    RoundStep(x, y, f, r);
    r
  }

  lemma RoundStep(x: real, y: real, f: int, r: real)
    requires y == if x >= 0.0 then x * 100.0 else -x * 100.0
    requires f == (y + 0.5).Floor
    requires r == if x >= 0.0 then f as real / 100.0 else -(f as real) / 100.0
    ensures -0.005 <= r - x <= 0.005
    ensures (r * 100.0).Floor as real == r * 100.0
  {
    assert f as real <= y + 0.5 < f as real + 1.0;
    var g := if x >= 0.0 then f else -f;
    assert r * 100.0 == g as real;
    assert (g as real).Floor == g;
  }

  /** Rounding keeps values that already have at most two decimals. */
  lemma Round2Exact(k: int)
    ensures Round2(k as real / 100.0) == k as real / 100.0
  {
    var x := k as real / 100.0;
    assert x * 100.0 == k as real;
    if x >= 0.0 {
      assert (x * 100.0 + 0.5).Floor == k;
    } else {
      assert (-x * 100.0 + 0.5).Floor == -k;
    }
  }

  /** The statistics before rounding; all zero for no grades. */
  function EstadisticasSinRedondeo(notas: seq<real>): (e: Estadisticas)
    ensures e.totalNotas == |notas|
    ensures |notas| == 0 ==> e == Estadisticas(0.0, 0.0, 0.0, 0.0, 0)
  {
    if |notas| == 0 then Estadisticas(0.0, 0.0, 0.0, 0.0, 0)
    else Estadisticas(CalcularPromedio(notas), Min(notas), Max(notas), Mediana(notas), |notas|)
  }

  /** `calcularEstadisticas`: the statistics with mean and median rounded to two decimals. */
  function CalcularEstadisticas(notas: seq<real>): (e: Estadisticas)
    ensures e.totalNotas == |notas|
    ensures |notas| == 0 ==> e == Estadisticas(0.0, 0.0, 0.0, 0.0, 0)
    ensures |notas| > 0 ==> e.minimo in notas && e.maximo in notas
    ensures |notas| > 0 ==> e.minimo == Min(notas) && e.maximo == Max(notas)
    ensures forall i :: 0 <= i < |notas| ==> e.minimo <= notas[i] <= e.maximo
    ensures |notas| > 0 ==> -0.005 <= e.promedio - CalcularPromedio(notas) <= 0.005
    ensures |notas| > 0 ==> -0.005 <= e.mediana - Mediana(notas) <= 0.005
    ensures (e.promedio * 100.0).Floor as real == e.promedio * 100.0
    ensures (e.mediana * 100.0).Floor as real == e.mediana * 100.0
  {
    var raw := EstadisticasSinRedondeo(notas);
    if |notas| == 0 then raw
    else raw.(promedio := Round2(raw.promedio), mediana := Round2(raw.mediana))
  }

  /** For grades, the unrounded mean and median lie between the minimum and maximum,
      which are grades themselves. */
  lemma EstadisticasOrdered(notas: seq<real>)
    requires |notas| > 0
    ensures var e := EstadisticasSinRedondeo(notas);
      && e.minimo in notas && e.maximo in notas
      && e.minimo <= e.promedio <= e.maximo
      && e.minimo <= e.mediana <= e.maximo
  {
    var e := EstadisticasSinRedondeo(notas);
    PromedioWithin(notas, e.minimo, e.maximo);
    MedianaBounds(notas);
  }

  /** When every grade lies between `lo` and `hi`, so does the mean. */
  lemma PromedioWithin(notas: seq<real>, lo: real, hi: real)
    requires |notas| > 0
    requires forall i :: 0 <= i < |notas| ==> lo <= notas[i] <= hi
    ensures lo <= CalcularPromedio(notas) <= hi
  {
    var n := |notas| as real;
    SumBounds(notas, lo, hi);
    MeanBetween(lo, Sum(notas), hi, n);
  }

  lemma MeanBetween(lo: real, total: real, hi: real, n: real)
    requires n > 0.0 && n * lo <= total <= n * hi
    ensures lo <= total / n <= hi
  {
    var m := total / n;
    assert m * n == total;
  }

  /** No statistic depends on the order in which the grades were recorded. */
  lemma EstadisticasOrderIndependent(a: seq<real>, b: seq<real>)
    requires multiset(a) == multiset(b)
    ensures CalcularEstadisticas(a) == CalcularEstadisticas(b)
  {
    assert |a| == |multiset(a)| == |b|;
    if |a| > 0 {
      SumPermutation(a, b);
      MinMaxPermutation(a, b);
      MedianaPermutation(a, b);
      assert EstadisticasSinRedondeo(a) == EstadisticasSinRedondeo(b);
    }
  }

  lemma MinMaxPermutation(a: seq<real>, b: seq<real>)
    requires |a| > 0 && |b| > 0 && multiset(a) == multiset(b)
    ensures Min(a) == Min(b) && Max(a) == Max(b)
  {
    assert Min(a) in multiset(b) && Min(b) in multiset(a);
    assert Max(a) in multiset(b) && Max(b) in multiset(a);
  }

  lemma MedianaPermutation(a: seq<real>, b: seq<real>)
    requires |a| > 0 && multiset(a) == multiset(b)
    ensures |b| > 0 && Mediana(a) == Mediana(b)
  {
    assert |a| == |multiset(a)| == |b|;
    SortedUnique(SortedGrades(a), SortedGrades(b));
  }

  /** For grades already in order, the median reads the middle position(s) directly. */
  lemma MedianaOfSorted(s: seq<real>)
    requires |s| > 0 && Sorted(s)
    ensures Mediana(s) == MedianaOrdenada(s)
    ensures Mediana(s) == if |s| % 2 == 0 then (s[|s| / 2 - 1] + s[|s| / 2]) / 2.0 else s[|s| / 2]
  {
    SortedUnique(SortedGrades(s), s);
  }

  /** The median examples: 70 for [60, 70, 80] and 75 for [60, 70, 80, 90]. */
  lemma MedianaExamples(odd: seq<real>, even: seq<real>)
    requires odd == [60.0, 70.0, 80.0] && even == [60.0, 70.0, 80.0, 90.0]
    ensures Mediana(odd) == 70.0 && Mediana(even) == 75.0
  {
    MedianaOddExample(odd);
    MedianaEvenExample(even);
  }

  lemma MedianaOddExample(odd: seq<real>)
    requires odd == [60.0, 70.0, 80.0]
    ensures Mediana(odd) == 70.0
  {
    MedianaOfThree(odd);
  }

  lemma MedianaEvenExample(even: seq<real>)
    requires even == [60.0, 70.0, 80.0, 90.0]
    ensures Mediana(even) == 75.0
  {
    MedianaOfFour(even);
  }

  /** The median of three grades in order is the middle one. */
  lemma MedianaOfThree(s: seq<real>)
    requires |s| == 3 && s[0] <= s[1] <= s[2]
    ensures Mediana(s) == s[1]
  {
    assert Sorted(s) by {
      forall i, j | 0 <= i < j < 3 ensures s[i] <= s[j] { }
    }
    MedianaOfSorted(s);
    assert |s| / 2 == 1 && |s| % 2 == 1;
  }

  /** The median of four grades in order is the mean of the middle two. */
  lemma MedianaOfFour(s: seq<real>)
    requires |s| == 4 && s[0] <= s[1] <= s[2] <= s[3]
    ensures Mediana(s) == (s[1] + s[2]) / 2.0
  {
    assert Sorted(s) by {
      forall i, j | 0 <= i < j < 4 ensures s[i] <= s[j] { }
    }
    MedianaOfSorted(s);
    assert |s| / 2 == 2 && |s| % 2 == 0;
  }

  // ---------------------------------------------------------------- grade needed to pass

  /** `notaNecesariaParaAprobar`: the grade each missing assessment needs for the final
      mean over `totalNotas` assessments to reach `promedioMinimo`; 0 when none is missing. */
  function NotaNecesariaParaAprobar(actuales: seq<real>, totalNotas: int, promedioMinimo: real): (r: real)
    ensures totalNotas <= |actuales| ==> r == 0.0
    ensures totalNotas > |actuales| ==>
      Sum(actuales) + r * (totalNotas - |actuales|) as real == promedioMinimo * totalNotas as real
  {
    var faltantes := totalNotas - |actuales|;
    if faltantes <= 0 then 0.0
    else (promedioMinimo * totalNotas as real - Sum(actuales)) / faltantes as real
  }

  function Repeat(x: real, k: nat): (s: seq<real>)
    ensures |s| == k && forall i :: 0 <= i < k ==> s[i] == x
  {
    seq(k, _ => x)
  }

  lemma {:induction false} SumRepeat(x: real, k: nat)
    ensures Sum(Repeat(x, k)) == k as real * x
  {
    if k > 0 {
      assert Repeat(x, k)[1..] == Repeat(x, k - 1);
      SumRepeat(x, k - 1);
    }
  }

  /** Scoring the needed grade on every missing assessment yields exactly the pass mark. */
  lemma NotaNecesariaCompletes(actuales: seq<real>, totalNotas: int, promedioMinimo: real)
    requires totalNotas > |actuales|
    ensures var r := NotaNecesariaParaAprobar(actuales, totalNotas, promedioMinimo);
      var completas := actuales + Repeat(r, totalNotas - |actuales|);
      |completas| == totalNotas && CalcularPromedio(completas) == promedioMinimo
  {
    var r := NotaNecesariaParaAprobar(actuales, totalNotas, promedioMinimo);
    var k := totalNotas - |actuales|;
    var completas := actuales + Repeat(r, k);
    var n := totalNotas as real;
    SumAppend(actuales, Repeat(r, k));
    SumRepeat(r, k);
    assert Sum(actuales) + r * k as real == promedioMinimo * n;
    assert Sum(completas) == Sum(actuales) + k as real * r;
    MulComm(r, k as real);
    assert Sum(completas) == promedioMinimo * n;
    assert |completas| == totalNotas;
    DivCancel(promedioMinimo, n);
  }

  lemma MulComm(a: real, b: real)
    ensures a * b == b * a
  {
  }

  lemma DivCancel(a: real, n: real)
    requires n != 0.0
    ensures (a * n) / n == a
  {
  }
}
