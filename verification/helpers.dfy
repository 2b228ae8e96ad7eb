/** The string helpers of src/Utils/Helpers.php: student codes, initials, phone layout
    and truncation. The multibyte functions (`mb_substr`, `mb_strlen`) count characters,
    which is what `|s|` counts here; `mb_strtoupper` is modelled on ASCII letters. */
module Helpers {
  import opened Wrappers
  import Text
  import Validator
  import StudentModel

  // ---------------------------------------------------------------- generarCodigoEstudiante

  /** `generarCodigoEstudiante`: `sprintf('%04d-%05d', $anio, $numero)`, the year being the
      one `date('Y')` reads from the clock, passed in. */
  function GenerarCodigoEstudiante(anio: int, numero: int): (r: string)
    ensures |r| >= 10
  {
    Text.FormatInt(anio, 4) + "-" + Text.FormatInt(numero, 5)
  }

  /** A generated code passes the code validator exactly when the year fits in four
      digits and the number in five, neither being negative. */
  lemma CodigoValidExactly(anio: int, numero: int)
    ensures Validator.CodigoEstudiante(Some(GenerarCodigoEstudiante(anio, numero)))
        <==> 0 <= anio <= 9999 && 0 <= numero <= 99999
  {
    if 0 <= anio <= 9999 && 0 <= numero <= 99999 {
      CodigoValidInRange(anio, numero);
    }
    if Validator.CodigoEstudiante(Some(GenerarCodigoEstudiante(anio, numero))) {
      CodigoInRangeIfValid(anio, numero);
    }
  }

  /** A generated code has no surrounding whitespace: it starts with a digit or a minus
      sign and ends with a digit. */
  lemma CodigoUntrimmed(anio: int, numero: int)
    ensures Text.Trim(GenerarCodigoEstudiante(anio, numero)) == GenerarCodigoEstudiante(anio, numero)
  {
    var a, n := Text.FormatInt(anio, 4), Text.FormatInt(numero, 5);
    var r := GenerarCodigoEstudiante(anio, numero);
    Text.FormatIntShape(anio, 4);
    Text.FormatIntShape(numero, 5);
    assert r[0] == a[0] && r[|r| - 1] == n[|n| - 1];
    assert !Text.IsTrimChar(r[0]) by {
      if anio >= 0 {
        assert Text.IsDigit(a[0]);
      }
    }
    Text.TrimUnpadded(r);
  }

  lemma CodigoValidInRange(anio: int, numero: int)
    requires 0 <= anio <= 9999 && 0 <= numero <= 99999
    ensures Validator.CodigoEstudiante(Some(GenerarCodigoEstudiante(anio, numero)))
  {
    var a, n := Text.FormatInt(anio, 4), Text.FormatInt(numero, 5);
    var r := GenerarCodigoEstudiante(anio, numero);
    CodigoUntrimmed(anio, numero);
    Text.FormatIntShape(anio, 4);
    Text.FormatIntShape(numero, 5);
    Text.Pow10FourFive();
    assert r[..4] == a && r[4] == '-' && r[5..] == n;
  }

  lemma CodigoInRangeIfValid(anio: int, numero: int)
    requires Validator.CodigoEstudiante(Some(GenerarCodigoEstudiante(anio, numero)))
    ensures 0 <= anio <= 9999 && 0 <= numero <= 99999
  {
    var a, n := Text.FormatInt(anio, 4), Text.FormatInt(numero, 5);
    var r := GenerarCodigoEstudiante(anio, numero);
    CodigoUntrimmed(anio, numero);
    Text.FormatIntShape(anio, 4);
    Text.FormatIntShape(numero, 5);
    PatternBlocks(a, n);
    assert Text.IsDigit(a[0]) && Text.IsDigit(n[0]);
    Text.Pow10FourFive();
  }

  /** A code of at least four characters, a dash and at least five that matches the
      pattern has exactly four and five, all digits. */
  lemma PatternBlocks(a: string, n: string)
    requires |a| >= 4 && |n| >= 5 && Validator.CodigoPattern(a + "-" + n)
    ensures |a| == 4 && |n| == 5 && Text.AllDigits(a) && Text.AllDigits(n)
  {
    var r := a + "-" + n;
    assert r[..4] == a && r[5..] == n;
  }

  /** Within range, both blocks of a generated code read back as the year and the number. */
  lemma CodigoReadsBack(anio: int, numero: int)
    requires 0 <= anio <= 9999 && 0 <= numero <= 99999
    ensures var r := GenerarCodigoEstudiante(anio, numero);
      |r| == 10 && Text.AllDigits(r[..4]) && Text.AllDigits(r[5..])
      && Text.ParseNat(r[..4]) == anio && Text.ParseNat(r[5..]) == numero
  {
    var a, n := Text.FormatInt(anio, 4), Text.FormatInt(numero, 5);
    var r := GenerarCodigoEstudiante(anio, numero);
    CodigoValidExactly(anio, numero);
    Text.FormatIntShape(anio, 4);
    Text.FormatIntShape(numero, 5);
    Text.Pow10FourFive();
    assert r[..4] == a && r[5..] == n;
    Text.FormatIntParses(anio, 4);
    Text.FormatIntParses(numero, 5);
  }

  // ---------------------------------------------------------------- generarIniciales

  /** `array_map(fn($p) => mb_substr($p, 0, 1), ...)` then `implode('', ...)`: the first
      character of every word, an empty word contributing nothing. */
  function Firsts(words: seq<string>): (r: string)
    ensures |r| <= |words|
    decreases |words|
  {
    if |words| == 0 then ""
    else (if |words[0]| == 0 then "" else words[0][..1]) + Firsts(words[1..])
  }

  /** An independent reading of "initials": scanning left to right, every non-space
      character that opens the text or follows a space. */
  function WordStarts(s: string, atStart: bool): (r: string)
    ensures |r| <= |s|
    ensures forall i :: 0 <= i < |r| ==> r[i] != ' ' && r[i] in s
    decreases |s|
  {
    if |s| == 0 then ""
    else if s[0] == ' ' then WordStarts(s[1..], true)
    else (if atStart then [s[0]] else "") + WordStarts(s[1..], false)
  }

  /** The initials of the words of `explode(' ', s)` are exactly the characters the scan
      finds; without the first word, those it finds after the first character. */
  lemma {:induction false} FirstsSplit(s: string)
    ensures Firsts(Text.Split(s, ' ')) == WordStarts(s, true)
    ensures Firsts(Text.Split(s, ' ')[1..]) == WordStarts(s, false)
    decreases |s|
  {
    if |s| > 0 {
      FirstsSplit(s[1..]);
      var rest := Text.Split(s[1..], ' ');
      if s[0] == ' ' {
        assert Text.Split(s, ' ') == [""] + rest;
        assert ([""] + rest)[1..] == rest;
      } else {
        var words := Text.Split(s, ' ');
        assert words == [[s[0]] + rest[0]] + rest[1..];
        assert words[1..] == rest[1..];
        assert words[0][..1] == [s[0]];
      }
    }
  }

  /** `generarIniciales`: the upper-cased first character of each space-separated word. */
  function GenerarIniciales(nombreCompleto: string): (r: string)
    ensures r == Text.ToUpper(WordStarts(nombreCompleto, true))
    ensures |r| <= |nombreCompleto|
  {
    FirstsSplit(nombreCompleto);
    Text.ToUpper(Firsts(Text.Split(nombreCompleto, ' ')))
  }

  /** For a student whose name parts are non-empty and free of spaces, the initials are
      the upper-cased first letters of the given name and of both surnames. */
  lemma InicialesOfNombreCompleto(s: StudentModel.Student)
    requires ' ' !in s.nombre && ' ' !in s.apellidoPaterno && ' ' !in s.apellidoMaterno
    requires |s.nombre| > 0 && |s.apellidoPaterno| > 0 && |s.apellidoMaterno| > 0
    ensures GenerarIniciales(StudentModel.NombreCompleto(s))
         == Text.ToUpper([s.nombre[0], s.apellidoPaterno[0], s.apellidoMaterno[0]])
  {
    var parts := [s.nombre, s.apellidoPaterno, s.apellidoMaterno];
    StudentModel.NombreCompletoSplits(s);
    FirstsSplit(StudentModel.NombreCompleto(s));
    assert Firsts(parts) == [s.nombre[0], s.apellidoPaterno[0], s.apellidoMaterno[0]] by {
      assert parts[1..][1..][1..] == [];
    }
  }

  /** A word without spaces contributes its first character when it opens a word, and
      the scan after it is inside that word. */
  lemma {:induction false} WordStartsWord(w: string, rest: string, atStart: bool)
    requires |w| > 0 && ' ' !in w
    ensures WordStarts(w + rest, atStart) == (if atStart then [w[0]] else "") + WordStarts(rest, false)
    decreases |w|
  {
    assert (w + rest)[1..] == w[1..] + rest;
    if |w| > 1 {
      WordStartsWord(w[1..], rest, false);
    }
  }

  /** The scan skips repeated and trailing spaces. */
  lemma WordStartsExample(t: string)
    requires t == "ana  maria lopez "
    ensures WordStarts(t, true) == "aml"
  {
    var a, m, l := "ana", "maria", "lopez";
    assert t == a + ("  " + (m + (" " + (l + " "))));
    assert ' ' !in a && ' ' !in m && ' ' !in l;
    WordStartsSpaced(a, m, l);
  }

  /** Three words separated by two spaces, then one, with a trailing space: the scan
      finds the three first letters. */
  lemma WordStartsSpaced(a: string, m: string, l: string)
    requires |a| > 0 && |m| > 0 && |l| > 0
    requires ' ' !in a && ' ' !in m && ' ' !in l
    ensures WordStarts(a + ("  " + (m + (" " + (l + " ")))), true) == [a[0], m[0], l[0]]
  {
    var rest := m + (" " + (l + " "));
    TwoSpaces(rest);
    WordThenSpace(a, " " + rest, true);
    SpaceStep(rest, true);
    WordThenSpace(m, l + " ", true);
    LastWord(l);
    Three(a[0], m[0], l[0]);
  }

  lemma TwoSpaces(rest: string)
    ensures "  " + rest == " " + (" " + rest)
  {
  }

  /** A word closed by a trailing space contributes its first character and nothing more. */
  lemma LastWord(w: string)
    requires |w| > 0 && ' ' !in w
    ensures WordStarts(w + " ", true) == [w[0]] + []
  {
    WordStartsWord(w, " ", true);
    SpaceStep("", false);
    assert " " + "" == " ";
  }

  lemma Three<T>(x: T, y: T, z: T)
    ensures [x] + ([y] + ([z] + [])) == [x, y, z]
  {
  }

  /** A word followed by a space contributes its first character when it opens a word,
      and the scan resumes at a word start. */
  lemma WordThenSpace(w: string, rest: string, atStart: bool)
    requires |w| > 0 && ' ' !in w
    ensures WordStarts(w + (" " + rest), atStart) == (if atStart then [w[0]] else "") + WordStarts(rest, true)
  {
    WordStartsWord(w, " " + rest, atStart);
    SpaceStep(rest, false);
  }

  /** A space ends any word: the scan after it is at a word start. */
  lemma SpaceStep(rest: string, atStart: bool)
    ensures WordStarts(" " + rest, atStart) == WordStarts(rest, true)
  {
    assert (" " + rest)[1..] == rest;
  }

  /** Repeated and trailing spaces give empty words, which add no initial. */
  lemma InicialesExample(t: string)
    requires t == "ana  maria lopez "
    ensures GenerarIniciales(t) == "AML"
  {
    WordStartsExample(t);
    UpperAml();
  }

  lemma UpperAml()
    ensures Text.ToUpper("aml") == "AML"
  {
  }

  // ---------------------------------------------------------------- formatearTelefono

  /** The printed layout `+591 XX XXX XXX` of an eleven-digit number starting with 591. */
  function Layout(d: string): (r: string)
    requires |d| == 11
  {
    "+591 " + d[3..5] + " " + d[5..8] + " " + d[8..11]
  }

  /** `formatearTelefono`: 'N/A' for a null number; the layout when the digits of the
      input are eleven and start with 591; otherwise the input unchanged. */
  function FormatearTelefono(telefono: Option<string>): (r: string)
    ensures telefono.None? ==> r == "N/A"
    ensures telefono.Some? ==> Text.DigitsOnly(r) == Text.DigitsOnly(telefono.value)
    ensures telefono.Some? && |Text.DigitsOnly(telefono.value)| == 11
            && Text.DigitsOnly(telefono.value)[..3] == "591" ==>
      r == Layout(Text.DigitsOnly(telefono.value))
    ensures telefono.Some? && r != telefono.value ==>
      var d := Text.DigitsOnly(telefono.value);
      |d| == 11 && d[..3] == "591" && r == Layout(d)
  {
    match telefono
    case None => "N/A"
    case Some(t) =>
      var limpio := Text.DigitsOnly(t);
      if |limpio| == 11 && limpio[..3] == "591" then
        LayoutDigits(limpio);
        Layout(limpio)
      else t
  }

  /** Deleting a character class from the layout deletes it from each of its six pieces. */
  lemma KeepLayout(d: string, keep: char -> bool)
    requires |d| == 11
    ensures Text.Keep(Layout(d), keep)
         == Text.Keep("+591 ", keep) + Text.Keep(d[3..5], keep) + Text.Keep(" ", keep)
            + Text.Keep(d[5..8], keep) + Text.Keep(" ", keep) + Text.Keep(d[8..11], keep)
  {
    var x, y, z := d[3..5], d[5..8], d[8..11];
    Text.KeepAppend("+591 " + x + " " + y + " ", z, keep);
    Text.KeepAppend("+591 " + x + " " + y, " ", keep);
    Text.KeepAppend("+591 " + x + " ", y, keep);
    Text.KeepAppend("+591 " + x, " ", keep);
    Text.KeepAppend("+591 ", x, keep);
  }

  /** The digits of the layout's fixed prefix and separator. */
  lemma LayoutPrefixDigits()
    ensures Text.Keep("+591 ", Text.IsDigitFn) == "591"
    ensures Text.Keep(" ", Text.IsDigitFn) == ""
  {
    var f := Text.IsDigitFn;
    assert "+591 "[1..] == "591 ";
    assert "591 " == "591" + " ";
    Text.KeepAll("591", f);
    Text.KeepAppend("591", " ", f);
  }

  /** The layout's fixed prefix and separator without whitespace. */
  lemma LayoutPrefixStripped()
    ensures Text.Keep("+591 ", Text.NotRegexSpace) == "+591"
    ensures Text.Keep(" ", Text.NotRegexSpace) == ""
  {
    var f := Text.NotRegexSpace;
    assert "+591 " == "+591" + " ";
    Text.KeepAll("+591", f);
    Text.KeepAppend("+591", " ", f);
  }

  /** When every character after the country code is kept, filtering the layout keeps
      what the prefix keeps followed by those eight characters. */
  lemma KeepLayoutTail(d: string, keep: char -> bool, pre: string)
    requires |d| == 11 && forall i :: 3 <= i < 11 ==> keep(d[i])
    requires Text.Keep("+591 ", keep) == pre && Text.Keep(" ", keep) == ""
    ensures Text.Keep(Layout(d), keep) == pre + d[3..]
  {
    var x, y, z := d[3..5], d[5..8], d[8..11];
    assert forall i :: 0 <= i < |x| ==> x[i] == d[3 + i];
    assert forall i :: 0 <= i < |y| ==> y[i] == d[5 + i];
    assert forall i :: 0 <= i < |z| ==> z[i] == d[8 + i];
    Text.KeepAll(x, keep);
    Text.KeepAll(y, keep);
    Text.KeepAll(z, keep);
    KeepLayout(d, keep);
    TailPieces(d, pre);
  }

  lemma TailPieces(d: string, pre: string)
    requires |d| == 11
    ensures pre + d[3..5] + "" + d[5..8] + "" + d[8..11] == pre + d[3..]
  {
    assert d[3..] == d[3..5] + d[5..8] + d[8..11];
  }

  lemma HeadTail(d: string)
    requires |d| == 11 && d[..3] == "591"
    ensures "591" + d[3..] == d
    ensures "+591" + d[3..] == "+" + d
  {
    assert d == d[..3] + d[3..];
    assert "+591" == "+" + "591";
  }

  /** The digits of the layout are the eleven digits it was built from. */
  lemma LayoutDigits(d: string)
    requires |d| == 11 && Text.AllDigits(d) && d[..3] == "591"
    ensures Text.DigitsOnly(Layout(d)) == d
  {
    LayoutPrefixDigits();
    KeepLayoutTail(d, Text.IsDigitFn, "591");
    HeadTail(d);
  }

  /** Formatting twice is formatting once. */
  lemma FormatearTelefonoIdempotent(t: string)
    ensures FormatearTelefono(Some(FormatearTelefono(Some(t)))) == FormatearTelefono(Some(t))
  {
  }

  /** Without its spaces the layout is a plus sign and the digits after 591's prefix. */
  lemma LayoutStripped(d: string)
    requires |d| == 11 && Text.AllDigits(d) && d[..3] == "591"
    ensures Text.StripSpaces(Layout(d)) == "+" + d
  {
    assert forall i :: 3 <= i < 11 ==> Text.NotRegexSpace(d[i]) by {
      forall i | 3 <= i < 11 ensures Text.NotRegexSpace(d[i]) {
        assert Text.IsDigit(d[i]);
      }
    }
    LayoutPrefixStripped();
    KeepLayoutTail(d, Text.NotRegexSpace, "+591");
    HeadTail(d);
  }

  /** The digits of a number are the digits of its whitespace-free form. */
  lemma DigitsIgnoreSpaces(t: string)
    ensures Text.DigitsOnly(Text.StripSpaces(t)) == Text.DigitsOnly(t)
  {
    Text.KeepKeep(t, Text.NotRegexSpace, Text.IsDigitFn);
  }

  /** A number the phone validator accepts is always laid out, and the layout is still
      accepted. */
  lemma FormatearTelefonoKeepsValid(t: string)
    requires Validator.Telefono(Some(t))
    ensures var d := Text.DigitsOnly(t); |d| == 11 && FormatearTelefono(Some(t)) == Layout(d)
    ensures Validator.Telefono(Some(FormatearTelefono(Some(t))))
  {
    var p := Text.StripSpaces(t);
    var d := if Validator.TelefonoDigits(p) then p else p[1..];
    PatternDigits(p);
    DigitsIgnoreSpaces(t);
    LayoutStripped(d);
    assert ("+" + d)[1..] == d;
  }

  /** The digits of a whitespace-free number the phone pattern accepts are the number
      without its optional plus: eleven digits starting with 591. */
  lemma PatternDigits(p: string)
    requires Validator.TelefonoPattern(p)
    ensures var d := if Validator.TelefonoDigits(p) then p else p[1..];
      && Validator.TelefonoDigits(d) && Text.AllDigits(d) && Text.DigitsOnly(p) == d
  {
    var d := if Validator.TelefonoDigits(p) then p else p[1..];
    assert Text.AllDigits(d) by {
      forall i | 0 <= i < |d| ensures Text.IsDigit(d[i]) {
        if i < 3 {
          assert d[i] == d[..3][i];
        } else if i > 3 {
          assert d[i] == d[4..][i - 4];
        }
      }
    }
    Text.KeepAll(d, Text.IsDigitFn);
    if !Validator.TelefonoDigits(p) {
      assert p == "+" + d;
      Text.KeepAppend("+", d, Text.IsDigitFn);
    }
  }

  // ---------------------------------------------------------------- truncar

  /** `mb_substr($s, 0, $length)`: the first `length` characters, or, for a negative
      length, all but the last `-length` (nothing when that is more than there are). */
  function PrefixSubstr(s: string, length: int): (r: string)
    ensures r <= s
    ensures length >= 0 ==> |r| == if length <= |s| then length else |s|
    ensures length < 0 ==> |r| == if |s| + length > 0 then |s| + length else 0
  {
    if length >= 0 then (if length <= |s| then s[..length] else s)
    else if |s| + length > 0 then s[..|s| + length]
    else ""
  }

  /** `truncar`: a text no longer than `longitud` is kept; a longer one is cut and
      `sufijo` appended. */
  function Truncar(texto: string, longitud: int, sufijo: string): (r: string)
    ensures |texto| <= longitud ==> r == texto
    ensures |texto| > longitud ==>
      |r| >= |sufijo| && r[|r| - |sufijo|..] == sufijo && r[..|r| - |sufijo|] <= texto
    ensures |texto| > longitud >= |sufijo| ==> |r| == longitud
  {
    if |texto| <= longitud then texto
    else
      var p := PrefixSubstr(texto, longitud - |sufijo|);
      assert (p + sufijo)[..|p|] == p && (p + sufijo)[|p|..] == sufijo;
      p + sufijo
  }

  /** With room for the suffix, truncating again changes nothing. */
  lemma TruncarIdempotent(texto: string, longitud: int, sufijo: string)
    requires longitud >= |sufijo|
    ensures Truncar(Truncar(texto, longitud, sufijo), longitud, sufijo)
         == Truncar(texto, longitud, sufijo)
  {
  }

  /** With a limit shorter than the suffix the length handed to `mb_substr` is negative,
      so the result can outgrow both the limit and the text, and truncating again keeps
      growing it. */
  lemma TruncarShortLimitGrows(texto: string)
    requires texto == "abcdef"
    ensures Truncar(texto, 2, "...") == "abcde..."
    ensures |Truncar(Truncar(texto, 2, "..."), 2, "...")| > |Truncar(texto, 2, "...")| > |texto|
  {
    assert PrefixSubstr(texto, -1) == "abcde";
  }
}
