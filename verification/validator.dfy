/** The field validators (src/Utils/Validator.php). Each regular expression is written
    out as a predicate on characters; the anchored patterns carry no `D` modifier, but
    every subject is trimmed or stripped of whitespace first, so the trailing newline
    `$` would otherwise tolerate never survives. A null argument reads as "". */
module Validator {
  import opened Wrappers
  import Text

  // ---------------------------------------------------------------- ci

  /** `^\d{6,8}(-[A-Z]{2})?$` on an already trimmed string. */
  predicate CiPattern(t: string) {
    || (6 <= |t| <= 8 && Text.AllDigits(t))
    || (9 <= |t| <= 11 && Text.AllDigits(t[..|t| - 3]) && t[|t| - 3] == '-'
        && Text.AllUpperAZ(t[|t| - 2..]))
  }

  /** The extension the pattern allows after the digits: nothing, or a dash and two
      capital letters. */
  predicate CiSuffix(x: string) {
    x == "" || (|x| == 3 && x[0] == '-' && Text.AllUpperAZ(x[1..]))
  }

  /** `ci`: 6 to 8 digits, optionally followed by a dash and two capitals, after trimming. */
  function Ci(ci: Option<string>): (b: bool)
    ensures b ==> 6 <= |Text.Trim(ci.GetOr(""))| <= 11
  {
    CiPattern(Text.Trim(ci.GetOr("")))
  }

  /** The pattern holds exactly when the string is a run of 6 to 8 digits followed by
      an allowed extension. */
  lemma CiPatternStructure(t: string)
    ensures CiPattern(t) <==>
      exists k :: 6 <= k <= 8 && k <= |t| && Text.AllDigits(t[..k]) && CiSuffix(t[k..])
  {
    if CiPattern(t) {
      if 6 <= |t| <= 8 && Text.AllDigits(t) {
        assert t[..|t|] == t;
        assert CiSuffix(t[|t|..]);
      } else {
        var k := |t| - 3;
        assert t[k..][1..] == t[|t| - 2..];
        assert CiSuffix(t[k..]);
      }
    }
    if exists k :: 6 <= k <= 8 && k <= |t| && Text.AllDigits(t[..k]) && CiSuffix(t[k..]) {
      var k :| 6 <= k <= 8 && k <= |t| && Text.AllDigits(t[..k]) && CiSuffix(t[k..]);
      if t[k..] == "" {
        assert t == t[..k];
      } else {
        assert t[..|t| - 3] == t[..k];
        assert t[|t| - 2..] == t[k..][1..];
      }
    }
  }

  /** The accepted strings are exactly those that, trimmed, are a run of 6 to 8 digits
      followed by an allowed extension. */
  lemma CiStructure(s: string)
    ensures Ci(Some(s)) <==>
      exists k :: 6 <= k <= 8 && k <= |Text.Trim(s)| && Text.AllDigits(Text.Trim(s)[..k])
        && CiSuffix(Text.Trim(s)[k..])
  {
    CiPatternStructure(Text.Trim(s));
  }

  /** Whitespace around a CI never changes the verdict. */
  lemma CiIgnoresPadding(w1: string, s: string, w2: string)
    requires Text.AllTrimChars(w1) && Text.AllTrimChars(w2)
    ensures Ci(Some(w1 + s + w2)) == Ci(Some(s))
  {
    Text.TrimPadding(w1, s, w2);
  }

  /** '12345678-LP' is a valid CI; '12345' is too short; a null CI is rejected. */
  lemma CiExamples(good: string, short: string)
    requires good == "12345678-LP" && short == "12345"
    ensures Ci(Some(good)) && !Ci(Some(short)) && !Ci(None)
  {
    Text.TrimUnpadded(good);
    assert CiPattern(good) by {
      assert good[..|good| - 3] == "12345678";
      assert good[|good| - 2..] == "LP";
    }
    assert |Text.Trim(short)| <= |short|;
  }

  // ---------------------------------------------------------------- codigoEstudiante

  /** `^\d{4}-\d{5}$` on an already trimmed string. */
  predicate CodigoPattern(t: string) {
    |t| == 10 && Text.AllDigits(t[..4]) && t[4] == '-' && Text.AllDigits(t[5..])
  }

  /** `codigoEstudiante`: four digits, a dash and five digits, after trimming. */
  function CodigoEstudiante(codigo: Option<string>): (b: bool)
    ensures b ==> |Text.Trim(codigo.GetOr(""))| == 10
  {
    CodigoPattern(Text.Trim(codigo.GetOr("")))
  }

  /** A code is accepted exactly when, trimmed, it is a four-digit block, a dash and a
      five-digit block. */
  lemma CodigoStructure(s: string)
    ensures CodigoEstudiante(Some(s)) <==>
      exists y, n :: |y| == 4 && |n| == 5 && Text.AllDigits(y) && Text.AllDigits(n)
        && Text.Trim(s) == y + "-" + n
  {
    var t := Text.Trim(s);
    if CodigoPattern(t) {
      assert t == t[..4] + "-" + t[5..];
    }
    if exists y, n :: |y| == 4 && |n| == 5 && Text.AllDigits(y) && Text.AllDigits(n) && t == y + "-" + n {
      var y, n :| |y| == 4 && |n| == 5 && Text.AllDigits(y) && Text.AllDigits(n) && t == y + "-" + n;
      assert t[..4] == y && t[5..] == n;
    }
  }

  /** Whitespace around a code never changes the verdict. */
  lemma CodigoIgnoresPadding(w1: string, s: string, w2: string)
    requires Text.AllTrimChars(w1) && Text.AllTrimChars(w2)
    ensures CodigoEstudiante(Some(w1 + s + w2)) == CodigoEstudiante(Some(s))
  {
    Text.TrimPadding(w1, s, w2);
  }

  // ---------------------------------------------------------------- edad, longitud

  /** `edad`: present and between 16 and 100 inclusive. */
  predicate Edad(edad: Option<int>) {
    edad.Some? && 16 <= edad.value <= 100
  }

  /** The age bounds are inclusive, and a missing age fails. */
  lemma EdadBounds(e: int)
    ensures Edad(Some(e)) <==> 16 <= e <= 100
    ensures Edad(Some(16)) && Edad(Some(100)) && !Edad(Some(15)) && !Edad(Some(101)) && !Edad(None)
  {
  }

  /** `longitud`: the byte length (`strlen`, null counting as 0) lies in [min, max]. */
  predicate Longitud(texto: Option<string>, min: int, max: int) {
    min <= Text.ByteLength(texto.GetOr("")) <= max
  }

  predicate IsAscii(s: string) {
    forall i :: 0 <= i < |s| ==> s[i] as int < 0x80
  }

  /** On ASCII text the byte length is the number of characters; any other character
      takes more than one byte, so a non-ASCII text can fail a maximum its character
      count meets. */
  lemma {:induction false} LongitudCountsBytes(s: string)
    ensures IsAscii(s) ==> Text.ByteLength(s) == |s|
    ensures !IsAscii(s) ==> Text.ByteLength(s) > |s|
    decreases |s|
  {
    if |s| > 0 {
      LongitudCountsBytes(s[1..]);
      assert forall i :: 0 <= i < |s[1..]| ==> s[1..][i] == s[i + 1];
    }
  }

  // ---------------------------------------------------------------- telefono

  /** `591`, then 6 or 7, then seven more digits. */
  predicate TelefonoDigits(t: string) {
    |t| == 11 && t[..3] == "591" && (t[3] == '6' || t[3] == '7') && Text.AllDigits(t[4..])
  }

  /** `^\+?591[67]\d{7}$` on a string without whitespace. */
  predicate TelefonoPattern(t: string) {
    TelefonoDigits(t) || (|t| > 0 && t[0] == '+' && TelefonoDigits(t[1..]))
  }

  /** `telefono`: with every whitespace character removed, an optional plus, 591, a 6 or
      a 7 and seven digits. */
  function Telefono(tel: Option<string>): (b: bool)
    ensures b ==> 11 <= |Text.StripSpaces(tel.GetOr(""))| <= 12
  {
    TelefonoPattern(Text.StripSpaces(tel.GetOr("")))
  }

  /** Whitespace anywhere in a number never changes the verdict. */
  lemma TelefonoIgnoresSpaces(a: string, w: string, b: string)
    requires forall i :: 0 <= i < |w| ==> Text.IsRegexSpace(w[i])
    ensures Telefono(Some(a + w + b)) == Telefono(Some(a + b))
  {
    Text.StripSpacesDropsRun(a, w, b);
  }

  /** The compact number '+59178451234' has no whitespace and matches the pattern. */
  lemma TelefonoCompact(s: string)
    requires s == "+59178451234"
    ensures Text.StripSpaces(s) == s && TelefonoPattern(s)
  {
    assert Text.StripSpaces(s) == s by {
      Text.KeepAll(s, Text.NotRegexSpace);
    }
    assert TelefonoDigits(s[1..]) by {
      var d := s[1..];
      assert d[..3] == "591" && d[3] == '7';
      assert d[4..] == "8451234";
    }
  }

  /** '+591 78451234' is a valid phone number. */
  lemma TelefonoExample(t: string)
    requires t == "+591 78451234"
    ensures Telefono(Some(t))
  {
    var a, w, b := "+591", " ", "78451234";
    assert a + w + b == t;
    Text.StripSpacesDropsRun(a, w, b);
    TelefonoCompact(a + b);
  }

  // ---------------------------------------------------------------- requerido

  /** `requerido` on a string: something other than whitespace remains after trimming. */
  function Requerido(valor: string): (b: bool)
    ensures b <==> exists i :: 0 <= i < |valor| && !Text.IsTrimChar(valor[i])
  {
    Text.Trim(valor) != ""
  }
}
