/** The PHP string built-ins the core relies on, on strings of Unicode scalar values.
    Byte-oriented functions (`strlen`, the regex character classes, `strtolower`) only
    ever touch ASCII characters, so a non-ASCII character behaves like the bytes of its
    UTF-8 encoding would: never a digit, letter or space. */
module Text {
  import opened Wrappers

  // ---------------------------------------------------------------- character classes

  predicate IsDigit(c: char) { '0' <= c <= '9' }

  predicate IsUpperAZ(c: char) { 'A' <= c <= 'Z' }

  predicate IsLowerAZ(c: char) { 'a' <= c <= 'z' }

  /** The characters `trim()` removes by default: space, \t, \n, \r, \0 and \x0B. */
  predicate IsTrimChar(c: char) {
    c == ' ' || c == '\t' || c == '\n' || c == '\r' || c == '\0' || c == '\U{0B}'
  }

  /** PCRE's `\s` without the `u` modifier: space, \t, \n, \x0B, \x0C and \r. */
  predicate IsRegexSpace(c: char) {
    c == ' ' || c == '\t' || c == '\n' || c == '\U{0B}' || c == '\U{0C}' || c == '\r'
  }

  predicate AllDigits(s: string) {
    forall i :: 0 <= i < |s| ==> IsDigit(s[i])
  }

  predicate AllUpperAZ(s: string) {
    forall i :: 0 <= i < |s| ==> IsUpperAZ(s[i])
  }

  predicate AllTrimChars(s: string) {
    forall i :: 0 <= i < |s| ==> IsTrimChar(s[i])
  }

  /** PHP's `empty()` on a string: true for "" and for "0". */
  predicate PhpEmpty(s: string) {
    s == "" || s == "0"
  }

  // ---------------------------------------------------------------- trim

  function TrimLeft(s: string): (r: string)
    ensures |r| <= |s| && r == s[|s| - |r|..]
    ensures forall i :: 0 <= i < |s| - |r| ==> IsTrimChar(s[i])
    ensures |r| > 0 ==> !IsTrimChar(r[0])
  {
    if |s| > 0 && IsTrimChar(s[0]) then TrimLeft(s[1..]) else s
  }

  function TrimRight(s: string): (r: string)
    ensures |r| <= |s| && r == s[..|r|]
    ensures forall i :: |r| <= i < |s| ==> IsTrimChar(s[i])
    ensures |r| > 0 ==> !IsTrimChar(r[|r| - 1])
  {
    if |s| > 0 && IsTrimChar(s[|s| - 1]) then TrimRight(s[..|s| - 1]) else s
  }

  /** `trim($s)`: the text between the leading and the trailing run of trim characters. */
  function Trim(s: string): (r: string)
    ensures |r| <= |s|
    ensures |r| > 0 ==> !IsTrimChar(r[0]) && !IsTrimChar(r[|r| - 1])
    ensures r == "" <==> AllTrimChars(s)
  {
    var l := TrimLeft(s);
    var r := TrimRight(l);
    r
  }

  /** A string that neither starts nor ends with a trim character is its own trim. */
  lemma TrimUnpadded(s: string)
    requires |s| > 0 && !IsTrimChar(s[0]) && !IsTrimChar(s[|s| - 1])
    ensures Trim(s) == s
  {
  }

  lemma {:induction false} TrimLeftPadding(w: string, s: string)
    requires AllTrimChars(w)
    ensures TrimLeft(w + s) == TrimLeft(s)
    decreases |w|
  {
    if |w| > 0 {
      assert (w + s)[1..] == w[1..] + s;
      TrimLeftPadding(w[1..], s);
    } else {
      assert w + s == s;
    }
  }

  lemma {:induction false} TrimRightPadding(s: string, w: string)
    requires AllTrimChars(w)
    ensures TrimRight(s + w) == TrimRight(s)
    decreases |w|
  {
    if |w| > 0 {
      assert (s + w)[..|s + w| - 1] == s + w[..|w| - 1];
      TrimRightPadding(s, w[..|w| - 1]);
    } else {
      assert s + w == s;
    }
  }

  /** Text after the first non-trim character is carried through `TrimLeft` untouched. */
  lemma {:induction false} TrimLeftAppend(s: string, w: string)
    ensures TrimLeft(s) != "" ==> TrimLeft(s + w) == TrimLeft(s) + w
    ensures TrimLeft(s) == "" && AllTrimChars(w) ==> TrimLeft(s + w) == ""
    decreases |s|
  {
    if |s| == 0 {
      assert s + w == w;
      if AllTrimChars(w) {
        TrimLeftPadding(w, "");
        assert w + "" == w;
      }
    } else if IsTrimChar(s[0]) {
      assert (s + w)[1..] == s[1..] + w;
      TrimLeftAppend(s[1..], w);
    } else {
      assert (s + w)[0] == s[0];
    }
  }

  /** `trim` ignores any whitespace added around its argument. */
  lemma TrimPadding(w1: string, s: string, w2: string)
    requires AllTrimChars(w1) && AllTrimChars(w2)
    ensures Trim(w1 + s + w2) == Trim(s)
  {
    assert w1 + s + w2 == w1 + (s + w2);
    TrimLeftPadding(w1, s + w2);
    TrimLeftAppend(s, w2);
    if TrimLeft(s) != "" {
      TrimRightPadding(TrimLeft(s), w2);
    }
  }

  // ---------------------------------------------------------------- filtering characters

  /** The characters of `s` that satisfy `keep`, in order (`preg_replace` deleting a class). */
  function Keep(s: string, keep: char -> bool): (r: string)
    ensures |r| <= |s|
    ensures forall i :: 0 <= i < |r| ==> keep(r[i])
  {
    if |s| == 0 then "" else (if keep(s[0]) then [s[0]] else []) + Keep(s[1..], keep)
  }

  lemma {:induction false} KeepAppend(a: string, b: string, keep: char -> bool)
    ensures Keep(a + b, keep) == Keep(a, keep) + Keep(b, keep)
    decreases |a|
  {
    if |a| == 0 {
      assert a + b == b;
    } else {
      assert (a + b)[1..] == a[1..] + b;
      KeepAppend(a[1..], b, keep);
    }
  }

  lemma {:induction false} KeepAll(s: string, keep: char -> bool)
    requires forall i :: 0 <= i < |s| ==> keep(s[i])
    ensures Keep(s, keep) == s
    decreases |s|
  {
    if |s| > 0 {
      KeepAll(s[1..], keep);
    }
  }

  /** Nothing survives when no character is kept. */
  lemma {:induction false} KeepNone(s: string, keep: char -> bool)
    requires forall i :: 0 <= i < |s| ==> !keep(s[i])
    ensures Keep(s, keep) == ""
    decreases |s|
  {
    if |s| > 0 {
      KeepNone(s[1..], keep);
    }
  }

  /** Filtering twice keeps what the stricter filter keeps. */
  lemma {:induction false} KeepKeep(s: string, p: char -> bool, q: char -> bool)
    requires forall c :: q(c) ==> p(c)
    ensures Keep(Keep(s, p), q) == Keep(s, q)
    decreases |s|
  {
    if |s| > 0 {
      var kp := if p(s[0]) then [s[0]] else [];
      KeepAppend(kp, Keep(s[1..], p), q);
      KeepKeep(s[1..], p, q);
      if p(s[0]) {
        assert Keep(kp, q) == if q(s[0]) then [s[0]] else [] by {
          assert kp[1..] == [];
        }
      }
    }
  }

  function NotRegexSpace(c: char): bool { !IsRegexSpace(c) }

  function IsDigitFn(c: char): bool { IsDigit(c) }

  /** `preg_replace('/\s+/', '', $s)`. */
  function StripSpaces(s: string): string { Keep(s, NotRegexSpace) }

  /** Stripping whitespace makes a run of whitespace between two texts irrelevant. */
  lemma StripSpacesDropsRun(a: string, w: string, b: string)
    requires forall i :: 0 <= i < |w| ==> IsRegexSpace(w[i])
    ensures StripSpaces(a + w + b) == StripSpaces(a + b)
  {
    var ka, kw, kb := Keep(a, NotRegexSpace), Keep(w, NotRegexSpace), Keep(b, NotRegexSpace);
    KeepNone(w, NotRegexSpace);
    KeepAppend(a, w, NotRegexSpace);
    assert Keep(a + w, NotRegexSpace) == ka + kw == ka;
    KeepAppend(a + w, b, NotRegexSpace);
    KeepAppend(a, b, NotRegexSpace);
  }


  /** `preg_replace('/\D/', '', $s)`. */
  function DigitsOnly(s: string): (r: string)
    ensures AllDigits(r)
  {
    Keep(s, IsDigitFn)
  }

  // ---------------------------------------------------------------- case mapping

  function LowerChar(c: char): char {
    if IsUpperAZ(c) then (c as int + 32) as char else c
  }

  function UpperChar(c: char): char {
    if IsLowerAZ(c) then (c as int - 32) as char else c
  }

  /** `strtolower`: ASCII letters only. */
  function ToLower(s: string): (r: string)
    ensures |r| == |s| && forall i :: 0 <= i < |s| ==> r[i] == LowerChar(s[i])
  {
    seq(|s|, i requires 0 <= i < |s| => LowerChar(s[i]))
  }

  /** `mb_strtoupper` restricted to ASCII letters. */
  function ToUpper(s: string): (r: string)
    ensures |r| == |s| && forall i :: 0 <= i < |s| ==> r[i] == UpperChar(s[i])
  {
    seq(|s|, i requires 0 <= i < |s| => UpperChar(s[i]))
  }

  lemma ToLowerIdempotent(s: string)
    ensures ToLower(ToLower(s)) == ToLower(s)
  {
  }

  // ---------------------------------------------------------------- searching

  /** `str_contains($hay, $needle)`; the empty needle is contained in everything. */
  function Contains(hay: string, needle: string): (b: bool)
    ensures b <==> exists i :: 0 <= i <= |hay| - |needle| && needle <= hay[i..]
  {
    if needle <= hay then
      assert hay[0..] == hay;
      true
    else if |hay| == 0 then false
    else
      var b := Contains(hay[1..], needle);
      assert b ==> exists i :: 0 <= i <= |hay| - |needle| && needle <= hay[i..] by {
        if b {
          var i :| 0 <= i <= |hay| - 1 - |needle| && needle <= hay[1..][i..];
          assert hay[1..][i..] == hay[i + 1..];
        }
      }
      assert (exists i :: 0 <= i <= |hay| - |needle| && needle <= hay[i..]) ==> b by {
        if exists i :: 0 <= i <= |hay| - |needle| && needle <= hay[i..] {
          var i :| 0 <= i <= |hay| - |needle| && needle <= hay[i..];
          assert i != 0;
          assert hay[1..][i - 1..] == hay[i..];
        }
      }
      b
  }

  /** The first position holding `c`; it reads a processor's details back to their
      parts. */
  function IndexOf(s: string, c: char): (r: Option<nat>)
    ensures r.None? <==> c !in s
    ensures r.Some? ==> r.value < |s| && s[r.value] == c && c !in s[..r.value]
  {
    if |s| == 0 then None
    else if s[0] == c then Some(0)
    else
      match IndexOf(s[1..], c)
      case None => None
      case Some(k) =>
        assert s[..k + 1] == [s[0]] + s[1..][..k];
        Some(k + 1)
  }

  /** Behind a prefix free of `c`, the first `c` is the one that starts the rest. */
  lemma IndexOfAfter(a: string, b: string, c: char)
    requires c !in a && |b| > 0 && b[0] == c
    ensures IndexOf(a + b, c) == Some(|a|)
  {
    var r := IndexOf(a + b, c);
    assert (a + b)[|a|] == c;
    assert (a + b)[..|a|] == a;
  }

  // ---------------------------------------------------------------- explode / implode

  /** `explode($sep, $s)`: the maximal pieces between separators, empty ones included. */
  function Split(s: string, sep: char): (r: seq<string>)
    ensures |r| >= 1
    ensures forall i :: 0 <= i < |r| ==> sep !in r[i]
    decreases |s|
  {
    if |s| == 0 then [""]
    else
      var rest := Split(s[1..], sep);
      if s[0] == sep then [""] + rest
      else [[s[0]] + rest[0]] + rest[1..]
  }

  /** `implode($sep, $parts)`. */
  function Join(parts: seq<string>, sep: char): string
    decreases |parts|
  {
    if |parts| == 0 then ""
    else if |parts| == 1 then parts[0]
    else parts[0] + [sep] + Join(parts[1..], sep)
  }

  /** Joining the pieces of `explode` restores the string. */
  lemma {:induction false} JoinSplit(s: string, sep: char)
    ensures Join(Split(s, sep), sep) == s
    decreases |s|
  {
    if |s| > 0 {
      var rest := Split(s[1..], sep);
      JoinSplit(s[1..], sep);
      if s[0] == sep {
        assert Split(s, sep)[1..] == rest;
      } else {
        var r := Split(s, sep);
        assert r[1..] == rest[1..];
        if |rest| == 1 {
          assert Join(r, sep) == [s[0]] + rest[0];
        } else {
          assert Join(rest, sep) == rest[0] + [sep] + Join(rest[1..], sep);
          assert Join(r, sep) == [s[0]] + rest[0] + [sep] + Join(rest[1..], sep);
        }
      }
    }
  }

  /** Splitting a join of separator-free pieces gives the pieces back. */
  lemma {:induction false} SplitJoin(parts: seq<string>, sep: char)
    requires |parts| >= 1
    requires forall i :: 0 <= i < |parts| ==> sep !in parts[i]
    ensures Split(Join(parts, sep), sep) == parts
    decreases |parts|, |parts[0]|
  {
    if |parts[0]| > 0 {
      var p0 := parts[0];
      var parts' := [p0[1..]] + parts[1..];
      assert forall i :: 0 <= i < |parts'| ==> sep !in parts'[i] by {
        forall i | 0 <= i < |parts'| ensures sep !in parts'[i] {
          if i == 0 {
            assert forall c :: c in p0[1..] ==> c in p0;
          } else {
            assert parts'[i] == parts[i];
          }
        }
      }
      SplitJoin(parts', sep);
      var s := Join(parts, sep);
      if |parts| == 1 {
        assert s == p0;
        assert s[1..] == Join(parts', sep);
      } else {
        assert parts'[1..] == parts[1..];
        assert s == p0 + [sep] + Join(parts[1..], sep);
        assert s[1..] == Join(parts', sep);
      }
      assert s[0] == p0[0] && p0[0] != sep;
      assert [s[0]] + p0[1..] == p0;
      assert Split(s, sep) == [p0] + parts'[1..];
    } else if |parts| > 1 {
      var s := Join(parts, sep);
      assert s == [sep] + Join(parts[1..], sep);
      assert s[1..] == Join(parts[1..], sep);
      SplitJoin(parts[1..], sep);
    }
  }

  // ---------------------------------------------------------------- decimal numbers

  function DigitChar(d: nat): (c: char)
    requires d < 10
    ensures IsDigit(c)
  {
    ('0' as int + d) as char
  }

  function DigitValue(c: char): nat
    requires IsDigit(c)
  {
    c as int - '0' as int
  }

  /** The decimal digits of `n`, most significant first, without leading zeros. */
  function NatToString(n: nat): (r: string)
    ensures |r| >= 1 && AllDigits(r)
    ensures n > 0 ==> r[0] != '0'
  {
    if n < 10 then [DigitChar(n)] else NatToString(n / 10) + [DigitChar(n % 10)]
  }

  /** PHP's rendering of an integer in string interpolation. */
  function IntToString(n: int): (r: string)
    ensures |r| >= 1 && ' ' !in r
  {
    if n < 0 then "-" + NatToString(-n) else NatToString(n)
  }

  /** The value of a string of decimal digits (the empty string reads as 0). */
  function ParseNat(s: string): nat
    requires AllDigits(s)
  {
    if |s| == 0 then 0 else 10 * ParseNat(s[..|s| - 1]) + DigitValue(s[|s| - 1])
  }

  lemma {:induction false} ParseNatToString(n: nat)
    ensures ParseNat(NatToString(n)) == n
  {
    if n >= 10 {
      var s := NatToString(n);
      assert s[..|s| - 1] == NatToString(n / 10);
      ParseNatToString(n / 10);
    }
  }

  /** Reads back an optionally signed decimal numeral; `None` for anything else. */
  function ParseInt(s: string): (r: Option<int>)
    ensures r.Some? ==> |s| > 0
  {
    if |s| > 1 && s[0] == '-' && AllDigits(s[1..]) then Some(-(ParseNat(s[1..]) as int))
    else if |s| > 0 && AllDigits(s) then Some(ParseNat(s))
    else None
  }

  /** Every rendered integer reads back as itself. */
  lemma ParseIntToString(n: int)
    ensures ParseInt(IntToString(n)) == Some(n)
  {
    var s := IntToString(n);
    IntToStringSign(n);
    if n < 0 {
      ParseNatToString(-n);
      assert |s| > 1 && AllDigits(s[1..]) && ParseNat(s[1..]) == -n;
    } else {
      ParseNatToString(n);
      assert s[0] != '-' && ParseNat(s) == n;
    }
  }

  /** Distinct integers render differently. */
  lemma IntToStringInjective(a: int, b: int)
    requires IntToString(a) == IntToString(b)
    ensures a == b
  {
    IntToStringSign(a);
    IntToStringSign(b);
    if a < 0 && b < 0 {
      NatToStringInjective(-a, -b);
    } else if a >= 0 && b >= 0 {
      NatToStringInjective(a, b);
    } else {
      assert false;
    }
  }

  lemma NatToStringInjective(m: nat, n: nat)
    requires NatToString(m) == NatToString(n)
    ensures m == n
  {
    ParseNatToString(m);
    ParseNatToString(n);
  }

  /** A negative number renders as a minus sign and its magnitude; any other number
      renders as digits only. */
  lemma IntToStringSign(n: int)
    ensures n < 0 ==> IntToString(n)[0] == '-' && IntToString(n)[1..] == NatToString(-n)
    ensures n >= 0 ==> IntToString(n) == NatToString(n) && IsDigit(IntToString(n)[0])
  {
  }

  function Zeros(k: nat): (r: string)
    ensures |r| == k && forall i :: 0 <= i < k ==> r[i] == '0'
  {
    seq(k, _ => '0')
  }

  /** Left-pads a digit string with zeros to at least `width` characters. */
  function ZeroPad(s: string, width: int): (r: string)
    ensures |r| == if |s| < width then width else |s|
    ensures AllDigits(s) ==> AllDigits(r)
  {
    if |s| < width then Zeros(width - |s|) + s else s
  }

  lemma {:induction false} ParseNatLeadingZeros(k: nat, s: string)
    requires AllDigits(s)
    ensures AllDigits(Zeros(k) + s) && ParseNat(Zeros(k) + s) == ParseNat(s)
    decreases |s|
  {
    var z := Zeros(k) + s;
    if |s| == 0 {
      assert z == Zeros(k);
      ParseNatZeros(k);
    } else {
      assert z[..|z| - 1] == Zeros(k) + s[..|s| - 1];
      ParseNatLeadingZeros(k, s[..|s| - 1]);
    }
  }

  lemma {:induction false} ParseNatZeros(k: nat)
    ensures ParseNat(Zeros(k)) == 0
  {
    if k > 0 {
      assert Zeros(k)[..k - 1] == Zeros(k - 1);
      ParseNatZeros(k - 1);
    }
  }

  /** `sprintf('%0Nd', $n)`: zero padding to width N, a minus sign counting towards it. */
  function FormatInt(n: int, width: int): (r: string)
    ensures |r| >= width
  {
    if n < 0 then "-" + ZeroPad(NatToString(-n), width - 1) else ZeroPad(NatToString(n), width)
  }

  /** A zero-padded non-negative number still reads back as itself. */
  lemma FormatIntParses(n: nat, width: int)
    ensures AllDigits(FormatInt(n, width)) && ParseNat(FormatInt(n, width)) == n
  {
    var s := NatToString(n);
    var f := FormatInt(n, width);
    ParseNatToString(n);
    if |s| < width {
      assert f == Zeros(width - |s|) + s;
      ParseNatLeadingZeros(width - |s|, s);
    } else {
      assert f == s;
    }
  }

  /** The decimal form of `n` fits in `width` digits exactly when `n < 10^width`. */
  lemma {:induction false} NatToStringLength(n: nat, width: nat)
    requires width >= 1
    ensures |NatToString(n)| <= width <==> n < Pow10(width)
  {
    if n >= 10 {
      if width > 1 {
        NatToStringLength(n / 10, width - 1);
      }
    } else {
      Pow10Positive(width);
      Pow10AtLeastTen(width);
    }
  }

  /** The shape of a padded rendering: it ends in a digit; a negative number starts with
      the sign; a non-negative one is all digits and exactly `width` long when it fits. */
  lemma FormatIntShape(n: int, width: nat)
    requires width >= 1
    ensures |FormatInt(n, width)| >= 1 && IsDigit(FormatInt(n, width)[|FormatInt(n, width)| - 1])
    ensures n < 0 ==> FormatInt(n, width)[0] == '-'
    ensures n >= 0 ==> AllDigits(FormatInt(n, width))
    ensures n >= 0 ==> (|FormatInt(n, width)| == width <==> n < Pow10(width))
  {
    if n >= 0 {
      NatToStringLength(n, width);
    } else {
      var z := ZeroPad(NatToString(-n), width - 1);
      assert FormatInt(n, width)[|FormatInt(n, width)| - 1] == z[|z| - 1];
    }
  }

  function Pow10(k: nat): (r: nat)
  {
    if k == 0 then 1 else 10 * Pow10(k - 1)
  }

  /** The two widths of a student code: four and five decimal digits. */
  lemma Pow10FourFive()
    ensures Pow10(4) == 10000 && Pow10(5) == 100000
  {
    assert Pow10(1) == 10;
    assert Pow10(2) == 100;
    assert Pow10(3) == 1000;
    assert Pow10(4) == 10000;
  }

  lemma Pow10Positive(k: nat)
    ensures Pow10(k) >= 1
  {
  }

  lemma Pow10AtLeastTen(k: nat)
    requires k >= 1
    ensures Pow10(k) >= 10
  {
    Pow10Positive(k - 1);
  }

  // ---------------------------------------------------------------- byte length

  /** The number of bytes UTF-8 uses for `c`. */
  function Utf8Width(c: char): (w: nat)
    ensures 1 <= w <= 4
  {
    if c as int < 0x80 then 1
    else if c as int < 0x800 then 2
    else if c as int < 0x10000 then 3
    else 4
  }

  /** `strlen`: the UTF-8 byte length of the string. */
  function ByteLength(s: string): (n: nat)
    ensures |s| <= n <= 4 * |s|
  {
    if |s| == 0 then 0 else Utf8Width(s[0]) + ByteLength(s[1..])
  }

  lemma {:induction false} ByteLengthAppend(a: string, b: string)
    ensures ByteLength(a + b) == ByteLength(a) + ByteLength(b)
    decreases |a|
  {
    if |a| > 0 {
      assert (a + b)[1..] == a[1..] + b;
      ByteLengthAppend(a[1..], b);
    } else {
      assert a + b == b;
    }
  }

  // ---------------------------------------------------------------- HTML escaping

  /** What `htmlspecialchars(…, ENT_QUOTES)` writes for one character. */
  function EscapeChar(c: char): (r: string)
    ensures |r| >= 1
    ensures |r| == 1 <==> r == [c]
  {
    if c == '&' then "&amp;"
    else if c == '"' then "&quot;"
    else if c == '\'' then "&#039;"
    else if c == '<' then "&lt;"
    else if c == '>' then "&gt;"
    else [c]
  }

  /** `htmlspecialchars($s, ENT_QUOTES, 'UTF-8')` on valid UTF-8; input that is not
      valid UTF-8, which it maps to "", is not modelled. */
  function EscapeHtml(s: string): (r: string)
    ensures |r| >= |s|
    ensures |s| > 0 ==> |r| > 0 && r[0] == EscapeChar(s[0])[0]
    decreases |s|
  {
    if |s| == 0 then "" else EscapeChar(s[0]) + EscapeHtml(s[1..])
  }

  /** Escaping never creates or removes leading or trailing whitespace, and maps
      exactly "" to "" and "0" to "0". */
  lemma {:induction false} EscapeHtmlEnds(s: string)
    ensures |s| > 0 ==> (IsTrimChar(EscapeHtml(s)[0]) <==> IsTrimChar(s[0]))
    ensures |s| > 0 ==> (IsTrimChar(EscapeHtml(s)[|EscapeHtml(s)| - 1]) <==> IsTrimChar(s[|s| - 1]))
    ensures EscapeHtml(s) == "" <==> s == ""
    ensures EscapeHtml(s) == "0" <==> s == "0"
    decreases |s|
  {
    if |s| > 1 {
      EscapeHtmlEnds(s[1..]);
      var e := EscapeHtml(s);
      var tail := EscapeHtml(s[1..]);
      assert e[|e| - 1] == tail[|tail| - 1];
      assert s[1..][|s[1..]| - 1] == s[|s| - 1];
    } else if |s| == 1 {
      assert EscapeHtml(s) == EscapeChar(s[0]);
    }
  }

  lemma {:induction false} EscapeHtmlNoTrim(s: string)
    requires Trim(s) == s
    ensures Trim(EscapeHtml(s)) == EscapeHtml(s)
  {
    EscapeHtmlEnds(s);
    var e := EscapeHtml(s);
    if |s| > 0 {
      assert !IsTrimChar(s[0]) && !IsTrimChar(s[|s| - 1]);
      assert TrimLeft(e) == e;
      assert TrimRight(e) == e;
    }
  }

  /** Trimming is idempotent. */
  lemma TrimIdempotent(s: string)
    ensures Trim(Trim(s)) == Trim(s)
  {
    if Trim(s) != "" {
      TrimUnpadded(Trim(s));
    }
  }

  /** `htmlspecialchars(trim($v), ENT_QUOTES, 'UTF-8')`, the way the forms read a text
      field: the result has no surrounding whitespace, and it is PHP-empty exactly when
      the trimmed input is. */
  function EscapeTrimmed(v: string): (r: string)
    ensures Trim(r) == r
    ensures PhpEmpty(r) <==> PhpEmpty(Trim(v))
    ensures r == "" <==> AllTrimChars(v)
  {
    var t := Trim(v);
    TrimIdempotent(v);
    EscapeHtmlEnds(t);
    EscapeHtmlNoTrim(t);
    EscapeHtml(t)
  }
}
