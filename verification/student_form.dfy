/** The acceptance rules of the student entry form (public/estudiantes/crear.php, lines
    31-95): the posted fields are read and cleaned, each is checked with the validators,
    and the submission succeeds exactly when no field failed. Nothing is stored. PHP's
    `filter_var` e-mail sanitising and checking are not modelled; they are passed in as
    the functions `sanear` and `emailValido`. */
module StudentForm {
  import opened Wrappers
  import Text
  import Validator

  /** The posted fields, each possibly missing; `semestre` arrives already cast by `(int)`. */
  datatype Input = Input(
    nombre: Option<string>,
    apellidoPaterno: Option<string>,
    apellidoMaterno: Option<string>,
    email: Option<string>,
    ci: Option<string>,
    telefono: Option<string>,
    semestre: Option<int>,
    estado: Option<string>)

  /** The `$datos` array the page builds from the post. */
  datatype Datos = Datos(
    nombre: string,
    apellidoPaterno: string,
    apellidoMaterno: string,
    email: string,
    ci: string,
    telefono: string,
    semestre: int,
    estado: string)

  /** Reads the post: names are trimmed and escaped, the e-mail trimmed and sanitised,
      CI and phone trimmed, the semester defaults to 1 and the status to "active". */
  function Leer(i: Input, sanear: string -> string): (d: Datos)
    ensures d.nombre == "" <==> Text.Trim(i.nombre.GetOr("")) == ""
    ensures d.apellidoPaterno == "" <==> Text.Trim(i.apellidoPaterno.GetOr("")) == ""
    ensures d.apellidoMaterno == "" <==> Text.Trim(i.apellidoMaterno.GetOr("")) == ""
    ensures Text.Trim(d.nombre) == d.nombre && Text.Trim(d.ci) == d.ci
    ensures d.semestre == i.semestre.GetOr(1) && d.estado == i.estado.GetOr("active")
  {
    Text.TrimIdempotent(i.ci.GetOr(""));
    Datos(
      Text.EscapeTrimmed(i.nombre.GetOr("")),
      Text.EscapeTrimmed(i.apellidoPaterno.GetOr("")),
      Text.EscapeTrimmed(i.apellidoMaterno.GetOr("")),
      sanear(Text.Trim(i.email.GetOr(""))),
      Text.Trim(i.ci.GetOr("")),
      Text.Trim(i.telefono.GetOr("")),
      i.semestre.GetOr(1),
      i.estado.GetOr("active"))
  }

  /** The keys of the `$errores` array. */
  datatype Field = Nombre | ApellidoPaterno | ApellidoMaterno | Email | Ci | Telefono | Semestre

  const Campos: set<Field> := {Nombre, ApellidoPaterno, ApellidoMaterno, Email, Ci, Telefono, Semestre}

  /** The field set names every field. */
  lemma EveryField(f: Field)
    ensures f in Campos
  {
  }

  /** The answers of the validator calls the page makes, each evaluated once. */
  datatype Veredictos = Veredictos(
    nombreRequerido: bool, nombreLongitud: bool,
    paternoRequerido: bool, paternoLongitud: bool,
    maternoRequerido: bool, maternoLongitud: bool,
    emailRequerido: bool, emailValido: bool,
    ciRequerido: bool, ciValido: bool,
    telefonoRequerido: bool, telefonoValido: bool,
    semestre: int)

  /** Runs the validators on the cleaned fields: names must be 2 to 50 bytes long. */
  function Evaluar(d: Datos, emailValido: string -> bool): (v: Veredictos)
    ensures v.semestre == d.semestre
  {
    Veredictos(
      Validator.Requerido(d.nombre), Validator.Longitud(Some(d.nombre), 2, 50),
      Validator.Requerido(d.apellidoPaterno), Validator.Longitud(Some(d.apellidoPaterno), 2, 50),
      Validator.Requerido(d.apellidoMaterno), Validator.Longitud(Some(d.apellidoMaterno), 2, 50),
      Validator.Requerido(d.email), emailValido(d.email),
      Validator.Requerido(d.ci), Validator.Ci(Some(d.ci)),
      Validator.Requerido(d.telefono), Validator.Telefono(Some(d.telefono)),
      d.semestre)
  }

  /** The test of lines 42-85 that raises an error on field `f`: each required field
      must be present and then valid, the phone only when present, and the semester
      between 1 and 10. */
  predicate Falla(v: Veredictos, f: Field) {
    match f
    case Nombre => !v.nombreRequerido || !v.nombreLongitud
    case ApellidoPaterno => !v.paternoRequerido || !v.paternoLongitud
    case ApellidoMaterno => !v.maternoRequerido || !v.maternoLongitud
    case Email => !v.emailRequerido || !v.emailValido
    case Ci => !v.ciRequerido || !v.ciValido
    case Telefono => v.telefonoRequerido && !v.telefonoValido
    case Semestre => v.semestre < 1 || v.semestre > 10
  }

  /** The message of the first failing branch of each `if`/`elseif`. */
  function Mensaje(v: Veredictos, f: Field): string {
    match f
    case Nombre =>
      if !v.nombreRequerido then "El nombre es requerido"
      else "El nombre debe tener entre 2 y 50 caracteres"
    case ApellidoPaterno =>
      if !v.paternoRequerido then "El apellido paterno es requerido"
      else "El apellido paterno debe tener entre 2 y 50 caracteres"
    case ApellidoMaterno =>
      if !v.maternoRequerido then "El apellido materno es requerido"
      else "El apellido materno debe tener entre 2 y 50 caracteres"
    case Email =>
      if !v.emailRequerido then "El email es requerido" else "El email no es válido"
    case Ci =>
      if !v.ciRequerido then "El CI es requerido"
      else "El CI no es válido (formato: 12345678-LP)"
    case Telefono => "El teléfono no es válido (formato: +591 7XXXXXXX)"
    case Semestre => "El semestre debe estar entre 1 y 10"
  }

  /** `$errores`: every failing field holds exactly one message, and no other field
      appears. */
  function Errores(v: Veredictos): (es: map<Field, seq<string>>)
    ensures forall f :: f in es <==> Falla(v, f)
    ensures forall f :: f in es ==> es[f] == [Mensaje(v, f)]
  {
    var es := map f | f in Campos && Falla(v, f) :: [Mensaje(v, f)];
    assert forall f :: f in es <==> Falla(v, f) by {
      forall f
        ensures f in es <==> Falla(v, f)
      {
        EveryField(f);
      }
    }
    es
  }

  /** A name part is present and 2 to 50 bytes long. */
  predicate NombreValido(x: string) {
    Validator.Requerido(x) && Validator.Longitud(Some(x), 2, 50)
  }

  /** What an acceptable record is, stated on the cleaned fields. */
  predicate Aceptable(d: Datos, emailValido: string -> bool) {
    && NombreValido(d.nombre) && NombreValido(d.apellidoPaterno) && NombreValido(d.apellidoMaterno)
    && Validator.Requerido(d.email) && emailValido(d.email)
    && Validator.Requerido(d.ci) && Validator.Ci(Some(d.ci))
    && (Validator.Requerido(d.telefono) ==> Validator.Telefono(Some(d.telefono)))
    && 1 <= d.semestre <= 10
  }

  /** The map is empty exactly when every validator call said yes and the semester is
      in range. */
  lemma SinErroresSii(v: Veredictos)
    ensures Errores(v) == map[] <==>
      && v.nombreRequerido && v.nombreLongitud && v.paternoRequerido && v.paternoLongitud
      && v.maternoRequerido && v.maternoLongitud && v.emailRequerido && v.emailValido
      && v.ciRequerido && v.ciValido && (v.telefonoRequerido ==> v.telefonoValido)
      && 1 <= v.semestre <= 10
  {
    var es := Errores(v);
    if es != map[] {
      var f :| f in es;
      assert Falla(v, f);
    } else {
      assert !Falla(v, Nombre) && !Falla(v, ApellidoPaterno) && !Falla(v, ApellidoMaterno);
      assert !Falla(v, Email) && !Falla(v, Ci) && !Falla(v, Telefono) && !Falla(v, Semestre);
    }
  }

  /** No error is raised exactly for the acceptable records. */
  lemma ErroresVaciosSiiAceptable(d: Datos, emailValido: string -> bool)
    ensures Errores(Evaluar(d, emailValido)) == map[] <==> Aceptable(d, emailValido)
  {
    SinErroresSii(Evaluar(d, emailValido));
  }

  /** The page's outcome: the errors and the success flag. */
  datatype Resultado = Resultado(errores: map<Field, seq<string>>, exito: bool)

  /** The POST branch: succeeds exactly when no field failed. */
  function Procesar(input: Input, sanear: string -> string, emailValido: string -> bool)
    : (res: Resultado)
    ensures res.exito <==> res.errores == map[]
    ensures res.exito <==> Aceptable(Leer(input, sanear), emailValido)
  {
    var d := Leer(input, sanear);
    ErroresVaciosSiiAceptable(d, emailValido);
    var es := Errores(Evaluar(d, emailValido));
    Resultado(es, es == map[])
  }

  /** The name's entry: the "requerido" message exactly when the requirement fails,
      and an entry at all exactly when either check fails. */
  lemma NombreMensajes(v: Veredictos)
    ensures (Nombre in Errores(v) && Errores(v)[Nombre] == ["El nombre es requerido"])
            <==> !v.nombreRequerido
    ensures Nombre in Errores(v) <==> !v.nombreRequerido || !v.nombreLongitud
  {
    var otro := "El nombre debe tener entre 2 y 50 caracteres";
    assert |otro| != |"El nombre es requerido"|;
  }

  /** The given name fails as missing exactly when the post is blank, and otherwise
      fails only on the byte length of its escaped form. */
  lemma NombreSegunPost(input: Input, sanear: string -> string, emailValido: string -> bool)
    ensures var d := Leer(input, sanear);
      var es := Errores(Evaluar(d, emailValido));
      && ((Nombre in es && es[Nombre] == ["El nombre es requerido"])
            <==> Text.Trim(input.nombre.GetOr("")) == "")
      && (Nombre in es <==>
            Text.Trim(input.nombre.GetOr("")) == ""
            || !(2 <= Text.ByteLength(Text.EscapeHtml(Text.Trim(input.nombre.GetOr("")))) <= 50))
  {
    var d := Leer(input, sanear);
    var v := Evaluar(d, emailValido);
    NombreLeido(input, sanear, emailValido);
    NombreMensajes(v);
  }

  /** How the name's two verdicts follow from the posted name. */
  lemma NombreLeido(input: Input, sanear: string -> string, emailValido: string -> bool)
    ensures var raw := Text.Trim(input.nombre.GetOr(""));
      var v := Evaluar(Leer(input, sanear), emailValido);
      && (v.nombreRequerido <==> raw != "")
      && (v.nombreLongitud <==> 2 <= Text.ByteLength(Text.EscapeHtml(raw)) <= 50)
  {
    var nombre := Text.EscapeTrimmed(input.nombre.GetOr(""));
    assert Leer(input, sanear).nombre == nombre;
    assert Validator.Requerido(nombre) <==> nombre != "";
  }

  /** With no phone posted there is no phone error. */
  lemma TelefonoAusente(v: Veredictos)
    requires !v.telefonoRequerido
    ensures Telefono !in Errores(v)
  {
  }

  /** The phone is optional: a blank or missing number never raises an error. */
  lemma TelefonoOpcional(input: Input, sanear: string -> string, emailValido: string -> bool)
    requires Text.AllTrimChars(input.telefono.GetOr(""))
    ensures Telefono !in Procesar(input, sanear, emailValido).errores
  {
    var d := Leer(input, sanear);
    assert d.telefono == "";
    assert !Validator.Requerido(d.telefono) by {
      assert Text.Trim("") == "";
    }
    var v := Evaluar(d, emailValido);
    assert !v.telefonoRequerido;
    TelefonoAusente(v);
    ProcesarErrores(input, sanear, emailValido);
  }

  /** The posted status is read but never checked: it cannot change the outcome. */
  lemma EstadoNoSeValida(input: Input, e: Option<string>, sanear: string -> string,
                         emailValido: string -> bool)
    ensures Procesar(input.(estado := e), sanear, emailValido) == Procesar(input, sanear, emailValido)
  {
    var d, d' := Leer(input, sanear), Leer(input.(estado := e), sanear);
    assert d' == d.(estado := d'.estado);
    assert Evaluar(d', emailValido) == Evaluar(d, emailValido);
  }

  /** The errors the page reports are those of the validator verdicts on what it read. */
  lemma ProcesarErrores(input: Input, sanear: string -> string, emailValido: string -> bool)
    ensures Procesar(input, sanear, emailValido).errores == Errores(Evaluar(Leer(input, sanear), emailValido))
  {
  }

  /** "&" is escaped to the five bytes of "&amp;". */
  lemma TrimAmpersand()
    ensures Text.Trim("&") == "&"
  {
    Text.TrimUnpadded("&");
  }

  lemma EscapeAmpersand()
    ensures Text.EscapeHtml("&") == "&amp;"
  {
    assert Text.EscapeHtml("&") == Text.EscapeChar('&') + Text.EscapeHtml("");
  }

  lemma AmpersandBytes()
    ensures Text.ByteLength("&amp;") == 5
  {
    var e: string := "&amp;";
    assert e[1..][1..][1..][1..][1..] == [];
  }

  /** The length limits count the bytes of the escaped name, not its characters: the
      one-character name "&" is escaped to "&amp;" and passes the two-byte minimum. */
  lemma LongitudCuentaEscapado(input: Input, sanear: string -> string, emailValido: string -> bool)
    requires input.nombre == Some("&")
    ensures Nombre !in Procesar(input, sanear, emailValido).errores
  {
    TrimAmpersand();
    EscapeAmpersand();
    AmpersandBytes();
    NombreLeido(input, sanear, emailValido);
    NombreMensajes(Evaluar(Leer(input, sanear), emailValido));
    ProcesarErrores(input, sanear, emailValido);
  }
}
