/** The acceptance rules of the hardware entry form (public/hardware/crear.php, lines
    38-119): the posted fields are read with their defaults, checked one by one, and a
    submission without errors is built into a processor or a graphics card and saved
    through the session-backed repository. */
module HardwareForm {
  import opened Wrappers
  import opened PhpArray
  import opened HardwareModel
  import Text
  import HR = HardwareRepository

  /** The posted fields, each possibly missing. Price, stock and cores arrive already
      converted by the `(float)` and `(int)` casts. */
  datatype Input = Input(
    tipo: Option<string>,
    marca: Option<string>,
    modelo: Option<string>,
    precio: Option<real>,
    stock: Option<int>,
    categoria: Option<string>,
    nucleos: Option<int>,
    frecuencia: Option<string>,
    vram: Option<string>)

  /** The `$datos` array the page builds from the post. */
  datatype Datos = Datos(
    tipo: string,
    marca: string,
    modelo: string,
    precio: real,
    stock: int,
    categoria: string,
    nucleos: int,
    frecuencia: string,
    vram: string)

  /** Reads the post: the type defaults to "procesador" and is taken verbatim, the text
      fields are trimmed and escaped, and missing numbers read as 0. */
  function Leer(i: Input): (d: Datos)
    ensures d.tipo == i.tipo.GetOr("procesador")
    ensures d.precio == i.precio.GetOr(0.0) && d.stock == i.stock.GetOr(0)
    ensures d.nucleos == i.nucleos.GetOr(0)
    ensures Text.PhpEmpty(d.marca) <==> Text.PhpEmpty(Text.Trim(i.marca.GetOr("")))
    ensures Text.PhpEmpty(d.modelo) <==> Text.PhpEmpty(Text.Trim(i.modelo.GetOr("")))
    ensures Text.PhpEmpty(d.categoria) <==> Text.PhpEmpty(Text.Trim(i.categoria.GetOr("")))
    ensures Text.PhpEmpty(d.frecuencia) <==> Text.PhpEmpty(Text.Trim(i.frecuencia.GetOr("")))
    ensures Text.PhpEmpty(d.vram) <==> Text.PhpEmpty(Text.Trim(i.vram.GetOr("")))
  {
    Datos(
      i.tipo.GetOr("procesador"),
      Text.EscapeTrimmed(i.marca.GetOr("")),
      Text.EscapeTrimmed(i.modelo.GetOr("")),
      i.precio.GetOr(0.0),
      i.stock.GetOr(0),
      Text.EscapeTrimmed(i.categoria.GetOr("")),
      i.nucleos.GetOr(0),
      Text.EscapeTrimmed(i.frecuencia.GetOr("")),
      Text.EscapeTrimmed(i.vram.GetOr("")))
  }

  /** The keys of the `$errores` array. */
  datatype Field = Marca | Modelo | Precio | Stock | Categoria | Nucleos | Frecuencia | Vram

  const Campos: set<Field> := {Marca, Modelo, Precio, Stock, Categoria, Nucleos, Frecuencia, Vram}

  /** The test of lines 53-85 that raises an error on field `f`. The core count and the
      frequency are checked only for "procesador", the VRAM only for "tarjeta_grafica". */
  predicate Falla(d: Datos, f: Field) {
    match f
    case Marca => Text.PhpEmpty(d.marca)
    case Modelo => Text.PhpEmpty(d.modelo)
    case Precio => d.precio <= 0.0
    case Stock => d.stock < 0
    case Categoria => Text.PhpEmpty(d.categoria)
    case Nucleos => d.tipo == "procesador" && d.nucleos <= 0
    case Frecuencia => d.tipo == "procesador" && Text.PhpEmpty(d.frecuencia)
    case Vram => d.tipo == "tarjeta_grafica" && Text.PhpEmpty(d.vram)
  }

  function Mensaje(f: Field): string {
    match f
    case Marca => "La marca es requerida"
    case Modelo => "El modelo es requerido"
    case Precio => "El precio debe ser mayor a 0"
    case Stock => "El stock no puede ser negativo"
    case Categoria => "La categoría es requerida"
    case Nucleos => "El número de núcleos debe ser mayor a 0"
    case Frecuencia => "La frecuencia es requerida (ej: 4.3GHz)"
    case Vram => "La VRAM es requerida (ej: 8GB GDDR6)"
  }

  /** `$errores`: every failing field holds exactly its one message (each field is
      checked once), and no other field appears. */
  function Errores(d: Datos): (es: map<Field, seq<string>>)
    ensures forall f :: f in es <==> Falla(d, f)
    ensures forall f :: f in es ==> es[f] == [Mensaje(f)]
  {
    map f | f in Campos && Falla(d, f) :: [Mensaje(f)]
  }

  /** The common fields: brand, model and category must not be empty, the price must be
      positive and the stock not negative. */
  lemma ErroresComunes(d: Datos)
    ensures Marca in Errores(d) <==> Text.PhpEmpty(d.marca)
    ensures Modelo in Errores(d) <==> Text.PhpEmpty(d.modelo)
    ensures Precio in Errores(d) <==> d.precio <= 0.0
    ensures Stock in Errores(d) <==> d.stock < 0
    ensures Categoria in Errores(d) <==> Text.PhpEmpty(d.categoria)
  {
  }

  /** The type-specific fields: only a processor is asked for cores and frequency, only
      a graphics card for VRAM, and any other type for neither. */
  lemma ErroresPorTipo(d: Datos)
    ensures Nucleos in Errores(d) <==> d.tipo == "procesador" && d.nucleos <= 0
    ensures Frecuencia in Errores(d) <==> d.tipo == "procesador" && Text.PhpEmpty(d.frecuencia)
    ensures Vram in Errores(d) <==> d.tipo == "tarjeta_grafica" && Text.PhpEmpty(d.vram)
    ensures d.tipo != "procesador" && d.tipo != "tarjeta_grafica" ==>
      Nucleos !in Errores(d) && Frecuencia !in Errores(d) && Vram !in Errores(d)
  {
  }

  /** What an acceptable record is, stated field by field. */
  predicate Aceptable(d: Datos) {
    && !Text.PhpEmpty(d.marca) && !Text.PhpEmpty(d.modelo) && !Text.PhpEmpty(d.categoria)
    && d.precio > 0.0 && d.stock >= 0
    && (d.tipo == "procesador" ==> d.nucleos >= 1 && !Text.PhpEmpty(d.frecuencia))
    && (d.tipo == "tarjeta_grafica" ==> !Text.PhpEmpty(d.vram))
  }

  /** No error is raised exactly for the acceptable records. */
  lemma ErroresVaciosSiiAceptable(d: Datos)
    ensures Errores(d) == map[] <==> Aceptable(d)
  {
    var es := Errores(d);
    if es != map[] {
      var f :| f in es;
      assert Falla(d, f);
    } else {
      assert !Falla(d, Marca) && !Falla(d, Modelo) && !Falla(d, Precio) && !Falla(d, Stock);
      assert !Falla(d, Categoria) && !Falla(d, Nucleos) && !Falla(d, Frecuencia) && !Falla(d, Vram);
    }
  }

  /** The object the page creates: a processor for "procesador", a graphics card for any
      other type, with no id yet. */
  function Construir(d: Datos): (h: Hardware)
    ensures h.id.None?
    ensures h.Procesador? <==> d.tipo == "procesador"
    ensures h.marca == d.marca && h.modelo == d.modelo && h.precio == d.precio
    ensures h.stock == d.stock && h.categoria == d.categoria
  {
    if d.tipo == "procesador" then
      Procesador(None, d.marca, d.modelo, d.precio, d.stock, d.categoria, d.nucleos, d.frecuencia)
    else
      TarjetaGrafica(None, d.marca, d.modelo, d.precio, d.stock, d.categoria, d.vram)
  }

  /** The page's outcome: the errors, the success flag and the session afterwards. */
  datatype Resultado = Resultado(errores: map<Field, seq<string>>, exito: bool, session: HR.Session)

  /** The POST branch: with no errors the repository is rebuilt from the session, the
      item is saved and the session holds the new snapshot; otherwise nothing is saved. */
  function Procesar(session: HR.Session, input: Input): (res: Resultado)
    ensures res.exito <==> res.errores == map[]
    ensures res.exito <==> Aceptable(Leer(input))
    ensures !res.exito ==> res.session == session
    ensures res.exito ==> res.session.items.Some? && res.session.nextId.Some?
  {
    var d := Leer(input);
    var es := Errores(d);
    ErroresVaciosSiiAceptable(d);
    if es == map[] then
      var saved := HR.Save(HR.Construct(session), Construir(d));
      Resultado(es, true, saved.repo.session)
    else
      Resultado(es, false, session)
  }

  /** On a consistent store, a successful submission appends exactly one item: it takes
      the next id, carries the posted values, and is what the next page load finds
      under that id. */
  lemma ProcesarAgrega(session: HR.Session, input: Input)
    requires HR.Valid(HR.Construct(session))
    requires Procesar(session, input).exito
    ensures var before := HR.Construct(session);
      var after := HR.Construct(Procesar(session, input).session);
      var h := SetId(Construir(Leer(input)), before.nextId);
      && after.items == before.items + [Entry(before.nextId, h)]
      && after.nextId == before.nextId + 1
      && HR.FindById(after, before.nextId) == Some(h)
  {
    var before := HR.Construct(session);
    var saved := HR.Save(before, Construir(Leer(input)));
    HR.NewIdIsFresh(before, Construir(Leer(input)));
    HR.RestoreRoundTrip(saved.repo);
  }

  /** Every record the form saves has a positive price, a non-negative stock and the
      required texts; a saved processor has at least one core and a frequency. */
  lemma GuardadoEsCoherente(session: HR.Session, input: Input)
    requires Procesar(session, input).exito
    ensures var h := Construir(Leer(input));
      && h.precio > 0.0 && h.stock >= 0
      && !Text.PhpEmpty(h.marca) && !Text.PhpEmpty(h.modelo) && !Text.PhpEmpty(h.categoria)
      && (h.Procesador? ==> h.nucleos >= 1 && !Text.PhpEmpty(h.frecuencia))
  {
  }

  /** A type other than the two known ones skips the type checks and still saves a
      graphics card, whose VRAM is then empty when none was posted. */
  lemma TipoDesconocidoGuardaTarjeta(session: HR.Session, input: Input)
    requires input.tipo.Some? && input.tipo.value != "procesador" && input.tipo.value != "tarjeta_grafica"
    requires !Text.PhpEmpty(Text.Trim(input.marca.GetOr("")))
    requires !Text.PhpEmpty(Text.Trim(input.modelo.GetOr("")))
    requires !Text.PhpEmpty(Text.Trim(input.categoria.GetOr("")))
    requires input.precio.GetOr(0.0) > 0.0 && input.stock.GetOr(0) >= 0 && input.vram.None?
    ensures Procesar(session, input).exito
    ensures Construir(Leer(input)).TarjetaGrafica? && Construir(Leer(input)).vram == ""
  {
    var d := Leer(input);
    assert Text.AllTrimChars("");
    assert d.tipo == input.tipo.value && d.vram == "";
    assert Aceptable(d);
    ErroresVaciosSiiAceptable(d);
    ProcesarErrores(session, input);
  }

  /** The errors the page reports are those of the fields it read. */
  lemma ProcesarErrores(session: HR.Session, input: Input)
    ensures Procesar(session, input).errores == Errores(Leer(input))
    ensures Procesar(session, input).exito <==> Errores(Leer(input)) == map[]
  {
  }

  /** `trim(" 0 ")` is "0". */
  lemma TrimCero()
    ensures Text.Trim(" 0 ") == "0"
  {
    assert Text.TrimLeft(" 0 ") == "0 " by { assert " 0 "[1..] == "0 "; }
    assert Text.TrimRight("0 ") == "0" by { assert "0 "[..1] == "0"; }
  }

  /** A brand of "0" counts as empty, as `empty()` treats the string "0". */
  lemma MarcaCeroRechazada(session: HR.Session, input: Input)
    requires input.marca == Some(" 0 ")
    ensures !Procesar(session, input).exito
    ensures Marca in Procesar(session, input).errores
  {
    TrimCero();
    var d := Leer(input);
    assert Text.PhpEmpty(d.marca);
    assert Falla(d, Marca);
    ProcesarErrores(session, input);
  }
}
