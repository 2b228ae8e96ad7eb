/** The hardware catalogue items (src/Models/Hardware.php and its two subclasses,
    Procesador.php and TarjetaGrafica.php). The abstract base class and its two concrete
    subclasses become one tagged union: the six base fields are shared by both variants,
    each variant adds its own, and the polymorphic `obtenerDetallesTecnicos` is an
    exhaustive match. The getters are the datatype's field selectors. */
module HardwareModel {
  import opened Wrappers
  import Text

  datatype Hardware =
    | Procesador(
        id: Option<int>,
        marca: string,
        modelo: string,
        precio: real,
        stock: int,
        categoria: string,
        nucleos: int,
        frecuencia: string)
    | TarjetaGrafica(
        id: Option<int>,
        marca: string,
        modelo: string,
        precio: real,
        stock: int,
        categoria: string,
        vram: string)

  /** `setId`: the id becomes `id`, whatever it was, and nothing else changes. */
  function SetId(h: Hardware, id: int): (r: Hardware)
    ensures r.id == Some(id)
    ensures r.Procesador? <==> h.Procesador?
    ensures r.(id := h.id) == h
  {
    h.(id := Some(id))
  }

  /** `esStockCritico`: fewer than three units left. */
  predicate EsStockCritico(h: Hardware) {
    h.stock < 3
  }

  /** The text between the core count and the frequency of a processor's details. */
  const NucleosSeparator: string := " Núcleos a "

  /** Reads a processor's details string back into its core count and frequency:
      the numeral up to the first space, then the separator, then the frequency. */
  function ParseDetallesProcesador(d: string): Option<(int, string)> {
    match Text.IndexOf(d, ' ')
    case None => None
    case Some(k) =>
      var rest := d[k..];
      if NucleosSeparator <= rest then
        match Text.ParseInt(d[..k])
        case None => None
        case Some(n) => Some((n, rest[|NucleosSeparator|..]))
      else None
  }

  /** `obtenerDetallesTecnicos`: a graphics card shows its VRAM verbatim; a processor
      shows its core count and frequency in a form that reads back to exactly those two. */
  function ObtenerDetallesTecnicos(h: Hardware): (d: string)
    ensures h.TarjetaGrafica? ==> d == h.vram
    ensures h.Procesador? ==> ParseDetallesProcesador(d) == Some((h.nucleos, h.frecuencia))
  {
    match h
    case Procesador(_, _, _, _, _, _, nucleos, frecuencia) =>
      var num := Text.IntToString(nucleos);
      var d := num + NucleosSeparator + frecuencia;
      assert d == num + (NucleosSeparator + frecuencia);
      Text.IndexOfAfter(num, NucleosSeparator + frecuencia, ' ');
      assert d[..|num|] == num;
      assert d[|num|..] == NucleosSeparator + frecuencia;
      Text.ParseIntToString(nucleos);
      d
    case TarjetaGrafica(_, _, _, _, _, _, vram) => vram
  }

  /** Two processors show the same details only if they have the same core count and
      the same frequency. */
  lemma DetallesProcesadorInjective(a: Hardware, b: Hardware)
    requires a.Procesador? && b.Procesador?
    requires ObtenerDetallesTecnicos(a) == ObtenerDetallesTecnicos(b)
    ensures a.nucleos == b.nucleos && a.frecuencia == b.frecuencia
  {
  }

  /** The details depend only on the variant's own fields: the id, brand, model, price,
      stock and category never show. */
  lemma DetallesIgnoreBaseFields(h: Hardware, id: Option<int>, marca: string, modelo: string,
                                 precio: real, stock: int, categoria: string)
    ensures ObtenerDetallesTecnicos(h.(id := id, marca := marca, modelo := modelo, precio := precio,
                                       stock := stock, categoria := categoria))
         == ObtenerDetallesTecnicos(h)
  {
  }

  /** The critical-stock flag depends on the stock alone, and assigning an id leaves
      it and the details alone. */
  lemma SetIdKeepsDerived(h: Hardware, id: int)
    ensures EsStockCritico(SetId(h, id)) <==> h.stock < 3
    ensures ObtenerDetallesTecnicos(SetId(h, id)) == ObtenerDetallesTecnicos(h)
  {
    DetallesIgnoreBaseFields(h, Some(id), h.marca, h.modelo, h.precio, h.stock, h.categoria);
  }

  /** A processor's details are its numeral, the separator and its frequency. */
  lemma DetallesProcesador(h: Hardware)
    requires h.Procesador?
    ensures ObtenerDetallesTecnicos(h) == Text.IntToString(h.nucleos) + NucleosSeparator + h.frecuencia
  {
  }

  lemma SeisNucleos()
    ensures "6" + NucleosSeparator + "4.6GHz" == "6 Núcleos a 4.6GHz"
  {
  }

  /** A processor with 6 cores at 4.6GHz shows "6 Núcleos a 4.6GHz"; a card with
      8GB GDDR6 shows "8GB GDDR6". */
  lemma DetallesExamples(p: Hardware, g: Hardware)
    requires p.Procesador? && p.nucleos == 6 && p.frecuencia == "4.6GHz"
    requires g.TarjetaGrafica? && g.vram == "8GB GDDR6"
    ensures ObtenerDetallesTecnicos(p) == "6 Núcleos a 4.6GHz"
    ensures ObtenerDetallesTecnicos(g) == "8GB GDDR6"
  {
    DetallesProcesador(p);
    assert Text.IntToString(6) == "6" by {
      assert Text.DigitChar(6) == '6';
      assert Text.NatToString(6) == [Text.DigitChar(6)];
    }
    SeisNucleos();
  }
}
