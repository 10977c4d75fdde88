/**
 * The native text-rendering subsystem (Windows GDI) as the font manager sees it.
 *
 * The real behaviour of GDI is not part of this model. Its answers to queries are
 * uninterpreted oracles fixed when the subsystem is built; what the model keeps track
 * of is the state the font manager changes: which font is selected into which device
 * context (DC), which font handles are alive, and how many fonts were created and deleted.
 */
module Gdi {
  import opened Wrappers

  newtype byte = x: int | 0 <= x < 256

  /**
   * A device context handle: one made outside the DC pool, or one the pool made (which
   * a caller may hold while it has the DC claimed). Where the C++ code accepts a NULL
   * DC, the model uses Option<Hdc>.
   */
  datatype Hdc = CallerDc(n: nat) | PooledDc(n: nat)

  /** The requested font description (LOGFONTW); only the fields a reader needs are named. */
  datatype LogFont = LogFont(faceName: string, height: int, weight: int, italic: bool)

  /**
   * A font handle: the font every DC holds before anything is selected into it, or
   * the serial-numbered result of one CreateFontIndirectW call, which remembers the
   * description it was made from.
   */
  datatype Hfont = StockFont | Created(serial: nat, attr: LogFont)

  /** What GetOutlineTextMetricsW returned, and the caller's buffer after the call. */
  datatype MetricsReply = MetricsReply(size: nat, buf: seq<byte>)

  /** What GetFontData returned, and the bytes it wrote into the caller's buffer. */
  datatype FontDataReply = FontDataReply(size: nat, bytes: seq<byte>)

  /** A UTF-16 code unit (wchar_t): GetGlyphIndicesW maps text one code unit at a time. */
  newtype WChar = x: int | 0 <= x < 0x10000

  /** The index GetGlyphIndices writes for a code unit the font lacks (GGI_MARK_NONEXISTING_GLYPHS). */
  const MissingGlyph: nat := 0xFFFF

  /** A real glyph index, which is never the missing-glyph mark. */
  type GlyphIndex = g: nat | g < MissingGlyph

  /** The realised font behind a handle: its description, or None for the stock font. */
  function Realisation(h: Hfont): Option<LogFont>
  {
    if h.Created? then Some(h.attr) else None
  }

  class Subsystem {
    /** Whether CreateFontIndirectW accepts a description. */
    const accepts: LogFont -> bool
    /** The outline metrics of a realised font; empty when it has none (a bitmap font). */
    const metricsOf: Option<LogFont> -> seq<byte>
    /** GetFontData's answer for a realised font, table, offset and buffer size. */
    const tableData: (Option<LogFont>, nat, nat, nat) -> FontDataReply
    /** The glyph a realised font has for a UTF-16 code unit, if any. */
    const glyphOf: (Option<LogFont>, WChar) -> Option<GlyphIndex>

    /** The font selected into each DC; a DC not listed holds the stock font. */
    var selected: map<Hdc, Hfont>
    /** Font handles created and not yet deleted. */
    var live: set<Hfont>
    /** The number of fonts created so far, and the serial of the next one. */
    var nextSerial: nat
    /** The number of fonts deleted so far. */
    ghost var deleted: nat

    /** Every live or selected created font was made by an earlier CreateFontIndirectW call. */
    ghost predicate Valid()
      reads this
    {
      && (forall h | h in live && h.Created? :: h.serial < nextSerial)
      && (forall d | d in selected && selected[d].Created? :: selected[d].serial < nextSerial)
    }

    constructor (accepts: LogFont -> bool, metricsOf: Option<LogFont> -> seq<byte>,
                 tableData: (Option<LogFont>, nat, nat, nat) -> FontDataReply,
                 glyphOf: (Option<LogFont>, WChar) -> Option<GlyphIndex>)
      ensures Valid()
      ensures this.accepts == accepts && this.metricsOf == metricsOf
      ensures this.tableData == tableData && this.glyphOf == glyphOf
      ensures selected == map[] && live == {} && nextSerial == 0 && deleted == 0
    {
      this.accepts := accepts;
      this.metricsOf := metricsOf;
      this.tableData := tableData;
      this.glyphOf := glyphOf;
      selected := map[];
      live := {};
      nextSerial := 0;
      deleted := 0;
    }

    function SelectedFont(dc: Hdc): Hfont
      reads this
    {
      if dc in selected then selected[dc] else StockFont
    }

    /** The outline metrics of the font currently selected into `dc`. */
    function DcMetrics(dc: Hdc): seq<byte>
      reads this
    {
      metricsOf(Realisation(SelectedFont(dc)))
    }

    /**
     * GetOutlineTextMetricsW(dc, cap, buf): with no buffer (cap == 0) it reports the
     * size of the metrics; with a buffer large enough it fills its head and reports the
     * size; otherwise it reports 0 and leaves the buffer alone.
     */
    function GetOutlineTextMetrics(dc: Hdc, cap: nat, buf: seq<byte>): MetricsReply
      reads this
      requires cap <= |buf|
    {
      var m := DcMetrics(dc);
      if cap == 0 then MetricsReply(|m|, buf)
      else if m == [] || cap < |m| then MetricsReply(0, buf)
      else MetricsReply(|m|, m + buf[|m|..])
    }

    /** GetFontData(dc, table, offset, buf, bufSize), answered for the font selected into `dc`. */
    function GetFontData(dc: Hdc, table: nat, offset: nat, bufSize: nat): FontDataReply
      reads this
    {
      tableData(Realisation(SelectedFont(dc)), table, offset, bufSize)
    }

    /**
     * The glyph indices of `text` in `font`, each missing code unit marked: the
     * result has one index per code unit, the mark exactly where the font lacks the code
     * unit, and the font's own glyph everywhere else.
     */
    function MarkGlyphs(font: Hfont, text: seq<WChar>): (gi: seq<nat>)
      ensures |gi| == |text|
      ensures forall i | 0 <= i < |text| ::
        (gi[i] == MissingGlyph <==> glyphOf(Realisation(font), text[i]).None?)
      ensures forall i | 0 <= i < |text| && glyphOf(Realisation(font), text[i]).Some? ::
        gi[i] == glyphOf(Realisation(font), text[i]).value
    {
      if text == [] then []
      else
        var g := glyphOf(Realisation(font), text[0]);
        [if g.Some? then g.value else MissingGlyph] + MarkGlyphs(font, text[1..])
    }

    /** GetGlyphIndices(dc, text, |text|, gi, GGI_MARK_NONEXISTING_GLYPHS) for the font selected into `dc`. */
    function GetGlyphIndices(dc: Hdc, text: seq<WChar>): seq<nat>
      reads this
    {
      MarkGlyphs(SelectedFont(dc), text)
    }

    /** CreateFontIndirectW: a fresh live handle when the description is accepted, NULL otherwise. */
    method CreateFontIndirect(attr: LogFont) returns (h: Option<Hfont>)
      requires Valid()
      modifies this
      ensures Valid()
      ensures !accepts(attr) ==> h == None && unchanged(this)
      ensures accepts(attr) ==> h == Some(Created(old(nextSerial), attr))
      ensures accepts(attr) ==> h.value !in old(live) && h.value !in old(selected).Values
      ensures accepts(attr) ==> live == old(live) + {h.value}
      ensures accepts(attr) ==> nextSerial == old(nextSerial) + 1
      ensures selected == old(selected) && deleted == old(deleted)
    {
      if !accepts(attr) {
        return None;
      }
      h := Some(Created(nextSerial, attr));
      assert h.value !in selected.Values by {
        forall d | d in selected ensures selected[d] != h.value {
        }
      }
      live := live + {h.value};
      nextSerial := nextSerial + 1;
    }

    /**
     * SelectObject: binds `font` (a handle GDI has made) to the DC and returns what it
     * held before; NULL for a NULL DC.
     */
    method SelectObject(dc: Option<Hdc>, font: Hfont) returns (prev: Option<Hfont>)
      requires Valid()
      requires font.Created? ==> font.serial < nextSerial
      modifies this
      ensures Valid()
      ensures dc.None? ==> prev == None && selected == old(selected)
      ensures dc.Some? ==> prev == Some(old(SelectedFont(dc.value)))
      ensures dc.Some? ==> selected == old(selected)[dc.value := font]
      ensures live == old(live) && nextSerial == old(nextSerial) && deleted == old(deleted)
    {
      if dc.None? {
        return None;
      }
      prev := Some(SelectedFont(dc.value));
      selected := selected[dc.value := font];
    }

    /**
     * DeleteObject: succeeds, and the handle is no longer alive, exactly when the handle
     * is alive and not selected into any DC; otherwise it fails and nothing changes.
     */
    method DeleteObject(h: Hfont) returns (ok: bool)
      requires Valid()
      modifies this
      ensures Valid()
      ensures ok <==> h in old(live) && h !in old(selected).Values
      ensures live == if ok then old(live) - {h} else old(live)
      ensures deleted == old(deleted) + (if ok then 1 else 0)
      ensures selected == old(selected) && nextSerial == old(nextSerial)
    {
      ok := h in live && h !in selected.Values;
      if ok {
        live := live - {h};
        deleted := deleted + 1;
      }
    }
  }
}
