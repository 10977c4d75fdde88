/**
 * The font manager of the rendering server: a register-or-reuse registry keyed by the
 * face name GDI resolves a font to, and accessors that bind a registered font to a DC
 * (the caller's, or one borrowed from the pool) and forward a query to GDI.
 *
 * A registered font is identified by the key of its entry (the C++ code hands out the
 * entry's address instead).
 */
module FontManager {
  import opened Wrappers
  import opened Gdi
  import opened DcPool
  import opened Registry

  /** The identity of a registered font: the face name its entry is registered under. */
  type FontId = string

  /** A FreeType stream handle (FT_Stream); nothing about it is modelled. */
  type Stream = nat

  /** std::vector::resize: the first `n` bytes kept, value-initialised (zero) bytes added. */
  function Resized(buf: seq<byte>, n: nat): (r: seq<byte>)
    ensures |r| == n
    ensures forall i | 0 <= i < n && i < |buf| :: r[i] == buf[i]
    ensures forall i | |buf| <= i < n :: r[i] == 0
  {
    if n <= |buf| then buf[..n] else buf + seq(n - |buf|, _ => 0)
  }

  class FontMgr {
    var registry: Table
    /** The face name read out of an outline-metrics buffer (metric_face_name). */
    const faceName: seq<byte> -> string
    const gdi: Subsystem
    const pool: Pool

    /**
     * Each entry is registered under the face its metrics name, its metrics are not
     * empty, its font is alive, and no two faces share a font. A pooled DC that holds
     * a font is one the pool has already made, so a DC it makes next holds the stock font.
     */
    ghost predicate Valid()
      reads this, gdi, pool
    {
      && gdi.Valid()
      && pool.Valid()
      && (forall k | k in registry ::
            && registry[k].fontHandle in gdi.live
            && registry[k].metricBuf != []
            && faceName(registry[k].metricBuf) == k)
      && (forall k1, k2 | k1 in registry && k2 in registry && k1 != k2 ::
            registry[k1].fontHandle != registry[k2].fontHandle)
      && (forall d | d in gdi.selected && d.PooledDc? :: d.n < pool.nextDc)
    }

    constructor (gdi: Subsystem, pool: Pool, faceName: seq<byte> -> string)
      requires gdi.Valid() && pool.Valid()
      requires forall d | d in gdi.selected :: d.CallerDc?
      ensures Valid()
      ensures this.gdi == gdi && this.pool == pool && this.faceName == faceName
      ensures registry == map[]
    {
      this.gdi := gdi;
      this.pool := pool;
      this.faceName := faceName;
      registry := map[];
    }

    /**
     * get_dc_metrics: the outline metrics of the font selected into `dc`. When GDI
     * reports none, the buffer is left as it was; otherwise it holds exactly the
     * metrics (and so has exactly the reported size).
     */
    method GetDcMetrics(dc: Hdc, metricBuf: seq<byte>) returns (found: bool, buf: seq<byte>)
      ensures found <==> gdi.DcMetrics(dc) != []
      ensures !found ==> buf == metricBuf
      ensures found ==> buf == gdi.DcMetrics(dc)
    {
      var reply := gdi.GetOutlineTextMetrics(dc, 0, []);
      if reply.size == 0 {
        return false, metricBuf;
      }
      buf := Resized(metricBuf, reply.size);
      reply := gdi.GetOutlineTextMetrics(dc, reply.size, buf);
      assert reply.size != 0;
      buf := reply.buf;
      found := true;
    }

    /**
     * register_font. The font is created first; a NULL result fails the call with
     * nothing else done. The metrics come from the caller's DC with the new font
     * selected into it or, without a caller DC, from a DC claimed from the pool (into
     * which the new font is NOT selected) and freed again at once. No metrics: the call
     * fails and the new font is leaked. Otherwise the resolved face is looked up: new,
     * it is inserted with the new font and metrics; present, the new font is deleted
     * and the existing entry returned. That deletion fails, and the font leaks, when
     * the new font is still selected into the caller's DC.
     *
     * `holder` is the DC the metrics were read from, `captured` the metrics read.
     */
    method RegisterFont(attr: LogFont, hdc: Option<Hdc>)
      returns (id: Option<FontId>, ghost holder: Hdc, ghost captured: seq<byte>)
      requires Valid()
      requires hdc.Some? && hdc.value.PooledDc? ==> hdc.value in pool.busy
      modifies this, gdi, pool
      ensures Valid()
      // creation fails: nothing happens
      ensures !gdi.accepts(attr) ==> id == None && registry == old(registry)
      ensures !gdi.accepts(attr) ==> unchanged(gdi) && unchanged(pool)
      // exactly one font is created, and the DC the metrics come from
      ensures gdi.accepts(attr) ==> gdi.nextSerial == old(gdi.nextSerial) + 1
      ensures gdi.accepts(attr) && hdc.Some? ==>
        && holder == hdc.value
        && captured == gdi.metricsOf(Some(attr))
        && gdi.selected == old(gdi.selected)[holder := Created(old(gdi.nextSerial), attr)]
        && unchanged(pool)
      ensures gdi.accepts(attr) && hdc.None? ==>
        && captured == old(gdi.DcMetrics(holder))
        && gdi.selected == old(gdi.selected)
        && pool.ClaimedAndFreedOnce(holder)
      // a DC the pool has to make holds the stock font, whose metrics are then captured
      ensures gdi.accepts(attr) && hdc.None? && old(pool.idle) == {} ==>
        captured == gdi.metricsOf(None)
      // no metrics: failure, registry unchanged, the new font stays alive and unowned
      ensures gdi.accepts(attr) && captured == [] ==>
        && id == None
        && registry == old(registry)
        && gdi.live == old(gdi.live) + {Created(old(gdi.nextSerial), attr)}
        && gdi.deleted == old(gdi.deleted)
      // metrics: register-or-reuse under the face they name
      ensures gdi.accepts(attr) && captured != [] ==>
        && id == Some(faceName(captured))
        && registry == InsertOrReuse(old(registry), faceName(captured),
                                     FontEntry(Created(old(gdi.nextSerial), attr), captured))
      ensures gdi.accepts(attr) && captured != [] && faceName(captured) !in old(registry) ==>
        && gdi.live == old(gdi.live) + {Created(old(gdi.nextSerial), attr)}
        && gdi.deleted == old(gdi.deleted)
      // reuse through a pooled DC deletes the new font
      ensures gdi.accepts(attr) && hdc.None? && captured != [] && faceName(captured) in old(registry) ==>
        && gdi.live == old(gdi.live)
        && gdi.deleted == old(gdi.deleted) + 1
      // reuse through a caller DC: the new font is still selected into that DC, so its
      // deletion fails and it stays alive with no entry owning it
      ensures gdi.accepts(attr) && hdc.Some? && captured != [] && faceName(captured) in old(registry) ==>
        && gdi.live == old(gdi.live) + {Created(old(gdi.nextSerial), attr)}
        && gdi.deleted == old(gdi.deleted)
        && gdi.SelectedFont(hdc.value) == Created(old(gdi.nextSerial), attr)
    {
      holder, captured := CallerDc(0), [];
      var linkedFont := gdi.CreateFontIndirect(attr);
      if linkedFont.None? {
        return None, holder, captured;
      }

      var fontHolder: Hdc;
      if hdc.None? {
        fontHolder := pool.Claim();
      } else {
        fontHolder := hdc.value;
        var _ := gdi.SelectObject(Some(fontHolder), linkedFont.value);
      }
      holder := fontHolder;

      var found, metricBuf := GetDcMetrics(fontHolder, []);
      captured := metricBuf;

      if hdc.None? {
        pool.Free(fontHolder);
      }

      if !found {
        return None, holder, captured;
      }

      assert linkedFont.value in gdi.live;
      assert hdc.Some? ==> gdi.selected[holder] == linkedFont.value;
      assert hdc.None? ==> linkedFont.value !in gdi.selected.Values;
      var face := InsertOrDiscard(linkedFont.value, metricBuf);
      id := Some(face);
    }

    /**
     * The lookup that ends register_font: a face not yet registered gets a new entry
     * owning `font` and `metricBuf`; a registered face keeps its entry and `font` is
     * deleted, which fails (leaving it alive) while it is selected into a DC.
     */
    method InsertOrDiscard(font: Hfont, metricBuf: seq<byte>) returns (face: FontId)
      requires Valid()
      requires font in gdi.live && metricBuf != []
      requires forall k | k in registry :: registry[k].fontHandle != font
      modifies this, gdi
      ensures Valid()
      ensures face == faceName(metricBuf)
      ensures registry == InsertOrReuse(old(registry), face, FontEntry(font, metricBuf))
      ensures face !in old(registry) ==> unchanged(gdi)
      ensures face in old(registry) ==>
        && gdi.live == (if font in old(gdi.selected).Values then old(gdi.live) else old(gdi.live) - {font})
        && gdi.deleted == old(gdi.deleted) + (if font in old(gdi.selected).Values then 0 else 1)
        && gdi.selected == old(gdi.selected)
        && gdi.nextSerial == old(gdi.nextSerial)
    {
      face := faceName(metricBuf);
      if face !in registry {
        // the C++ code takes the registry lock and looks again; run alone, the second
        // lookup agrees with the first
        if face !in registry {
          registry := registry[face := FontEntry(font, metricBuf)];
          return;
        }
      }

      // the face was registered already: keep its entry, drop the new font
      var _ := gdi.DeleteObject(font);
    }

    /**
     * get_font_data: binds the entry's font to the DC (the caller's, or one claimed
     * from the pool and freed again) and returns GDI's answer unchanged.
     */
    method GetFontData(id: FontId, table: nat, offset: nat, bufSize: nat, hdc: Option<Hdc>)
      returns (size: nat, data: seq<byte>, ghost holder: Hdc)
      requires Valid() && id in registry
      requires hdc.Some? && hdc.value.PooledDc? ==> hdc.value in pool.busy
      modifies gdi, pool
      ensures Valid() && registry == old(registry)
      ensures FontDataReply(size, data)
           == gdi.tableData(Realisation(registry[id].fontHandle), table, offset, bufSize)
      ensures gdi.selected == old(gdi.selected)[holder := registry[id].fontHandle]
      ensures gdi.live == old(gdi.live) && gdi.nextSerial == old(gdi.nextSerial)
      ensures gdi.deleted == old(gdi.deleted)
      ensures hdc.Some? ==> holder == hdc.value && unchanged(pool)
      ensures hdc.None? ==> pool.ClaimedAndFreedOnce(holder)
    {
      var fontHolder: Hdc;
      if hdc.None? {
        fontHolder := pool.Claim();
      } else {
        fontHolder := hdc.value;
      }
      holder := fontHolder;
      var _ := gdi.SelectObject(Some(fontHolder), registry[id].fontHandle);

      var reply := gdi.GetFontData(fontHolder, table, offset, bufSize);

      if hdc.None? {
        pool.Free(fontHolder);
      }
      size, data := reply.size, reply.bytes;
    }

    /** get_font_metrics: the metrics captured when the entry was registered. */
    function GetFontMetrics(id: FontId): (metrics: seq<byte>)
      reads this, gdi, pool
      requires Valid() && id in registry
      ensures metrics != [] && faceName(metrics) == id
    {
      registry[id].metricBuf
    }

    /**
     * get_glyph_indices: binds the entry's font to the DC (the caller's, or one claimed
     * from the pool and freed again) and converts `text`: one index per UTF-16
     * code unit, missing ones marked, and the count of code units converted.
     */
    method GetGlyphIndices(id: FontId, text: seq<WChar>, hdc: Option<Hdc>)
      returns (converted: nat, gi: seq<nat>, ghost holder: Hdc)
      requires Valid() && id in registry
      requires hdc.Some? && hdc.value.PooledDc? ==> hdc.value in pool.busy
      modifies gdi, pool
      ensures Valid() && registry == old(registry)
      ensures gi == gdi.MarkGlyphs(registry[id].fontHandle, text)
      ensures converted == |text| == |gi|
      ensures gdi.selected == old(gdi.selected)[holder := registry[id].fontHandle]
      ensures gdi.live == old(gdi.live) && gdi.nextSerial == old(gdi.nextSerial)
      ensures gdi.deleted == old(gdi.deleted)
      ensures hdc.Some? ==> holder == hdc.value && unchanged(pool)
      ensures hdc.None? ==> pool.ClaimedAndFreedOnce(holder)
    {
      var fontHolder: Hdc;
      if hdc.None? {
        fontHolder := pool.Claim();
      } else {
        fontHolder := hdc.value;
      }
      holder := fontHolder;
      var _ := gdi.SelectObject(Some(fontHolder), registry[id].fontHandle);

      gi := gdi.GetGlyphIndices(fontHolder, text);
      converted := |gi|;

      if hdc.None? {
        pool.Free(fontHolder);
      }
    }

    /** select_font: binds the entry's font to the caller's DC and returns the font it held before. */
    method SelectFont(id: FontId, hdc: Option<Hdc>) returns (prev: Option<Hfont>)
      requires Valid() && id in registry
      requires hdc.Some? && hdc.value.PooledDc? ==> hdc.value in pool.busy
      modifies gdi
      ensures Valid() && registry == old(registry)
      ensures hdc.Some? ==> prev == Some(old(gdi.SelectedFont(hdc.value)))
      ensures hdc.Some? ==> gdi.selected == old(gdi.selected)[hdc.value := registry[id].fontHandle]
      ensures hdc.None? ==> prev == None && gdi.selected == old(gdi.selected)
      ensures gdi.live == old(gdi.live) && gdi.nextSerial == old(gdi.nextSerial)
      ensures gdi.deleted == old(gdi.deleted)
    {
      prev := gdi.SelectObject(hdc, registry[id].fontHandle);
    }

    /** lookup_stream: no FreeType stream is provided for any font. */
    function LookupStream(id: FontId): (stream: Option<Stream>)
      ensures stream == None
    {
      None
    }

    /** lookup_face_index: every font is face 0 of its file. */
    function LookupFaceIndex(id: FontId): (index: nat)
      ensures index == 0
    {
      0
    }

    /** stream_io: the FreeType read callback transfers no bytes. */
    static function StreamIo(stream: Stream, offset: nat, buffer: seq<byte>, count: nat): (transferred: nat)
      ensures transferred == 0
    {
      0
    }

    /** stream_close: nothing to release, since GetFontData needs no teardown. */
    static method StreamClose(stream: Stream)
    {
    }
  }
}
