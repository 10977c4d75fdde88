/**
 * Registration scenarios that follow from the contracts of FontMgr alone: the same
 * description registered twice through a caller's DC, two descriptions registered
 * through the pool when it holds a single idle DC, and a registration through a pooled
 * DC into which a caller had selected a registered font.
 */
module Scenarios {
  import opened Wrappers
  import opened Gdi
  import opened Registry
  import opened FontManager

  /**
   * The same description twice through the caller's DC: both calls return the same
   * font and add at most one entry. Both calls create a font and neither font is ever
   * deleted: the registry keeps at most one of them, and the other stays selected into
   * the caller's DC, where DeleteObject refuses it.
   */
  method RegisterTwiceThroughCallerDc(mgr: FontMgr, attr: LogFont, dc: Hdc)
    returns (first: Option<FontId>, second: Option<FontId>)
    requires mgr.Valid()
    requires dc.PooledDc? ==> dc in mgr.pool.busy
    modifies mgr, mgr.gdi, mgr.pool
    ensures mgr.Valid()
    ensures first == second
    ensures first.Some? ==> first.value in mgr.registry
    ensures first.Some? ==> mgr.registry.Keys == old(mgr.registry.Keys) + {first.value}
    ensures !mgr.gdi.accepts(attr) ==> first == None && mgr.registry == old(mgr.registry)
    ensures mgr.gdi.accepts(attr) ==> mgr.gdi.nextSerial == old(mgr.gdi.nextSerial) + 2
    ensures mgr.gdi.accepts(attr) ==>
      mgr.gdi.live == old(mgr.gdi.live) + {Created(old(mgr.gdi.nextSerial), attr),
                                           Created(old(mgr.gdi.nextSerial) + 1, attr)}
    ensures mgr.gdi.deleted == old(mgr.gdi.deleted)
    ensures mgr.gdi.accepts(attr) ==> mgr.gdi.SelectedFont(dc) == Created(old(mgr.gdi.nextSerial) + 1, attr)
  {
    ghost var h1, h2: Hdc;
    ghost var m1, m2: seq<byte>;
    first, h1, m1 := mgr.RegisterFont(attr, Some(dc));
    second, h2, m2 := mgr.RegisterFont(attr, Some(dc));
  }

  /**
   * Without a caller DC the new font is never selected into the pooled DC, so its
   * metrics are those of whatever that DC already holds. With one idle DC in the pool,
   * two registrations of ANY two accepted descriptions resolve to the same face and
   * return the same font.
   */
  method RegisterTwiceThroughPool(mgr: FontMgr, a1: LogFont, a2: LogFont, d: Hdc)
    returns (first: Option<FontId>, second: Option<FontId>)
    requires mgr.Valid() && mgr.pool.idle == {d}
    modifies mgr, mgr.gdi, mgr.pool
    ensures mgr.Valid()
    ensures mgr.gdi.accepts(a1) && mgr.gdi.accepts(a2) ==> first == second
    ensures first.Some? ==> first.value == mgr.faceName(old(mgr.gdi.DcMetrics(d)))
    ensures mgr.pool.idle == {d} && mgr.pool.busy == old(mgr.pool.busy)
  {
    ghost var h1, h2: Hdc;
    ghost var m1, m2: seq<byte>;
    first, h1, m1 := mgr.RegisterFont(a1, None);
    second, h2, m2 := mgr.RegisterFont(a2, None);
  }

  /**
   * A caller that has claimed the pool's only DC selects a registered font into it and
   * frees it. A later registration without a caller DC claims that same DC, which still
   * holds the selected font, so whatever description is asked for, the registration
   * resolves to the face named by that font's metrics.
   */
  method SelectThenRegisterThroughPool(mgr: FontMgr, id: FontId, d: Hdc, attr: LogFont)
    returns (result: Option<FontId>)
    requires mgr.Valid() && id in mgr.registry
    requires d in mgr.pool.busy && mgr.pool.idle == {}
    modifies mgr, mgr.gdi, mgr.pool
    ensures mgr.Valid()
    ensures result.Some? ==>
      result.value == mgr.faceName(mgr.gdi.metricsOf(Realisation(old(mgr.registry[id].fontHandle))))
    ensures mgr.gdi.accepts(attr) && mgr.gdi.metricsOf(Realisation(old(mgr.registry[id].fontHandle))) != [] ==>
      result.Some?
  {
    var _ := mgr.SelectFont(id, Some(d));
    mgr.pool.Free(d);
    ghost var holder: Hdc;
    ghost var captured: seq<byte>;
    result, holder, captured := mgr.RegisterFont(attr, None);
  }
}
