# gdipp font manager, modelled in Dafny

This project models the font manager of the gdipp rendering server
(`gdipp_server/font_mgr.cpp`). The font manager is a register-or-reuse registry. It maps
the face name that GDI actually resolves a requested font to (not the requested name) to a
font entry. Each entry holds the font handle and the outline-metrics bytes captured when
the face was first registered. Around the registry sit accessors that bind a registered
font to a device context (DC) and forward one GDI query. The DC is either the caller's or
one borrowed from a shared pool and given back before returning.

Files:

- `wrappers.dfy`: `Option`, the model's NULL.
- `gdi.dfy`: GDI as a class `Subsystem`. Its answers (whether a description can be
  realised, outline metrics, font-table data, glyph lookup) are uninterpreted oracles fixed
  at construction. Its state is what the font manager changes: the font selected into each
  DC, the set of live font handles, and the creation and deletion counts.
- `dc_pool.dfy`: the DC pool as a class `Pool` with idle and borrowed DCs and ghost counts of
  claims and frees. A DC the pool makes holds the stock font until something is selected into
  it. A caller may pass the manager a pooled DC it has claimed; a font selected into such a
  DC stays there after the DC is freed and decides the face of later registrations made
  through that DC from the pool.
- `registry.dfy`: the registry as a value. `InsertOrReuse` is one successful registration.
  Lemmas about runs of registrations show that entries never change once made, that the
  first font registered for a face is the one kept, and that every later registration of
  a face leaves its entry as it is. The redundant font of such a registration is deleted
  through a pooled DC and leaks through a caller DC.
- `font_mgr.dfy`: the class `FontMgr` with `register_font`, `get_dc_metrics` and the
  accessors as methods, and the stubs as functions. Its invariant `Valid` says that every
  entry is registered under the face its own metrics name, that its font is alive, and
  that no two faces share a font.
- `scenarios.dfy`: three clients that follow from the contracts alone. In the first, the
  same description is registered twice through a caller DC. In the second, two descriptions
  are registered through a pool with one idle DC. In the third, a caller selects a
  registered font into a pooled DC it claimed, frees the DC, and a later registration
  without a caller DC picks up that font's face.

Behaviour kept exactly as the code has it:

- With no caller DC, `register_font` never selects the new font into the DC it claims
  (font_mgr.cpp:15-25). The metrics, and so the registry key, are those of the font the
  pooled DC already holds. `RegisterFont` states this. `Scenarios.RegisterTwiceThroughPool`
  shows the consequence: with one idle DC, any two accepted descriptions resolve to the same
  face, so both calls return the same result.
- When no metrics are available, `register_font` returns NULL without deleting the font it
  created (font_mgr.cpp:34-35), so that font leaks. `RegisterFont` states that the font
  stays alive and that no entry owns it.
- When a caller DC is given and the face is already registered, the new font is still
  selected into the caller's DC (font_mgr.cpp:24) when `DeleteObject` is called on it
  (font_mgr.cpp:53). GDI refuses to delete an object that is selected into a DC, so this
  font leaks too. `RegisterFont` states that it stays alive and selected into that DC.
  `Scenarios.RegisterTwiceThroughCallerDc` shows that registering one description twice
  through a caller DC deletes no font at all.

## Model

| member | source | states |
|---|---|---|
| `Registry.InsertOrReuse` | gdipp_server/font_mgr.cpp:37-55 | the resolved face is always registered afterwards; it keeps its existing entry if present and otherwise gets the new one; no other key is added or changed |
| `Registry.RegisterAllKeepsEntries` | gdipp_server/font_mgr.cpp:38-55 | over any run of registrations, every entry already present stays with the same font and metrics |
| `Registry.RegisterAllKeys` | gdipp_server/font_mgr.cpp:38-48 | after a run, the registered faces are exactly the earlier ones plus the faces the run resolved to |
| `Registry.FirstRegistrationWins` | gdipp_server/font_mgr.cpp:39-55 | the first registration of a new face decides its entry; every later registration of that face leaves it as it is |
| `Registry.AddedOrFound` | gdipp_server/font_mgr.cpp:39-55 | each registration in a run either adds one key or finds its face present: keys added plus registrations that found their face equals the number of registrations |
| `Registry.RegisterTwiceSameEntry` | gdipp_server/font_mgr.cpp:39-55 | registering the same face twice leaves one key and the first entry |
| `FontManager.Resized` | gdipp_server/font_mgr.cpp:138 | `metric_buf.resize(n)`: length n, old bytes kept, new bytes zero |
| `FontManager.FontMgr.GetDcMetrics` | gdipp_server/font_mgr.cpp:130-144 | reports metrics exactly when the DC's font has them; without them the buffer is unchanged; with them the buffer is exactly the metrics, of the reported size |
| `FontManager.FontMgr.RegisterFont` | gdipp_server/font_mgr.cpp:9-56 | failed creation changes nothing and claims no DC; exactly one font is created; a caller DC gets the new font selected, while a pooled DC does not and is claimed and freed once, and a DC the pool has to make yields the stock font's metrics; no metrics gives NULL, an unchanged registry and a leaked font; otherwise register-or-reuse under the face the metrics name; on reuse the new font is deleted through a pooled DC and leaks, still selected, through a caller DC; the registry invariant is kept |
| `FontManager.FontMgr.InsertOrDiscard` | gdipp_server/font_mgr.cpp:37-55 | register-or-reuse under the face the metrics name; a new face leaves GDI untouched; a present face keeps its entry and the font is deleted, unless it is selected into a DC, when it stays alive |
| `FontManager.FontMgr.GetFontData` | gdipp_server/font_mgr.cpp:58-80 | the entry's font is bound to the DC; GDI's table data for that font is returned unchanged; a pooled DC is claimed and freed once, a caller DC leaves the pool untouched; the registry is unchanged |
| `FontManager.FontMgr.GetFontMetrics` | gdipp_server/font_mgr.cpp:82-87 | the stored metrics are non-empty and name the face the entry is registered under |
| `FontManager.FontMgr.GetGlyphIndices` | gdipp_server/font_mgr.cpp:89-111 | the entry's font is bound to the DC; one index per UTF-16 code unit, with the missing-glyph mark exactly where the font lacks a code unit; the count is the number of code units; pool pairing as for font data; the registry is unchanged |
| `FontManager.FontMgr.SelectFont` | gdipp_server/font_mgr.cpp:113-118 | the entry's font is selected into the caller's DC and the font it held before is returned; the registry and the pool are unchanged |
| `FontManager.FontMgr.LookupStream` | gdipp_server/font_mgr.cpp:120-123 | no FreeType stream is ever provided |
| `FontManager.FontMgr.LookupFaceIndex` | gdipp_server/font_mgr.cpp:125-128 | the face index is always 0 |
| `FontManager.FontMgr.StreamIo` | gdipp_server/font_mgr.cpp:146-151 | the read callback always transfers 0 bytes |
| `Gdi.Subsystem.MarkGlyphs` | gdipp_server/font_mgr.cpp:105 | GetGlyphIndices with GGI_MARK_NONEXISTING_GLYPHS: one index per UTF-16 code unit, the mark 0xFFFF exactly for code units the font lacks, the font's glyph elsewhere |
| `Gdi.Subsystem.CreateFontIndirect` | gdipp_server/font_mgr.cpp:11-13 | NULL and no change for a rejected description; otherwise a fresh handle that was not alive before and is alive afterwards |
| `Gdi.Subsystem.SelectObject` | gdipp_server/font_mgr.cpp:24 | binds the font to the DC and returns the previous one; NULL and no change for a NULL DC |
| `Gdi.Subsystem.DeleteObject` | gdipp_server/font_mgr.cpp:53 | succeeds, and the handle is no longer alive and counts as deleted, exactly when it is alive and selected into no DC; otherwise nothing changes |
| `DcPool.Pool.Claim` | gdipp_server/font_mgr.cpp:18 | hands out a pooled DC nobody is borrowing, idle if one is idle, otherwise a new one |
| `DcPool.Pool.Free` | gdipp_server/font_mgr.cpp:32 | the borrowed DC becomes idle again |
| `Scenarios.RegisterTwiceThroughCallerDc` | gdipp_server/font_mgr.cpp:9-56 | one description registered twice through a caller DC: the same font both times, at most one key added, two fonts created, both alive afterwards, none deleted |
| `Scenarios.RegisterTwiceThroughPool` | gdipp_server/font_mgr.cpp:15-35 | with a single idle pooled DC, registering any two accepted descriptions returns the same font both times; a successful registration is named by the metrics of the font that DC already held |
| `Scenarios.SelectThenRegisterThroughPool` | gdipp_server/font_mgr.cpp:15-35 | after a caller selects a registered font into the pool's only DC and frees it, a registration without a caller DC resolves, whatever the description, to the face named by that font's metrics |

## Left out

- Locking and concurrency: the `SERVER_FONT_MGR` lock and the double-checked lookup (font_mgr.cpp:38-43) are modelled sequentially. The second lookup runs and always agrees with the first. Races between registrars are not modelled.
- GDI's own behaviour: the answers of CreateFontIndirectW, GetOutlineTextMetricsW, GetFontData and GetGlyphIndices are oracles. They depend only on the realised font description, not on the device a DC belongs to. The OUTLINETEXTMETRICW byte layout is not modelled. Selecting or querying a deleted handle is not treated as an error.
- `metric_face_name` and the DC pool's implementation are defined outside font_mgr.cpp and are not part of this model. The face name is an uninterpreted function of the metrics bytes. The pool is a set of idle and borrowed DCs whose claim never fails, so the `assert` on a NULL claimed DC is never reached.
- Raw pointers: a font is identified by the key of its entry, not by the entry's address. The accessors require a key that is registered.
- Integer widths: DWORD and UINT results are unbounded naturals. GDI_ERROR results of GetGlyphIndices are not modelled. The GetGlyphIndices count is the number of UTF-16 code units passed; the text is a sequence of code units, not of characters.
- Gdi.Subsystem.SelectObject: requires the stock font or a handle CreateFontIndirectW made; selecting a handle GDI never issued is not modelled.
- `register_font`'s `buf_size` argument is unused by the code and is dropped.
- `stream_close` is a method with an empty body and no contract, since it does nothing.
- FreeType stream plumbing beyond the constant stubs.
