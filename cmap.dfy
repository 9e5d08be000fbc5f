/** Choosing the character-to-glyph mapping: the exporter scans the font's
    cmap subtables in order and keeps the mapping of the first one that is
    Unicode (font-to-svg.py lines 18-24). */
module Cmap {

  datatype Option<T> = None | Some(value: T)

  type GlyphName = string

  /** One cmap subtable: whether its platform and encoding make it a Unicode
      table, and its code point to glyph name mapping. */
  datatype CmapSubtable = CmapSubtable(isUnicode: bool, cmap: map<int, GlyphName>)

  /** Index k holds the first Unicode subtable. */
  predicate FirstUnicodeAt(tables: seq<CmapSubtable>, k: int) {
    && 0 <= k < |tables|
    && tables[k].isUnicode
    && forall j :: 0 <= j < k ==> !tables[j].isUnicode
  }

  /** The mapping the exporter ends up with: that of the first Unicode
      subtable, or none. */
  function ChosenCmap(tables: seq<CmapSubtable>): Option<map<int, GlyphName>> {
    if tables == [] then None
    else if tables[0].isUnicode then Some(tables[0].cmap)
    else ChosenCmap(tables[1..])
  }

  /** The mapping passes the source's `if not cmap` test: there is one and it
      is not empty. */
  predicate IsUsable(chosen: Option<map<int, GlyphName>>) {
    chosen.Some? && chosen.value != map[]
  }

  /** The choice is the mapping of the first Unicode subtable, and there is
      none exactly when no subtable is Unicode. */
  lemma {:induction false} ChosenIsFirstUnicode(tables: seq<CmapSubtable>)
    ensures ChosenCmap(tables).None? <==> forall j :: 0 <= j < |tables| ==> !tables[j].isUnicode
    ensures forall k :: FirstUnicodeAt(tables, k) ==> ChosenCmap(tables) == Some(tables[k].cmap)
  {
    if tables != [] && !tables[0].isUnicode {
      var rest := tables[1..];
      ChosenIsFirstUnicode(rest);
      forall k | FirstUnicodeAt(tables, k) ensures ChosenCmap(tables) == Some(tables[k].cmap) {
        assert FirstUnicodeAt(rest, k - 1);
      }
      if forall j :: 0 <= j < |rest| ==> !rest[j].isUnicode {
        forall j | 0 <= j < |tables| ensures !tables[j].isUnicode {
          if j > 0 { assert tables[j] == rest[j - 1]; }
        }
      }
    }
  }

  /** Subtables after the first Unicode one are never consulted: whatever
      follows it, the choice is the same. */
  lemma LaterTablesIgnored(tables: seq<CmapSubtable>, k: int, rest: seq<CmapSubtable>)
    requires FirstUnicodeAt(tables, k)
    ensures ChosenCmap(tables[..k + 1] + rest) == ChosenCmap(tables)
  {
    var t := tables[..k + 1] + rest;
    assert FirstUnicodeAt(t, k);
    ChosenIsFirstUnicode(t);
    ChosenIsFirstUnicode(tables);
  }

  /** An empty first Unicode mapping fails the `if not cmap` test even when a
      later Unicode subtable has glyphs: the search has already stopped. */
  lemma EmptyFirstUnicodeNotRescued(tables: seq<CmapSubtable>, k: int)
    requires FirstUnicodeAt(tables, k) && tables[k].cmap == map[]
    ensures !IsUsable(ChosenCmap(tables))
  {
    ChosenIsFirstUnicode(tables);
  }

  /** The search loop: walk the subtables in order and stop at the first
      Unicode one. */
  method FindUnicodeCmap(tables: seq<CmapSubtable>) returns (cmap: Option<map<int, GlyphName>>)
    ensures cmap == ChosenCmap(tables)
  {
    cmap := None;
    for i := 0 to |tables|
      invariant forall j :: 0 <= j < i ==> !tables[j].isUnicode
      invariant cmap == None
    {
      if tables[i].isUnicode {
        cmap := Some(tables[i].cmap);
        assert FirstUnicodeAt(tables, i);
        break;
      }
    }
    ChosenIsFirstUnicode(tables);
  }
}
