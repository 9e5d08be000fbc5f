/** `export_glyphs_to_svg` (font-to-svg.py lines 11-69): choose the Unicode
    cmap, fix the scale from the font's vertical metrics, create the output
    directory, then walk CHARS and save one SVG document per character the
    font has a glyph for, reporting progress after each one.

    The run's observable state (the progress and label variables of the
    progress window, whether the output directory was created, and the
    documents saved) is the object `ExportSession`; the function `Export`
    says what one run does to that state, and `ExportSession.ExportGlyphsToSvg`
    is proved to do exactly that. */
module Exporter {
  import opened Decimal
  import opened Charset
  import opened Cmap
  import opened Svg

  /** What the exporter reads from a font: its cmap subtables and the `hhea`
      ascent and descent, in font design units. */
  datatype Font = Font(tables: seq<CmapSubtable>, ascent: int, descent: int)

  function TotalHeight(font: Font): int {
    font.ascent - font.descent
  }

  /** The exceptions that end a run: the source's RuntimeError for a missing
      cmap, and the ZeroDivisionError of `SVG_HEIGHT / total_height`. */
  datatype ExportError = NoUnicodeCmap | ZeroDivision {
    /** `str(e)`, the text the caller shows in its error box. */
    function Message(): string {
      match this
      case NoUnicodeCmap => "No Unicode cmap found in the font."
      case ZeroDivision => "division by zero"
    }
  }

  /** The two failures show different messages, and the missing-cmap one is
      the text the RuntimeError is raised with. */
  lemma ErrorMessagesDistinct(e1: ExportError, e2: ExportError)
    ensures e1.Message() == e2.Message() <==> e1 == e2
    ensures NoUnicodeCmap.Message() == "No Unicode cmap found in the font."
  {
    assert NoUnicodeCmap.Message()[0] != ZeroDivision.Message()[0];
  }

  datatype Outcome = Done | Failed(error: ExportError)

  /** A value of the progress bar and the status label, set together. */
  datatype Status = Status(progress: real, labelText: string)

  /** The observable state a run changes. */
  datatype Effects = Effects(
    progress: real,
    labelText: string,
    reported: seq<Status>,
    dirCreated: bool,
    written: seq<SvgDocument>)

  /** `cmap.get(ord(char))` is a truthy glyph name. */
  predicate HasGlyph(cmap: map<int, GlyphName>, c: char) {
    c as int in cmap && cmap[c as int] != ""
  }

  /** The indices below n of the characters of CHARS that have a glyph, in
      increasing order: the characters the loop does not skip (that it holds
      every such index is MappedComplete). */
  function Mapped(cmap: map<int, GlyphName>, n: nat): (r: seq<nat>)
    requires n <= |CHARS|
    ensures |r| <= n
  {
    if n == 0 then []
    else Mapped(cmap, n - 1) + (if HasGlyph(cmap, CHARS[n - 1]) then [n - 1] else [])
  }

  /** Every character below n that has a glyph is in Mapped. */
  lemma {:induction false} MappedComplete(cmap: map<int, GlyphName>, n: nat, j: nat)
    requires n <= |CHARS| && j < n && HasGlyph(cmap, CHARS[j])
    ensures j in Mapped(cmap, n)
  {
    if j < n - 1 {
      MappedComplete(cmap, n - 1, j);
    }
  }

  /** `(i + 1) / total_chars * 100`, the progress after the character at index i. */
  function ProgressAt(i: nat): real
    requires i < |CHARS|
  {
    (i + 1) as real / |CHARS| as real * 100.0
  }

  /** `f"Exporting: '{char}' ({i + 1}/{total_chars})"`. */
  function LabelAt(i: nat): string
    requires i < |CHARS|
  {
    "Exporting: '" + [CHARS[i]] + "' (" + NatToDecimal(i + 1) + "/" + NatToDecimal(|CHARS|) + ")"
  }

  function StatusAt(i: nat): Status
    requires i < |CHARS|
  {
    Status(ProgressAt(i), LabelAt(i))
  }

  /** The document saved for the character at index i. */
  function DocumentAt(cmap: map<int, GlyphName>, i: nat, w: int, h: int, scale: real, trace: GlyphName -> string): SvgDocument
    requires i < |CHARS| && HasGlyph(cmap, CHARS[i])
  {
    GlyphDocument(FileName(CHARS[i]), trace(cmap[CHARS[i] as int]), w, h, scale)
  }

  /** The statuses reported while processing the first n characters: one per
      character with a glyph, in order. */
  function Reports(cmap: map<int, GlyphName>, n: nat): (r: seq<Status>)
    requires n <= |CHARS|
    ensures |r| == |Mapped(cmap, n)|
  {
    if n == 0 then []
    else Reports(cmap, n - 1) + (if HasGlyph(cmap, CHARS[n - 1]) then [StatusAt(n - 1)] else [])
  }

  /** The progress and label after processing the first n characters: those
      set for the last character with a glyph, or still the initial ones. */
  function LastStatus(cmap: map<int, GlyphName>, n: nat, initial: Status): Status
    requires n <= |CHARS|
  {
    if n == 0 then initial
    else if HasGlyph(cmap, CHARS[n - 1]) then StatusAt(n - 1)
    else LastStatus(cmap, n - 1, initial)
  }

  /** With no character mapped, the status is still the initial one. */
  lemma {:induction false} NoneMappedKeepsStatus(cmap: map<int, GlyphName>, n: nat, initial: Status)
    requires n <= |CHARS| && Mapped(cmap, n) == []
    ensures LastStatus(cmap, n, initial) == initial
  {
    if n > 0 {
      NoneMappedKeepsStatus(cmap, n - 1, initial);
    }
  }

  /** The documents saved while processing the first n characters: one per
      character with a glyph, in order. */
  function Written(cmap: map<int, GlyphName>, n: nat, w: int, h: int, scale: real, trace: GlyphName -> string): (docs: seq<SvgDocument>)
    requires n <= |CHARS|
    ensures |docs| == |Mapped(cmap, n)|
  {
    if n == 0 then []
    else
      var step := if HasGlyph(cmap, CHARS[n - 1]) then [DocumentAt(cmap, n - 1, w, h, scale, trace)] else [];
      Written(cmap, n - 1, w, h, scale, trace) + step
  }

  /** Processing the character at index i extends each of Mapped, Reports
      and Written by one entry when it has a glyph, and leaves them as they
      were when it has none. */
  lemma MappedStep(cmap: map<int, GlyphName>, i: nat)
    requires i < |CHARS|
    ensures Mapped(cmap, i + 1) == Mapped(cmap, i) + if HasGlyph(cmap, CHARS[i]) then [i] else []
  {
  }

  lemma ReportsStep(cmap: map<int, GlyphName>, i: nat)
    requires i < |CHARS|
    ensures Reports(cmap, i + 1)
         == Reports(cmap, i) + if HasGlyph(cmap, CHARS[i]) then [StatusAt(i)] else []
  {
  }

  lemma WrittenStep(cmap: map<int, GlyphName>, i: nat, w: int, h: int, scale: real, trace: GlyphName -> string)
    requires i < |CHARS|
    ensures Written(cmap, i + 1, w, h, scale, trace)
         == Written(cmap, i, w, h, scale, trace)
            + if HasGlyph(cmap, CHARS[i]) then [DocumentAt(cmap, i, w, h, scale, trace)] else []
  {
  }

  /** Appending one element after a concatenation. */
  lemma AppendAfter<T>(a: seq<T>, b: seq<T>, x: T)
    ensures a + (b + [x]) == (a + b) + [x]
  {
  }

  /** The loop over CHARS with the mapping cmap and the font's total height,
      from the state e: a zero total height fails at the first character with
      a glyph, before any document is saved; otherwise one document is saved
      and one status reported per character with a glyph. */
  function ExportCharacters(cmap: map<int, GlyphName>, totalHeight: int, w: int, h: int, trace: GlyphName -> string, e: Effects): (Outcome, Effects) {
    if Mapped(cmap, |CHARS|) == [] then (Done, e)
    else if totalHeight == 0 then (Failed(ZeroDivision), e)
    else
      var last := LastStatus(cmap, |CHARS|, Status(e.progress, e.labelText));
      (Done, e.(
        progress := last.progress,
        labelText := last.labelText,
        reported := e.reported + Reports(cmap, |CHARS|),
        written := e.written + Written(cmap, |CHARS|, w, h, Scale(h, totalHeight), trace)))
  }

  /** One run of the exporter on font, a w by h canvas and the glyph tracer,
      from the state e. A missing or empty Unicode cmap fails before the
      output directory is created; otherwise the directory is created and
      the characters are exported. */
  function Export(font: Font, w: int, h: int, trace: GlyphName -> string, e: Effects): (Outcome, Effects) {
    var chosen := ChosenCmap(font.tables);
    if !IsUsable(chosen) then (Failed(NoUnicodeCmap), e)
    else ExportCharacters(chosen.value, TotalHeight(font), w, h, trace, e.(dirCreated := true))
  }

  /** What holds of the state cur after the loop has processed the first i
      characters, starting from e: the directory flag is untouched, the
      documents and reports of the mapped characters so far are appended,
      and the status is the last one set. A zero total height means no
      character so far had a glyph. */
  predicate LoopInvariant(cmap: map<int, GlyphName>, totalHeight: int, w: int, h: int, trace: GlyphName -> string,
                          e: Effects, cur: Effects, i: nat)
    requires i <= |CHARS|
  {
    && cur.dirCreated == e.dirCreated
    && (totalHeight == 0 ==> Mapped(cmap, i) == [] && cur.written == e.written)
    && (totalHeight != 0 ==> cur.written == e.written + Written(cmap, i, w, h, Scale(h, totalHeight), trace))
    && cur.reported == e.reported + Reports(cmap, i)
    && Status(cur.progress, cur.labelText) == LastStatus(cmap, i, Status(e.progress, e.labelText))
  }

  /** A pass over the character at index i that does not fail keeps the
      loop invariant, from i to i + 1. */
  lemma LoopStepKeeps(cmap: map<int, GlyphName>, totalHeight: int, w: int, h: int, trace: GlyphName -> string,
                      e: Effects, cur: Effects, next: Effects, i: nat)
    requires i < |CHARS| && LoopInvariant(cmap, totalHeight, w, h, trace, e, cur, i)
    requires !(HasGlyph(cmap, CHARS[i]) && totalHeight == 0)
    requires next.dirCreated == cur.dirCreated
    requires !HasGlyph(cmap, CHARS[i]) ==> next == cur
    requires HasGlyph(cmap, CHARS[i]) && totalHeight != 0 ==>
      && next.written == cur.written + [DocumentAt(cmap, i, w, h, Scale(h, totalHeight), trace)]
      && Status(next.progress, next.labelText) == StatusAt(i)
      && next.reported == cur.reported + [StatusAt(i)]
    ensures LoopInvariant(cmap, totalHeight, w, h, trace, e, next, i + 1)
  {
    MappedStep(cmap, i);
    ReportsStep(cmap, i);
    if totalHeight != 0 {
      var scale := Scale(h, totalHeight);
      WrittenStep(cmap, i, w, h, scale, trace);
      if HasGlyph(cmap, CHARS[i]) {
        AppendAfter(e.written, Written(cmap, i, w, h, scale, trace), DocumentAt(cmap, i, w, h, scale, trace));
      }
    }
    if HasGlyph(cmap, CHARS[i]) {
      AppendAfter(e.reported, Reports(cmap, i), StatusAt(i));
    }
  }

  /** The first character with a glyph under a zero total height ends the
      loop with the state it had: the outcome `ExportCharacters` gives. */
  lemma LoopFailsAtGlyph(cmap: map<int, GlyphName>, totalHeight: int, w: int, h: int, trace: GlyphName -> string,
                         e: Effects, cur: Effects, i: nat)
    requires i < |CHARS| && LoopInvariant(cmap, totalHeight, w, h, trace, e, cur, i)
    requires HasGlyph(cmap, CHARS[i]) && totalHeight == 0
    ensures (Failed(ZeroDivision), cur) == ExportCharacters(cmap, totalHeight, w, h, trace, e)
  {
    MappedComplete(cmap, |CHARS|, i);
    NoneMappedKeepsStatus(cmap, i, Status(e.progress, e.labelText));
    assert Reports(cmap, i) == [];
    assert cur == e;
  }

  /** After the last character the loop has reached the state
      `ExportCharacters` gives. */
  lemma LoopFinished(cmap: map<int, GlyphName>, totalHeight: int, w: int, h: int, trace: GlyphName -> string,
                     e: Effects, cur: Effects)
    requires LoopInvariant(cmap, totalHeight, w, h, trace, e, cur, |CHARS|)
    ensures (Done, cur) == ExportCharacters(cmap, totalHeight, w, h, trace, e)
  {
    if Mapped(cmap, |CHARS|) == [] {
      NoneMappedKeepsStatus(cmap, |CHARS|, Status(e.progress, e.labelText));
      assert Reports(cmap, |CHARS|) == [];
      if totalHeight != 0 {
        assert Written(cmap, |CHARS|, w, h, Scale(h, totalHeight), trace) == [];
      }
      assert cur == e;
    }
  }

  /** The progress window's two variables, the output directory and the files
      saved into it. */
  class ExportSession {
    var progress: real
    var labelText: string
    /** Every status the run has set, in order. */
    var reported: seq<Status>
    var dirCreated: bool
    var written: seq<SvgDocument>

    function Observed(): Effects
      reads this
    {
      Effects(progress, labelText, reported, dirCreated, written)
    }

    /** The progress window before a run: an empty bar and the label
        "Starting export...". */
    constructor ()
      ensures Observed() == Effects(0.0, "Starting export...", [], false, [])
    {
      progress := 0.0;
      labelText := "Starting export...";
      reported := [];
      dirCreated := false;
      written := [];
    }

    /** One pass of the loop body for the character at index i: a character
        without a glyph is skipped; otherwise the scale is computed (which
        fails when the total height is zero), the document is saved, and the
        progress bar and label are set and reported. */
    method ExportGlyph(glyphs: map<int, GlyphName>, i: nat, width: int, height: int, totalHeight: int, trace: GlyphName -> string)
      returns (failed: bool)
      requires i < |CHARS|
      modifies this
      ensures failed <==> HasGlyph(glyphs, CHARS[i]) && totalHeight == 0
      ensures dirCreated == old(dirCreated)
      ensures !HasGlyph(glyphs, CHARS[i]) || failed ==>
        written == old(written) && reported == old(reported)
        && progress == old(progress) && labelText == old(labelText)
      ensures HasGlyph(glyphs, CHARS[i]) && !failed ==>
        && written == old(written) + [DocumentAt(glyphs, i, width, height, Scale(height, totalHeight), trace)]
        && Status(progress, labelText) == StatusAt(i)
        && reported == old(reported) + [StatusAt(i)]
    {
      var c := CHARS[i];
      if !(c as int in glyphs && glyphs[c as int] != "") {
        return false;
      }
      var pathData := trace(glyphs[c as int]);
      if totalHeight == 0 {
        return true;
      }
      var scale := Scale(height, totalHeight);
      var doc := GlyphDocument(FileName(c), pathData, width, height, scale);
      written := written + [doc];
      progress := (i + 1) as real / |CHARS| as real * 100.0;
      labelText := "Exporting: '" + [c] + "' (" + NatToDecimal(i + 1) + "/" + NatToDecimal(|CHARS|) + ")";
      reported := reported + [Status(progress, labelText)];
      failed := false;
    }

    method ExportGlyphsToSvg(font: Font, width: int, height: int, trace: GlyphName -> string) returns (outcome: Outcome)
      modifies this
      ensures (outcome, Observed()) == Export(font, width, height, trace, old(Observed()))
    {
      var cmap := FindUnicodeCmap(font.tables);
      if !IsUsable(cmap) {
        return Failed(NoUnicodeCmap);
      }
      var totalHeight := font.ascent - font.descent;
      dirCreated := true;
      outcome := ExportAll(cmap.value, totalHeight, width, height, trace);
    }

    /** The loop of the exporter over CHARS. */
    method ExportAll(glyphs: map<int, GlyphName>, totalHeight: int, width: int, height: int, trace: GlyphName -> string)
      returns (outcome: Outcome)
      modifies this
      ensures (outcome, Observed()) == ExportCharacters(glyphs, totalHeight, width, height, trace, old(Observed()))
    {
      for i := 0 to |CHARS|
        invariant LoopInvariant(glyphs, totalHeight, width, height, trace, old(Observed()), Observed(), i)
      {
        ghost var cur := Observed();
        var failed := ExportGlyph(glyphs, i, width, height, totalHeight, trace);
        if failed {
          LoopFailsAtGlyph(glyphs, totalHeight, width, height, trace, old(Observed()), cur, i);
          return Failed(ZeroDivision);
        }
        LoopStepKeeps(glyphs, totalHeight, width, height, trace, old(Observed()), cur, Observed(), i);
      }
      LoopFinished(glyphs, totalHeight, width, height, trace, old(Observed()), Observed());
      outcome := Done;
    }
  }
}
