/** What one run of the exporter promises, stated about the function
    `Exporter.Export` that `ExportSession.ExportGlyphsToSvg` is proved to
    follow: which runs fail and what a failed run leaves behind, which files
    a successful run saves and what is in them, and how the progress bar and
    the status label advance. */
module ExportProperties {
  import opened Decimal
  import opened Charset
  import opened Cmap
  import opened Svg
  import opened Exporter

  // ---------------------------------------------------------------------
  // The characters the loop does not skip

  /** Mapped lists characters with a glyph, below n, in increasing order. */
  lemma {:induction false} MappedSound(cmap: map<int, GlyphName>, n: nat)
    requires n <= |CHARS|
    ensures forall k :: 0 <= k < |Mapped(cmap, n)| ==>
      Mapped(cmap, n)[k] < n && HasGlyph(cmap, CHARS[Mapped(cmap, n)[k]])
    ensures forall k, l :: 0 <= k < l < |Mapped(cmap, n)| ==> Mapped(cmap, n)[k] < Mapped(cmap, n)[l]
  {
    if n > 0 {
      MappedSound(cmap, n - 1);
      MappedStep(cmap, n - 1);
    }
  }

  /** A character of CHARS has a glyph exactly when its index is in Mapped. */
  lemma MappedExactly(cmap: map<int, GlyphName>, i: nat)
    requires i < |CHARS|
    ensures HasGlyph(cmap, CHARS[i]) <==> i in Mapped(cmap, |CHARS|)
  {
    MappedSound(cmap, |CHARS|);
    if HasGlyph(cmap, CHARS[i]) {
      MappedComplete(cmap, |CHARS|, i);
    }
  }

  /** Some character of CHARS has a glyph exactly when Mapped is not empty. */
  lemma SomeGlyphIffMapped(cmap: map<int, GlyphName>)
    ensures (exists i :: 0 <= i < |CHARS| && HasGlyph(cmap, CHARS[i])) <==> Mapped(cmap, |CHARS|) != []
  {
    var m := Mapped(cmap, |CHARS|);
    if i :| 0 <= i < |CHARS| && HasGlyph(cmap, CHARS[i]) {
      MappedComplete(cmap, |CHARS|, i);
    }
    if m != [] {
      MappedSound(cmap, |CHARS|);
      var i := m[0];
      assert 0 <= i < |CHARS| && HasGlyph(cmap, CHARS[i]);
    }
  }

  // ---------------------------------------------------------------------
  // Outcome of a run

  /** A run fails for want of a cmap exactly when the first Unicode mapping is
      missing or empty, and then changes nothing: not even the directory is
      created. */
  lemma NoCmapFailsFirst(font: Font, w: int, h: int, trace: GlyphName -> string, e: Effects)
    ensures Export(font, w, h, trace, e).0 == Failed(NoUnicodeCmap) <==> !IsUsable(ChosenCmap(font.tables))
    ensures !IsUsable(ChosenCmap(font.tables)) ==> Export(font, w, h, trace, e).1 == e
  {
  }

  /** With a usable mapping the directory is always created, and the run fails
      with a division by zero exactly when the total height is zero and at
      least one character of CHARS has a glyph; a font with zero height but
      no glyph for any character of CHARS finishes without error. */
  lemma ZeroHeightFailsOnFirstGlyph(font: Font, w: int, h: int, trace: GlyphName -> string, e: Effects)
    requires IsUsable(ChosenCmap(font.tables))
    ensures Export(font, w, h, trace, e).1.dirCreated
    ensures Export(font, w, h, trace, e).0 == Failed(ZeroDivision)
        <==> TotalHeight(font) == 0
             && exists i :: 0 <= i < |CHARS| && HasGlyph(ChosenCmap(font.tables).value, CHARS[i])
    ensures Export(font, w, h, trace, e).0 != Failed(ZeroDivision) ==> Export(font, w, h, trace, e).0 == Done
  {
    SomeGlyphIffMapped(ChosenCmap(font.tables).value);
  }

  /** A failed run saves no document and leaves the progress bar, the label
      and the reports as they were; only the zero-height failure creates the
      directory. */
  lemma FailureSavesNothing(font: Font, w: int, h: int, trace: GlyphName -> string, e: Effects)
    requires Export(font, w, h, trace, e).0.Failed?
    ensures var after := Export(font, w, h, trace, e).1;
      && after.written == e.written && after.reported == e.reported
      && after.progress == e.progress && after.labelText == e.labelText
      && after.dirCreated == (e.dirCreated || Export(font, w, h, trace, e).0 == Failed(ZeroDivision))
  {
  }

  /** A successful run appends exactly one document and one report per
      character of CHARS with a glyph to what was there before. */
  lemma SuccessAppends(font: Font, w: int, h: int, trace: GlyphName -> string, e: Effects)
    requires Export(font, w, h, trace, e).0 == Done
    ensures IsUsable(ChosenCmap(font.tables))
    ensures var after := Export(font, w, h, trace, e).1;
      var count := |Mapped(ChosenCmap(font.tables).value, |CHARS|)|;
      && after.dirCreated
      && |after.written| == |e.written| + count && after.written[..|e.written|] == e.written
      && |after.reported| == |e.reported| + count && after.reported[..|e.reported|] == e.reported
  {
    var cmap := ChosenCmap(font.tables).value;
    if Mapped(cmap, |CHARS|) == [] {
      assert |Written(cmap, |CHARS|, w, h, 0.0, trace)| == 0;
    }
  }

  // ---------------------------------------------------------------------
  // The documents saved

  /** The k-th document saved is the one for the k-th character with a glyph. */
  lemma {:induction false} WrittenInOrder(cmap: map<int, GlyphName>, n: nat, w: int, h: int, scale: real, trace: GlyphName -> string)
    requires n <= |CHARS|
    ensures forall k :: 0 <= k < |Written(cmap, n, w, h, scale, trace)| ==>
      var i := Mapped(cmap, n)[k];
      i < n && HasGlyph(cmap, CHARS[i]) && Written(cmap, n, w, h, scale, trace)[k] == DocumentAt(cmap, i, w, h, scale, trace)
  {
    if n > 0 {
      var m := n - 1;
      WrittenInOrder(cmap, m, w, h, scale, trace);
      MappedStep(cmap, m);
      WrittenStep(cmap, m, w, h, scale, trace);
      var docs, prev := Written(cmap, n, w, h, scale, trace), Written(cmap, m, w, h, scale, trace);
      forall k | 0 <= k < |docs|
        ensures var i := Mapped(cmap, n)[k];
          i < n && HasGlyph(cmap, CHARS[i]) && docs[k] == DocumentAt(cmap, i, w, h, scale, trace)
      {
        if k < |prev| {
          assert docs[k] == prev[k] && Mapped(cmap, n)[k] == Mapped(cmap, m)[k];
        } else {
          assert Mapped(cmap, n)[k] == m;
        }
      }
    }
  }

  /** Every document saved is a glyph document: its file is named after a
      character of CHARS that has a glyph (the character sits fifth from the
      end of the name), its path is the outline of that glyph, and all of
      them share the canvas size, viewBox and transform. */
  lemma DocumentsDescribeGlyphs(cmap: map<int, GlyphName>, w: int, h: int, scale: real, trace: GlyphName -> string, docs: seq<SvgDocument>)
    requires docs == Written(cmap, |CHARS|, w, h, scale, trace)
    ensures forall k :: 0 <= k < |docs| ==>
        && |docs[k].filename| >= 5
        && var c := docs[k].filename[|docs[k].filename| - 5];
        && c in CHARS && HasGlyph(cmap, c)
        && docs[k].filename == FileName(c)
        && docs[k].path.d == trace(cmap[c as int])
    ensures forall k :: 0 <= k < |docs| ==>
        && docs[k].width == Pixels(w) && docs[k].height == Pixels(h)
        && docs[k].viewBox == ViewBox(w, h)
        && docs[k].path == PathElement(docs[k].path.d, "black", Transform(0.0, h as real * 0.9, scale, -scale))
  {
    WrittenInOrder(cmap, |CHARS|, w, h, scale, trace);
  }

  /** A character of CHARS gets a file exactly when the font has a glyph for it. */
  lemma FileExactlyForMappedCharacters(cmap: map<int, GlyphName>, w: int, h: int, scale: real, trace: GlyphName -> string, docs: seq<SvgDocument>, c: char)
    requires docs == Written(cmap, |CHARS|, w, h, scale, trace) && c in CHARS
    ensures HasGlyph(cmap, c) <==> exists k :: 0 <= k < |docs| && docs[k].filename == FileName(c)
  {
    DocumentsDescribeGlyphs(cmap, w, h, scale, trace, docs);
    if HasGlyph(cmap, c) {
      var i :| 0 <= i < |CHARS| && CHARS[i] == c;
      MappedComplete(cmap, |CHARS|, i);
      WrittenInOrder(cmap, |CHARS|, w, h, scale, trace);
      var k :| 0 <= k < |Mapped(cmap, |CHARS|)| && Mapped(cmap, |CHARS|)[k] == i;
      assert docs[k].filename == FileName(c);
    }
    if k :| 0 <= k < |docs| && docs[k].filename == FileName(c) {
      var d := docs[k].filename[|docs[k].filename| - 5];
      if d != c {
        FileNameInjective(d, c);
      }
    }
  }

  /** No two documents of a run share a file name, not even when case is
      ignored: nothing saved is overwritten by a later character. */
  lemma FileNamesDistinct(cmap: map<int, GlyphName>, w: int, h: int, scale: real, trace: GlyphName -> string, docs: seq<SvgDocument>)
    requires docs == Written(cmap, |CHARS|, w, h, scale, trace)
    ensures forall k, l :: 0 <= k < l < |docs| ==>
      docs[k].filename != docs[l].filename && Fold(docs[k].filename) != Fold(docs[l].filename)
  {
    WrittenInOrder(cmap, |CHARS|, w, h, scale, trace);
    MappedSound(cmap, |CHARS|);
    CharsDistinct();
    forall k, l | 0 <= k < l < |docs|
      ensures docs[k].filename != docs[l].filename && Fold(docs[k].filename) != Fold(docs[l].filename)
    {
      var i, j := Mapped(cmap, |CHARS|)[k], Mapped(cmap, |CHARS|)[l];
      FileNamesDifferIgnoringCase(CHARS[i], CHARS[j]);
    }
  }

  /** In a successful run with glyphs, every new document is scaled so that
      the font's total height fills the canvas height, and the y axis is
      flipped. */
  lemma ScaleFillsCanvas(font: Font, w: int, h: int, trace: GlyphName -> string, e: Effects, after: Effects)
    requires Export(font, w, h, trace, e) == (Done, after) && TotalHeight(font) != 0
    ensures forall k :: |e.written| <= k < |after.written| ==>
      && after.written[k].path.transform.scaleX == Scale(h, TotalHeight(font))
      && after.written[k].path.transform.scaleY == -Scale(h, TotalHeight(font))
  {
    var cmap := ChosenCmap(font.tables).value;
    var scale := Scale(h, TotalHeight(font));
    var docs := Written(cmap, |CHARS|, w, h, scale, trace);
    assert after.written == e.written + docs by {
      if Mapped(cmap, |CHARS|) == [] {
        assert docs == [];
      }
    }
    DocumentsDescribeGlyphs(cmap, w, h, scale, trace, docs);
    forall k | |e.written| <= k < |after.written|
      ensures after.written[k].path.transform == Transform(0.0, h as real * 0.9, scale, -scale)
    {
      var j := k - |e.written|;
      assert after.written[k] == docs[j];
      assert docs[j].path == PathElement(docs[j].path.d, "black", Transform(0.0, h as real * 0.9, scale, -scale));
    }
  }

  // ---------------------------------------------------------------------
  // Progress and status label

  /** The progress after the character at index i is between 0 and 100,
      grows with i, and is exactly 100 after the last character. */
  lemma ProgressBounds(i: nat, j: nat)
    requires i < j < |CHARS|
    ensures 0.0 < ProgressAt(i) < ProgressAt(j) <= 100.0
    ensures ProgressAt(|CHARS| - 1) == 100.0
  {
    CharsLayout();
  }

  /** The k-th status reported is the one for the k-th character with a glyph. */
  lemma {:induction false} ReportsInOrder(cmap: map<int, GlyphName>, n: nat)
    requires n <= |CHARS|
    ensures forall k :: 0 <= k < |Reports(cmap, n)| ==>
      Mapped(cmap, n)[k] < n && Reports(cmap, n)[k] == StatusAt(Mapped(cmap, n)[k])
  {
    if n > 0 {
      var m := n - 1;
      ReportsInOrder(cmap, m);
      MappedStep(cmap, m);
      ReportsStep(cmap, m);
      var r, prev := Reports(cmap, n), Reports(cmap, m);
      forall k | 0 <= k < |r|
        ensures Mapped(cmap, n)[k] < n && r[k] == StatusAt(Mapped(cmap, n)[k])
      {
        if k < |prev| {
          assert r[k] == prev[k] && Mapped(cmap, n)[k] == Mapped(cmap, m)[k];
        } else {
          assert Mapped(cmap, n)[k] == m;
        }
      }
    }
  }

  /** The progress reported rises strictly from one report to the next and
      stays within (0, 100]. */
  lemma ProgressRises(cmap: map<int, GlyphName>, r: seq<Status>)
    requires r == Reports(cmap, |CHARS|)
    ensures forall k :: 0 <= k < |r| ==> 0.0 < r[k].progress <= 100.0
    ensures forall k, l :: 0 <= k < l < |r| ==> r[k].progress < r[l].progress
  {
    ReportsInOrder(cmap, |CHARS|);
    MappedSound(cmap, |CHARS|);
    CharsLayout();
    forall k, l | 0 <= k < l < |r| ensures r[k].progress < r[l].progress {
      ProgressBounds(Mapped(cmap, |CHARS|)[k], Mapped(cmap, |CHARS|)[l]);
    }
  }

  /** The status left on screen is the last one reported. */
  lemma {:induction false} LastStatusIsLastReport(cmap: map<int, GlyphName>, n: nat, initial: Status)
    requires n <= |CHARS| && Mapped(cmap, n) != []
    ensures LastStatus(cmap, n, initial) == Reports(cmap, n)[|Reports(cmap, n)| - 1]
  {
    MappedStep(cmap, n - 1);
    ReportsStep(cmap, n - 1);
    var r := Reports(cmap, n);
    if HasGlyph(cmap, CHARS[n - 1]) {
      assert LastStatus(cmap, n, initial) == StatusAt(n - 1);
      assert r == Reports(cmap, n - 1) + [StatusAt(n - 1)];
    } else {
      assert LastStatus(cmap, n, initial) == LastStatus(cmap, n - 1, initial);
      assert r == Reports(cmap, n - 1);
      LastStatusIsLastReport(cmap, n - 1, initial);
    }
  }

  /** The bar ends at 100 exactly when the last character of CHARS, the comma,
      has a glyph: a font without one leaves the bar short of full. */
  lemma FullBarIffLastCharacterMapped(cmap: map<int, GlyphName>, initial: Status)
    requires initial.progress != 100.0
    ensures LastStatus(cmap, |CHARS|, initial).progress == 100.0 <==> HasGlyph(cmap, CHARS[|CHARS| - 1])
    ensures CHARS[|CHARS| - 1] == ','
  {
    CharsLayout();
    var n := |CHARS|;
    if !HasGlyph(cmap, CHARS[n - 1]) {
      MappedStep(cmap, n - 1);
      if Mapped(cmap, n) == [] {
        NoneMappedKeepsStatus(cmap, n, initial);
      } else {
        LastStatusIsLastReport(cmap, n, initial);
        ReportsInOrder(cmap, n);
        var m := Mapped(cmap, n);
        assert m == Mapped(cmap, n - 1);
        MappedSound(cmap, n - 1);
        ProgressBounds(m[|m| - 1], n - 1);
      }
    }
  }

  /** The label names the character being exported (the thirteenth character
      of the label) and the total of 64, so no two characters share a label. */
  lemma LabelNamesCharacter(i: nat, j: nat)
    requires i < |CHARS| && j < |CHARS|
    ensures LabelAt(i)[12] == CHARS[i]
    ensures LabelAt(i)[|LabelAt(i)| - 4..] == "/64)"
    ensures i != j ==> LabelAt(i) != LabelAt(j)
  {
    CharsLayout();
    CharsDistinct();
    assert NatToDecimal(64) == "64";
    var l := LabelAt(i);
    assert l == ("Exporting: '" + [CHARS[i]] + "' (" + NatToDecimal(i + 1) + "/") + "64" + ")";
    assert LabelAt(j)[12] == CHARS[j];
  }
}
