/** What `Car::from_pdf` reads out of a sticker laid out the way its
    slicing expects: the description, then each label followed by one
    separator character (two after "Sold To" and "Ship To"), its value and
    a line break, and finally the five characters of the ship-to code.
    When no value contains a label, every label is found where the layout
    put it and the parsed car holds the trimmed values. */
module StickerLayout {
  import opened Outcomes
  import opened Text
  import opened Cars
  import Models

  /** `pat` occurs somewhere in `s`. */
  ghost predicate Contains(s: string, pat: string) {
    exists k :: OccursAt(s, pat, k)
  }

  /** None of `labels` occurs in `s`. */
  ghost predicate FreeOf(s: string, labels: seq<string>) {
    forall j :: 0 <= j < |labels| ==> !Contains(s, labels[j])
  }

  /** The labels in the order `from_pdf` slices between them. */
  const Labels: seq<string> :=
    [ModelLabel, ExtColorLabel, IntColorLabel, VinLabel, PortLabel, SoldToLabel, ShipToLabel]

  /** What follows each label before its value: one character, two after "Sold To". */
  const Seps: seq<string> := ["\n", "\n", "\n", "\n", "\n", ":\n"]

  /** The values a sticker shows. */
  datatype Sticker = Sticker(description: string, modelCode: string, optCode: string,
                             extColor: string, intColor: string, vin: string, port: string,
                             soldTo: string, shipTo: string)

  /** The values that follow the first six labels, in order. */
  function Values(f: Sticker): seq<string> {
    [f.modelCode + "/" + f.optCode, f.extColor, f.intColor, f.vin, f.port, f.soldTo]
  }

  function Line(name: string, sep: string, value: string): string {
    name + sep + value + "\n"
  }

  /** The text before label `k`. */
  function Before(f: Sticker, k: nat): string
    requires k <= 6
  {
    if k == 0 then f.description + "\n"
    else Before(f, k - 1) + Line(Labels[k - 1], Seps[k - 1], Values(f)[k - 1])
  }

  /** The sticker's text, with anything after the ship-to code. */
  function Render(f: Sticker, tail: string): string {
    Before(f, 6) + ShipToLabel + (":\n" + f.shipTo + tail)
  }

  /** ASCII text holding no label. */
  ghost predicate Plain(v: string) {
    IsAscii(v) && FreeOf(v, Labels)
  }

  ghost predicate WellFormed(f: Sticker) {
    Plain(f.description) && Plain(f.modelCode) && Plain(f.optCode) && '/' !in f.modelCode &&
    '/' !in f.optCode && Plain(f.extColor) && Plain(f.intColor) && Plain(f.vin) && Plain(f.port) &&
    Plain(f.soldTo) && IsAscii(f.shipTo) && |f.shipTo| == 5
  }

  // ---------------------------------------------------------------------------
  // Occurrences

  /** The first occurrence of `pat` in `pre + pat + post` is right after
      `pre` when `pre` holds none and ends in a character `pat` lacks. */
  lemma FindFirst(pre: string, pat: string, post: string)
    requires IsAscii(pre) && pre != [] && pre[|pre| - 1] !in pat && !Contains(pre, pat)
    ensures Find(pre + pat + post, pat) == Some(|pre|)
  {
    var t := pre + pat + post;
    assert t[|pre|..|pre| + |pat|] == pat;
    assert OccursAt(t, pat, |pre|);
    forall k: nat | k < |pre| ensures !OccursAt(t, pat, k) {
      if k + |pat| <= |pre| {
        assert t[k..k + |pat|] == pre[k..k + |pat|];
        assert !OccursAt(pre, pat, k);
      } else if k + |pat| <= |t| {
        assert t[k..k + |pat|][|pre| - 1 - k] == pre[|pre| - 1];
      }
    }
    assert t[..|pre|] == pre;
    ByteLenAscii(pre);
  }

  /** A character on one side of the seam that `pat` lacks keeps an
      occurrence from straddling it. */
  lemma FreeJoin(a: string, b: string, pat: string)
    requires !Contains(a, pat) && !Contains(b, pat)
    requires (a != [] && a[|a| - 1] !in pat) || (b != [] && b[0] !in pat)
    ensures !Contains(a + b, pat)
  {
    var t := a + b;
    forall k: nat | k + |pat| <= |t| ensures !OccursAt(t, pat, k) {
      if k + |pat| <= |a| {
        assert t[k..k + |pat|] == a[k..k + |pat|];
        assert !OccursAt(a, pat, k);
      } else if k >= |a| {
        assert t[k..k + |pat|] == b[k - |a|..k - |a| + |pat|];
        assert !OccursAt(b, pat, k - |a|);
      } else if a != [] && a[|a| - 1] !in pat {
        assert t[k..k + |pat|][|a| - 1 - k] == a[|a| - 1];
      } else {
        assert t[k..k + |pat|][|a| - k] == b[0];
      }
    }
  }

  /** A text without some character of `pat` does not contain `pat`. */
  lemma FreeByChar(s: string, pat: string, c: char)
    requires c in pat && c !in s
    ensures !Contains(s, pat)
  {
    var i :| 0 <= i < |pat| && pat[i] == c;
    forall k: nat | k + |pat| <= |s| ensures !OccursAt(s, pat, k) {
      assert s[k..k + |pat|][i] == s[k + i];
    }
  }

  /** A text lacking, for each label, one of its characters holds none of them. */
  lemma FreeByMarks(s: string, labels: seq<string>, marks: string)
    requires |marks| == |labels|
    requires forall j :: 0 <= j < |labels| ==> marks[j] in labels[j] && marks[j] !in s
    ensures FreeOf(s, labels)
  {
    forall j | 0 <= j < |labels| ensures !Contains(s, labels[j]) {
      FreeByChar(s, labels[j], marks[j]);
    }
  }

  /** No label occurs in an earlier one: each later label has a character
      ('X', 'N', 'V', 'Y', 'S', 'h' in turn) that no earlier one has. */
  lemma LabelsApart(k: nat)
    requires k < 6
    ensures FreeOf(Labels[k], Labels[k + 1..])
  {
    var ls := Labels[k + 1..];
    var marks := "XNVYSh"[k..];
    if k == 0 {
      assert ls == [ExtColorLabel, IntColorLabel, VinLabel, PortLabel, SoldToLabel, ShipToLabel];
    } else if k == 1 {
      assert ls == [IntColorLabel, VinLabel, PortLabel, SoldToLabel, ShipToLabel];
    } else if k == 2 {
      assert ls == [VinLabel, PortLabel, SoldToLabel, ShipToLabel];
    } else if k == 3 {
      assert ls == [PortLabel, SoldToLabel, ShipToLabel];
    } else if k == 4 {
      assert ls == [SoldToLabel, ShipToLabel];
    } else {
      assert ls == [ShipToLabel];
    }
    FreeByMarks(Labels[k], ls, marks);
  }

  /** The characters the layout puts around the labels are in none of them. */
  lemma LabelMarks(k: nat)
    requires k < 7
    ensures '\n' !in Labels[k] && ':' !in Labels[k] && (k > 0 ==> '/' !in Labels[k])
  {
    if k == 0 {
      assert Labels[k] == ModelLabel;
    } else if k == 1 {
      assert Labels[k] == ExtColorLabel;
    } else if k == 2 {
      assert Labels[k] == IntColorLabel;
    } else if k == 3 {
      assert Labels[k] == VinLabel;
    } else if k == 4 {
      assert Labels[k] == PortLabel;
    } else if k == 5 {
      assert Labels[k] == SoldToLabel;
    } else {
      assert Labels[k] == ShipToLabel;
    }
  }

  lemma LabelAscii(k: nat)
    requires k < 7
    ensures IsAscii(Labels[k]) && |Labels[k]| > 0
  {
    if k == 0 {
      assert Labels[k] == ModelLabel;
    } else if k == 1 {
      assert Labels[k] == ExtColorLabel;
    } else if k == 2 {
      assert Labels[k] == IntColorLabel;
    } else if k == 3 {
      assert Labels[k] == VinLabel;
    } else if k == 4 {
      assert Labels[k] == PortLabel;
    } else if k == 5 {
      assert Labels[k] == SoldToLabel;
    } else {
      assert Labels[k] == ShipToLabel;
    }
  }

  lemma LabelChars(k: nat)
    requires k < 7
    ensures '\n' !in Labels[k] && ':' !in Labels[k] && (k > 0 ==> '/' !in Labels[k])
    ensures IsAscii(Labels[k]) && |Labels[k]| > 0
  {
    LabelMarks(k);
    LabelAscii(k);
  }

  // ---------------------------------------------------------------------------
  // The prefixes

  /** Appending a line of a label and a value, neither holding any of
      `labels`, keeps a text that ends a line free of them. */
  lemma FreeAppendLine(pre: string, name: string, sep: string, value: string, labels: seq<string>)
    requires pre != [] && pre[|pre| - 1] == '\n'
    requires FreeOf(pre, labels) && FreeOf(name, labels) && FreeOf(value, labels)
    requires sep == "\n" || sep == ":\n"
    requires forall j :: 0 <= j < |labels| ==> labels[j] != [] && '\n' !in labels[j] && ':' !in labels[j]
    ensures FreeOf(pre + Line(name, sep, value), labels)
  {
    assert pre + Line(name, sep, value) == pre + name + sep + value + "\n";
    forall j | 0 <= j < |labels| ensures !Contains(pre + name + sep + value + "\n", labels[j]) {
      var pat := labels[j];
      FreeJoin(pre, name, pat);
      FreeByChar(sep, pat, pat[0]);
      FreeJoin(pre + name, sep, pat);
      FreeJoin(pre + name + sep, value, pat);
      FreeByChar("\n", pat, pat[0]);
      FreeJoin(pre + name + sep + value, "\n", pat);
    }
  }

  lemma FreeOfSuffix(s: string, labels: seq<string>, k: nat)
    requires FreeOf(s, labels) && k <= |labels|
    ensures FreeOf(s, labels[k..])
  {
    forall j | 0 <= j < |labels[k..]| ensures !Contains(s, labels[k..][j]) {
      assert labels[k..][j] == labels[k + j];
    }
  }

  /** The first value holds no later label: '/' is in none of them. */
  lemma CodeTextFree(f: Sticker)
    requires WellFormed(f)
    ensures FreeOf(Values(f)[0], Labels[1..])
  {
    var ls := Labels[1..];
    forall j | 0 <= j < |ls| ensures !Contains(Values(f)[0], ls[j]) {
      assert ls[j] == Labels[j + 1];
      LabelChars(j + 1);
      FreeOfSuffix(f.modelCode, Labels, 1);
      FreeOfSuffix(f.optCode, Labels, 1);
      FreeByChar("/", ls[j], ls[j][0]);
      FreeJoin(f.modelCode, "/", ls[j]);
      FreeJoin(f.modelCode + "/", f.optCode, ls[j]);
    }
  }

  lemma ValueFree(f: Sticker, k: nat)
    requires WellFormed(f) && k < 6
    ensures FreeOf(Values(f)[k], Labels[k + 1..]) && IsAscii(Values(f)[k])
  {
    if k == 0 {
      CodeTextFree(f);
    } else {
      FreeOfSuffix(Values(f)[k], Labels, k + 1);
    }
  }

  /** The text before label `k` is ASCII and ends a line. */
  lemma {:induction false} BeforeAscii(f: Sticker, k: nat)
    requires WellFormed(f) && k <= 6
    ensures IsAscii(Before(f, k)) && Before(f, k) != [] && Before(f, k)[|Before(f, k)| - 1] == '\n'
  {
    if k > 0 {
      BeforeAscii(f, k - 1);
      ValueFree(f, k - 1);
      LabelChars(k - 1);
      var name, sep, value := Labels[k - 1], Seps[k - 1], Values(f)[k - 1];
      assert IsAscii(sep);
      AsciiJoin(name, sep);
      AsciiJoin(name + sep, value);
      AsciiJoin(name + sep + value, "\n");
      AsciiJoin(Before(f, k - 1), Line(name, sep, value));
    }
  }

  /** The text before label `k` is ASCII, ends a line and holds none of
      the labels from `k` on. */
  lemma {:induction false} BeforeFree(f: Sticker, k: nat)
    requires WellFormed(f) && k <= 6
    ensures IsAscii(Before(f, k)) && Before(f, k) != [] && Before(f, k)[|Before(f, k)| - 1] == '\n'
    ensures FreeOf(Before(f, k), Labels[k..])
  {
    BeforeAscii(f, k);
    var ls := Labels[k..];
    forall j | 0 <= j < |ls| ensures ls[j] != [] && '\n' !in ls[j] && ':' !in ls[j] {
      LabelChars(k + j);
    }
    if k == 0 {
      forall j | 0 <= j < |ls| ensures !Contains(Before(f, 0), ls[j]) {
        LabelChars(j);
        FreeByChar("\n", ls[j], ls[j][0]);
        FreeJoin(f.description, "\n", ls[j]);
      }
    } else {
      BeforeFree(f, k - 1);
      FreeOfSuffix(Before(f, k - 1), Labels[k - 1..], 1);
      assert Labels[k - 1..][1..] == ls;
      LabelsApart(k - 1);
      ValueFree(f, k - 1);
      LabelChars(k - 1);
      FreeAppendLine(Before(f, k - 1), Labels[k - 1], Seps[k - 1], Values(f)[k - 1], ls);
    }
  }

  lemma {:induction false} BeforePrefix(f: Sticker, j: nat, k: nat)
    requires j <= k <= 6
    ensures |Before(f, j)| <= |Before(f, k)| && Before(f, k)[..|Before(f, j)|] == Before(f, j)
  {
    if j < k {
      BeforePrefix(f, j, k - 1);
    }
  }

  /** Label `k` starts right after the text before it. */
  lemma RenderAt(f: Sticker, tail: string, k: nat)
    requires k <= 6
    ensures |Before(f, k)| + |Labels[k]| <= |Render(f, tail)|
    ensures Render(f, tail) == Before(f, k) + Labels[k] + Render(f, tail)[|Before(f, k)| + |Labels[k]|..]
  {
    var t := Render(f, tail);
    var p := Before(f, k);
    if k < 6 {
      RenderPrefix(f, tail, k + 1);
      BeforeStep(f, k);
      PrefixThrough(t, Before(f, k + 1), p + Labels[k], Seps[k] + Values(f)[k] + "\n");
    } else {
      PrefixThrough(t, t, p + ShipToLabel, ":\n" + f.shipTo + tail);
    }
  }

  lemma LineSplit(p: string, x: string, y: string, z: string)
    ensures p + Line(x, y, z) == p + x + (y + z + "\n")
    ensures p + Line(x, y, z) == p + x + y + (z + "\n")
  {
    assert Line(x, y, z) == x + (y + z + "\n");
  }

  lemma BeforeStep(f: Sticker, k: nat)
    requires k < 6
    ensures Before(f, k + 1) == Before(f, k) + Labels[k] + (Seps[k] + Values(f)[k] + "\n")
    ensures Before(f, k + 1) == Before(f, k) + Labels[k] + Seps[k] + (Values(f)[k] + "\n")
  {
    LineSplit(Before(f, k), Labels[k], Seps[k], Values(f)[k]);
  }

  /** The text before each label starts the rendered text. */
  lemma RenderPrefix(f: Sticker, tail: string, k: nat)
    requires k <= 6
    ensures |Before(f, k)| <= |Render(f, tail)| && Render(f, tail)[..|Before(f, k)|] == Before(f, k)
  {
    BeforePrefix(f, k, 6);
    var t := Render(f, tail);
    assert t[..|Before(f, 6)|] == Before(f, 6);
  }

  /** A prefix of `t` that starts with `x` splits `t` after `x`. */
  lemma PrefixThrough(t: string, q: string, x: string, y: string)
    requires |q| <= |t| && t[..|q|] == q && q == x + y
    ensures t == x + t[|x|..]
  {
    assert t[..|x|] == q[..|x|] == x;
  }

  lemma RenderAscii(f: Sticker, tail: string)
    requires WellFormed(f) && IsAscii(tail)
    ensures IsAscii(Render(f, tail))
  {
    BeforeFree(f, 6);
    LabelChars(6);
  }

  /** `find` locates every label where the layout put it. */
  lemma AnchorAt(f: Sticker, tail: string, k: nat)
    requires WellFormed(f) && k <= 6
    ensures Anchor(Render(f, tail), Labels[k]) == |Before(f, k)|
  {
    BeforeFree(f, k);
    LabelChars(k);
    RenderAt(f, tail, k);
    var p := Before(f, k);
    FindFirst(p, Labels[k], Render(f, tail)[|p| + |Labels[k]|..]);
  }

  /** The text after label `k` and its separator, up to the next label,
      is the value and its line break. */
  lemma SliceAt(f: Sticker, tail: string, k: nat)
    requires k < 6
    ensures |Before(f, k + 1)| <= |Render(f, tail)|
    ensures Render(f, tail)[|Before(f, k)| + |Labels[k]| + |Seps[k]|..|Before(f, k + 1)|] == Values(f)[k] + "\n"
  {
    var t, q := Render(f, tail), Before(f, k + 1);
    RenderPrefix(f, tail, k + 1);
    BeforeStep(f, k);
    assert t[|Before(f, k)| + |Labels[k]| + |Seps[k]|..|q|] == q[|Before(f, k)| + |Labels[k]| + |Seps[k]|..];
  }

  /** Where `find` puts each label of a rendered sticker. */
  lemma RenderedAnchors(f: Sticker, tail: string)
    requires WellFormed(f)
    ensures var t := Render(f, tail);
      Anchor(t, ModelLabel) == |Before(f, 0)| && Anchor(t, ExtColorLabel) == |Before(f, 1)| &&
      Anchor(t, IntColorLabel) == |Before(f, 2)| && Anchor(t, VinLabel) == |Before(f, 3)| &&
      Anchor(t, PortLabel) == |Before(f, 4)| && Anchor(t, SoldToLabel) == |Before(f, 5)| &&
      Anchor(t, ShipToLabel) == |Before(f, 6)|
  {
    AnchorAt(f, tail, 0);
    AnchorAt(f, tail, 1);
    AnchorAt(f, tail, 2);
    AnchorAt(f, tail, 3);
    AnchorAt(f, tail, 4);
    AnchorAt(f, tail, 5);
    AnchorAt(f, tail, 6);
  }

  /** The cuts of a rendered sticker: every label where the layout put it. */
  function RenderedCuts(f: Sticker): Cuts {
    Cuts(|Before(f, 0)|, |Before(f, 0)| + |ModelLabel| + 1, |Before(f, 1)|, |Before(f, 1)| + |ExtColorLabel| + 1,
         |Before(f, 2)|, |Before(f, 2)| + |IntColorLabel| + 1, |Before(f, 3)|, |Before(f, 3)| + |VinLabel| + 1,
         |Before(f, 4)|, |Before(f, 5)| + |SoldToLabel| + 2, |Before(f, 6)|, |Before(f, 6)| + |ShipToLabel| + 2)
  }

  /** The description before the first label. */
  lemma DescriptionPiece(f: Sticker, tail: string)
    ensures var c := RenderedCuts(f);
      c.model <= |Render(f, tail)| && Render(f, tail)[..c.model] == f.description + "\n"
  {
    RenderPrefix(f, tail, 0);
  }

  /** The slice after the label of the model code and option code. */
  lemma CodePiece(f: Sticker, tail: string)
    ensures var c := RenderedCuts(f);
      c.codeAt <= c.extColor <= |Render(f, tail)| &&
      Render(f, tail)[c.codeAt..c.extColor] == f.modelCode + "/" + f.optCode + "\n"
  {
    SliceAt(f, tail, 0);
    assert Labels[0] == ModelLabel && |Seps[0]| == 1 && Values(f)[0] == f.modelCode + "/" + f.optCode;
    var c := RenderedCuts(f);
    assert c.codeAt == |Before(f, 0)| + |Labels[0]| + |Seps[0]| && c.extColor == |Before(f, 1)|;
  }

  /** The slice after the label of the exterior colour. */
  lemma ExtColorPiece(f: Sticker, tail: string)
    ensures var c := RenderedCuts(f);
      c.extAt <= c.intColor <= |Render(f, tail)| && Render(f, tail)[c.extAt..c.intColor] == f.extColor + "\n"
  {
    SliceAt(f, tail, 1);
    assert Labels[1] == ExtColorLabel && |Seps[1]| == 1 && Values(f)[1] == f.extColor;
    var c := RenderedCuts(f);
    assert c.extAt == |Before(f, 1)| + |Labels[1]| + |Seps[1]| && c.intColor == |Before(f, 2)|;
  }

  /** The slice after the label of the interior colour. */
  lemma IntColorPiece(f: Sticker, tail: string)
    ensures var c := RenderedCuts(f);
      c.intAt <= c.vin <= |Render(f, tail)| && Render(f, tail)[c.intAt..c.vin] == f.intColor + "\n"
  {
    SliceAt(f, tail, 2);
    assert Labels[2] == IntColorLabel && |Seps[2]| == 1 && Values(f)[2] == f.intColor;
    var c := RenderedCuts(f);
    assert c.intAt == |Before(f, 2)| + |Labels[2]| + |Seps[2]| && c.vin == |Before(f, 3)|;
  }

  /** The slice after the label of the VIN. */
  lemma VinPiece(f: Sticker, tail: string)
    ensures var c := RenderedCuts(f);
      c.vinAt <= c.port <= |Render(f, tail)| && Render(f, tail)[c.vinAt..c.port] == f.vin + "\n"
  {
    SliceAt(f, tail, 3);
    assert Labels[3] == VinLabel && |Seps[3]| == 1 && Values(f)[3] == f.vin;
    var c := RenderedCuts(f);
    assert c.vinAt == |Before(f, 3)| + |Labels[3]| + |Seps[3]| && c.port == |Before(f, 4)|;
  }

  /** The slice after the label of the dealer address. */
  lemma SoldToPiece(f: Sticker, tail: string)
    ensures var c := RenderedCuts(f);
      c.soldToAt <= c.shipTo <= |Render(f, tail)| && Render(f, tail)[c.soldToAt..c.shipTo] == f.soldTo + "\n"
  {
    SliceAt(f, tail, 5);
    assert Labels[5] == SoldToLabel && |Seps[5]| == 2 && Values(f)[5] == f.soldTo;
    var c := RenderedCuts(f);
    assert c.soldToAt == |Before(f, 5)| + |Labels[5]| + |Seps[5]| && c.shipTo == |Before(f, 6)|;
  }

  /** The five characters of the ship-to code after its label. */
  lemma ShipToPiece(f: Sticker, tail: string)
    requires |f.shipTo| == 5
    ensures var c := RenderedCuts(f);
      c.shipToAt + 5 <= |Render(f, tail)| && Render(f, tail)[c.shipToAt..c.shipToAt + 5] == f.shipTo
  {
  }

  /** The reference slicing on characters: the pieces at the cuts, or
      `None` when a cut is out of order or past the end. */
  function CharSlices(t: string, c: Cuts): Option<StickerText> {
    if c.model <= |t| && c.codeAt <= c.extColor <= |t| && c.extAt <= c.intColor <= |t| &&
       c.intAt <= c.vin <= |t| && c.vinAt <= c.port <= |t| && c.soldToAt <= c.shipTo <= |t| &&
       c.shipToAt + 5 <= |t|
    then Some(StickerText(t[..c.model], t[c.codeAt..c.extColor], t[c.extAt..c.intColor], t[c.intAt..c.vin],
                          t[c.vinAt..c.port], t[c.soldToAt..c.shipTo], t[c.shipToAt..c.shipToAt + 5]))
    else None
  }

  /** The first four byte slices of an ASCII text are character slices. */
  lemma AsciiHeadSlices(t: string, c: Cuts)
    requires IsAscii(t) && c.model <= |t| && c.codeAt <= c.extColor <= |t| && c.extAt <= c.intColor <= |t|
    requires c.intAt <= c.vin <= |t|
    ensures ByteSlice(t, 0, c.model) == Ok(t[..c.model]) && ByteSlice(t, c.codeAt, c.extColor) == Ok(t[c.codeAt..c.extColor])
    ensures ByteSlice(t, c.extAt, c.intColor) == Ok(t[c.extAt..c.intColor]) && ByteSlice(t, c.intAt, c.vin) == Ok(t[c.intAt..c.vin])
  {
    ByteSliceAscii(t, 0, c.model);
    assert t[0..c.model] == t[..c.model];
    ByteSliceAscii(t, c.codeAt, c.extColor);
    ByteSliceAscii(t, c.extAt, c.intColor);
    ByteSliceAscii(t, c.intAt, c.vin);
  }

  /** The last three byte slices of an ASCII text are character slices. */
  lemma AsciiTailSlices(t: string, c: Cuts)
    requires IsAscii(t) && c.vinAt <= c.port <= |t| && c.soldToAt <= c.shipTo <= |t| && c.shipToAt + 5 <= |t|
    ensures ByteSlice(t, c.vinAt, c.port) == Ok(t[c.vinAt..c.port])
    ensures ByteSlice(t, c.soldToAt, c.shipTo) == Ok(t[c.soldToAt..c.shipTo])
    ensures ByteSlice(t, c.shipToAt, c.shipToAt + 5) == Ok(t[c.shipToAt..c.shipToAt + 5])
  {
    ByteSliceAscii(t, c.vinAt, c.port);
    ByteSliceAscii(t, c.soldToAt, c.shipTo);
    ByteSliceAscii(t, c.shipToAt, c.shipToAt + 5);
  }

  /** The slicing of `from_pdf` succeeds with the pieces its seven byte
      slices give. */
  lemma SlicesFrom(t: string, c: Cuts, raw: StickerText)
    requires ByteSlice(t, 0, c.model) == Ok(raw.description) && ByteSlice(t, c.codeAt, c.extColor) == Ok(raw.codeText)
    requires ByteSlice(t, c.extAt, c.intColor) == Ok(raw.extColor) && ByteSlice(t, c.intAt, c.vin) == Ok(raw.intColor)
    requires ByteSlice(t, c.vinAt, c.port) == Ok(raw.vin) && ByteSlice(t, c.soldToAt, c.shipTo) == Ok(raw.soldTo)
    requires ByteSlice(t, c.shipToAt, c.shipToAt + 5) == Ok(raw.shipTo)
    ensures SlicesAt(t, c) == Ok(raw)
  {
  }

  /** In an ASCII text byte offsets are character offsets, so the byte
      slicing of `from_pdf` is the character slicing at the same cuts. */
  lemma AsciiSlices(t: string, c: Cuts)
    requires IsAscii(t) && CharSlices(t, c).Some?
    ensures SlicesAt(t, c) == Ok(CharSlices(t, c).value)
  {
    AsciiHeadSlices(t, c);
    AsciiTailSlices(t, c);
    SlicesFrom(t, c, CharSlices(t, c).value);
  }

  /** The pieces `from_pdf` slices out of a rendered sticker: each value
      with its line break, and the five ship-to characters. */
  function RawOf(f: Sticker): StickerText {
    StickerText(f.description + "\n", f.modelCode + "/" + f.optCode + "\n", f.extColor + "\n",
                f.intColor + "\n", f.vin + "\n", f.soldTo + "\n", f.shipTo)
  }

  /** `find` puts the cuts of a rendered sticker where the layout put the labels. */
  lemma RenderedCutsFound(f: Sticker, tail: string)
    requires WellFormed(f)
    ensures CutsOf(Render(f, tail)) == RenderedCuts(f)
  {
    RenderedAnchors(f, tail);
  }

  /** The character slices of a rendered sticker at its cuts are its
      values, each with its line break. */
  lemma RenderedCharSlices(f: Sticker, tail: string)
    requires |f.shipTo| == 5
    ensures CharSlices(Render(f, tail), RenderedCuts(f)) == Some(RawOf(f))
  {
    DescriptionPiece(f, tail);
    CodePiece(f, tail);
    ExtColorPiece(f, tail);
    IntColorPiece(f, tail);
    VinPiece(f, tail);
    SoldToPiece(f, tail);
    ShipToPiece(f, tail);
  }

  /** The slicing of `from_pdf` on a rendered sticker gives each value
      with the line break after it, and the five ship-to characters. */
  lemma RenderedSlices(f: Sticker, tail: string)
    requires WellFormed(f) && IsAscii(tail)
    ensures StickerSlices(Render(f, tail)) == Ok(RawOf(f))
  {
    RenderAscii(f, tail);
    RenderedCutsFound(f, tail);
    RenderedCharSlices(f, tail);
    AsciiSlices(Render(f, tail), RenderedCuts(f));
  }

  /** The dealer address `from_pdf` computes from a sticker's sold-to and ship-to values. */
  function DealerOf(f: Sticker): string {
    Trim(RemoveAll(Trim(f.soldTo), Trim(f.shipTo)))
  }

  /** Trimming a piece drops its line break. */
  lemma RawTrims(f: Sticker)
    ensures var raw := RawOf(f);
      Trim(raw.description) == Trim(f.description) && Trim(raw.extColor) == Trim(f.extColor) &&
      Trim(raw.intColor) == Trim(f.intColor) && Trim(raw.vin) == Trim(f.vin) && Trim(raw.soldTo) == Trim(f.soldTo)
  {
    TrimWsSuffix(f.description, '\n');
    TrimWsSuffix(f.extColor, '\n');
    TrimWsSuffix(f.intColor, '\n');
    TrimWsSuffix(f.vin, '\n');
    TrimWsSuffix(f.soldTo, '\n');
  }

  /** The option code of the model piece is the trimmed text after the '/'. */
  lemma RawOptCode(f: Sticker)
    requires '/' !in f.modelCode && '/' !in f.optCode
    ensures OptCode(RawOf(f).codeText) == Trim(f.optCode)
  {
    assert RawOf(f).codeText == f.modelCode + "/" + (f.optCode + "\n") + "";
    OptCodeOfPair(f.modelCode, f.optCode + "\n", "");
    TrimWsSuffix(f.optCode, '\n');
  }

  /** An ASCII sold-to value gives an ASCII dealer address, so one of 5
      characters or more has a zip, and the first 5 bytes of the sold-to
      value are its first 5 characters. */
  lemma AsciiDealer(f: Sticker)
    requires IsAscii(f.soldTo) && IsAscii(f.shipTo) && 5 <= |DealerOf(f)| && 5 <= |Trim(f.soldTo)|
    ensures DealerZip(Trim(f.soldTo), Trim(f.shipTo)).Ok?
    ensures ByteSlice(Trim(f.soldTo), 0, 5) == Ok(Trim(f.soldTo)[..5])
  {
    TrimAscii(f.soldTo);
    RemoveAllAscii(Trim(f.soldTo), Trim(f.shipTo));
    TrimAscii(RemoveAll(Trim(f.soldTo), Trim(f.shipTo)));
    ByteSliceAscii(Trim(f.soldTo), 0, 5);
    assert Trim(f.soldTo)[0..5] == Trim(f.soldTo)[..5];
  }

  /** The fields of a well-formed sticker whose dealer address and sold-to
      value have 5 characters and whose VIN has a serial parse to its
      trimmed values and the first 5 characters of the sold-to value. */
  lemma RenderedFields(f: Sticker, now: string)
    requires WellFormed(f) && 5 <= |DealerOf(f)| && 5 <= |Trim(f.soldTo)|
    requires Models.FromVin(Trim(f.vin)).Ok?
    ensures ParseFields(RawOf(f), now) ==
      Ok(CarRecord(None, Trim(f.vin), Trim(f.extColor), Trim(f.intColor), Trim(f.description),
                   Trim(f.optCode), Trim(f.shipTo), Trim(f.soldTo)[..5], now,
                   Models.FromVin(Trim(f.vin)).value, "2023", None, Some(now)))
  {
    RawTrims(f);
    RawOptCode(f);
    AsciiDealer(f);
  }

  /** The round trip: a well-formed sticker whose dealer address and
      sold-to value have 5 characters and whose VIN has a serial parses
      back to its trimmed values, with the first 5 characters of the
      sold-to value. */
  lemma ParseRendered(f: Sticker, tail: string, now: string)
    requires WellFormed(f) && IsAscii(tail) && 5 <= |DealerOf(f)| && 5 <= |Trim(f.soldTo)|
    requires Models.FromVin(Trim(f.vin)).Ok?
    ensures ParseSticker(Render(f, tail), now) ==
      Ok(CarRecord(None, Trim(f.vin), Trim(f.extColor), Trim(f.intColor), Trim(f.description),
                   Trim(f.optCode), Trim(f.shipTo), Trim(f.soldTo)[..5], now,
                   Models.FromVin(Trim(f.vin)).value, "2023", None, Some(now)))
  {
    RenderedSlices(f, tail);
    RenderedFields(f, now);
  }

}
