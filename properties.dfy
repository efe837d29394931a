/**
 * What `scale` (index.js:80-169) guarantees about its output: the text
 * outside the root tag is kept byte for byte, and inside it only the size,
 * viewBox, preserveAspectRatio and style attributes change, each as stated
 * below, with the original attribute order kept.
 */
module ScaleProperties {
  import opened Wrappers
  import opened JsString
  import opened Attributes
  import opened AspectRatio
  import opened Rewriter
  import opened TagRoundTrip

  /** The document has a root tag that is closed: `<svg` occurs and a `>` follows it. */
  predicate HasRootTag(content: string) {
    Contains(content, "<svg") && FirstCharFrom(content, '>', IndexOf(content, "<svg")) >= 0
  }

  // ---------------------------------------------------------------------
  // The splice

  /** The root tag runs from the first `<svg` to the first `>` after it. */
  lemma RootSpan(content: string)
    requires HasRootTag(content)
    ensures var i := IndexOf(content, "<svg");
            var e := FirstCharFrom(content, '>', i);
            && OccursAt(content, "<svg", i)
            && (forall j: nat :: j < i ==> !OccursAt(content, "<svg", j))
            && i < e && content[e] == '>'
            && (forall j :: i <= j < e ==> content[j] != '>')
            && LocateTag(content) == Span(i, content[i..e + 1], e)
  {
    var i := IndexOf(content, "<svg");
    assert content[i..i + 4] == "<svg";
    assert content[i] == '<';
  }

  /**
   * For a closed root tag, the splice keeps the text before the tag and the
   * text after its `>` character for character.
   */
  lemma SpliceOutsideTag(content: string, tag: string)
    requires HasRootTag(content)
    ensures var i := IndexOf(content, "<svg");
            SpliceTag(content, tag) == content[..i] + tag + content[FirstCharFrom(content, '>', i) + 1..]
  {
    RootSpan(content);
  }

  /**
   * With `<svg` but no `>` after it, the whole rest of the document is taken
   * as the tag, `endIndex` stays at `index`, and only the `<` is replaced.
   */
  lemma UnclosedRootTag(content: string, tag: string)
    requires Contains(content, "<svg") && FirstCharFrom(content, '>', IndexOf(content, "<svg")) < 0
    ensures var i := IndexOf(content, "<svg");
            && LocateTag(content).raw == content[i..]
            && SpliceTag(content, tag) == content[..i] + tag + content[i + 1..]
  {
  }

  /**
   * Without `<svg`, scanning starts at the beginning: the new tag replaces
   * everything up to the first `>`, or is put in front of the whole
   * document when there is none.
   */
  lemma NoRootTag(content: string, tag: string)
    requires !Contains(content, "<svg")
    ensures var e := FirstCharFrom(content, '>', 0);
            SpliceTag(content, tag) == tag + (if e >= 0 then content[e + 1..] else content)
  {
    assert Substring(content, 0, -1) == [];
  }

  /** `scale` splices the serialised rewritten table in place of the root tag. */
  lemma ScaledIsSplice(content: string, w: Dim, h: Dim, policy: AspectPolicy)
    requires HasRootTag(content)
    ensures var i := IndexOf(content, "<svg");
            Scaled(content, w, h, policy)
            == content[..i] + SerializeTag(RewrittenProps(content, w, h, policy)) + content[FirstCharFrom(content, '>', i) + 1..]
  {
    SpliceOutsideTag(content, SerializeTag(RewrittenProps(content, w, h, policy)));
  }

  /**
   * A tag that starts with `<svg`, spliced in at the first `<svg` of a
   * document, is where the search for `<svg` stops afterwards.
   */
  lemma SpliceKeepsIndex(content: string, i: nat, tag: string, rest: string)
    requires OccursAt(content, "<svg", i)
    requires forall j: nat :: j < i ==> !OccursAt(content, "<svg", j)
    requires |tag| >= 4 && tag[..4] == "<svg"
    ensures IndexOf(content[..i] + tag + rest, "<svg") == i
  {
    var out := content[..i] + tag + rest;
    assert out[..i + 4] == content[..i + 4] by {
      assert content[i..i + 4] == "<svg";
    }
    forall j: nat | j < i
      ensures !OccursAt(out, "<svg", j)
    {
      assert !OccursAt(content, "<svg", j);
      assert out[j..j + 4] == out[..i + 4][j..j + 4];
      assert content[j..j + 4] == content[..i + 4][j..j + 4];
    }
    assert OccursAt(out, "<svg", i) by {
      assert out[i..i + 4] == out[..i + 4][i..i + 4];
      assert content[i..i + 4] == content[..i + 4][i..i + 4];
    }
  }

  /** The first `>` from the start of a spliced tag is the tag's own last character. */
  lemma SpliceTagEnd(pre: string, tag: string, rest: string)
    requires |tag| >= 1 && tag[|tag| - 1] == '>'
    requires forall j :: 0 <= j < |tag| - 1 ==> tag[j] != '>'
    ensures var out := pre + tag + rest;
            FirstCharFrom(out, '>', |pre|) == |pre| + |tag| - 1
            && out[|pre|..|pre| + |tag|] == tag
  {
    var out := pre + tag + rest;
    var i := |pre|;
    assert out[i..i + |tag|] == tag;
    forall j | i <= j < i + |tag| - 1
      ensures out[j] != '>'
    {
      assert out[j] == tag[j - i];
    }
    assert out[i + |tag| - 1] == tag[|tag| - 1];
    FirstCharFromIs(out, '>', i, i + |tag| - 1);
  }

  /**
   * The root tag of a document spliced as `scale` splices it is the
   * serialised table, so long as no name or value holds `>`, a line break
   * or a carriage return, and the tokenizer reads it back unchanged.
   */
  lemma ReparseSplice(content: string, m: seq<Attr>)
    requires HasRootTag(content)
    requires ReadableTable(m)
    requires forall a :: a in m ==> '>' !in a.key + a.value && '\n' !in a.key + a.value && '\r' !in a.key + a.value
    ensures IndexOf(SpliceTag(content, SerializeTag(m)), "<svg") == IndexOf(content, "<svg")
    ensures LocateTag(SpliceTag(content, SerializeTag(m))).raw == SerializeTag(m)
    ensures OriginalProps(SpliceTag(content, SerializeTag(m))) == m
  {
    var i := IndexOf(content, "<svg");
    var e := FirstCharFrom(content, '>', i);
    var tag := SerializeTag(m);
    RootSpan(content);
    var out := content[..i] + tag + content[e + 1..];
    assert out == SpliceTag(content, tag) by {
      SpliceOutsideTag(content, tag);
    }
    assert IndexOf(out, "<svg") == i by {
      SerializedShape(m);
      SpliceKeepsIndex(content, i, tag, content[e + 1..]);
    }
    assert LocateTag(out).raw == tag by {
      SerializedShape(m);
      SpliceTagEnd(content[..i], tag, content[e + 1..]);
      assert |content[..i]| == i;
    }
    assert RootTag(out) == tag by {
      SerializedShape(m);
      CleanTagIdentity(tag);
    }
    ParseSerialize(m);
  }

  /**
   * When the rewritten table is one the tokenizer reads back, the root tag
   * of the output is exactly the serialised table, and reading it again
   * gives that table.
   */
  lemma ScaledReparse(content: string, w: Dim, h: Dim, policy: AspectPolicy)
    requires HasRootTag(content)
    requires ReadableTable(RewrittenProps(content, w, h, policy))
    requires forall a :: a in RewrittenProps(content, w, h, policy) ==>
               '>' !in a.key + a.value && '\n' !in a.key + a.value && '\r' !in a.key + a.value
    ensures IndexOf(Scaled(content, w, h, policy), "<svg") == IndexOf(content, "<svg")
    ensures LocateTag(Scaled(content, w, h, policy)).raw == SerializeTag(RewrittenProps(content, w, h, policy))
    ensures OriginalProps(Scaled(content, w, h, policy)) == RewrittenProps(content, w, h, policy)
  {
    ReparseSplice(content, RewrittenProps(content, w, h, policy));
  }

  /** A serialised tag starts with `<svg`, ends with its only `>`, and has no line break. */
  lemma SerializedShape(m: seq<Attr>)
    requires forall a :: a in m ==> '>' !in a.key + a.value && '\n' !in a.key + a.value && '\r' !in a.key + a.value
    ensures var tag := SerializeTag(m);
            && |tag| >= 6 && tag[..4] == "<svg" && tag[|tag| - 1] == '>'
            && (forall j :: 0 <= j < |tag| - 1 ==> tag[j] != '>')
            && '\n' !in tag && '\r' !in tag
  {
    var tag := SerializeTag(m);
    SerializeTagForm(m);
    var r := Join(Rendered(m), ' ');
    JoinChars(Rendered(m), ' ');
    forall x | x in r
      ensures x != '>' && x != '\n' && x != '\r'
    {
      if x != ' ' {
        var p :| p in Rendered(m) && x in p;
        var k :| 0 <= k < |m| && Rendered(m)[k] == p;
        assert m[k] in m;
        assert p == m[k].key + "=" + m[k].value;
      }
    }
    var head, tail := "<svg ", " >";
    assert forall k :: 0 <= k < |head| ==> head[k] != '>' && head[k] != '\n' && head[k] != '\r';
    if m != [] {
      assert tag == head + r + tail;
      forall j | 0 <= j < |tag|
        ensures tag[j] != '\n' && tag[j] != '\r' && (j < |tag| - 1 ==> tag[j] != '>')
      {
        if j < |head| {
          assert tag[j] == head[j];
        } else if j < |head| + |r| {
          assert tag[j] == r[j - |head|];
          assert r[j - |head|] in r;
        } else {
          assert tag[j] == tail[j - |head| - |r|];
        }
      }
    }
  }

  /**
   * Line-break normalisation works character by character: it distributes
   * over concatenation, a line feed becomes one space, a carriage return is
   * dropped and every other character is kept.
   */
  lemma CleanTagAppend(a: string, b: string)
    ensures CleanTag(a + b) == CleanTag(a) + CleanTag(b)
  {
    ReplaceAllAppend(a, b, '\n', ' ');
    RemoveAllAppend(ReplaceAll(a, '\n', ' '), ReplaceAll(b, '\n', ' '), '\r');
  }

  lemma CleanTagChar(x: char)
    ensures CleanTag([x]) == if x == '\n' then " " else if x == '\r' then "" else [x]
  {
    var y := if x == '\n' then ' ' else x;
    assert ReplaceAll([x], '\n', ' ') == [y];
    assert [y][1..] == [];
    assert RemoveAll([y], '\r') == if y == '\r' then [] else [y];
  }

  /** So a line break in the tag separates the text around it by exactly one space. */
  lemma CleanTagLineBreak(a: string, b: string)
    ensures CleanTag(a + "\n" + b) == CleanTag(a) + " " + CleanTag(b)
  {
    CleanTagAppend(a + "\n", b);
    CleanTagAppend(a, "\n");
    CleanTagChar('\n');
  }

  /** Normalising line breaks leaves a tag without any unchanged. */
  lemma CleanTagIdentity(raw: string)
    requires '\n' !in raw && '\r' !in raw
    ensures CleanTag(raw) == raw
  {
    ReplaceAllAbsent(raw, '\n', ' ');
    RemoveAllAbsent(raw, '\r');
  }

  // ---------------------------------------------------------------------
  // The attribute writes

  /** The names `scale` may write into the root tag. */
  predicate IsWrittenKey(k: string) {
    k == "width" || k == "height" || k == "viewBox" || k == "preserveAspectRatio"
  }

  /**
   * `b` keeps the names of `a` in their order, and every name it adds after
   * them is one `scale` writes.
   */
  ghost predicate KeysGrow(a: seq<string>, b: seq<string>) {
    |a| <= |b| && b[..|a|] == a && forall j :: |a| <= j < |b| ==> IsWrittenKey(b[j])
  }

  lemma KeysGrowPut(m: seq<Attr>, key: string, value: string)
    requires IsWrittenKey(key)
    ensures KeysGrow(Keys(m), Keys(Put(m, key, value)))
  {
    KeysPut(m, key, value);
  }

  lemma KeysGrowTrans(a: seq<string>, b: seq<string>, c: seq<string>)
    requires KeysGrow(a, b) && KeysGrow(b, c)
    ensures KeysGrow(a, c)
  {
    assert c[..|a|] == c[..|b|][..|a|];
  }

  /**
   * What each name reads after the writes of index.js:127-138: a truthy
   * width or height option replaces the stored size; a stored viewBox is
   * kept unless it is empty or missing, and is then built from the stored
   * sizes (or the options where those are not usable); preserveAspectRatio
   * always takes the computed value; every other name is untouched.
   */
  lemma OverridesLookup(props: seq<Attr>, w: Dim, h: Dim, far: Option<string>, key: string)
    ensures var r := Overrides(props, w, h, far);
            Lookup(r, key) ==
              if key == "preserveAspectRatio" then Some(AspectValue(far))
              else if key == "viewBox" then
                (if TruthyText(Lookup(props, "viewBox")) then Lookup(props, "viewBox")
                 else Some(ViewBoxValue(Pick(OriginalDim(props, "width"), w), Pick(OriginalDim(props, "height"), h))))
              else if key == "height" && Truthy(h) then Some(Quote(IntToString(h.value)))
              else if key == "width" && Truthy(w) then Some(Quote(IntToString(w.value)))
              else Lookup(props, key)
  {
    var ow, oh := OriginalDim(props, "width"), OriginalDim(props, "height");
    var p1 := if Truthy(w) then Put(props, "width", Quote(ConcatText(w))) else props;
    var p2 := if Truthy(h) then Put(p1, "height", Quote(ConcatText(h))) else p1;
    var p3 := if TruthyText(Lookup(p2, "viewBox")) then p2
              else Put(p2, "viewBox", ViewBoxValue(Pick(ow, w), Pick(oh, h)));
    if Truthy(w) {
      LookupPut(props, "width", Quote(ConcatText(w)), key);
      LookupPut(props, "width", Quote(ConcatText(w)), "viewBox");
    }
    if Truthy(h) {
      LookupPut(p1, "height", Quote(ConcatText(h)), key);
      LookupPut(p1, "height", Quote(ConcatText(h)), "viewBox");
    }
    if !TruthyText(Lookup(p2, "viewBox")) {
      LookupPut(p2, "viewBox", ViewBoxValue(Pick(ow, w), Pick(oh, h)), key);
    }
    LookupPut(p3, "preserveAspectRatio", AspectValue(far), key);
  }

  /**
   * The names the writes of index.js:129-138 append to the names `ks`
   * already stored, in the order of the writes: width when `tw` (a truthy
   * width option), height when `th`, viewBox, and preserveAspectRatio, each
   * only when new.
   */
  function NewNames(ks: seq<string>, tw: bool, th: bool): seq<string> {
    (if tw && "width" !in ks then ["width"] else [])
    + (if th && "height" !in ks then ["height"] else [])
    + (if "viewBox" !in ks then ["viewBox"] else [])
    + (if "preserveAspectRatio" !in ks then ["preserveAspectRatio"] else [])
  }

  /**
   * The writes keep the stored names in their order and append exactly the
   * names written that were not there, in the order they are written, with
   * `preserveAspectRatio` always present and no name twice.
   */
  lemma OverridesKeys(props: seq<Attr>, w: Dim, h: Dim, far: Option<string>)
    requires DistinctKeys(props)
    ensures var r := Overrides(props, w, h, far);
            KeysGrow(Keys(props), Keys(r)) && DistinctKeys(r) && "preserveAspectRatio" in Keys(r)
    ensures Keys(Overrides(props, w, h, far)) == Keys(props) + NewNames(Keys(props), Truthy(w), Truthy(h))
  {
    var ow, oh := OriginalDim(props, "width"), OriginalDim(props, "height");
    var p1 := if Truthy(w) then Put(props, "width", Quote(ConcatText(w))) else props;
    var p2 := if Truthy(h) then Put(p1, "height", Quote(ConcatText(h))) else p1;
    var p3 := if TruthyText(Lookup(p2, "viewBox")) then p2
              else Put(p2, "viewBox", ViewBoxValue(Pick(ow, w), Pick(oh, h)));
    var p4 := Put(p3, "preserveAspectRatio", AspectValue(far));
    if Truthy(w) {
      KeysGrowPut(props, "width", Quote(ConcatText(w)));
      PutDistinct(props, "width", Quote(ConcatText(w)));
    }
    assert KeysGrow(Keys(props), Keys(p1)) && DistinctKeys(p1);
    if Truthy(h) {
      KeysGrowPut(p1, "height", Quote(ConcatText(h)));
      KeysGrowTrans(Keys(props), Keys(p1), Keys(p2));
      PutDistinct(p1, "height", Quote(ConcatText(h)));
    }
    assert KeysGrow(Keys(props), Keys(p2)) && DistinctKeys(p2);
    if !TruthyText(Lookup(p2, "viewBox")) {
      KeysGrowPut(p2, "viewBox", ViewBoxValue(Pick(ow, w), Pick(oh, h)));
      KeysGrowTrans(Keys(props), Keys(p2), Keys(p3));
      PutDistinct(p2, "viewBox", ViewBoxValue(Pick(ow, w), Pick(oh, h)));
    }
    assert KeysGrow(Keys(props), Keys(p3)) && DistinctKeys(p3);
    KeysGrowPut(p3, "preserveAspectRatio", AspectValue(far));
    KeysGrowTrans(Keys(props), Keys(p3), Keys(p4));
    PutDistinct(p3, "preserveAspectRatio", AspectValue(far));
    LookupPut(p3, "preserveAspectRatio", AspectValue(far), "preserveAspectRatio");
    OverridesOrder(props, w, h, far);
  }

  /**
   * A write made when `cond` holds, on a table whose names are `ks + extra`:
   * the name is appended when it is written and new.
   */
  lemma KeysAfterWrite(m: seq<Attr>, cond: bool, key: string, value: string, ks: seq<string>, extra: seq<string>)
    requires Keys(m) == ks + extra && key !in extra
    ensures Keys(if cond then Put(m, key, value) else m)
            == ks + (extra + (if cond && key !in ks then [key] else []))
  {
    if cond {
      KeysPut(m, key, value);
      assert ks + extra + (if key in ks then [] else [key]) == ks + (extra + (if key in ks then [] else [key]));
    } else {
      assert extra + [] == extra;
    }
  }

  /** The four writes of `Overrides`, with the values written left abstract. */
  function Writes(props: seq<Attr>, tw: bool, wv: string, th: bool, hv: string, vbv: string, av: string): seq<Attr> {
    var p1 := if tw then Put(props, "width", wv) else props;
    var p2 := if th then Put(p1, "height", hv) else p1;
    var p3 := if !TruthyText(Lookup(p2, "viewBox")) then Put(p2, "viewBox", vbv) else p2;
    Put(p3, "preserveAspectRatio", av)
  }

  lemma WritesOrder(props: seq<Attr>, tw: bool, wv: string, th: bool, hv: string, vbv: string, av: string)
    ensures Keys(Writes(props, tw, wv, th, hv, vbv, av)) == Keys(props) + NewNames(Keys(props), tw, th)
  {
    FourWrites(props, "width", tw, wv, "height", th, hv, "viewBox", vbv, "preserveAspectRatio", av);
  }

  /** The same for any four distinct names: each is appended in turn when it is written and new. */
  lemma FourWrites(m0: seq<Attr>, k1: string, c1: bool, v1: string, k2: string, c2: bool, v2: string,
                   k3: string, v3: string, k4: string, v4: string)
    requires k1 != k2 && k1 != k3 && k1 != k4 && k2 != k3 && k2 != k4 && k3 != k4
    ensures var m1 := if c1 then Put(m0, k1, v1) else m0;
            var m2 := if c2 then Put(m1, k2, v2) else m1;
            var m3 := if !TruthyText(Lookup(m2, k3)) then Put(m2, k3, v3) else m2;
            var ks := Keys(m0);
            Keys(Put(m3, k4, v4))
            == ks + ((if c1 && k1 !in ks then [k1] else []) + (if c2 && k2 !in ks then [k2] else [])
                     + (if k3 !in ks then [k3] else []) + (if k4 !in ks then [k4] else []))
  {
    var ks := Keys(m0);
    var m1 := if c1 then Put(m0, k1, v1) else m0;
    var m2 := if c2 then Put(m1, k2, v2) else m1;
    TwoWrites(m0, k1, c1, v1, k2, c2, v2);
    LastTwoWrites(m2, ks, (if c1 && k1 !in ks then [k1] else []) + (if c2 && k2 !in ks then [k2] else []),
                  k3, v3, k4, v4);
  }

  /** The last two writes of `FourWrites`, on a table whose names are `ks + extra`. */
  lemma LastTwoWrites(m2: seq<Attr>, ks: seq<string>, extra: seq<string>, k3: string, v3: string, k4: string, v4: string)
    requires Keys(m2) == ks + extra && k3 !in extra && k4 !in extra && k3 != k4
    ensures var m3 := if !TruthyText(Lookup(m2, k3)) then Put(m2, k3, v3) else m2;
            Keys(Put(m3, k4, v4))
            == ks + (extra + (if k3 !in ks then [k3] else []) + (if k4 !in ks then [k4] else []))
  {
    var c3 := !TruthyText(Lookup(m2, k3));
    var m3 := if c3 then Put(m2, k3, v3) else m2;
    var a3: seq<string> := if c3 && k3 !in ks then [k3] else [];
    KeysAfterWrite(m2, c3, k3, v3, ks, extra);
    KeysAfterWrite(m3, true, k4, v4, ks, extra + a3);
    StoredWhenTruthy(m2, k3, ks, extra);
    assert a3 == (if k3 !in ks then [k3] else []);
  }

  /** The first two writes of `FourWrites`. */
  lemma TwoWrites(m0: seq<Attr>, k1: string, c1: bool, v1: string, k2: string, c2: bool, v2: string)
    requires k1 != k2
    ensures var m1 := if c1 then Put(m0, k1, v1) else m0;
            var ks := Keys(m0);
            Keys(if c2 then Put(m1, k2, v2) else m1)
            == ks + ((if c1 && k1 !in ks then [k1] else []) + (if c2 && k2 !in ks then [k2] else []))
  {
    var ks := Keys(m0);
    var m1 := if c1 then Put(m0, k1, v1) else m0;
    var a1: seq<string> := if c1 && k1 !in ks then [k1] else [];
    assert ks == ks + [];
    KeysAfterWrite(m0, c1, k1, v1, ks, []);
    assert [] + a1 == a1;
    KeysAfterWrite(m1, c2, k2, v2, ks, a1);
  }

  /** A name that reads a truthy value on a table `ks + extra`, and is not in `extra`, is in `ks`. */
  lemma StoredWhenTruthy(m: seq<Attr>, key: string, ks: seq<string>, extra: seq<string>)
    requires Keys(m) == ks + extra && key !in extra
    ensures TruthyText(Lookup(m, key)) ==> key in ks
  {
  }

  /** The exact key sequence after the four writes of index.js:129-138. */
  lemma OverridesOrder(props: seq<Attr>, w: Dim, h: Dim, far: Option<string>)
    ensures Keys(Overrides(props, w, h, far)) == Keys(props) + NewNames(Keys(props), Truthy(w), Truthy(h))
  {
    var ow, oh := OriginalDim(props, "width"), OriginalDim(props, "height");
    WritesOrder(props, Truthy(w), Quote(ConcatText(w)), Truthy(h), Quote(ConcatText(h)),
                ViewBoxValue(Pick(ow, w), Pick(oh, h)), AspectValue(far));
    assert Overrides(props, w, h, far)
        == Writes(props, Truthy(w), Quote(ConcatText(w)), Truthy(h), Quote(ConcatText(h)),
                  ViewBoxValue(Pick(ow, w), Pick(oh, h)), AspectValue(far));
  }

  // ---------------------------------------------------------------------
  // The style patch

  /**
   * The style patch rewrites at most the value of `style`: its
   * declarations are patched when the stored value is longer than two
   * characters and one of them sets a size; every name keeps its place and
   * every other value is untouched.
   */
  lemma PatchStyleEffect(props: seq<Attr>, w: Dim, h: Dim, key: string)
    ensures var r := PatchStyle(props, w, h);
            var st := Lookup(props, "style");
            && Keys(r) == Keys(props)
            && (key != "style" ==> Lookup(r, key) == Lookup(props, key))
            && Lookup(r, "style") ==
                 if st.Some? && |st.value| > 2 && AnySize(Declarations(st.value))
                 then Some(Quote(Join(PatchDecls(Declarations(st.value), w, h), ';')))
                 else st
  {
    var st := Lookup(props, "style");
    if st.Some? && |st.value| > 2 && AnySize(Declarations(st.value)) {
      var v := Quote(Join(PatchDecls(Declarations(st.value), w, h), ';'));
      KeysPut(props, "style", v);
      LookupPut(props, "style", v, key);
      LookupPut(props, "style", v, "style");
    }
  }

  /** `Trim` of a word of non-spaces followed by one space is the word. */
  lemma TrimWordSpace(word: string)
    requires word != [] && forall c :: c in word ==> !IsJsSpace(c)
    ensures Trim(word + " ") == word
  {
    var t := word + " ";
    assert t[0] == word[0] && word[0] in word;
    assert TrimStart(t) == t;
    assert t[..|t| - 1] == word;
    assert TrimEnd(t) == TrimEnd(word);
    assert word[|word| - 1] in word;
  }

  /** The text of a dimension holds no `:` or `;`. */
  lemma ConcatTextPlain(d: Dim)
    ensures ':' !in ConcatText(d) && ';' !in ConcatText(d)
  {
    if d.Some? {
      var n: nat := if d.value < 0 then -d.value else d.value;
      assert forall c :: c in NatToString(n) ==> IsDigit(c);
      assert d.value < 0 ==> ConcatText(d) == "-" + NatToString(n);
    }
  }

  /** `name : x` with no `:` in `name` or `x` splits into exactly those two sides. */
  lemma SplitColon(name: string, x: string)
    requires ':' !in name && ':' !in x
    ensures Split(name + " : " + x, ':') == [name + " ", " " + x]
  {
    assert name + " : " + x == (name + " ") + [':'] + (" " + x);
    SplitAtSep(name + " ", " " + x, ':');
    SplitNoSep(name + " ", ':');
    SplitNoSep(" " + x, ':');
  }

  /** A property name without spaces or `:`. */
  predicate PlainName(name: string) {
    name != [] && ':' !in name && forall c :: c in name ==> !IsJsSpace(c)
  }

  lemma SizeNamesPlain()
    ensures PlainName("width") && PlainName("height")
  {
  }

  /** A declaration `name : <d>px` splits on `:` into the padded name and the padded value. */
  lemma SizeDeclParts(name: string, d: Dim)
    requires PlainName(name)
    ensures var kv := Split(SizeDecl(name, d), ':');
            |kv| == 2 && Trim(kv[0]) == name
    ensures ';' !in name ==> ';' !in SizeDecl(name, d)
  {
    var x := ConcatText(d) + "px";
    ConcatTextPlain(d);
    assert SizeDecl(name, d) == name + " : " + x;
    SplitColon(name, x);
    TrimWordSpace(name);
  }

  /** The declarations the patch writes set the size they name. */
  lemma PatchedDeclsAreSizes(w: Dim, h: Dim)
    ensures SizeProperty(SizeDecl("width", w)) == Some("width")
    ensures SizeProperty(SizeDecl("height", h)) == Some("height")
  {
    SizeNamesPlain();
    SizeDeclParts("width", w);
    SizeDeclParts("height", h);
  }

  /** Patching a declaration a second time changes nothing. */
  lemma PatchDeclIdempotent(decl: string, w: Dim, h: Dim)
    ensures PatchDecl(PatchDecl(decl, w, h), w, h) == PatchDecl(decl, w, h)
    ensures SizeProperty(decl).Some? ==> SizeProperty(PatchDecl(decl, w, h)) == SizeProperty(decl)
  {
    PatchedDeclsAreSizes(w, h);
  }

  /** A patched declaration holds `;` only if the original did. */
  lemma PatchDeclPlain(decl: string, w: Dim, h: Dim)
    requires ';' !in decl
    ensures ';' !in PatchDecl(decl, w, h)
  {
    ConcatTextPlain(w);
    ConcatTextPlain(h);
    SizeNamesPlain();
    assert ';' !in "width" && ';' !in "height";
    SizeDeclParts("width", w);
    SizeDeclParts("height", h);
  }

  /** A patched declaration list holds no `;`, and patching sets a size property wherever it did. */
  lemma PatchDeclsFacts(decls: seq<string>, w: Dim, h: Dim)
    requires forall d :: d in decls ==> ';' !in d
    ensures forall d :: d in PatchDecls(decls, w, h) ==> ';' !in d
    ensures PatchDecls(PatchDecls(decls, w, h), w, h) == PatchDecls(decls, w, h)
    ensures AnySize(decls) ==> AnySize(PatchDecls(decls, w, h))
  {
    var p := PatchDecls(decls, w, h);
    forall i | 0 <= i < |decls|
      ensures ';' !in p[i] && PatchDecl(p[i], w, h) == p[i]
    {
      assert decls[i] in decls;
      PatchDeclIdempotent(decls[i], w, h);
      PatchDeclPlain(decls[i], w, h);
    }
    if AnySize(decls) {
      var i :| 0 <= i < |decls| && SizeProperty(decls[i]).Some?;
      PatchDeclIdempotent(decls[i], w, h);
      assert SizeProperty(p[i]).Some?;
    }
  }

  /** The style value `scale` writes reads back as the patched declarations. */
  lemma StyleReparse(decls: seq<string>, w: Dim, h: Dim)
    requires |decls| >= 1 && forall d :: d in decls ==> ';' !in d
    ensures Declarations(Quote(Join(PatchDecls(decls, w, h), ';'))) == PatchDecls(decls, w, h)
  {
    PatchDeclsFacts(decls, w, h);
    var j := Join(PatchDecls(decls, w, h), ';');
    assert Substring(Quote(j), 1, |Quote(j)| - 1) == j;
    SplitJoin(PatchDecls(decls, w, h), ';');
  }

  /** Running the style patch on its own output changes nothing more. */
  lemma PatchStyleIdempotent(props: seq<Attr>, w: Dim, h: Dim)
    ensures PatchStyle(PatchStyle(props, w, h), w, h) == PatchStyle(props, w, h)
  {
    var st := Lookup(props, "style");
    if st.Some? && |st.value| > 2 && AnySize(Declarations(st.value)) {
      var decls := Declarations(st.value);
      var v := Quote(Join(PatchDecls(decls, w, h), ';'));
      var r := Put(props, "style", v);
      LookupPut(props, "style", v, "style");
      PatchDeclsFacts(decls, w, h);
      StyleReparse(decls, w, h);
      var i :| 0 <= i < |decls| && SizeProperty(decls[i]).Some?;
      JoinCovers(PatchDecls(decls, w, h), ';', i);
      assert PatchDecls(decls, w, h)[i] == PatchDecl(decls[i], w, h);
      assert |v| > 2;
      PutExisting(r, "style", v);
    }
  }

  // ---------------------------------------------------------------------
  // The rewritten root tag

  /**
   * The table `scale` serialises keeps every name of the original root tag
   * in its place, appends only the names it writes, holds no name twice,
   * and always holds `preserveAspectRatio`.
   */
  lemma RewrittenKeys(content: string, w: Dim, h: Dim, policy: AspectPolicy)
    ensures var r := RewrittenProps(content, w, h, policy);
            KeysGrow(Keys(OriginalProps(content)), Keys(r)) && DistinctKeys(r) && "preserveAspectRatio" in Keys(r)
    ensures var ks := Keys(OriginalProps(content));
            Keys(RewrittenProps(content, w, h, policy)) == ks + NewNames(ks, Truthy(w), Truthy(h))
  {
    var tag := RootTag(content);
    var far := FinalAspect(content, tag, policy);
    var v := Overrides(ParseProps(tag), w, h, far);
    TokensDistinct(Split(Interior(tag), ' '));
    OverridesKeys(ParseProps(tag), w, h, far);
    PatchStyleEffect(v, w, h, "style");
    if PatchStyle(v, w, h) != v {
      PutDistinct(v, "style", Quote(Join(PatchDecls(Declarations(Lookup(v, "style").value), w, h), ';')));
      KeysPut(v, "style", Quote(Join(PatchDecls(Declarations(Lookup(v, "style").value), w, h), ';')));
    }
  }

  /** A truthy size option is written as its decimal text in double quotes. */
  lemma SizeWritten(content: string, w: Dim, h: Dim, policy: AspectPolicy)
    ensures var r := RewrittenProps(content, w, h, policy);
            var o := OriginalProps(content);
            && Lookup(r, "width") == (if Truthy(w) then Some(Quote(IntToString(w.value))) else Lookup(o, "width"))
            && Lookup(r, "height") == (if Truthy(h) then Some(Quote(IntToString(h.value))) else Lookup(o, "height"))
  {
    var tag := RootTag(content);
    var far := FinalAspect(content, tag, policy);
    var v := Overrides(ParseProps(tag), w, h, far);
    OverridesLookup(ParseProps(tag), w, h, far, "width");
    OverridesLookup(ParseProps(tag), w, h, far, "height");
    PatchStyleEffect(v, w, h, "width");
    PatchStyleEffect(v, w, h, "height");
  }

  /** A size stored as a quoted integer is read back, as `scale` reads sizes, as that integer. */
  lemma QuotedSizeReadsBack(m: seq<Attr>, key: string, n: int)
    requires Lookup(m, key) == Some(Quote(IntToString(n)))
    ensures OriginalDim(m, key) == Some(n)
  {
    var q := Quote(IntToString(n));
    assert q == ['"'] + (IntToString(n) + "\"");
    assert RemoveFirst(q, '"') == IntToString(n) + "\"";
    ParseIntToString(n, "\"");
  }

  /** A truthy size option is what the rewritten table reads as that size. */
  lemma SizeReadsBack(content: string, w: Dim, h: Dim, policy: AspectPolicy)
    ensures Truthy(w) ==> OriginalDim(RewrittenProps(content, w, h, policy), "width") == w
    ensures Truthy(h) ==> OriginalDim(RewrittenProps(content, w, h, policy), "height") == h
  {
    SizeWritten(content, w, h, policy);
    var r := RewrittenProps(content, w, h, policy);
    if Truthy(w) {
      QuotedSizeReadsBack(r, "width", w.value);
    }
    if Truthy(h) {
      QuotedSizeReadsBack(r, "height", h.value);
    }
  }

  /**
   * The new viewBox: a non-empty stored one is kept; otherwise it is
   * `"0 0 x y"` with each size taken from the original tag when it parses
   * to a non-zero number, else from the option.
   */
  lemma ViewBoxWritten(content: string, w: Dim, h: Dim, policy: AspectPolicy)
    ensures var r := RewrittenProps(content, w, h, policy);
            var o := OriginalProps(content);
            Lookup(r, "viewBox") ==
              if TruthyText(Lookup(o, "viewBox")) then Lookup(o, "viewBox")
              else Some(ViewBoxValue(Pick(OriginalDim(o, "width"), w), Pick(OriginalDim(o, "height"), h)))
  {
    var tag := RootTag(content);
    var far := FinalAspect(content, tag, policy);
    var v := Overrides(ParseProps(tag), w, h, far);
    OverridesLookup(ParseProps(tag), w, h, far, "viewBox");
    PatchStyleEffect(v, w, h, "viewBox");
  }

  /** `preserveAspectRatio` is always written, with the computed value or `"none"`. */
  lemma AspectRatioWritten(content: string, w: Dim, h: Dim, policy: AspectPolicy)
    ensures Lookup(RewrittenProps(content, w, h, policy), "preserveAspectRatio")
            == Some(AspectValue(FinalAspect(content, RootTag(content), policy)))
  {
    var tag := RootTag(content);
    var far := FinalAspect(content, tag, policy);
    var v := Overrides(ParseProps(tag), w, h, far);
    OverridesLookup(ParseProps(tag), w, h, far, "preserveAspectRatio");
    PatchStyleEffect(v, w, h, "preserveAspectRatio");
  }

  /** Every name other than the four written and `style` keeps its original value. */
  lemma OtherAttributesKept(content: string, w: Dim, h: Dim, policy: AspectPolicy, key: string)
    requires !IsWrittenKey(key) && key != "style"
    ensures Lookup(RewrittenProps(content, w, h, policy), key) == Lookup(OriginalProps(content), key)
  {
    var tag := RootTag(content);
    var far := FinalAspect(content, tag, policy);
    var v := Overrides(ParseProps(tag), w, h, far);
    OverridesLookup(ParseProps(tag), w, h, far, key);
    PatchStyleEffect(v, w, h, key);
  }

  /** The style value: patched when it sets a size, otherwise the original one. */
  lemma StyleWritten(content: string, w: Dim, h: Dim, policy: AspectPolicy)
    ensures var st := Lookup(OriginalProps(content), "style");
            Lookup(RewrittenProps(content, w, h, policy), "style") ==
              if st.Some? && |st.value| > 2 && AnySize(Declarations(st.value))
              then Some(Quote(Join(PatchDecls(Declarations(st.value), w, h), ';')))
              else st
  {
    var tag := RootTag(content);
    var far := FinalAspect(content, tag, policy);
    var v := Overrides(ParseProps(tag), w, h, far);
    OverridesLookup(ParseProps(tag), w, h, far, "style");
    PatchStyleEffect(v, w, h, "style");
  }

  // ---------------------------------------------------------------------
  // The tokenizer

  /**
   * A piece with `=` sets the name before its first `=` to the text between
   * the first and the second `=` (anything after a second `=` is lost), and
   * makes that name the one later pieces extend.
   */
  lemma TokenWithEquals(st: TokState, tok: string)
    requires '=' in tok
    ensures var k := FirstCharFrom(tok, '=', 0);
            var after := tok[k + 1..];
            var value := if '=' in after then after[..FirstCharFrom(after, '=', 0)] else after;
            Step(st, tok) == TokState(Put(st.props, tok[..k], value), Some(tok[..k]))
  {
    var k := FirstCharFrom(tok, '=', 0);
    var after := tok[k + 1..];
    SplitHead(tok, '=');
    assert tok == tok[..k] + ['='] + after;
    SplitAtSep(tok[..k], after, '=');
    SplitNoSep(tok[..k], '=');
    SplitHead(after, '=');
  }

  /**
   * A non-empty piece without `=` is appended, after a space, to the value
   * of the name set last (`undefined` when there is none yet).
   */
  lemma TokenWithoutEquals(st: TokState, tok: string)
    requires tok != "" && '=' !in tok
    ensures var key := st.lastKey.GetOr("undefined");
            Lookup(Step(st, tok).props, key) == Some(Lookup(st.props, key).GetOr("undefined") + " " + tok)
            && Step(st, tok).lastKey == st.lastKey
  {
    var key := KeyOf(st.lastKey);
    LookupPut(st.props, key, TextOf(Lookup(st.props, key)) + " " + tok, key);
  }

  /** Empty pieces, from runs of spaces, change nothing. */
  lemma EmptyTokenSkipped(st: TokState)
    ensures Step(st, "") == st
  {
  }
}
