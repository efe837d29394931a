/**
 * The root-tag rewriter `scale` (index.js:80-169): it finds the first
 * `<svg ... >` span, parses the attributes of that tag into the ordered
 * table `props`, overrides `width` and `height`, adds `viewBox` when it has
 * none, always writes `preserveAspectRatio`, patches the size declarations of
 * `style`, and splices the re-serialised tag back between the untouched text
 * before and after the span.
 *
 * The functions state what each step computes; the methods carry out the
 * steps as the source does, with its loops and its mutable `props` object,
 * and are proved to compute the functions.
 */
module Rewriter {
  import opened Wrappers
  import opened JsString
  import opened Attributes
  import opened AspectRatio

  /** `options.width` or `options.height`: an integer, or `None` for `undefined`. */
  type Dim = Option<int>

  /** JavaScript truthiness of a dimension: present and non-zero. */
  predicate Truthy(d: Dim) {
    d.Some? && d.value != 0
  }

  /** JavaScript truthiness of a stored attribute value: present and non-empty. */
  predicate TruthyText(v: Option<string>) {
    v.Some? && v.value != ""
  }

  /** `'' + d`: string concatenation writes `undefined` for a missing value. */
  function ConcatText(d: Dim): string {
    if d.Some? then IntToString(d.value) else "undefined"
  }

  /** What `Array.prototype.join` writes for `d`: nothing for `undefined`. */
  function JoinText(d: Dim): string {
    if d.Some? then IntToString(d.value) else ""
  }

  /** `'"' + s + '"'`. */
  function Quote(s: string): string {
    "\"" + s + "\""
  }

  // ---------------------------------------------------------------------
  // Locating the root tag (index.js:81-92)

  /**
   * Where `scale` finds the root tag: `index` is `indexOf('<svg')`, `raw`
   * the characters collected from there up to and including the first `>`,
   * and `endIndex` that `>`'s position (it stays `index` when none follows).
   */
  datatype Span = Span(index: int, raw: string, endIndex: int)

  function LocateTag(content: string): Span {
    var index := IndexOf(content, "<svg");
    var start: nat := if index < 0 then 0 else index;
    var e := FirstCharFrom(content, '>', start);
    if e >= 0 then Span(index, content[start..e + 1], e) else Span(index, content[start..], index)
  }

  /** `.replace(/\n/g, ' ').replace(/\r/g, '')`. */
  function CleanTag(raw: string): (r: string)
    ensures '\n' !in r && '\r' !in r
    ensures forall x :: x in r ==> x in raw || x == ' '
  {
    RemoveAll(ReplaceAll(raw, '\n', ' '), '\r')
  }

  // ---------------------------------------------------------------------
  // The tokenizer (index.js:110-126)

  /** The variables of the tokenizer loop: `props` and `lastKey`. */
  datatype TokState = TokState(props: seq<Attr>, lastKey: Option<string>)

  /** `props[lastKey]` with `lastKey` still `undefined` uses the key `"undefined"`. */
  function KeyOf(lastKey: Option<string>): string {
    lastKey.GetOr("undefined")
  }

  /** A missing value concatenates as `undefined`. */
  function TextOf(v: Option<string>): string {
    v.GetOr("undefined")
  }

  /** One iteration of the tokenizer loop on the piece `tok`. */
  function Step(st: TokState, tok: string): TokState {
    if tok == "" then st
    else if '=' !in tok then
      var key := KeyOf(st.lastKey);
      TokState(Put(st.props, key, TextOf(Lookup(st.props, key)) + " " + tok), st.lastKey)
    else
      var kv := Split(tok, '=');
      SplitHasTwo(tok, '=');
      TokState(Put(st.props, kv[0], kv[1]), Some(kv[0]))
  }

  /** The loop state after the pieces `toks`, starting from `st`. */
  function Tokens(st: TokState, toks: seq<string>): TokState
    decreases |toks|
  {
    if toks == [] then st else Step(Tokens(st, toks[..|toks| - 1]), toks[|toks| - 1])
  }

  /** `svgTag.substring(4, svgTag.length - 1)`: the text between `<svg` and `>`. */
  function Interior(tag: string): string {
    Substring(tag, 4, |tag| - 1)
  }

  /** The attribute table `props` that the tokenizer builds from a cleaned root tag. */
  function ParseProps(tag: string): seq<Attr> {
    Tokens(TokState([], None), Split(Interior(tag), ' ')).props
  }

  // ---------------------------------------------------------------------
  // The overrides (index.js:127-138)

  /** `props[key] ? parseInt(props[key].replace('"', ''), 10) : null`; `None` is null or NaN. */
  function OriginalDim(props: seq<Attr>, key: string): Dim {
    var v := Lookup(props, key);
    if TruthyText(v) then ParseInt(RemoveFirst(v.value, '"')) else None
  }

  /** `o ? o : r`. */
  function Pick(o: Dim, r: Dim): Dim {
    if Truthy(o) then o else r
  }

  /** `'"' + [0, 0, x, y].join(' ') + '"'`. */
  function ViewBoxValue(x: Dim, y: Dim): string {
    Quote("0 0 " + JoinText(x) + " " + JoinText(y))
  }

  /** The table after the width, height, viewBox and preserveAspectRatio writes. */
  function Overrides(props: seq<Attr>, w: Dim, h: Dim, far: Option<string>): seq<Attr> {
    var ow, oh := OriginalDim(props, "width"), OriginalDim(props, "height");
    var p1 := if Truthy(w) then Put(props, "width", Quote(ConcatText(w))) else props;
    var p2 := if Truthy(h) then Put(p1, "height", Quote(ConcatText(h))) else p1;
    var p3 := if TruthyText(Lookup(p2, "viewBox")) then p2
              else Put(p2, "viewBox", ViewBoxValue(Pick(ow, w), Pick(oh, h)));
    Put(p3, "preserveAspectRatio", AspectValue(far))
  }

  // ---------------------------------------------------------------------
  // The style patch (index.js:140-161)

  /**
   * The size property a declaration sets: its trimmed key, when it splits on
   * `:` into exactly two parts and that key is `width` or `height`.
   */
  function SizeProperty(decl: string): Option<string> {
    var kv := Split(decl, ':');
    if |kv| == 2 && (Trim(kv[0]) == "width" || Trim(kv[0]) == "height") then Some(Trim(kv[0])) else None
  }

  /** The declaration the patch writes for the size `name`: `name : <d>px`. */
  function SizeDecl(name: string, d: Dim): string {
    name + " : " + ConcatText(d) + "px"
  }

  /** A declaration after the patch loop has seen it. */
  function PatchDecl(decl: string, w: Dim, h: Dim): string {
    match SizeProperty(decl)
    case None => decl
    case Some(k) => if k == "width" then SizeDecl("width", w) else SizeDecl("height", h)
  }

  function PatchDecls(decls: seq<string>, w: Dim, h: Dim): seq<string> {
    seq(|decls|, i requires 0 <= i < |decls| => PatchDecl(decls[i], w, h))
  }

  /** Some declaration sets a size property (`styleUpdated` ends up true). */
  predicate AnySize(decls: seq<string>) {
    exists i :: 0 <= i < |decls| && SizeProperty(decls[i]).Some?
  }

  /** The declarations of a raw style value: its first and last characters are dropped. */
  function Declarations(style: string): seq<string> {
    Split(Substring(style, 1, |style| - 1), ';')
  }

  /** The table after the style patch. */
  function PatchStyle(props: seq<Attr>, w: Dim, h: Dim): seq<Attr> {
    var st := Lookup(props, "style");
    if st.Some? && |st.value| > 2 && AnySize(Declarations(st.value))
    then Put(props, "style", Quote(Join(PatchDecls(Declarations(st.value), w, h), ';')))
    else props
  }

  // ---------------------------------------------------------------------
  // Re-serialisation and the splice (index.js:163-168)

  /** `key=value` for each attribute, in enumeration order. */
  function Rendered(props: seq<Attr>): seq<string> {
    seq(|props|, i requires 0 <= i < |props| => props[i].key + "=" + props[i].value)
  }

  /** `['<svg', ...pairs, '>'].join(' ')`. */
  function SerializeTag(props: seq<Attr>): string {
    Join(["<svg"] + Rendered(props) + [">"], ' ')
  }

  /** The root tag as `scale` reads it, line breaks normalised. */
  function RootTag(content: string): string {
    CleanTag(LocateTag(content).raw)
  }

  /** The attribute table parsed from the root tag, before any write. */
  function OriginalProps(content: string): seq<Attr> {
    ParseProps(RootTag(content))
  }

  /** The attribute table that `scale` serialises. */
  function RewrittenProps(content: string, w: Dim, h: Dim, policy: AspectPolicy): seq<Attr> {
    var tag := RootTag(content);
    PatchStyle(Overrides(ParseProps(tag), w, h, FinalAspect(content, tag, policy)), w, h)
  }

  /** The document with the span of its root tag replaced by `tag` (index.js:168). */
  function SpliceTag(content: string, tag: string): string {
    var sp := LocateTag(content);
    Substring(content, 0, sp.index) + tag + Substring(content, sp.endIndex + 1, |content|)
  }

  /** What `scale(content, w, h, policy)` returns. */
  function Scaled(content: string, w: Dim, h: Dim, policy: AspectPolicy): string {
    SpliceTag(content, SerializeTag(RewrittenProps(content, w, h, policy)))
  }

  // ---------------------------------------------------------------------
  // The imperative steps

  /** The character loop of index.js:81-91. */
  method ScanTag(content: string) returns (index: int, raw: string, endIndex: int)
    ensures Span(index, raw, endIndex) == LocateTag(content)
  {
    index := IndexOf(content, "<svg");
    raw := "";
    endIndex := index;
    var start: nat := if index < 0 then 0 else index;
    var i := index;
    ghost var found := false;
    while i < |content|
      invariant index <= i && (i < 0 ==> i == -1)
      invariant i >= 0 ==> i <= |content|
      invariant raw == content[start..(if i < 0 then 0 else i)]
      invariant forall j :: start <= j < i ==> content[j] != '>'
      invariant endIndex == index && !found
    {
      if i >= 0 {
        var ch := content[i];
        assert content[start..i + 1] == content[start..i] + [ch];
        raw := raw + [ch];
        if ch == '>' {
          endIndex := i;
          FirstCharFromIs(content, '>', start, i);
          assert Span(index, raw, endIndex) == LocateTag(content);
          found := true;
          break;
        }
      }
      i := i + 1;
    }
    if !found {
      assert FirstCharFrom(content, '>', start) == -1;
      assert raw == content[start..];
      assert Span(index, raw, endIndex) == LocateTag(content);
    }
  }

  /** The tokenizer loop of index.js:110-126, filling a fresh `props` object. */
  method ParseAttributes(tag: string) returns (props: AttrMap)
    ensures fresh(props) && props.Valid()
    ensures props.entries == ParseProps(tag)
  {
    props := new AttrMap();
    var splits := Split(Substring(tag, 4, |tag| - 1), ' ');
    var lastKey: Option<string> := None;
    var i := 0;
    while i < |splits|
      invariant 0 <= i <= |splits|
      invariant fresh(props) && props.Valid()
      invariant TokState(props.entries, lastKey) == Tokens(TokState([], None), splits[..i])
    {
      assert splits[..i + 1][..i] == splits[..i];
      lastKey := TokenStep(props, lastKey, splits[i]);
      i := i + 1;
    }
    assert splits[..|splits|] == splits;
  }

  /** One iteration of the tokenizer loop: the piece `tok` updates `props` and `lastKey`. */
  method TokenStep(props: AttrMap, lastKey: Option<string>, tok: string) returns (newKey: Option<string>)
    requires props.Valid()
    modifies props
    ensures props.Valid()
    ensures TokState(props.entries, newKey) == Step(TokState(old(props.entries), lastKey), tok)
  {
    newKey := lastKey;
    if tok == "" {
      // an empty piece between two spaces is skipped
    } else if '=' !in tok {
      var key := KeyOf(lastKey);
      var prev := props.Get(key);
      props.Set(key, TextOf(prev) + " " + tok);
    } else {
      SplitHasTwo(tok, '=');
      var keyvalue := Split(tok, '=');
      newKey := Some(keyvalue[0]);
      props.Set(keyvalue[0], keyvalue[1]);
    }
  }

  /**
   * The body of the declaration loop for one declaration: the text it is
   * replaced by, and whether it set a size.
   */
  method PatchOne(decl: string, w: Dim, h: Dim) returns (patched: string, sized: bool)
    ensures sized <==> SizeProperty(decl).Some?
    ensures patched == PatchDecl(decl, w, h)
    ensures !sized ==> patched == decl
  {
    patched, sized := decl, false;
    var styleKV := Split(decl, ':');
    if |styleKV| == 2 {
      var key := Trim(styleKV[0]);
      if key == "width" {
        patched := "width : " + ConcatText(w) + "px";
        assert "width : " == "width" + " : ";
        sized := true;
      } else if key == "height" {
        patched := "height : " + ConcatText(h) + "px";
        assert "height : " == "height" + " : ";
        sized := true;
      }
    }
  }

  /** The declaration loop of index.js:145-157, rewriting `styles` in place. */
  method PatchDeclarations(styles: array<string>, w: Dim, h: Dim) returns (styleUpdated: bool)
    modifies styles
    ensures styles[..] == PatchDecls(old(styles[..]), w, h)
    ensures styleUpdated == AnySize(old(styles[..]))
  {
    ghost var decls := styles[..];
    styleUpdated := false;
    var i := 0;
    while i < styles.Length
      invariant 0 <= i <= styles.Length == |decls|
      invariant forall k :: 0 <= k < i ==> styles[k] == PatchDecl(decls[k], w, h)
      invariant forall k :: i <= k < |decls| ==> styles[k] == decls[k]
      invariant styleUpdated == AnySize(decls[..i])
    {
      ghost var d := styles[i];
      assert decls[..i + 1] == decls[..i] + [d];
      var patched, sized := PatchOne(styles[i], w, h);
      if sized {
        styles[i] := patched;
        styleUpdated := true;
      }
      assert styles[i] == PatchDecl(d, w, h);
      AnySizeSnoc(decls[..i], d);
      i := i + 1;
    }
    assert decls[..i] == decls;
  }

  /** A list sets a size when its front does or its last declaration does. */
  lemma AnySizeSnoc(decls: seq<string>, d: string)
    ensures AnySize(decls + [d]) == (AnySize(decls) || SizeProperty(d).Some?)
  {
    if AnySize(decls) {
      var k :| 0 <= k < |decls| && SizeProperty(decls[k]).Some?;
      assert (decls + [d])[k] == decls[k];
    }
    if SizeProperty(d).Some? {
      assert (decls + [d])[|decls|] == d;
    }
    if AnySize(decls + [d]) {
      var k :| 0 <= k < |decls| + 1 && SizeProperty((decls + [d])[k]).Some?;
      if k < |decls| {
        assert (decls + [d])[k] == decls[k];
      }
    }
  }

  /** The style patch of index.js:141-161. */
  method PatchStyleAttr(props: AttrMap, w: Dim, h: Dim)
    requires props.Valid()
    modifies props
    ensures props.Valid()
    ensures props.entries == PatchStyle(old(props.entries), w, h)
  {
    var style := props.Get("style");
    if style.Some? && |style.value| > 2 {
      var decls := Split(Substring(style.value, 1, |style.value| - 1), ';');
      var styles := new string[|decls|](k requires 0 <= k < |decls| => decls[k]);
      assert styles[..] == decls;
      var styleUpdated := PatchDeclarations(styles, w, h);
      if styleUpdated {
        props.Set("style", Quote(Join(styles[..], ';')));
      }
    }
  }

  /** The serialisation loop of index.js:163-167. */
  method Serialize(props: AttrMap) returns (tag: string)
    ensures tag == SerializeTag(props.entries)
  {
    var newSvgTag := ["<svg"];
    var i := 0;
    while i < |props.entries|
      invariant 0 <= i <= |props.entries|
      invariant newSvgTag == ["<svg"] + Rendered(props.entries[..i])
    {
      newSvgTag := newSvgTag + [props.entries[i].key + "=" + props.entries[i].value];
      i := i + 1;
      assert Rendered(props.entries[..i]) == Rendered(props.entries[..i - 1]) + [props.entries[i - 1].key + "=" + props.entries[i - 1].value];
    }
    assert props.entries[..i] == props.entries;
    newSvgTag := newSvgTag + [">"];
    tag := Join(newSvgTag, ' ');
  }

  /** The writes of index.js:127-138 on the `props` object. */
  method ApplyOverrides(props: AttrMap, w: Dim, h: Dim, finalAspectRatio: Option<string>)
    requires props.Valid()
    modifies props
    ensures props.Valid()
    ensures props.entries == Overrides(old(props.entries), w, h, finalAspectRatio)
  {
    ghost var p0 := props.entries;
    var width := props.Get("width");
    var height := props.Get("height");
    var ow: Dim := if TruthyText(width) then ParseInt(RemoveFirst(width.value, '"')) else None;
    var oh: Dim := if TruthyText(height) then ParseInt(RemoveFirst(height.value, '"')) else None;
    assert ow == OriginalDim(p0, "width") && oh == OriginalDim(p0, "height");
    if Truthy(w) {
      props.Set("width", Quote(ConcatText(w)));
    }
    ghost var p1 := props.entries;
    assert p1 == if Truthy(w) then Put(p0, "width", Quote(ConcatText(w))) else p0;
    if Truthy(h) {
      props.Set("height", Quote(ConcatText(h)));
    }
    ghost var p2 := props.entries;
    assert p2 == if Truthy(h) then Put(p1, "height", Quote(ConcatText(h))) else p1;
    var viewBox := props.Get("viewBox");
    if !TruthyText(viewBox) {
      props.Set("viewBox", ViewBoxValue(Pick(ow, w), Pick(oh, h)));
    }
    assert props.entries == if TruthyText(Lookup(p2, "viewBox")) then p2
                            else Put(p2, "viewBox", ViewBoxValue(Pick(ow, w), Pick(oh, h)));
    props.Set("preserveAspectRatio", AspectValue(finalAspectRatio));
  }

  /** `scale(svgContent, w, h, preserveAspectRatio)`. */
  method Scale(content: string, w: Dim, h: Dim, policy: AspectPolicy) returns (r: string)
    ensures r == Scaled(content, w, h, policy)
  {
    var index, raw, endIndex := ScanTag(content);
    var svgTag := CleanTag(raw);
    var finalAspectRatio := FinalAspect(content, svgTag, policy);
    var props := ParseAttributes(svgTag);
    ApplyOverrides(props, w, h, finalAspectRatio);
    PatchStyleAttr(props, w, h);
    var newSvgTag := Serialize(props);
    r := Substring(content, 0, index) + newSvgTag + Substring(content, endIndex + 1, |content|);
  }
}
