/**
 * How `scale` decides the new `preserveAspectRatio` value (index.js:93-109,
 * 138). The two regular expressions that look the existing value up are
 * written out as an explicit left-to-right scanner.
 */
module AspectRatio {
  import opened Wrappers
  import opened JsString

  /**
   * The `preserveAspectRatio` option: absent, a value that is not a string
   * (only its truthiness matters), or a string.
   */
  datatype AspectPolicy = Unset | Flag(on: bool) | Text(s: string)

  /** The literal every lookup starts with: a space, then the attribute name. */
  const Needle: string := " preserveAspectRatio"

  /** `/ preserveAspectRatio\W/.test(s)`. */
  predicate MentionsAttribute(s: string)
    ensures MentionsAttribute(s) ==> |Needle| < |s|
  {
    exists j :: 0 <= j < |s| && OccursAt(s, Needle, j) && j + |Needle| < |s| && !IsWordChar(s[j + |Needle|])
  }

  /** The end of the run of `\s` characters that starts at `i`. */
  function SkipSpaces(s: string, i: nat): (k: nat)
    requires i <= |s|
    ensures i <= k <= |s|
    ensures forall j :: i <= j < k ==> IsJsSpace(s[j])
    ensures k == |s| || !IsJsSpace(s[k])
    decreases |s| - i
  {
    if i < |s| && IsJsSpace(s[i]) then SkipSpaces(s, i + 1) else i
  }

  /** `\s*=\s*`: whitespace, one `=`, whitespace. */
  ghost predicate SpacedEquals(w: string) {
    exists m :: 0 <= m < |w| && w[m] == '=' && AllSpaces(w[..m]) && AllSpaces(w[m + 1..])
  }

  lemma SpacedEqualsAt(w: string, m: nat)
    requires m < |w| && w[m] == '=' && AllSpaces(w[..m]) && AllSpaces(w[m + 1..])
    ensures SpacedEquals(w)
  {
  }

  /**
   * `/ preserveAspectRatio\s*=\s*(['"])/` tried at position `j` only: the
   * quote character found and the position just after it. A match is the
   * needle, then `\s*=\s*`, then the quote.
   */
  function QuoteAt(t: string, j: nat): (r: Option<(char, nat)>)
    ensures r.Some? ==> r.value.1 <= |t| && (r.value.0 == '"' || r.value.0 == '\'')
    ensures r.Some? ==> OccursAt(t, Needle, j) && j + |Needle| < r.value.1 && t[r.value.1 - 1] == r.value.0
    ensures r.Some? ==> SpacedEquals(t[j + |Needle|..r.value.1 - 1])
  {
    if !OccursAt(t, Needle, j) then None
    else
      var i := j + |Needle|;
      var e := SkipSpaces(t, i);
      if e < |t| && t[e] == '=' then
        var q := SkipSpaces(t, e + 1);
        if q < |t| && (t[q] == '"' || t[q] == '\'') then
          SpacedBetween(t, i, e, q);
          Some((t[q], q + 1))
        else None
      else None
  }

  /** The run `t[i..q]` that the two `SkipSpaces` calls delimit is `\s*=\s*`. */
  lemma SpacedBetween(t: string, i: nat, e: nat, q: nat)
    requires i <= e < q <= |t| && t[e] == '='
    requires forall k :: i <= k < e ==> IsJsSpace(t[k])
    requires forall k :: e + 1 <= k < q ==> IsJsSpace(t[k])
    ensures SpacedEquals(t[i..q])
  {
    var w := t[i..q];
    assert w[e - i] == '=';
    assert w[..e - i] == t[i..e];
    assert w[e - i + 1..] == t[e + 1..q];
    SpacedEqualsAt(w, e - i);
  }

  /**
   * The converse: the needle at `j`, then whitespace up to an `=` at `e`,
   * then whitespace up to a single or double quote at `p`, is a match with
   * that quote.
   */
  lemma QuoteAtMatch(t: string, j: nat, e: nat, p: nat)
    requires OccursAt(t, Needle, j) && j + |Needle| <= e < p < |t|
    requires forall k :: j + |Needle| <= k < e ==> IsJsSpace(t[k])
    requires t[e] == '=' && forall k :: e < k < p ==> IsJsSpace(t[k])
    requires t[p] == '"' || t[p] == '\''
    ensures QuoteAt(t, j) == Some((t[p], p + 1))
  {
    assert !IsJsSpace(t[e]) && !IsJsSpace(t[p]);
    assert SkipSpaces(t, j + |Needle|) == e;
    assert SkipSpaces(t, e + 1) == p;
  }

  /** Each character of a whitespace run found in `t` is whitespace. */
  lemma RunOfSpaces(t: string, i: nat, sp: string)
    requires i + |sp| <= |t| && t[i..i + |sp|] == sp && AllSpaces(sp)
    ensures forall k :: i <= k < i + |sp| ==> IsJsSpace(t[k])
  {
    forall k | i <= k < i + |sp|
      ensures IsJsSpace(t[k])
    {
      assert t[k] == sp[k - i];
    }
  }

  /** The middle piece of `x + y + z` is `y`. */
  lemma MiddlePiece(x: string, y: string, z: string)
    ensures |x| + |y| <= |x + y + z| && (x + y + z)[|x|..|x| + |y|] == y
  {
    assert (x + y + z)[|x|..|x| + |y|] == (x + y)[|x|..];
  }

  /** The leftmost match of that expression at or after `j`. */
  function FirstQuote(t: string, j: nat): (r: Option<(char, nat)>)
    ensures r.Some? ==> r.value.1 <= |t|
    decreases |t| - j
  {
    if j >= |t| then None
    else if QuoteAt(t, j).Some? then QuoteAt(t, j)
    else FirstQuote(t, j + 1)
  }

  /** `([^q]*)`: the text from `start` up to the next `q`, or to the end. */
  function TakeUntil(t: string, start: nat, q: char): (v: string)
    requires start <= |t|
    ensures q !in v
    ensures start + |v| <= |t| && t[start..start + |v|] == v
    ensures start + |v| == |t| || t[start + |v|] == q
  {
    var e := FirstCharFrom(t, q, start);
    if e < 0 then t[start..] else t[start..e]
  }

  /**
   * `v.replace(/^\s*(\S.*\S)\s*$/, '"$1"')`: with at least two non-space
   * characters and no line terminator between the first and the last of
   * them, the trimmed text in double quotes; otherwise `v` unchanged.
   */
  function Rewrap(v: string): (r: string)
    ensures r == v || r == "\"" + Trim(v) + "\""
    ensures |Trim(v)| < 2 ==> r == v
  {
    var t := Trim(v);
    if |t| >= 2 && forall i :: 1 <= i < |t| - 1 ==> !IsLineTerminator(t[i]) then "\"" + t + "\"" else v
  }

  /**
   * `finalAspectRatio`: `content` is the whole document (the first test runs
   * on it), `tag` the root tag after its line breaks were normalised.
   */
  function FinalAspect(content: string, tag: string, policy: AspectPolicy): (r: Option<string>)
    ensures r.Some? ==> r.value != ""
    ensures policy == Unset || policy == Flag(false) ==> r.None?
    ensures policy.Flag? && r.Some? ==> MentionsAttribute(content) && FirstQuote(tag, 0).Some?
  {
    match policy
    case Unset => None
    case Text(s) => if s == "" then None else Some("\"" + s + "\"")
    case Flag(on) =>
      if on && MentionsAttribute(content) then
        match FirstQuote(tag, 0)
        case None => None
        case Some((q, start)) =>
          var v := TakeUntil(tag, start, q);
          if v == "" then None else Some(Rewrap(v))
      else None
  }

  /** `finalAspectRatio || '"none"'`. */
  function AspectValue(far: Option<string>): string {
    if far.Some? && far.value != "" then far.value else "\"none\""
  }

  /**
   * The value written: a non-empty string option in double quotes; `"none"`
   * for an absent, falsy or empty option; for a truthy non-string option
   * either `"none"` or what the lookup found in the tag.
   */
  lemma AspectValueCases(content: string, tag: string, policy: AspectPolicy)
    ensures policy.Text? && policy.s != "" ==> AspectValue(FinalAspect(content, tag, policy)) == "\"" + policy.s + "\""
    ensures policy == Unset || policy == Flag(false) || policy == Text("") ==>
              AspectValue(FinalAspect(content, tag, policy)) == "\"none\""
    ensures policy == Flag(true) && !MentionsAttribute(content) ==>
              AspectValue(FinalAspect(content, tag, policy)) == "\"none\""
    ensures policy == Flag(true) && FirstQuote(tag, 0).None? ==>
              AspectValue(FinalAspect(content, tag, policy)) == "\"none\""
  {
  }

  /** A value rewrapped by the replace is never empty, so `"none"` never displaces it. */
  lemma RewrapNonEmpty(v: string)
    requires v != ""
    ensures Rewrap(v) != ""
  {
  }

  /** The scan skips positions where the expression does not match. */
  lemma {:induction false} FirstQuoteSkips(t: string, j: nat, k: nat)
    requires j <= k <= |t|
    requires forall i :: j <= i < k ==> QuoteAt(t, i).None?
    ensures FirstQuote(t, j) == FirstQuote(t, k)
    decreases k - j
  {
    if j < k {
      FirstQuoteSkips(t, j + 1, k);
    }
  }

  /** `\W` after the needle, anywhere in the document, is a mention. */
  lemma MentionAt(a: string, c: char, b: string)
    requires !IsWordChar(c)
    ensures MentionsAttribute(a + Needle + [c] + b)
  {
    var s := a + Needle + [c] + b;
    assert s[|a|..|a| + |Needle|] == Needle;
    assert s[|a| + |Needle|] == c;
    assert OccursAt(s, Needle, |a|);
  }

  /** No match starts inside a prefix that does not contain the needle. */
  lemma NoQuoteInPrefix(tag: string, a: string, k: nat)
    requires |a| <= |tag| && tag[..|a|] == a && k + |Needle| <= |a|
    requires forall j :: 0 <= j < k ==> !OccursAt(a, Needle, j)
    ensures forall i :: 0 <= i < k ==> QuoteAt(tag, i).None?
  {
    forall i | 0 <= i < k
      ensures QuoteAt(tag, i).None?
    {
      assert forall m :: 0 <= m < |a| ==> tag[m] == a[m];
      assert !OccursAt(a, Needle, i);
    }
  }

  /** `([^q]*)` stops at the closing quote of a value without `q`. */
  lemma TakeUntilClosing(tag: string, start: nat, v: string, q: char)
    requires start + |v| < |tag| && tag[start..start + |v|] == v && tag[start + |v|] == q
    requires q !in v
    ensures TakeUntil(tag, start, q) == v
  {
    forall j | start <= j < start + |v|
      ensures tag[j] != q
    {
      assert tag[j] == v[j - start];
    }
    assert FirstCharFrom(tag, q, start) == start + |v|;
  }

  /**
   * In `pre + Needle + s1 + "=" + s2 + [q] + rest`, with no earlier needle,
   * the lookup finds the quote `q` after the `=`.
   */
  lemma FirstQuoteOfNeedle(pre: string, s1: string, s2: string, q: char, rest: string)
    requires forall j :: 0 <= j < |pre| ==> !OccursAt(pre + Needle, Needle, j)
    requires AllSpaces(s1) && AllSpaces(s2) && (q == '"' || q == '\'')
    ensures FirstQuote(pre + Needle + s1 + "=" + s2 + [q] + rest, 0)
            == Some((q, |pre| + |Needle| + |s1| + |s2| + 2))
  {
    var tag := pre + Needle + s1 + "=" + s2 + [q] + rest;
    var e := |pre| + |Needle| + |s1|;
    var r := |pre| + |Needle| + |s1| + |s2| + 2;
    assert FirstQuote(tag, 0) == Some((q, r)) by {
      Layout(pre, s1, s2, q, rest);
      FirstQuoteFrom(tag, pre + Needle, |pre|, e, e + 1 + |s2|, q, r);
    }
  }

  /**
   * `tag` starts with `a`, which ends with the needle at `p`; then come
   * whitespace up to an `=` at `e` and whitespace up to a quote at `qp`.
   */
  ghost predicate LaidOut(tag: string, a: string, p: nat, e: nat, qp: nat) {
    && |a| <= e < qp < |tag| && tag[..|a|] == a && p + |Needle| == |a| && OccursAt(tag, Needle, p)
    && (forall k :: |a| <= k < e ==> IsJsSpace(tag[k]))
    && tag[e] == '=' && (forall k :: e < k < qp ==> IsJsSpace(tag[k]))
    && (tag[qp] == '"' || tag[qp] == '\'')
  }

  /** Where the pieces of `a + s1 + "=" + s2 + [q] + rest` sit, for a prefix `pre + Needle`. */
  lemma Layout(pre: string, s1: string, s2: string, q: char, rest: string)
    requires AllSpaces(s1) && AllSpaces(s2) && (q == '"' || q == '\'')
    ensures var e := |pre| + |Needle| + |s1|;
            var tag := pre + Needle + s1 + "=" + s2 + [q] + rest;
            LaidOut(tag, pre + Needle, |pre|, e, e + 1 + |s2|) && tag[e + 1 + |s2|] == q
  {
    var a := pre + Needle;
    Pieces(a, s1, s2, q, rest);
    NeedleAtEnd(pre, a + s1 + "=" + s2 + [q] + rest);
  }

  /** The pieces after an abstract prefix `a`. */
  lemma Pieces(a: string, s1: string, s2: string, q: char, rest: string)
    requires AllSpaces(s1) && AllSpaces(s2)
    ensures var tag := a + s1 + "=" + s2 + [q] + rest;
            var e := |a| + |s1|;
            && e + 1 + |s2| < |tag| && tag[..|a|] == a
            && (forall k :: |a| <= k < e ==> IsJsSpace(tag[k]))
            && tag[e] == '=' && (forall k :: e < k < e + 1 + |s2| ==> IsJsSpace(tag[k]))
            && tag[e + 1 + |s2|] == q
  {
    var tag := a + s1 + "=" + s2 + [q] + rest;
    var e := |a| + |s1|;
    assert tag == a + s1 + ("=" + s2 + [q] + rest);
    MiddlePiece(a, s1, "=" + s2 + [q] + rest);
    assert tag == (a + s1 + "=") + s2 + ([q] + rest);
    MiddlePiece(a + s1 + "=", s2, [q] + rest);
    RunOfSpaces(tag, |a|, s1);
    RunOfSpaces(tag, e + 1, s2);
    assert tag[..|a|] == a;
  }

  /** A text that starts with `pre + Needle` has the needle at `|pre|`. */
  lemma NeedleAtEnd(pre: string, tag: string)
    requires |pre + Needle| <= |tag| && tag[..|pre + Needle|] == pre + Needle
    ensures OccursAt(tag, Needle, |pre|)
  {
    assert tag[|pre|..|pre| + |Needle|] == (pre + Needle)[|pre|..];
  }

  /**
   * With no needle before `p` and a match at `p` laid out by position, the
   * scan from the start finds the quote at `qp`.
   */
  lemma FirstQuoteFrom(tag: string, a: string, p: nat, e: nat, qp: nat, q: char, r: nat)
    requires LaidOut(tag, a, p, e, qp) && tag[qp] == q && r == qp + 1
    requires forall j :: 0 <= j < p ==> !OccursAt(a, Needle, j)
    ensures FirstQuote(tag, 0) == Some((q, r))
  {
    QuoteAtMatch(tag, p, e, qp);
    NoQuoteInPrefix(tag, a, p);
    FirstQuoteSkips(tag, 0, p);
    FirstQuoteHere(tag, p);
  }

  /** The scan stops at a position where the expression matches. */
  lemma FirstQuoteHere(t: string, p: nat)
    requires p < |t| && QuoteAt(t, p).Some?
    ensures FirstQuote(t, p) == QuoteAt(t, p)
  {
  }

  /**
   * With a truthy non-string option, when the tag's first
   * ` preserveAspectRatio` is followed by `\s*=\s*`, a quote `q`, a value
   * `v` without `q` and the closing `q`, the result is the rewrapped `v`, or
   * nothing for an empty `v`.
   */
  lemma ExistingValueKept(content: string, pre: string, s1: string, s2: string, q: char, v: string, post: string)
    requires MentionsAttribute(content)
    requires forall j :: 0 <= j < |pre| ==> !OccursAt(pre + Needle, Needle, j)
    requires AllSpaces(s1) && AllSpaces(s2) && (q == '"' || q == '\'') && q !in v
    ensures FinalAspect(content, pre + Needle + s1 + "=" + s2 + [q] + v + [q] + post, Flag(true))
            == if v == "" then None else Some(Rewrap(v))
  {
    var a := pre + Needle + s1 + "=" + s2 + [q];
    var tag := a + v + [q] + post;
    FirstQuoteOfNeedle(pre, s1, s2, q, v + [q] + post);
    assert |a| == |pre| + |Needle| + |s1| + |s2| + 2;
    assert tag == a + (v + [q] + post);
    assert FirstQuote(tag, 0) == Some((q, |a|));
    Closing(a, v, q, post);
    FinalAspectFound(content, tag, q, |a|);
  }

  /** After an abstract prefix `a`, `([^q]*)` captures the value `v` that `q` closes. */
  lemma Closing(a: string, v: string, q: char, post: string)
    requires q !in v
    ensures TakeUntil(a + v + [q] + post, |a|, q) == v
  {
    var tag := a + v + [q] + post;
    MiddlePiece(a, v, [q] + post);
    assert tag == a + v + ([q] + post);
    TakeUntilClosing(tag, |a|, v, q);
  }

  /** With a mention and a first match at `start`, the result is the rewrapped capture. */
  lemma FinalAspectFound(content: string, tag: string, q: char, start: nat)
    requires MentionsAttribute(content) && FirstQuote(tag, 0) == Some((q, start))
    ensures var v := TakeUntil(tag, start, q);
            FinalAspect(content, tag, Flag(true)) == if v == "" then None else Some(Rewrap(v))
  {
  }

  /**
   * `^\s*(\S.*\S)\s*$` matches a value made of whitespace, a text of at
   * least two characters that starts and ends with a non-space and holds no
   * line terminator, and whitespace; the replace gives that text in double
   * quotes.
   */
  lemma RewrapMatch(pre: string, core: string, suf: string)
    requires AllSpaces(pre) && AllSpaces(suf)
    requires |core| >= 2 && !IsJsSpace(core[0]) && !IsJsSpace(core[|core| - 1])
    requires forall i :: 0 <= i < |core| ==> !IsLineTerminator(core[i])
    ensures Rewrap(pre + core + suf) == "\"" + core + "\""
  {
    TrimOf(pre, core, suf);
  }

  /** A single non-space character, with any whitespace around it, is left as it is: unquoted. */
  lemma RewrapOneChar(pre: string, c: char, suf: string)
    requires AllSpaces(pre) && AllSpaces(suf) && !IsJsSpace(c)
    ensures Rewrap(pre + [c] + suf) == pre + [c] + suf
  {
    TrimOf(pre, [c], suf);
  }

  /** A line terminator inside the trimmed text defeats `.`, and the value is left as it is. */
  lemma RewrapLineBreak(v: string, i: nat)
    requires 1 <= i < |Trim(v)| - 1 && IsLineTerminator(Trim(v)[i])
    ensures Rewrap(v) == v
  {
  }
}
