/**
 * The tokenizer of index.js:111-126 and the serialiser of index.js:163-167
 * are inverse on attribute tables whose names and values the split on
 * spaces and on `=` cannot misread: parsing the tag that `scale` emits gives
 * back the table it serialised.
 */
module TagRoundTrip {
  import opened Wrappers
  import opened JsString
  import opened Attributes
  import opened Rewriter

  /**
   * What the tokenizer reads back unchanged: a name without spaces or `=`,
   * and a value without `=` in which no space follows a space or ends it.
   */
  ghost predicate ReadableAttr(a: Attr) {
    ' ' !in a.key && '=' !in a.key && '=' !in a.value
    && forall i :: 1 <= i < |Split(a.value, ' ')| ==> Split(a.value, ' ')[i] != ""
  }

  ghost predicate ReadableTable(m: seq<Attr>) {
    DistinctKeys(m) && forall a :: a in m ==> ReadableAttr(a)
  }

  /** The tokenizer loop over two runs of pieces is the loop over the second, continued. */
  lemma {:induction false} TokensAppend(st: TokState, a: seq<string>, b: seq<string>)
    ensures Tokens(st, a + b) == Tokens(Tokens(st, a), b)
    decreases |b|
  {
    if b == [] {
      assert a + b == a;
    } else {
      assert (a + b)[..|a + b| - 1] == a + b[..|b| - 1];
      TokensAppend(st, a, b[..|b| - 1]);
    }
  }

  lemma TokensOne(st: TokState, t: string)
    ensures Tokens(st, [t]) == Step(st, t)
  {
    assert [t][..0] == [];
  }

  /** Pieces without `=` extend the value of the key last set, one space apart. */
  lemma {:induction false} ContinuationTokens(props: seq<Attr>, key: string, acc: string, pieces: seq<string>)
    requires forall p :: p in pieces ==> p != "" && '=' !in p
    ensures Tokens(TokState(Put(props, key, acc), Some(key)), pieces)
            == TokState(Put(props, key, Join([acc] + pieces, ' ')), Some(key))
    decreases |pieces|
  {
    if pieces == [] {
      assert [acc] + pieces == [acc];
    } else {
      var init := pieces[..|pieces| - 1];
      var last := pieces[|pieces| - 1];
      var sofar := Join([acc] + init, ' ');
      var st := TokState(Put(props, key, acc), Some(key));
      var mid := TokState(Put(props, key, sofar), Some(key));
      assert Tokens(st, pieces) == Step(mid, last) by {
        assert forall p :: p in init ==> p in pieces;
        ContinuationTokens(props, key, acc, init);
        assert Tokens(st, pieces) == Step(Tokens(st, init), last);
      }
      assert Step(mid, last) == TokState(Put(props, key, sofar + " " + last), Some(key)) by {
        assert last in pieces;
        LookupPut(props, key, sofar, key);
        assert Step(mid, last) == TokState(Put(Put(props, key, sofar), key, sofar + " " + last), Some(key));
        PutPut(props, key, sofar, sofar + " " + last);
      }
      assert Join([acc] + pieces, ' ') == sofar + " " + last by {
        assert [acc] + pieces == ([acc] + init) + [last];
        JoinSnoc([acc] + init, last, ' ');
      }
    }
  }

  /** The pieces of one serialised pair set exactly that pair. */
  lemma PairTokens(st: TokState, a: Attr)
    requires ReadableAttr(a)
    ensures Tokens(st, Split(a.key + "=" + a.value, ' ')) == TokState(Put(st.props, a.key, a.value), Some(a.key))
  {
    var k, v := a.key, a.value;
    var pieces := Split(v, ' ');
    assert ' ' !in k + "=";
    SplitNoSepPrefix(k + "=", v, ' ');
    assert k + "=" + v == (k + "=") + v;
    var first := k + "=" + pieces[0];
    var rest := pieces[1..];
    assert Split(k + "=" + v, ' ') == [first] + rest;
    assert pieces[0] in pieces;
    assert '=' !in pieces[0];
    assert first == k + ['='] + pieces[0];
    SplitAtSep(k, pieces[0], '=');
    SplitNoSep(k, '=');
    SplitNoSep(pieces[0], '=');
    assert Split(first, '=') == [k, pieces[0]];
    assert '=' in first;
    TokensAppend(st, [first], rest);
    TokensOne(st, first);
    forall p | p in rest
      ensures p != "" && '=' !in p
    {
      var i :| 0 <= i < |rest| && rest[i] == p;
      assert pieces[i + 1] == p;
      assert p in pieces;
    }
    ContinuationTokens(st.props, k, pieces[0], rest);
    assert [pieces[0]] + rest == pieces;
    JoinSplit(v, ' ');
  }

  /** The pieces of a serialised table with one more pair are its pieces, then the pair's. */
  lemma RenderedPiecesSnoc(init: seq<Attr>, a: Attr)
    requires |init| >= 1
    ensures Split(Join(Rendered(init + [a]), ' '), ' ')
            == Split(Join(Rendered(init), ' '), ' ') + Split(a.key + "=" + a.value, ' ')
  {
    assert Rendered(init + [a]) == Rendered(init) + [a.key + "=" + a.value];
    JoinSnoc(Rendered(init), a.key + "=" + a.value, ' ');
    SplitAtSep(Join(Rendered(init), ' '), a.key + "=" + a.value, ' ');
  }

  /** Keys of a prefix of a table with distinct keys miss the later keys. */
  lemma LastKeyNew(m: seq<Attr>)
    requires |m| >= 1 && DistinctKeys(m)
    ensures m[|m| - 1].key !in Keys(m[..|m| - 1])
  {
    var init := m[..|m| - 1];
    forall i | 0 <= i < |init| ensures init[i].key != m[|m| - 1].key {
      assert init[i] == m[i];
    }
  }

  /** The pieces of all serialised pairs rebuild the table and leave the last name in `lastKey`. */
  lemma {:induction false} RenderedTokens(m: seq<Attr>)
    requires |m| >= 1 && ReadableTable(m)
    ensures Tokens(TokState([], None), Split(Join(Rendered(m), ' '), ' ')) == TokState(m, Some(m[|m| - 1].key))
    decreases |m|
  {
    var init := m[..|m| - 1];
    var a := m[|m| - 1];
    assert a in m;
    if |m| == 1 {
      assert Join(Rendered(m), ' ') == a.key + "=" + a.value;
      PairTokens(TokState([], None), a);
      assert [Attr(a.key, a.value)] == m;
    } else {
      ReadablePrefix(m);
      RenderedTokens(init);
      var pair := a.key + "=" + a.value;
      var pre := Split(Join(Rendered(init), ' '), ' ');
      var empty := TokState([], None);
      RenderedPiecesSnoc(init, a);
      assert init + [a] == m;
      assert Split(Join(Rendered(m), ' '), ' ') == pre + Split(pair, ' ');
      TokensAppend(empty, pre, Split(pair, ' '));
      assert Tokens(empty, pre) == TokState(init, Some(init[|init| - 1].key));
      PairTokens(TokState(init, Some(init[|init| - 1].key)), a);
      LastKeyNew(m);
      PutNew(init, a.key, a.value);
    }
  }

  /** Dropping the last pair of a readable table leaves a readable table. */
  lemma ReadablePrefix(m: seq<Attr>)
    requires |m| >= 1 && ReadableTable(m)
    ensures ReadableTable(m[..|m| - 1])
  {
    var init := m[..|m| - 1];
    forall x | x in init ensures ReadableAttr(x) {
      assert x in m;
    }
    forall i, j | 0 <= i < j < |init| ensures init[i].key != init[j].key {
      assert init[i] == m[i] && init[j] == m[j];
    }
  }

  /** A serialised tag: `<svg`, the pairs one space apart, and ` >`. */
  lemma SerializeTagForm(m: seq<Attr>)
    ensures SerializeTag(m) == if m == [] then "<svg >" else "<svg " + Join(Rendered(m), ' ') + " >"
  {
    if m == [] {
      assert Rendered(m) == [];
      assert ["<svg"] + Rendered(m) + [">"] == ["<svg"] + [">"];
      JoinCons("<svg", [">"], ' ');
    } else {
      assert ["<svg"] + Rendered(m) + [">"] == ["<svg"] + (Rendered(m) + [">"]);
      JoinCons("<svg", Rendered(m) + [">"], ' ');
      JoinSnoc(Rendered(m), ">", ' ');
    }
  }

  /** Parsing the tag that `scale` emits gives back the table it serialised. */
  lemma ParseSerialize(m: seq<Attr>)
    requires ReadableTable(m)
    ensures ParseProps(SerializeTag(m)) == m
  {
    var tag := SerializeTag(m);
    var empty := TokState([], None);
    SerializeTagForm(m);
    if m == [] {
      assert Interior(tag) == " ";
      assert Split(" ", ' ') == ["", ""];
      assert ["", ""][..1] == [""];
      TokensOne(empty, "");
    } else {
      var j := Join(Rendered(m), ' ');
      assert Interior(tag) == [' '] + j + " ";
      SplitAtSep("", j + " ", ' ');
      assert [' '] + j + " " == "" + [' '] + (j + " ");
      SplitAtSep(j, "", ' ');
      assert j + " " == j + [' '] + "";
      var pieces := Split(j, ' ');
      assert Split(Interior(tag), ' ') == [""] + pieces + [""];
      TokensAppend(empty, [""] + pieces, [""]);
      TokensAppend(empty, [""], pieces);
      TokensOne(empty, "");
      RenderedTokens(m);
      TokensOne(Tokens(empty, pieces), "");
    }
  }

  /** Every table the tokenizer builds holds each name once. */
  lemma {:induction false} TokensDistinct(toks: seq<string>)
    ensures DistinctKeys(Tokens(TokState([], None), toks).props)
    decreases |toks|
  {
    if toks != [] {
      var st := Tokens(TokState([], None), toks[..|toks| - 1]);
      TokensDistinct(toks[..|toks| - 1]);
      var t := toks[|toks| - 1];
      if t != "" {
        if '=' !in t {
          var key := KeyOf(st.lastKey);
          PutDistinct(st.props, key, TextOf(Lookup(st.props, key)) + " " + t);
        } else {
          SplitHasTwo(t, '=');
          PutDistinct(st.props, Split(t, '=')[0], Split(t, '=')[1]);
        }
      }
    }
  }
}
