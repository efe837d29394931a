/**
 * The attribute table of the root tag: the plain JavaScript object `props`
 * in `scale`, whose own string keys enumerate in insertion order. It is
 * modelled as a sequence of key/value pairs with distinct keys.
 */
module Attributes {
  import opened Wrappers

  /** One `key=value` pair of the root tag; the value keeps its quote characters. */
  datatype Attr = Attr(key: string, value: string)

  /** The attribute names in enumeration order. */
  function Keys(m: seq<Attr>): seq<string> {
    seq(|m|, i requires 0 <= i < |m| => m[i].key)
  }

  /** No key is stored twice, as in a JavaScript object. */
  ghost predicate DistinctKeys(m: seq<Attr>) {
    forall i, j :: 0 <= i < j < |m| ==> m[i].key != m[j].key
  }

  /** `props[key]`: the stored value, or `None` for `undefined`. */
  function Lookup(m: seq<Attr>, key: string): (v: Option<string>)
    ensures v.None? <==> key !in Keys(m)
    ensures v.Some? ==> Attr(key, v.value) in m
  {
    if m == [] then None
    else
      assert Keys(m) == [m[0].key] + Keys(m[1..]);
      if m[0].key == key then Some(m[0].value) else Lookup(m[1..], key)
  }

  /**
   * `props[key] = value`: an existing key keeps its position and takes the
   * new value; a new key is appended.
   */
  function Put(m: seq<Attr>, key: string, value: string): (r: seq<Attr>)
    ensures Attr(key, value) in r
  {
    if m == [] then [Attr(key, value)]
    else if m[0].key == key then [Attr(key, value)] + m[1..]
    else [m[0]] + Put(m[1..], key, value)
  }

  /** The key just written reads back its value; every other key reads as before. */
  lemma {:induction false} LookupPut(m: seq<Attr>, key: string, value: string, other: string)
    ensures Lookup(Put(m, key, value), other) == if other == key then Some(value) else Lookup(m, other)
  {
    if m != [] && m[0].key != key {
      LookupPut(m[1..], key, value, other);
      assert ([m[0]] + Put(m[1..], key, value))[1..] == Put(m[1..], key, value);
    } else if m != [] {
      assert ([Attr(key, value)] + m[1..])[1..] == m[1..];
    }
  }

  /** Writing a key leaves the enumeration order alone, or appends the new key. */
  lemma {:induction false} KeysPut(m: seq<Attr>, key: string, value: string)
    ensures Keys(Put(m, key, value)) == if key in Keys(m) then Keys(m) else Keys(m) + [key]
  {
    if m != [] {
      assert Keys(m) == [m[0].key] + Keys(m[1..]);
      if m[0].key == key {
        assert Keys([Attr(key, value)] + m[1..]) == [key] + Keys(m[1..]);
      } else {
        KeysPut(m[1..], key, value);
        assert Keys([m[0]] + Put(m[1..], key, value)) == [m[0].key] + Keys(Put(m[1..], key, value));
      }
    }
  }

  /** The table never holds a key twice. */
  lemma PutDistinct(m: seq<Attr>, key: string, value: string)
    requires DistinctKeys(m)
    ensures DistinctKeys(Put(m, key, value))
  {
    var r := Put(m, key, value);
    KeysPut(m, key, value);
    assert forall i :: 0 <= i < |r| ==> r[i].key == Keys(r)[i];
    assert forall i :: 0 <= i < |m| ==> m[i].key == Keys(m)[i];
  }

  /** A key that is not yet stored is appended. */
  lemma {:induction false} PutNew(m: seq<Attr>, key: string, value: string)
    requires key !in Keys(m)
    ensures Put(m, key, value) == m + [Attr(key, value)]
  {
    if m != [] {
      assert Keys(m) == [m[0].key] + Keys(m[1..]);
      PutNew(m[1..], key, value);
      assert [m[0]] + (m[1..] + [Attr(key, value)]) == m + [Attr(key, value)];
    }
  }

  /** Writing the same key twice keeps the second value only. */
  lemma {:induction false} PutPut(m: seq<Attr>, key: string, a: string, b: string)
    ensures Put(Put(m, key, a), key, b) == Put(m, key, b)
  {
    if m != [] && m[0].key != key {
      PutPut(m[1..], key, a, b);
      assert ([m[0]] + Put(m[1..], key, a))[1..] == Put(m[1..], key, a);
    } else if m != [] {
      assert ([Attr(key, a)] + m[1..])[1..] == m[1..];
    }
  }

  /** Writing back the value a key already reads leaves the table as it was. */
  lemma {:induction false} PutExisting(m: seq<Attr>, key: string, value: string)
    requires Lookup(m, key) == Some(value)
    ensures Put(m, key, value) == m
  {
    if m[0].key != key {
      PutExisting(m[1..], key, value);
    }
  }

  /** `Put` updates the first entry with the key in place, or appends when there is none. */
  lemma {:induction false} PutAt(m: seq<Attr>, key: string, value: string, i: nat)
    requires i <= |m|
    requires forall j :: 0 <= j < i ==> m[j].key != key
    requires i < |m| ==> m[i].key == key
    ensures Put(m, key, value) == if i < |m| then m[i := Attr(key, value)] else m + [Attr(key, value)]
  {
    if m != [] && i > 0 {
      PutAt(m[1..], key, value, i - 1);
      if i < |m| {
        assert [m[0]] + m[1..][i - 1 := Attr(key, value)] == m[i := Attr(key, value)];
      } else {
        assert [m[0]] + (m[1..] + [Attr(key, value)]) == m + [Attr(key, value)];
      }
    } else if m != [] {
      assert [Attr(key, value)] + m[1..] == m[0 := Attr(key, value)];
    }
  }

  /** The mutable `props` object of `scale`. */
  class AttrMap {
    var entries: seq<Attr>

    ghost predicate Valid()
      reads this
    {
      DistinctKeys(entries)
    }

    /** `var props = {}`. */
    constructor ()
      ensures Valid() && entries == []
    {
      entries := [];
    }

    /** Reads `props[key]`. */
    method Get(key: string) returns (v: Option<string>)
      ensures v == Lookup(entries, key)
    {
      var i := 0;
      while i < |entries| && entries[i].key != key
        invariant 0 <= i <= |entries|
        invariant Lookup(entries, key) == Lookup(entries[i..], key)
      {
        assert entries[i..][1..] == entries[i + 1..];
        i := i + 1;
      }
      v := if i < |entries| then Some(entries[i].value) else None;
    }

    /** Performs `props[key] = value`. */
    method Set(key: string, value: string)
      requires Valid()
      modifies this
      ensures Valid()
      ensures entries == Put(old(entries), key, value)
    {
      PutDistinct(entries, key, value);
      var i := 0;
      while i < |entries| && entries[i].key != key
        invariant 0 <= i <= |entries|
        invariant forall j :: 0 <= j < i ==> entries[j].key != key
      {
        i := i + 1;
      }
      PutAt(entries, key, value, i);
      if i < |entries| {
        entries := entries[i := Attr(key, value)];
      } else {
        entries := entries + [Attr(key, value)];
      }
    }
  }
}
