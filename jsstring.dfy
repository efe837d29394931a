/**
 * The JavaScript string built-ins that the root-tag rewriter relies on,
 * written out over `seq<char>`: the character classes of its regular
 * expressions, `indexOf`, `substring`, `split`, `join`, `trim`, the
 * single-character `replace` calls, `parseInt(_, 10)` and the decimal text
 * that string concatenation produces for an integer.
 */
module JsString {
  import opened Wrappers

  // ---------------------------------------------------------------------
  // Character classes

  /** The ECMAScript LineTerminator characters (the ones `.` does not match). */
  predicate IsLineTerminator(c: char) {
    c == '\n' || c == '\r' || c == '\U{2028}' || c == '\U{2029}'
  }

  /**
   * ECMAScript WhiteSpace or LineTerminator: what `\s` matches, what
   * `String.prototype.trim` removes and what `parseInt` skips.
   */
  predicate IsJsSpace(c: char) {
    IsLineTerminator(c) || c == '\t' || c == '\U{000B}' || c == '\U{000C}' || c == ' '
    || c == '\U{00A0}' || c == '\U{1680}' || ('\U{2000}' <= c <= '\U{200A}')
    || c == '\U{202F}' || c == '\U{205F}' || c == '\U{3000}' || c == '\U{FEFF}'
  }

  /** What `\w` matches; `\W` is its complement. */
  predicate IsWordChar(c: char) {
    ('a' <= c <= 'z') || ('A' <= c <= 'Z') || ('0' <= c <= '9') || c == '_'
  }

  predicate IsDigit(c: char) {
    '0' <= c <= '9'
  }

  // ---------------------------------------------------------------------
  // Searching

  /** `pat` occurs in `s` starting at position `j`. */
  predicate OccursAt(s: string, pat: string, j: nat) {
    j + |pat| <= |s| && s[j..j + |pat|] == pat
  }

  /** `s.indexOf(pat, from)`: the first position at or after `from` where `pat` starts, or -1. */
  function IndexOfFrom(s: string, pat: string, from: nat): (r: int)
    ensures r == -1 || (from <= r && OccursAt(s, pat, r))
    ensures r == -1 ==> forall j: nat :: from <= j ==> !OccursAt(s, pat, j)
    ensures r >= 0 ==> forall j: nat :: from <= j < r ==> !OccursAt(s, pat, j)
    decreases |s| - from
  {
    if from + |pat| > |s| then -1
    else if s[from..from + |pat|] == pat then from
    else IndexOfFrom(s, pat, from + 1)
  }

  /** `s.indexOf(pat)`. */
  function IndexOf(s: string, pat: string): int {
    IndexOfFrom(s, pat, 0)
  }

  /** `s.indexOf(pat) >= 0`. */
  predicate Contains(s: string, pat: string) {
    IndexOf(s, pat) >= 0
  }

  /** `Contains` holds exactly when `pat` occurs somewhere in `s`. */
  lemma ContainsIff(s: string, pat: string)
    ensures Contains(s, pat) <==> exists j: nat :: OccursAt(s, pat, j)
  {
    if Contains(s, pat) {
      assert OccursAt(s, pat, IndexOf(s, pat) as nat);
    }
  }

  /** The first position at or after `from` holding `c`, or -1. */
  function FirstCharFrom(s: string, c: char, from: nat): (r: int)
    ensures r == -1 || (from <= r < |s| && s[r] == c)
    ensures r == -1 ==> forall j :: from <= j < |s| ==> s[j] != c
    ensures r >= 0 ==> forall j :: from <= j < r ==> s[j] != c
    decreases |s| - from
  {
    if from >= |s| then -1
    else if s[from] == c then from
    else FirstCharFrom(s, c, from + 1)
  }

  /** The first `c` at or after `from` is at `k` when `k` holds `c` and nothing before it does. */
  lemma FirstCharFromIs(s: string, c: char, from: nat, k: nat)
    requires from <= k < |s| && s[k] == c
    requires forall j :: from <= j < k ==> s[j] != c
    ensures FirstCharFrom(s, c, from) == k
  {
  }

  // ---------------------------------------------------------------------
  // substring

  function Clamp(x: int, n: nat): (r: nat)
    ensures r <= n
    ensures 0 <= x <= n ==> r == x
  {
    if x < 0 then 0 else if x > n then n else x
  }

  /**
   * `s.substring(a, b)`: both ends are clamped into `[0, |s|]` and swapped
   * when the first exceeds the second.
   */
  function Substring(s: string, a: int, b: int): (r: string)
    ensures 0 <= a <= b <= |s| ==> r == s[a..b]
    ensures a <= b ==> r == s[Clamp(a, |s|)..Clamp(b, |s|)]
    ensures b < a ==> r == s[Clamp(b, |s|)..Clamp(a, |s|)]
    ensures a <= 0 && |s| <= b ==> r == s
  {
    var a', b' := Clamp(a, |s|), Clamp(b, |s|);
    if a' <= b' then s[a'..b'] else s[b'..a']
  }

  /** `substring` does not care in which order its two ends are given. */
  lemma SubstringSwap(s: string, a: int, b: int)
    ensures Substring(s, a, b) == Substring(s, b, a)
  {
  }

  // ---------------------------------------------------------------------
  // split and join on a one-character separator

  /**
   * `s.split(sep)`: the maximal pieces of `s` between occurrences of `sep`;
   * the empty string gives one empty piece.
   */
  function Split(s: string, sep: char): (parts: seq<string>)
    ensures |parts| >= 1
    ensures forall p :: p in parts ==> sep !in p
    ensures forall p, x :: p in parts && x in p ==> x in s
  {
    if s == [] then [""]
    else
      var rest := Split(s[1..], sep);
      if s[0] == sep then [""] + rest else [[s[0]] + rest[0]] + rest[1..]
  }

  /** `parts.join(sep)`. */
  function Join(parts: seq<string>, sep: char): string {
    if parts == [] then ""
    else if |parts| == 1 then parts[0]
    else parts[0] + [sep] + Join(parts[1..], sep)
  }

  lemma JoinCons(p: string, ps: seq<string>, sep: char)
    ensures Join([p] + ps, sep) == if ps == [] then p else p + [sep] + Join(ps, sep)
  {
    assert ([p] + ps)[1..] == ps;
  }

  lemma {:induction false} JoinSnoc(ps: seq<string>, p: string, sep: char)
    requires |ps| >= 1
    ensures Join(ps + [p], sep) == Join(ps, sep) + [sep] + p
  {
    if |ps| == 1 {
      JoinCons(ps[0], [p], sep);
      assert ps + [p] == [ps[0]] + [p];
    } else {
      assert ps + [p] == [ps[0]] + (ps[1..] + [p]);
      JoinCons(ps[0], ps[1..] + [p], sep);
      JoinSnoc(ps[1..], p, sep);
      JoinCons(ps[0], ps[1..], sep);
      assert [ps[0]] + ps[1..] == ps;
    }
  }

  /** Joining the pieces of a split gives the string back. */
  lemma {:induction false} JoinSplit(s: string, sep: char)
    ensures Join(Split(s, sep), sep) == s
  {
    if s != [] {
      var rest := Split(s[1..], sep);
      JoinSplit(s[1..], sep);
      if s[0] == sep {
        JoinCons("", rest, sep);
      } else {
        JoinCons([s[0]] + rest[0], rest[1..], sep);
        JoinCons(rest[0], rest[1..], sep);
        assert [rest[0]] + rest[1..] == rest;
      }
    }
  }

  /** Splitting at a separator splits the two sides independently. */
  lemma {:induction false} SplitAtSep(a: string, b: string, sep: char)
    ensures Split(a + [sep] + b, sep) == Split(a, sep) + Split(b, sep)
  {
    if a == [] {
      assert (a + [sep] + b)[1..] == b;
    } else {
      assert (a + [sep] + b)[1..] == a[1..] + [sep] + b;
      SplitAtSep(a[1..], b, sep);
    }
  }

  /** A prefix without the separator is glued onto the first piece. */
  lemma {:induction false} SplitNoSepPrefix(a: string, b: string, sep: char)
    requires sep !in a
    ensures Split(a + b, sep) == [a + Split(b, sep)[0]] + Split(b, sep)[1..]
  {
    if a != [] {
      assert (a + b)[1..] == a[1..] + b;
      assert a[0] != sep;
      SplitNoSepPrefix(a[1..], b, sep);
      assert [a[0]] + (a[1..] + Split(b, sep)[0]) == a + Split(b, sep)[0];
    } else {
      assert a + b == b;
      assert a + Split(b, sep)[0] == Split(b, sep)[0];
      assert [Split(b, sep)[0]] + Split(b, sep)[1..] == Split(b, sep);
    }
  }

  /** A string without the separator is a single piece. */
  lemma SplitNoSep(a: string, sep: char)
    requires sep !in a
    ensures Split(a, sep) == [a]
  {
    SplitNoSepPrefix(a, "", sep);
    assert a + "" == a;
  }

  /** Splitting a join of separator-free pieces gives the pieces back. */
  lemma {:induction false} SplitJoin(parts: seq<string>, sep: char)
    requires |parts| >= 1
    requires forall p :: p in parts ==> sep !in p
    ensures Split(Join(parts, sep), sep) == parts
  {
    if |parts| == 1 {
      SplitNoSep(parts[0], sep);
    } else {
      assert parts[1..][0] in parts;
      SplitJoin(parts[1..], sep);
      SplitAtSep(parts[0], Join(parts[1..], sep), sep);
      SplitNoSep(parts[0], sep);
      assert [parts[0]] + parts[1..] == parts;
    }
  }

  /** A string holding the separator splits into at least two pieces. */
  lemma {:induction false} SplitHasTwo(s: string, sep: char)
    requires sep in s
    ensures |Split(s, sep)| >= 2
  {
    if s[0] != sep {
      SplitHasTwo(s[1..], sep);
    }
  }

  /** The first piece of a split is the text before the first separator. */
  lemma {:induction false} SplitHead(s: string, sep: char)
    ensures Split(s, sep)[0] == if sep in s then s[..FirstCharFrom(s, sep, 0)] else s
  {
    var k := FirstCharFrom(s, sep, 0);
    if sep in s {
      assert k >= 0;
      assert sep !in s[..k];
      assert s == s[..k] + [sep] + s[k + 1..];
      SplitAtSep(s[..k], s[k + 1..], sep);
      SplitNoSep(s[..k], sep);
    } else {
      SplitNoSep(s, sep);
    }
  }

  /** Every character of a join is the separator or a character of some piece. */
  lemma {:induction false} JoinChars(parts: seq<string>, sep: char)
    ensures forall x :: x in Join(parts, sep) ==> x == sep || exists p :: p in parts && x in p
  {
    if |parts| > 1 {
      JoinChars(parts[1..], sep);
      forall x | x in Join(parts, sep)
        ensures x == sep || exists p :: p in parts && x in p
      {
        if x in Join(parts[1..], sep) && x != sep {
          var p :| p in parts[1..] && x in p;
          assert p in parts;
        } else if x != sep {
          assert x in parts[0];
        }
      }
    } else if |parts| == 1 {
      assert parts[0] in parts;
    }
  }

  /** A join is at least as long as each of its pieces. */
  lemma {:induction false} JoinCovers(parts: seq<string>, sep: char, i: nat)
    requires i < |parts|
    ensures |Join(parts, sep)| >= |parts[i]|
  {
    if i > 0 {
      JoinCovers(parts[1..], sep, i - 1);
    }
  }

  // ---------------------------------------------------------------------
  // trim and single-character replace

  function TrimStart(s: string): (r: string)
    ensures r == [] || !IsJsSpace(r[0])
  {
    if s != [] && IsJsSpace(s[0]) then TrimStart(s[1..]) else s
  }

  function TrimEnd(s: string): (r: string)
    ensures r == [] || !IsJsSpace(r[|r| - 1])
  {
    if s != [] && IsJsSpace(s[|s| - 1]) then TrimEnd(s[..|s| - 1]) else s
  }

  /** `s.trim()`. */
  function Trim(s: string): string {
    TrimEnd(TrimStart(s))
  }

  /** Every character of `s` is whitespace. */
  predicate AllSpaces(s: string) {
    forall i :: 0 <= i < |s| ==> IsJsSpace(s[i])
  }

  /** Leading whitespace is what `TrimStart` removes. */
  lemma {:induction false} TrimStartSpaces(sp: string, s: string)
    requires AllSpaces(sp)
    ensures TrimStart(sp + s) == TrimStart(s)
  {
    if sp != [] {
      assert (sp + s)[0] == sp[0];
      assert (sp + s)[1..] == sp[1..] + s;
      TrimStartSpaces(sp[1..], s);
    } else {
      assert sp + s == s;
    }
  }

  /** Trailing whitespace is what `TrimEnd` removes. */
  lemma {:induction false} TrimEndSpaces(s: string, sp: string)
    requires AllSpaces(sp)
    ensures TrimEnd(s + sp) == TrimEnd(s)
  {
    if sp != [] {
      var n := |s + sp|;
      assert (s + sp)[n - 1] == sp[|sp| - 1];
      assert (s + sp)[..n - 1] == s + sp[..|sp| - 1];
      TrimEndSpaces(s, sp[..|sp| - 1]);
    } else {
      assert s + sp == s;
    }
  }

  /** `trim` of a text between whitespace runs, starting and ending with a non-space, is that text. */
  lemma TrimOf(pre: string, core: string, suf: string)
    requires AllSpaces(pre) && AllSpaces(suf)
    requires core != [] && !IsJsSpace(core[0]) && !IsJsSpace(core[|core| - 1])
    ensures Trim(pre + core + suf) == core
  {
    assert pre + core + suf == pre + (core + suf);
    TrimStartSpaces(pre, core + suf);
    assert (core + suf)[0] == core[0];
    assert TrimStart(core + suf) == core + suf;
    TrimEndSpaces(core, suf);
  }

  /**
   * `s.replace(c, '')` with a one-character string pattern: only the first
   * `c` goes, and putting it back where it was gives `s` again.
   */
  function RemoveFirst(s: string, c: char): (r: string)
    ensures c !in s ==> r == s
    ensures c in s ==> var k := FirstCharFrom(s, c, 0);
                       |r| + 1 == |s| && c !in r[..k] && r[..k] + [c] + r[k..] == s
  {
    var k := FirstCharFrom(s, c, 0);
    if k < 0 then s
    else
      DeleteAt(s, k);
      s[..k] + s[k + 1..]
  }

  /** Deleting position `k` and putting its character back gives `s` again. */
  lemma DeleteAt(s: string, k: nat)
    requires k < |s|
    ensures var r := s[..k] + s[k + 1..];
            |r| + 1 == |s| && r[..k] == s[..k] && r[..k] + [s[k]] + r[k..] == s
  {
    var r := s[..k] + s[k + 1..];
    assert r[..k] == s[..k] && r[k..] == s[k + 1..];
    assert s[..k] + [s[k]] + s[k + 1..] == s;
  }

  /** `s.replace(/a/g, b)`. */
  function ReplaceAll(s: string, a: char, b: char): (r: string)
    ensures |r| == |s|
    ensures forall i :: 0 <= i < |s| ==> r[i] == if s[i] == a then b else s[i]
  {
    if s == [] then [] else [if s[0] == a then b else s[0]] + ReplaceAll(s[1..], a, b)
  }

  /** `s.replace(/c/g, '')`. */
  function RemoveAll(s: string, c: char): (r: string)
    ensures c !in r
    ensures forall x :: x in r <==> x in s && x != c
  {
    if s == [] then [] else (if s[0] == c then [] else [s[0]]) + RemoveAll(s[1..], c)
  }

  /** Replacing a character that does not occur changes nothing. */
  lemma ReplaceAllAbsent(s: string, a: char, b: char)
    requires a !in s
    ensures ReplaceAll(s, a, b) == s
  {
  }

  /** Removing a character that does not occur changes nothing. */
  lemma {:induction false} RemoveAllAbsent(s: string, c: char)
    requires c !in s
    ensures RemoveAll(s, c) == s
  {
    if s != [] {
      RemoveAllAbsent(s[1..], c);
    }
  }

  /** The global replace works character by character, so it distributes over concatenation. */
  lemma {:induction false} ReplaceAllAppend(s: string, t: string, a: char, b: char)
    ensures ReplaceAll(s + t, a, b) == ReplaceAll(s, a, b) + ReplaceAll(t, a, b)
  {
    if s != [] {
      assert (s + t)[1..] == s[1..] + t;
      ReplaceAllAppend(s[1..], t, a, b);
    } else {
      assert s + t == t;
    }
  }

  /** The global removal distributes over concatenation, keeping the order of what stays. */
  lemma {:induction false} RemoveAllAppend(s: string, t: string, c: char)
    ensures RemoveAll(s + t, c) == RemoveAll(s, c) + RemoveAll(t, c)
  {
    if s != [] {
      assert (s + t)[1..] == s[1..] + t;
      RemoveAllAppend(s[1..], t, c);
    } else {
      assert s + t == t;
    }
  }

  // ---------------------------------------------------------------------
  // Decimal integers

  function DigitChar(d: nat): (c: char)
    requires d < 10
    ensures IsDigit(c)
  {
    ('0' as int + d) as char
  }

  function DigitValue(c: char): (d: nat)
    requires IsDigit(c)
    ensures d < 10
  {
    c as int - '0' as int
  }

  /** The decimal digits of `n`, most significant first, without leading zeros. */
  function NatToString(n: nat): (s: string)
    ensures |s| >= 1
    ensures forall c :: c in s ==> IsDigit(c)
  {
    if n < 10 then [DigitChar(n)] else NatToString(n / 10) + [DigitChar(n % 10)]
  }

  /** `String(n)` for an integer-valued number. */
  function IntToString(n: int): (s: string)
    ensures |s| >= 1
  {
    if n < 0 then "-" + NatToString(-n) else NatToString(n)
  }

  /** The value of a run of decimal digits. */
  function DigitsValue(ds: string): nat
    requires forall c :: c in ds ==> IsDigit(c)
  {
    if ds == [] then 0 else DigitsValue(ds[..|ds| - 1]) * 10 + DigitValue(ds[|ds| - 1])
  }

  /** The longest prefix of `s` made of decimal digits. */
  function LeadingDigits(s: string): (ds: string)
    ensures forall c :: c in ds ==> IsDigit(c)
    ensures |ds| <= |s| && ds == s[..|ds|]
    ensures |ds| == |s| || !IsDigit(s[|ds|])
  {
    if s != [] && IsDigit(s[0]) then [s[0]] + LeadingDigits(s[1..]) else []
  }

  /**
   * `parseInt(s, 10)`: leading whitespace is skipped, one `+` or `-` is
   * accepted, then the leading decimal digits are read; with no digit the
   * result is `NaN`, written `None`.
   */
  function ParseInt(s: string): (r: Option<int>)
    ensures var t := TrimStart(s);
            var u := if |t| > 0 && (t[0] == '-' || t[0] == '+') then t[1..] else t;
            r.None? <==> u == [] || !IsDigit(u[0])
    ensures r.Some? && r.value < 0 ==> TrimStart(s)[0] == '-'
  {
    var t := TrimStart(s);
    var neg := |t| > 0 && t[0] == '-';
    var u := if |t| > 0 && (t[0] == '-' || t[0] == '+') then t[1..] else t;
    var ds := LeadingDigits(u);
    if ds == [] then None else Some(if neg then -(DigitsValue(ds) as int) else DigitsValue(ds))
  }

  /** `parseInt` skips leading whitespace. */
  lemma ParseIntSkipsSpaces(sp: string, s: string)
    requires AllSpaces(sp)
    ensures ParseInt(sp + s) == ParseInt(s)
  {
    TrimStartSpaces(sp, s);
  }

  lemma {:induction false} NatToStringValue(n: nat)
    ensures DigitsValue(NatToString(n)) == n
  {
    if n >= 10 {
      var s := NatToString(n);
      NatToStringValue(n / 10);
      assert s[..|s| - 1] == NatToString(n / 10);
    }
  }

  lemma {:induction false} LeadingDigitsOf(ds: string, rest: string)
    requires forall c :: c in ds ==> IsDigit(c)
    requires rest == [] || !IsDigit(rest[0])
    ensures LeadingDigits(ds + rest) == ds
  {
    if ds != [] {
      assert (ds + rest)[1..] == ds[1..] + rest;
      LeadingDigitsOf(ds[1..], rest);
    } else {
      assert ds + rest == rest;
    }
  }

  /** `parseInt` of a digit run followed by a non-digit is the run's value. */
  lemma ParseIntDigits(ds: string, rest: string)
    requires ds != [] && forall c :: c in ds ==> IsDigit(c)
    requires rest == [] || !IsDigit(rest[0])
    ensures ParseInt(ds + rest) == Some(DigitsValue(ds) as int)
  {
    var t := ds + rest;
    assert t[0] == ds[0] && ds[0] in ds;
    assert TrimStart(t) == t;
    LeadingDigitsOf(ds, rest);
  }

  /** `parseInt` of a minus sign and a digit run followed by a non-digit is the run's negated value. */
  lemma ParseIntNegDigits(ds: string, rest: string)
    requires ds != [] && forall c :: c in ds ==> IsDigit(c)
    requires rest == [] || !IsDigit(rest[0])
    ensures ParseInt("-" + ds + rest) == Some(-(DigitsValue(ds) as int))
  {
    var t := "-" + ds + rest;
    assert t[0] == '-' && !IsJsSpace('-');
    assert TrimStart(t) == t;
    assert t[1..] == ds + rest;
    LeadingDigitsOf(ds, rest);
    assert LeadingDigits(t[1..]) == ds;
  }

  /**
   * `parseInt` reads back the decimal text of an integer, whatever
   * non-digit text follows it.
   */
  lemma ParseIntToString(n: int, rest: string)
    requires rest == [] || !IsDigit(rest[0])
    ensures ParseInt(IntToString(n) + rest) == Some(n)
  {
    var m: nat := if n < 0 then -n else n;
    var ds := NatToString(m);
    NatToStringValue(m);
    if n < 0 {
      assert IntToString(n) + rest == "-" + ds + rest;
      ParseIntNegDigits(ds, rest);
    } else {
      assert IntToString(n) + rest == ds + rest;
      ParseIntDigits(ds, rest);
    }
  }
}
