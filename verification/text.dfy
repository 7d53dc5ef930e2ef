/**
 * The few Python string operations the service relies on: `str.strip()`
 * (removal of Unicode whitespace at both ends), `str.strip('_')`, ASCII
 * `str.lower()` and filtering a string by a character class.
 */
module Text {

  /** Python's `str.isspace()` for one character: the set `str.strip()` removes. */
  predicate IsSpace(c: char) {
    || c == ' '
    || '\t' <= c <= '\r'
    || '\U{1C}' <= c <= '\U{1F}'
    || c == '\U{85}' || c == '\U{A0}' || c == '\U{1680}'
    || '\U{2000}' <= c <= '\U{200A}'
    || c == '\U{2028}' || c == '\U{2029}' || c == '\U{202F}' || c == '\U{205F}'
    || c == '\U{3000}'
  }

  predicate IsUnderscore(c: char) { c == '_' }

  predicate NotUnderscore(c: char) { c != '_' }

  /** `str.lower()` on one character, restricted to ASCII letters. */
  function LowerChar(c: char): char {
    if 'A' <= c <= 'Z' then (c as int + 32) as char else c
  }

  function Lower(s: string): string {
    seq(|s|, i requires 0 <= i < |s| => LowerChar(s[i]))
  }

  /** Drops the longest prefix whose characters all satisfy `p`. */
  function DropWhile(s: string, p: char -> bool): (r: string)
    ensures |r| <= |s| && r == s[|s| - |r|..]
    ensures forall i :: 0 <= i < |s| - |r| ==> p(s[i])
    ensures r != [] ==> !p(r[0])
  {
    if s != [] && p(s[0]) then
      var r := DropWhile(s[1..], p);
      assert s[1..][|s| - 1 - |r|..] == s[|s| - |r|..];
      assert forall i :: 1 <= i < |s| - |r| ==> s[i] == s[1..][i - 1];
      r
    else s
  }

  /** Drops the longest suffix whose characters all satisfy `p`. */
  function DropLastWhile(s: string, p: char -> bool): (r: string)
    ensures |r| <= |s| && r == s[..|r|]
    ensures forall i :: |r| <= i < |s| ==> p(s[i])
    ensures r != [] ==> !p(r[|r| - 1])
  {
    if s != [] && p(s[|s| - 1]) then
      var r := DropLastWhile(s[..|s| - 1], p);
      assert s[..|s| - 1][..|r|] == s[..|r|];
      assert forall i :: |r| <= i < |s| - 1 ==> s[i] == s[..|s| - 1][i];
      r
    else s
  }

  /** Python's `s.strip(chars)`: remove characters satisfying `p` from both ends. */
  function StripWith(s: string, p: char -> bool): (r: string)
    ensures r != [] ==> !p(r[0]) && !p(r[|r| - 1])
  {
    DropLastWhile(DropWhile(s, p), p)
  }

  /** A string with neither end in `p` is its own strip. */
  lemma StripWithKeeps(s: string, p: char -> bool)
    requires s != [] && !p(s[0]) && !p(s[|s| - 1])
    ensures StripWith(s, p) == s
  {
    assert DropWhile(s, p) == s;
  }

  /** Python's `s.strip()`. */
  function Strip(s: string): string {
    StripWith(s, IsSpace)
  }

  /** The characters of `s` that satisfy `p`, in order. */
  function Filter(s: string, p: char -> bool): (r: string)
    ensures |r| <= |s|
    ensures forall i :: 0 <= i < |r| ==> p(r[i])
  {
    if s == [] then [] else (if p(s[0]) then [s[0]] else []) + Filter(s[1..], p)
  }

  lemma {:induction false} FilterAppend(a: string, b: string, p: char -> bool)
    ensures Filter(a + b, p) == Filter(a, p) + Filter(b, p)
  {
    if a == [] {
      assert a + b == b;
    } else {
      assert (a + b)[1..] == a[1..] + b;
      FilterAppend(a[1..], b, p);
    }
  }

  /** Filtering ignores a dropped prefix or suffix made of characters `q` rejects. */
  lemma FilterIgnoresStripped(s: string, p: char -> bool, q: char -> bool)
    requires forall c :: p(c) ==> !q(c)
    ensures Filter(DropWhile(s, p), q) == Filter(s, q)
    ensures Filter(DropLastWhile(s, p), q) == Filter(s, q)
    ensures Filter(StripWith(s, p), q) == Filter(s, q)
  {
    FilterIgnoresPrefix(s, p, q);
    FilterIgnoresSuffix(s, p, q);
    FilterIgnoresSuffix(DropWhile(s, p), p, q);
  }

  lemma {:induction false} FilterIgnoresPrefix(s: string, p: char -> bool, q: char -> bool)
    requires forall c :: p(c) ==> !q(c)
    ensures Filter(DropWhile(s, p), q) == Filter(s, q)
  {
    if s != [] && p(s[0]) {
      FilterIgnoresPrefix(s[1..], p, q);
    }
  }

  lemma {:induction false} FilterIgnoresSuffix(s: string, p: char -> bool, q: char -> bool)
    requires forall c :: p(c) ==> !q(c)
    ensures Filter(DropLastWhile(s, p), q) == Filter(s, q)
  {
    if s != [] && p(s[|s| - 1]) {
      var init := s[..|s| - 1];
      FilterIgnoresSuffix(init, p, q);
      assert s == init + [s[|s| - 1]];
      FilterAppend(init, [s[|s| - 1]], p);
      FilterAppend(init, [s[|s| - 1]], q);
    }
  }

  lemma LowerIdempotent(s: string)
    ensures Lower(Lower(s)) == Lower(s)
  {
  }

  /** Lower-casing and stripping commute, because no ASCII letter is whitespace. */
  lemma {:induction false} LowerStripCommute(s: string)
    ensures Lower(Strip(s)) == Strip(Lower(s))
  {
    LowerDropWhile(s);
    LowerDropLastWhile(DropWhile(s, IsSpace));
  }

  /** ASCII lower-casing never turns a character into, or out of, whitespace. */
  lemma LowerKeepsSpace(c: char)
    ensures IsSpace(LowerChar(c)) == IsSpace(c)
  {
    if 'A' <= c <= 'Z' {
      assert 'a' <= LowerChar(c) <= 'z';
    }
  }

  lemma {:induction false} LowerDropWhile(s: string)
    ensures Lower(DropWhile(s, IsSpace)) == DropWhile(Lower(s), IsSpace)
  {
    if s != [] {
      var l := Lower(s);
      LowerKeepsSpace(s[0]);
      assert l[0] == LowerChar(s[0]);
      if IsSpace(s[0]) {
        assert l[1..] == Lower(s[1..]);
        assert DropWhile(l, IsSpace) == DropWhile(l[1..], IsSpace);
        LowerDropWhile(s[1..]);
      }
    }
  }

  lemma {:induction false} LowerDropLastWhile(s: string)
    ensures Lower(DropLastWhile(s, IsSpace)) == DropLastWhile(Lower(s), IsSpace)
  {
    if s != [] {
      var l := Lower(s);
      var n := |s| - 1;
      LowerKeepsSpace(s[n]);
      assert l[n] == LowerChar(s[n]);
      if IsSpace(s[n]) {
        assert l[..n] == Lower(s[..n]);
        assert DropLastWhile(l, IsSpace) == DropLastWhile(l[..n], IsSpace);
        LowerDropLastWhile(s[..n]);
      }
    }
  }

  lemma {:induction false} StripIdempotent(s: string)
    ensures Strip(Strip(s)) == Strip(s)
  {
    var t := Strip(s);
    if t != [] {
      assert DropWhile(t, IsSpace) == t;
      assert DropLastWhile(t, IsSpace) == t;
    }
  }

  /** `s.strip()` is empty exactly when every character of `s` is whitespace. */
  lemma StripEmpty(s: string)
    ensures Strip(s) == [] <==> forall i :: 0 <= i < |s| ==> IsSpace(s[i])
  {
    var r := DropWhile(s, IsSpace);
    if Strip(s) == [] {
      assert r == [];
    }
  }
}
