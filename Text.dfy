/**
 String helpers the translator relies on, written out over `string`
 (`seq<char>`): Python's `str.strip()`, `str.isdigit()`, `str.upper()` and
 `os.path.basename` on a POSIX path.
 */
module Text {

  /** The characters Python's `str.isspace()` accepts, which is the set
      `str.strip()` with no argument removes from both ends. */
  predicate IsSpace(c: char) {
    || ('\t' <= c <= '\r')          // TAB, LF, VT, FF, CR
    || ('\U{1C}' <= c <= ' ')       // the four separators FS, GS, RS, US and SPACE
    || c == '\U{85}' || c == '\U{A0}' || c == '\U{1680}'
    || ('\U{2000}' <= c <= '\U{200A}')
    || c == '\U{2028}' || c == '\U{2029}' || c == '\U{202F}' || c == '\U{205F}'
    || c == '\U{3000}'
  }

  /** A string with no whitespace at either end: what `strip()` returns. */
  predicate IsStripped(s: string) {
    s == [] || (!IsSpace(s[0]) && !IsSpace(s[|s| - 1]))
  }

  /** `str.lstrip()`: drops the leading whitespace. */
  function TrimLeft(s: string): (r: string)
    ensures |r| <= |s|
    ensures forall i :: 0 <= i < |s| - |r| ==> IsSpace(s[i])
    ensures r == [] || !IsSpace(r[0])
  {
    if s != [] && IsSpace(s[0]) then TrimLeft(s[1..]) else s
  }

  /** `str.rstrip()`: drops the trailing whitespace. */
  function TrimRight(s: string): (r: string)
    ensures |r| <= |s|
    ensures forall i :: |r| <= i < |s| ==> IsSpace(s[i])
    ensures r == [] || !IsSpace(r[|r| - 1])
  {
    if s != [] && IsSpace(s[|s| - 1]) then TrimRight(s[..|s| - 1]) else s
  }

  /** What `lstrip()` keeps is the tail of `s`. */
  lemma {:induction false} TrimLeftIsSuffix(s: string)
    ensures TrimLeft(s) == s[|s| - |TrimLeft(s)|..]
  {
    if s != [] && IsSpace(s[0]) {
      TrimLeftIsSuffix(s[1..]);
    }
  }

  /** What `rstrip()` keeps is the head of `s`. */
  lemma {:induction false} TrimRightIsPrefix(s: string)
    ensures TrimRight(s) == s[..|TrimRight(s)|]
  {
    if s != [] && IsSpace(s[|s| - 1]) {
      TrimRightIsPrefix(s[..|s| - 1]);
    }
  }

  /** `str.strip()`: drops the whitespace at both ends. */
  function Strip(s: string): (r: string)
    ensures IsStripped(r) && |r| <= |s|
    ensures IsStripped(s) ==> r == s
  {
    TrimRightIsPrefix(TrimLeft(s));
    TrimRight(TrimLeft(s))
  }

  /** What `strip()` removes is whitespace and nothing else: the result is
      the part of `s` between its leading and its trailing whitespace. */
  lemma StripIsInnerPart(s: string)
    ensures var k := |s| - |TrimLeft(s)|;
      && k + |Strip(s)| <= |s| && Strip(s) == s[k..k + |Strip(s)|]
      && (forall i :: 0 <= i < k ==> IsSpace(s[i]))
      && (forall i :: k + |Strip(s)| <= i < |s| ==> IsSpace(s[i]))
  {
    var t := TrimLeft(s);
    TrimLeftIsSuffix(s);
    TrimRightIsPrefix(t);
    PrefixOfSuffix(s, t, Strip(s));
  }

  /** A prefix `r` of a suffix `t` of `s` is a slice of `s`, and when only
      whitespace follows `r` in `t`, only whitespace follows it in `s`. */
  lemma PrefixOfSuffix(s: string, t: string, r: string)
    requires |t| <= |s| && t == s[|s| - |t|..]
    requires |r| <= |t| && r == t[..|r|]
    requires forall i :: |r| <= i < |t| ==> IsSpace(t[i])
    ensures var k := |s| - |t|;
      r == s[k..k + |r|] && forall i :: k + |r| <= i < |s| ==> IsSpace(s[i])
  {
    var k := |s| - |t|;
    forall i | k + |r| <= i < |s| ensures IsSpace(s[i]) {
      assert s[i] == t[i - k];
    }
  }

  /** A string strips to nothing exactly when it is all whitespace. */
  lemma StripEmptyIff(s: string)
    ensures Strip(s) == [] <==> forall i :: 0 <= i < |s| ==> IsSpace(s[i])
  {
    StripIsInnerPart(s);
  }

  lemma StripIdempotent(s: string)
    ensures Strip(Strip(s)) == Strip(s)
  {
  }

  /** Python's `str.isdigit()` restricted to ASCII: non-empty, and every
      character a decimal digit. */
  predicate IsDigits(s: string) {
    |s| > 0 && forall i :: 0 <= i < |s| ==> '0' <= s[i] <= '9'
  }

  /** `str.upper()` on one character, restricted to ASCII letters. */
  function UpperChar(c: char): (u: char)
    ensures 'a' <= c <= 'z' ==> 'A' <= u <= 'Z' && u as int == c as int - 32
    ensures !('a' <= c <= 'z') ==> u == c
  {
    if 'a' <= c <= 'z' then (c as int - 32) as char else c
  }

  /** `str.upper()` restricted to ASCII letters: same length, each
      character upper-cased on its own. */
  function Upper(s: string): (r: string)
    ensures |r| == |s|
    ensures forall i :: 0 <= i < |s| ==> r[i] == UpperChar(s[i])
  {
    seq(|s|, i requires 0 <= i < |s| => UpperChar(s[i]))
  }

  lemma UpperIdempotent(s: string)
    ensures Upper(Upper(s)) == Upper(s)
  {
  }

  /** Upper-casing leaves digits alone, so it keeps `isdigit()`. */
  lemma UpperKeepsDigits(s: string)
    ensures IsDigits(Upper(s)) <==> IsDigits(s)
  {
  }

  /** No character of `s` is a path separator. */
  predicate NoSlash(s: string) {
    forall k :: 0 <= k < |s| ==> s[k] != '/'
  }

  /** `os.path.basename` on a POSIX path: the text after the last `/`
      (the whole path when there is none). */
  function Basename(p: string): (r: string)
    ensures NoSlash(r)
  {
    if p == [] || p[|p| - 1] == '/' then [] else Basename(p[..|p| - 1]) + [p[|p| - 1]]
  }

  /** The base name is the tail of the path after its last `/`: a suffix
      of the path that is either all of it or preceded by a `/`. */
  lemma {:induction false} BasenameIsLastComponent(p: string)
    ensures |Basename(p)| <= |p| && Basename(p) == p[|p| - |Basename(p)|..]
    ensures |Basename(p)| < |p| ==> p[|p| - |Basename(p)| - 1] == '/'
  {
    if p != [] && p[|p| - 1] != '/' {
      var init := p[..|p| - 1];
      BasenameIsLastComponent(init);
      assert p == init + [p[|p| - 1]];
    }
  }

  /** Text with no `/` appended to a path stays in its last component. */
  lemma {:induction false} BasenameAppend(a: string, b: string)
    requires NoSlash(b)
    ensures Basename(a + b) == Basename(a) + b
  {
    if b == [] {
      assert a + b == a;
    } else {
      var init := b[..|b| - 1];
      var ab := a + b;
      assert ab[..|ab| - 1] == a + init;
      assert NoSlash(init) by {
        forall k | 0 <= k < |init| ensures init[k] != '/' {
          assert init[k] == b[k];
        }
      }
      BasenameAppend(a, init);
      assert init + [b[|b| - 1]] == b;
    }
  }

  /** Python's `in` on a list: a search from the front for an equal
      element. */
  predicate Listed(x: string, names: seq<string>) {
    names != [] && (x == names[0] || Listed(x, names[1..]))
  }

  lemma {:induction false} ListedIsMembership(x: string, names: seq<string>)
    ensures Listed(x, names) <==> x in names
  {
    if names != [] {
      ListedIsMembership(x, names[1..]);
      assert names == [names[0]] + names[1..];
    }
  }
}
