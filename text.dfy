/**
 * The text primitives the handlers rely on: Python's `str.strip()` with no
 * argument, and the order SQLite's BINARY collation puts TEXT values in.
 */
module Text {

  /** The characters Python's `str.isspace()` accepts, which is the set `strip()` removes. */
  predicate IsSpace(c: char) {
    || ('\U{9}' <= c <= '\U{D}')
    || ('\U{1C}' <= c <= '\U{20}')
    || c == '\U{85}' || c == '\U{A0}' || c == '\U{1680}'
    || ('\U{2000}' <= c <= '\U{200A}')
    || c == '\U{2028}' || c == '\U{2029}' || c == '\U{202F}' || c == '\U{205F}' || c == '\U{3000}'
  }

  /** Removes leading whitespace: what is left does not start with a space. */
  function TrimStart(s: string): (r: string)
    ensures |r| <= |s|
    ensures r == [] || !IsSpace(r[0])
  {
    if s != [] && IsSpace(s[0]) then TrimStart(s[1..]) else s
  }

  /** Removes trailing whitespace: what is left does not end with a space. */
  function TrimEnd(s: string): (r: string)
    ensures |r| <= |s|
    ensures r == [] || !IsSpace(r[|r| - 1])
  {
    if s != [] && IsSpace(s[|s| - 1]) then TrimEnd(s[..|s| - 1]) else s
  }

  /** `TrimStart` keeps the suffix of `s` after a prefix made of spaces only. */
  lemma {:induction false} TrimStartShape(s: string)
    ensures TrimStart(s) == s[|s| - |TrimStart(s)|..]
    ensures forall k :: 0 <= k < |s| - |TrimStart(s)| ==> IsSpace(s[k])
  {
    if s != [] && IsSpace(s[0]) {
      TrimStartShape(s[1..]);
      assert forall k :: 1 <= k < |s| ==> s[k] == s[1..][k - 1];
    }
  }

  /** `TrimEnd` keeps the prefix of `s` before a suffix made of spaces only. */
  lemma {:induction false} TrimEndShape(s: string)
    ensures TrimEnd(s) == s[..|TrimEnd(s)|]
    ensures forall k :: |TrimEnd(s)| <= k < |s| ==> IsSpace(s[k])
  {
    if s != [] && IsSpace(s[|s| - 1]) {
      TrimEndShape(s[..|s| - 1]);
      assert forall k :: 0 <= k < |s| - 1 ==> s[k] == s[..|s| - 1][k];
    }
  }

  /** Python's `s.strip()`: no space left at either end. */
  function Strip(s: string): (r: string)
    ensures |r| <= |s|
    ensures r == [] || (!IsSpace(r[0]) && !IsSpace(r[|r| - 1]))
  {
    var t := TrimStart(s);
    TrimEndShape(t);
    TrimEnd(t)
  }

  /**
   * What `strip()` keeps is the infix of `s` between its leading and its
   * trailing run of spaces.
   */
  lemma StripInfix(s: string)
    ensures var r, i := Strip(s), |s| - |TrimStart(s)|;
      && i + |r| <= |s| && r == s[i..i + |r|]
      && (forall k :: 0 <= k < i ==> IsSpace(s[k]))
      && (forall k :: i + |r| <= k < |s| ==> IsSpace(s[k]))
  {
    var t := TrimStart(s);
    TrimStartShape(s);
    TrimEndShape(t);
    var i := |s| - |t|;
    forall k | i + |Strip(s)| <= k < |s| ensures IsSpace(s[k]) {
      assert s[k] == t[k - i];
    }
  }

  /** All of `s` is whitespace. */
  predicate AllSpace(s: string) {
    forall k :: 0 <= k < |s| ==> IsSpace(s[k])
  }

  /** The input of `strip()` is its result with a run of whitespace before it and one after it. */
  lemma StripSplit(s: string)
    ensures exists before, after :: s == before + Strip(s) + after && AllSpace(before) && AllSpace(after)
  {
    StripInfix(s);
    var r := Strip(s);
    var i := |s| - |TrimStart(s)|;
    var before, after := s[..i], s[i + |r|..];
    assert s == before + r + after;
    assert AllSpace(before);
    assert AllSpace(after) by {
      forall k | 0 <= k < |after| ensures IsSpace(after[k]) {
        assert after[k] == s[i + |r| + k];
      }
    }
  }

  /** `strip()` leaves nothing exactly when `s` is all spaces. */
  lemma StripAllSpace(s: string)
    ensures Strip(s) == [] <==> forall k :: 0 <= k < |s| ==> IsSpace(s[k])
  {
    StripInfix(s);
    var i := |s| - |TrimStart(s)|;
    if Strip(s) != [] {
      assert Strip(s)[0] == s[i];
    }
  }

  /** Text with no space at either end is left as it is. */
  lemma StripUnchanged(s: string)
    requires s == [] || (!IsSpace(s[0]) && !IsSpace(s[|s| - 1]))
    ensures Strip(s) == s
  {
    assert TrimStart(s) == s;
  }

  /** Stripping twice gives what stripping once gives. */
  lemma StripIdempotent(s: string)
    ensures Strip(Strip(s)) == Strip(s)
  {
    var r := Strip(s);
    if r != [] {
      assert TrimStart(r) == r;
      assert TrimEnd(r) == r;
    }
  }

  /**
   * SQLite's BINARY collation for TEXT: `memcmp` over the UTF-8 encoding,
   * which orders strings as code-point sequences, lexicographically.
   */
  predicate TextLe(a: string, b: string)
  {
    a == [] || (b != [] && (a[0] < b[0] || (a[0] == b[0] && TextLe(a[1..], b[1..]))))
  }

  lemma {:induction false} TextLeReflexive(a: string)
    ensures TextLe(a, a)
  {
    if a != [] {
      TextLeReflexive(a[1..]);
    }
  }

  lemma {:induction false} TextLeTotal(a: string, b: string)
    ensures TextLe(a, b) || TextLe(b, a)
  {
    if a != [] && b != [] && a[0] == b[0] {
      TextLeTotal(a[1..], b[1..]);
    }
  }

  lemma {:induction false} TextLeAntisymmetric(a: string, b: string)
    requires TextLe(a, b) && TextLe(b, a)
    ensures a == b
  {
    if a != [] && b != [] {
      TextLeAntisymmetric(a[1..], b[1..]);
      assert a == [a[0]] + a[1..];
      assert b == [b[0]] + b[1..];
    }
  }

  lemma {:induction false} TextLeTransitive(a: string, b: string, c: string)
    requires TextLe(a, b) && TextLe(b, c)
    ensures TextLe(a, c)
  {
    if a != [] && b != [] && c != [] && a[0] == b[0] && b[0] == c[0] {
      TextLeTransitive(a[1..], b[1..], c[1..]);
    }
  }
}
