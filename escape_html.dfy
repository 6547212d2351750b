/**
 * `escapeHtml` of the front end: `String(str || "")` followed by five
 * `replaceAll` calls, `&` first, then `<`, `>`, `"` and `'`.
 */
module Html {
  import opened Wrappers

  /** `s.replaceAll(c, rep)` for a one-character pattern: every `c` of `s` becomes `rep`, nothing is rescanned. */
  function ReplaceAll(s: string, c: char, rep: string): (r: string)
    ensures (forall k :: 0 <= k < |s| ==> s[k] != c) ==> r == s
    ensures (forall k :: 0 <= k < |rep| ==> rep[k] != c) ==> forall k :: 0 <= k < |r| ==> r[k] != c
  {
    if s == [] then [] else (if s[0] == c then rep else [s[0]]) + ReplaceAll(s[1..], c, rep)
  }

  /** The five chained `replaceAll` calls, in the order they are written. */
  function ReplaceChain(s: string): string {
    var amp := ReplaceAll(s, '&', "&amp;");
    var lt := ReplaceAll(amp, '<', "&lt;");
    var gt := ReplaceAll(lt, '>', "&gt;");
    var quot := ReplaceAll(gt, '"', "&quot;");
    ReplaceAll(quot, '\'', "&#039;")
  }

  /** The front end's `escapeHtml(str)`; `None` stands for `undefined` or `null`. */
  function EscapeHtml(str: Option<string>): (r: string)
    ensures r == [] <==> str.None? || str.value == []
  {
    var s := match str case None => "" case Some(v) => v;
    ReplaceChainIsEncode(s);
    EncodeLength(s);
    ReplaceChain(s)
  }

  predicate IsSpecial(c: char) {
    c == '&' || c == '<' || c == '>' || c == '"' || c == '\''
  }

  /** The independent, one-pass reference: each character is replaced by its entity. */
  function Entity(c: char): (e: string)
    ensures IsSpecial(c) ==> |e| > 1 && e[0] == '&'
    ensures !IsSpecial(c) ==> e == [c]
  {
    match c
    case '&' => "&amp;"
    case '<' => "&lt;"
    case '>' => "&gt;"
    case '"' => "&quot;"
    case '\'' => "&#039;"
    case _ => [c]
  }

  function Encode(s: string): string {
    if s == [] then [] else Entity(s[0]) + Encode(s[1..])
  }

  lemma {:induction false} ReplaceAllConcat(x: string, y: string, c: char, rep: string)
    ensures ReplaceAll(x + y, c, rep) == ReplaceAll(x, c, rep) + ReplaceAll(y, c, rep)
  {
    if x == [] {
      assert x + y == y;
    } else {
      assert (x + y)[0] == x[0];
      assert (x + y)[1..] == x[1..] + y;
      ReplaceAllConcat(x[1..], y, c, rep);
    }
  }

  lemma ReplaceAllSingle(c: char, p: char, rep: string)
    ensures ReplaceAll([c], p, rep) == if c == p then rep else [c]
  {
    assert [c][1..] == [];
  }

  /** A replacement whose pattern does not occur leaves the text as it was. */
  lemma ReplaceAbsent(s: string, c: char, rep: string)
    requires forall k :: 0 <= k < |s| ==> s[k] != c
    ensures ReplaceAll(s, c, rep) == s
  {
  }

  /** The chain on each of the five special characters. */
  lemma ChainOnAmp()
    ensures ReplaceChain(['&']) == "&amp;"
  {
    var e := "&amp;";
    ReplaceAllSingle('&', '&', e);
    forall k | 0 <= k < |e| ensures e[k] == '&' || 'a' <= e[k] <= 'p' || e[k] == ';' {
      assert e == ['&', 'a', 'm', 'p', ';'];
    }
    ReplaceAbsent(e, '<', "&lt;");
    ReplaceAbsent(e, '>', "&gt;");
    ReplaceAbsent(e, '"', "&quot;");
    ReplaceAbsent(e, '\'', "&#039;");
  }

  lemma ChainOnLt()
    ensures ReplaceChain(['<']) == "&lt;"
  {
    ReplaceAbsent(['<'], '&', "&amp;");
    ReplaceAllSingle('<', '<', "&lt;");
    ReplaceAbsent("&lt;", '>', "&gt;");
    ReplaceAbsent("&lt;", '"', "&quot;");
    ReplaceAbsent("&lt;", '\'', "&#039;");
  }

  lemma ChainOnGt()
    ensures ReplaceChain(['>']) == "&gt;"
  {
    ReplaceAbsent(['>'], '&', "&amp;");
    ReplaceAbsent(['>'], '<', "&lt;");
    ReplaceAllSingle('>', '>', "&gt;");
    ReplaceAbsent("&gt;", '"', "&quot;");
    ReplaceAbsent("&gt;", '\'', "&#039;");
  }

  lemma ChainOnQuot()
    ensures ReplaceChain(['"']) == "&quot;"
  {
    ReplaceAbsent(['"'], '&', "&amp;");
    ReplaceAbsent(['"'], '<', "&lt;");
    ReplaceAbsent(['"'], '>', "&gt;");
    ReplaceAllSingle('"', '"', "&quot;");
    ReplaceAbsent("&quot;", '\'', "&#039;");
  }

  lemma ChainOnApos()
    ensures ReplaceChain(['\'']) == "&#039;"
  {
    ReplaceAbsent(['\''], '&', "&amp;");
    ReplaceAbsent(['\''], '<', "&lt;");
    ReplaceAbsent(['\''], '>', "&gt;");
    ReplaceAbsent(['\''], '"', "&quot;");
    ReplaceAllSingle('\'', '\'', "&#039;");
  }

  /** The five chained replacements applied to a one-character string give its entity. */
  lemma ChainOnChar(c: char)
    ensures ReplaceChain([c]) == Entity(c)
  {
    if c == '&' {
      ChainOnAmp();
    } else if c == '<' {
      ChainOnLt();
    } else if c == '>' {
      ChainOnGt();
    } else if c == '"' {
      ChainOnQuot();
    } else if c == '\'' {
      ChainOnApos();
    } else {
      ReplaceAbsent([c], '&', "&amp;");
      ReplaceAbsent([c], '<', "&lt;");
      ReplaceAbsent([c], '>', "&gt;");
      ReplaceAbsent([c], '"', "&quot;");
      ReplaceAbsent([c], '\'', "&#039;");
    }
  }

  /**
   * Replacing `&` first means no entity produced later is escaped again:
   * the chain equals the one-pass per-character encoding.
   */
  lemma {:induction false} ReplaceChainIsEncode(s: string)
    ensures ReplaceChain(s) == Encode(s)
  {
    if s != [] {
      var c, t := s[0], s[1..];
      assert s == [c] + t;
      ReplaceAllConcat([c], t, '&', "&amp;");
      var a1, a2 := ReplaceAll([c], '&', "&amp;"), ReplaceAll(t, '&', "&amp;");
      ReplaceAllConcat(a1, a2, '<', "&lt;");
      var b1, b2 := ReplaceAll(a1, '<', "&lt;"), ReplaceAll(a2, '<', "&lt;");
      ReplaceAllConcat(b1, b2, '>', "&gt;");
      var c1, c2 := ReplaceAll(b1, '>', "&gt;"), ReplaceAll(b2, '>', "&gt;");
      ReplaceAllConcat(c1, c2, '"', "&quot;");
      var d1, d2 := ReplaceAll(c1, '"', "&quot;"), ReplaceAll(c2, '"', "&quot;");
      ReplaceAllConcat(d1, d2, '\'', "&#039;");
      ChainOnChar(c);
      ReplaceChainIsEncode(t);
    }
  }

  lemma {:induction false} EncodeConcat(a: string, b: string)
    ensures Encode(a + b) == Encode(a) + Encode(b)
  {
    if a == [] {
      assert a + b == b;
    } else {
      assert (a + b)[0] == a[0];
      assert (a + b)[1..] == a[1..] + b;
      EncodeConcat(a[1..], b);
    }
  }

  predicate NoSpecial(s: string) {
    forall k :: 0 <= k < |s| ==> !IsSpecial(s[k])
  }

  /** The output is never shorter than the input, and is as long exactly when nothing needed escaping. */
  lemma {:induction false} EncodeLength(s: string)
    ensures |Encode(s)| >= |s|
    ensures |Encode(s)| == |s| <==> NoSpecial(s)
    ensures NoSpecial(s) ==> Encode(s) == s
  {
    if s != [] {
      EncodeLength(s[1..]);
      assert NoSpecial(s) <==> !IsSpecial(s[0]) && NoSpecial(s[1..]) by {
        if !IsSpecial(s[0]) && NoSpecial(s[1..]) {
          forall k | 0 <= k < |s| ensures !IsSpecial(s[k]) {
            if k > 0 {
              assert s[k] == s[1..][k - 1];
            }
          }
        }
      }
      if NoSpecial(s) {
        assert s == [s[0]] + s[1..];
      }
    }
  }

  /** Escaping never shortens its input, and keeps its length exactly when there is nothing to escape. */
  lemma EscapeHtmlLength(s: string)
    ensures |EscapeHtml(Some(s))| >= |s|
    ensures |EscapeHtml(Some(s))| == |s| <==> NoSpecial(s)
    ensures NoSpecial(s) ==> EscapeHtml(Some(s)) == s
  {
    ReplaceChainIsEncode(s);
    EncodeLength(s);
  }

  /** The copies of a character other than the five special ones are left alone, in place. */
  lemma EscapeHtmlKeepsPlainText(a: string, c: char, b: string)
    requires !IsSpecial(c)
    ensures EscapeHtml(Some(a + [c] + b)) == EscapeHtml(Some(a)) + [c] + EscapeHtml(Some(b))
  {
    ReplaceChainIsEncode(a + [c] + b);
    ReplaceChainIsEncode(a);
    ReplaceChainIsEncode(b);
    assert EscapeHtml(Some(a + [c] + b)) == ReplaceChain(a + [c] + b);
    EncodeConcat(a + [c], b);
    EncodeConcat(a, [c]);
    assert Encode([c]) == [c] by {
      assert [c][1..] == [];
    }
  }

  predicate NoMarkup(r: string) {
    forall k :: 0 <= k < |r| ==> r[k] != '<' && r[k] != '>' && r[k] != '"' && r[k] != '\''
  }

  /** At index `k` of `r` stands one of the five entities. */
  predicate StartsEntity(r: string, k: nat)
    requires k < |r|
  {
    var t := r[k..];
    "&amp;" <= t || "&lt;" <= t || "&gt;" <= t || "&quot;" <= t || "&#039;" <= t
  }

  predicate AmpersandsStartEntities(r: string) {
    forall k :: 0 <= k < |r| && r[k] == '&' ==> StartsEntity(r, k)
  }

  lemma {:induction false} EncodeSafe(s: string)
    ensures NoMarkup(Encode(s)) && AmpersandsStartEntities(Encode(s))
  {
    if s != [] {
      var e, rest := Entity(s[0]), Encode(s[1..]);
      EncodeSafe(s[1..]);
      var r := e + rest;
      assert r == Encode(s);
      forall k | 0 <= k < |r|
        ensures r[k] != '<' && r[k] != '>' && r[k] != '"' && r[k] != '\''
        ensures r[k] == '&' ==> StartsEntity(r, k)
      {
        if k < |e| {
          assert r[k] == e[k];
          if r[k] == '&' {
            assert k == 0;
            assert e <= r[k..];
          }
        } else {
          assert r[k] == rest[k - |e|];
          if r[k] == '&' {
            assert StartsEntity(rest, k - |e|);
            assert r[k..] == rest[k - |e|..];
          }
        }
      }
    }
  }

  /** Nothing the browser would read as markup survives, and every `&` opens an entity. */
  lemma EscapeHtmlSafe(str: Option<string>)
    ensures NoMarkup(EscapeHtml(str)) && AmpersandsStartEntities(EscapeHtml(str))
  {
    var s := match str case None => "" case Some(v) => v;
    ReplaceChainIsEncode(s);
    EncodeSafe(s);
    assert EscapeHtml(str) == EscapeHtml(Some(s));
  }

  /** The browser's reading of the five entities: the inverse of the encoding. */
  function Decode(r: string): string
    decreases |r|
  {
    if r == [] then []
    else if "&amp;" <= r then "&" + Decode(r[5..])
    else if "&lt;" <= r then "<" + Decode(r[4..])
    else if "&gt;" <= r then ">" + Decode(r[4..])
    else if "&quot;" <= r then "\"" + Decode(r[6..])
    else if "&#039;" <= r then "'" + Decode(r[6..])
    else [r[0]] + Decode(r[1..])
  }

  lemma DecodeEntity(c: char, rest: string)
    ensures Decode(Entity(c) + rest) == [c] + Decode(rest)
  {
    var e := Entity(c);
    var r := e + rest;
    assert r[|e|..] == rest;
    if !IsSpecial(c) {
      assert r[0] == c && r[1..] == rest;
      assert !("&amp;" <= r) && !("&lt;" <= r) && !("&gt;" <= r) && !("&quot;" <= r) && !("&#039;" <= r) by {
        assert r[0] != '&';
      }
    } else {
      assert e <= r;
      assert r[..|e|] == e;
      if c != '&' {
        assert !("&amp;" <= r) by {
          assert r[1] == e[1] && e[1] != 'a';
        }
      }
      if c == '"' || c == '\'' {
        assert !("&lt;" <= r) && !("&gt;" <= r) by {
          assert r[1] == e[1] && e[1] != 'l' && e[1] != 'g';
        }
      }
      if c == '\'' {
        assert !("&quot;" <= r) by {
          assert r[1] == e[1] && e[1] != 'q';
        }
      }
      if c == '>' {
        assert !("&lt;" <= r) by {
          assert r[1] == e[1] && e[1] != 'l';
        }
      }
    }
  }

  lemma {:induction false} DecodeEncode(s: string)
    ensures Decode(Encode(s)) == s
  {
    if s != [] {
      DecodeEntity(s[0], Encode(s[1..]));
      DecodeEncode(s[1..]);
      assert s == [s[0]] + s[1..];
    }
  }

  /** Distinct inputs are escaped to distinct outputs. */
  lemma EscapeHtmlInjective(a: string, b: string)
    requires EscapeHtml(Some(a)) == EscapeHtml(Some(b))
    ensures a == b
  {
    ReplaceChainIsEncode(a);
    ReplaceChainIsEncode(b);
    DecodeEncode(a);
    DecodeEncode(b);
  }

  /** `<` is escaped once: the `&` of its entity is not escaped again. */
  lemma EscapeHtmlLessThan()
    ensures EscapeHtml(Some("<")) == "&lt;"
  {
    ReplaceChainIsEncode("<");
    assert "<"[1..] == [];
  }
}
