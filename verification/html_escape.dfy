/** The chat widget's `escapeHtml`: five `replaceAll` passes, `&` first,
    that turn the characters HTML gives meaning to into entities. */
module HtmlEscape {
  import opened Wrappers

  /** `replaceAll` with a one-character pattern: every occurrence of `c`,
      left to right, becomes `rep`. */
  function ReplaceAll(s: string, c: char, rep: string): string
    decreases |s|
  {
    if s == [] then [] else (if s[0] == c then rep else [s[0]]) + ReplaceAll(s[1..], c, rep)
  }

  /** `escapeHtml(value)` as written; `None` is `null` or `undefined`, which
      `?? ''` turns into the empty text. */
  function EscapeHtmlAsWritten(value: Option<string>): string {
    var s := value.GetOr("");
    ReplaceAll(ReplaceAll(ReplaceAll(ReplaceAll(ReplaceAll(
      s, '&', "&amp;"), '<', "&lt;"), '>', "&gt;"), '"', "&quot;"), '\'', "&#039;")
  }

  /** The characters `escapeHtml` rewrites. */
  predicate IsSpecial(c: char) {
    c == '&' || c == '<' || c == '>' || c == '"' || c == '\''
  }

  /** The entity each character becomes. */
  function EscapeChar(c: char): string {
    if c == '&' then "&amp;"
    else if c == '<' then "&lt;"
    else if c == '>' then "&gt;"
    else if c == '"' then "&quot;"
    else if c == '\'' then "&#039;"
    else [c]
  }

  /** The reference reading: each character on its own becomes its entity. */
  function Escape(s: string): string
    decreases |s|
  {
    if s == [] then [] else EscapeChar(s[0]) + Escape(s[1..])
  }

  lemma {:induction false} ReplaceAllAppend(a: string, b: string, c: char, rep: string)
    ensures ReplaceAll(a + b, c, rep) == ReplaceAll(a, c, rep) + ReplaceAll(b, c, rep)
    decreases |a|
  {
    if a != [] {
      assert (a + b)[0] == a[0] && (a + b)[1..] == a[1..] + b;
      ReplaceAllAppend(a[1..], b, c, rep);
      var head := if a[0] == c then rep else [a[0]];
      calc {
        ReplaceAll(a + b, c, rep);
        head + ReplaceAll(a[1..] + b, c, rep);
        head + (ReplaceAll(a[1..], c, rep) + ReplaceAll(b, c, rep));
        (head + ReplaceAll(a[1..], c, rep)) + ReplaceAll(b, c, rep);
      }
    } else {
      assert a + b == b;
    }
  }

  lemma {:induction false} ReplaceAllAbsent(s: string, c: char, rep: string)
    requires c !in s
    ensures ReplaceAll(s, c, rep) == s
    decreases |s|
  {
    if s != [] {
      ReplaceAllAbsent(s[1..], c, rep);
    }
  }

  lemma ReplaceAllSingle(x: char, c: char, rep: string)
    ensures ReplaceAll([x], c, rep) == if x == c then rep else [x]
  {
    assert [x][1..] == [];
  }

  /** The five passes in order, as one function of the text. */
  function Passes(s: string): string {
    ReplaceAll(ReplaceAll(ReplaceAll(ReplaceAll(ReplaceAll(
      s, '&', "&amp;"), '<', "&lt;"), '>', "&gt;"), '"', "&quot;"), '\'', "&#039;")
  }

  lemma PassesAppend(a: string, b: string)
    ensures Passes(a + b) == Passes(a) + Passes(b)
  {
    var a1, b1 := ReplaceAll(a, '&', "&amp;"), ReplaceAll(b, '&', "&amp;");
    ReplaceAllAppend(a, b, '&', "&amp;");
    var a2, b2 := ReplaceAll(a1, '<', "&lt;"), ReplaceAll(b1, '<', "&lt;");
    ReplaceAllAppend(a1, b1, '<', "&lt;");
    var a3, b3 := ReplaceAll(a2, '>', "&gt;"), ReplaceAll(b2, '>', "&gt;");
    ReplaceAllAppend(a2, b2, '>', "&gt;");
    var a4, b4 := ReplaceAll(a3, '"', "&quot;"), ReplaceAll(b3, '"', "&quot;");
    ReplaceAllAppend(a3, b3, '"', "&quot;");
    ReplaceAllAppend(a4, b4, '\'', "&#039;");
  }

  /** Text none of whose characters a pass looks for passes through it. */
  lemma PassesOfInert(e: string)
    requires IsInert(e)
    ensures ReplaceAll(ReplaceAll(ReplaceAll(ReplaceAll(e, '<', "&lt;"), '>', "&gt;"), '"', "&quot;"), '\'', "&#039;") == e
  {
    ReplaceAllAbsent(e, '<', "&lt;");
    ReplaceAllAbsent(e, '>', "&gt;");
    ReplaceAllAbsent(e, '"', "&quot;");
    ReplaceAllAbsent(e, '\'', "&#039;");
  }

  /** Each entity survives the passes after the one that wrote it. */
  lemma EntitiesAreInert()
    ensures IsInert("&amp;") && IsInert("&#039;")
    ensures '>' !in "&lt;" && '"' !in "&lt;" && '\'' !in "&lt;"
    ensures '"' !in "&gt;" && '\'' !in "&gt;"
    ensures '\'' !in "&quot;"
  {
  }

  lemma PassesOfChar(x: char)
    ensures Passes([x]) == EscapeChar(x)
  {
    EntitiesAreInert();
    var s0 := [x];
    ReplaceAllSingle(x, '&', "&amp;");
    var s1 := ReplaceAll(s0, '&', "&amp;");
    if x == '&' {
      PassesOfInert(s1);
    } else {
      ReplaceAllSingle(x, '<', "&lt;");
      var s2 := ReplaceAll(s1, '<', "&lt;");
      if x == '<' {
        ReplaceAllAbsent(s2, '>', "&gt;");
        ReplaceAllAbsent(s2, '"', "&quot;");
        ReplaceAllAbsent(s2, '\'', "&#039;");
      } else {
        ReplaceAllSingle(x, '>', "&gt;");
        var s3 := ReplaceAll(s2, '>', "&gt;");
        if x == '>' {
          ReplaceAllAbsent(s3, '"', "&quot;");
          ReplaceAllAbsent(s3, '\'', "&#039;");
        } else {
          ReplaceAllSingle(x, '"', "&quot;");
          var s4 := ReplaceAll(s3, '"', "&quot;");
          if x == '"' {
            ReplaceAllAbsent(s4, '\'', "&#039;");
          } else {
            ReplaceAllSingle(x, '\'', "&#039;");
          }
        }
      }
    }
  }

  /** The five passes amount to escaping each character on its own: the
      `&` pass runs first, so no entity a later pass writes is rewritten,
      and no later pass finds anything in an `&amp;`. */
  lemma {:induction false} PassesAreEscape(s: string)
    ensures Passes(s) == Escape(s)
    decreases |s|
  {
    if s != [] {
      assert s == [s[0]] + s[1..];
      PassesAppend([s[0]], s[1..]);
      PassesOfChar(s[0]);
      PassesAreEscape(s[1..]);
    }
  }

  /** `escapeHtml` is the per-character escaping of the text, and the empty
      text for a missing value. */
  function EscapeHtml(value: Option<string>): (r: string)
    ensures r == Escape(value.GetOr(""))
    ensures value.None? ==> r == []
  {
    PassesAreEscape(value.GetOr(""));
    EscapeHtmlAsWritten(value)
  }

  /** No `<`, `>`, `"` or `'` survives, so escaped text can neither open a
      tag nor leave a quoted attribute. */
  predicate IsInert(o: string) {
    forall k :: 0 <= k < |o| ==> o[k] != '<' && o[k] != '>' && o[k] != '"' && o[k] != '\''
  }

  lemma {:induction false} EscapeIsInert(s: string)
    ensures IsInert(Escape(s))
    decreases |s|
  {
    if s != [] {
      EscapeIsInert(s[1..]);
      var head := EscapeChar(s[0]);
      assert IsInert(head);
      assert Escape(s) == head + Escape(s[1..]);
    }
  }

  /** The text starts with one of the five entities. */
  predicate BeginsEntity(t: string) {
    || (|t| >= 5 && t[..5] == "&amp;")
    || (|t| >= 4 && (t[..4] == "&lt;" || t[..4] == "&gt;"))
    || (|t| >= 6 && (t[..6] == "&quot;" || t[..6] == "&#039;"))
  }

  /** Every `&` begins an entity. */
  predicate AmpersandsBeginEntities(o: string) {
    forall k :: 0 <= k < |o| && o[k] == '&' ==> BeginsEntity(o[k..])
  }

  /** The escape of one character begins an entity when it starts with an
      `&`, and holds no `&` after its first place. */
  lemma EscapeCharEntity(x: char, rest: string)
    ensures var h := EscapeChar(x);
      && |h| > 0 && '&' !in h[1..]
      && (h[0] == '&' ==> BeginsEntity(h + rest))
  {
    var h := EscapeChar(x);
    var o := h + rest;
    assert o[..|h|] == h;
    if x == '&' {
      assert o[..5] == "&amp;";
    } else if x == '<' || x == '>' {
      assert o[..4] == h;
    } else if x == '"' || x == '\'' {
      assert o[..6] == h;
    }
  }

  lemma {:induction false} EscapeAmpersandsBeginEntities(s: string)
    ensures AmpersandsBeginEntities(Escape(s))
    decreases |s|
  {
    if s != [] {
      var h, rest := EscapeChar(s[0]), Escape(s[1..]);
      var o := h + rest;
      assert Escape(s) == o;
      EscapeAmpersandsBeginEntities(s[1..]);
      EscapeCharEntity(s[0], rest);
      forall k | 0 <= k < |o| && o[k] == '&'
        ensures BeginsEntity(o[k..])
      {
        if k >= |h| {
          assert o[k..] == rest[k - |h|..];
          assert rest[k - |h|] == '&';
        }
      }
    }
  }

  /** Text without any of the five characters is left alone. */
  lemma {:induction false} EscapePlain(s: string)
    requires forall k :: 0 <= k < |s| ==> !IsSpecial(s[k])
    ensures Escape(s) == s
    decreases |s|
  {
    if s != [] {
      EscapePlain(s[1..]);
      assert s == [s[0]] + s[1..];
    }
  }

  /** Escaping never shortens the text. */
  lemma {:induction false} EscapeGrows(s: string)
    ensures |Escape(s)| >= |s|
    decreases |s|
  {
    if s != [] {
      EscapeGrows(s[1..]);
    }
  }

  /** What a browser shows for escaped text: each of the five entities
      stands for its character; everything else stands for itself. */
  function Unescape(o: string): string
    decreases |o|
  {
    if o == [] then []
    else if o[0] != '&' then [o[0]] + Unescape(o[1..])
    else if |o| >= 5 && o[..5] == "&amp;" then ['&'] + Unescape(o[5..])
    else if |o| >= 4 && o[..4] == "&lt;" then ['<'] + Unescape(o[4..])
    else if |o| >= 4 && o[..4] == "&gt;" then ['>'] + Unescape(o[4..])
    else if |o| >= 6 && o[..6] == "&quot;" then ['"'] + Unescape(o[6..])
    else if |o| >= 6 && o[..6] == "&#039;" then ['\''] + Unescape(o[6..])
    else [o[0]] + Unescape(o[1..])
  }

  lemma UnescapeAmp(rest: string)
    ensures Unescape("&amp;" + rest) == ['&'] + Unescape(rest)
  {
    var o := "&amp;" + rest;
    assert o[..5] == "&amp;" && o[5..] == rest;
  }

  lemma UnescapeLt(rest: string)
    ensures Unescape("&lt;" + rest) == ['<'] + Unescape(rest)
  {
    var o := "&lt;" + rest;
    assert o[1] == 'l';
    assert o[..4] == "&lt;" && o[4..] == rest;
  }

  lemma UnescapeGt(rest: string)
    ensures Unescape("&gt;" + rest) == ['>'] + Unescape(rest)
  {
    var o := "&gt;" + rest;
    assert o[1] == 'g';
    assert o[..4] == "&gt;" && o[4..] == rest;
  }

  lemma UnescapeQuot(rest: string)
    ensures Unescape("&quot;" + rest) == ['"'] + Unescape(rest)
  {
    var o := "&quot;" + rest;
    assert o[1] == 'q';
    assert o[..6] == "&quot;" && o[6..] == rest;
  }

  lemma UnescapeApos(rest: string)
    ensures Unescape("&#039;" + rest) == ['\''] + Unescape(rest)
  {
    var o := "&#039;" + rest;
    assert o[1] == '#';
    assert o[..6] == "&#039;" && o[6..] == rest;
  }

  lemma UnescapeOther(x: char, rest: string)
    requires !IsSpecial(x)
    ensures Unescape([x] + rest) == [x] + Unescape(rest)
  {
    var o := [x] + rest;
    assert o[0] == x && o[1..] == rest;
  }

  lemma UnescapeChar(x: char, rest: string)
    ensures Unescape(EscapeChar(x) + rest) == [x] + Unescape(rest)
  {
    if x == '&' {
      UnescapeAmp(rest);
    } else if x == '<' {
      UnescapeLt(rest);
    } else if x == '>' {
      UnescapeGt(rest);
    } else if x == '"' {
      UnescapeQuot(rest);
    } else if x == '\'' {
      UnescapeApos(rest);
    } else {
      UnescapeOther(x, rest);
    }
  }

  /** The browser shows exactly the text that was escaped. */
  lemma {:induction false} UnescapeEscape(s: string)
    ensures Unescape(Escape(s)) == s
    decreases |s|
  {
    if s != [] {
      UnescapeChar(s[0], Escape(s[1..]));
      UnescapeEscape(s[1..]);
      assert s == [s[0]] + s[1..];
    }
  }

  /** Different texts never escape alike. */
  lemma EscapeInjective(a: string, b: string)
    requires Escape(a) == Escape(b)
    ensures a == b
  {
    UnescapeEscape(a);
    UnescapeEscape(b);
  }
}
