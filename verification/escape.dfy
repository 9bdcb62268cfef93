/**
 * The chat page's `escapeHtml` (public/app.js): five `replaceAll` passes
 * that turn the HTML-significant characters of a message into entities
 * before the message is spliced into markup.
 */
module Escape {

  /** `s.replaceAll(pat, rep)` for a one-character pattern and a replacement
      with no `$` pattern (none of the five passes has one): every occurrence
      of `pat`, scanning left to right, is replaced by `rep`. */
  function ReplaceAll(s: string, pat: char, rep: string): (r: string)
    ensures pat !in s ==> r == s
    ensures pat !in rep ==> pat !in r
  {
    if s == [] then []
    else (if s[0] == pat then rep else [s[0]]) + ReplaceAll(s[1..], pat, rep)
  }

  /** `escapeHtml`: the five passes in the order the source applies them,
      ampersand first. */
  function EscapeHtml(s: string): (r: string)
    ensures '<' !in r && '>' !in r && '"' !in r && '\'' !in r
  {
    PassesRemoveMarkup(s);
    ReplaceAll(
      ReplaceAll(
        ReplaceAll(
          ReplaceAll(
            ReplaceAll(s, '&', "&amp;"),
            '<', "&lt;"),
          '>', "&gt;"),
        '"', "&quot;"),
      '\'', "&#039;")
  }

  /** Each of the last four passes removes its character, and no later pass
      brings it back. */
  lemma PassesRemoveMarkup(s: string)
    ensures var r := ReplaceAll(
                       ReplaceAll(
                         ReplaceAll(
                           ReplaceAll(
                             ReplaceAll(s, '&', "&amp;"),
                             '<', "&lt;"),
                           '>', "&gt;"),
                         '"', "&quot;"),
                       '\'', "&#039;");
            '<' !in r && '>' !in r && '"' !in r && '\'' !in r
  {
    AfterLt(ReplaceAll(ReplaceAll(s, '&', "&amp;"), '<', "&lt;"));
  }

  /** The `>`, `"` and `'` passes, on a string already free of `<`. */
  lemma AfterLt(lt: string)
    requires '<' !in lt
    ensures var r := ReplaceAll(ReplaceAll(ReplaceAll(lt, '>', "&gt;"), '"', "&quot;"), '\'', "&#039;");
            '<' !in r && '>' !in r && '"' !in r && '\'' !in r
  {
    StaysAbsent(lt, '>', "&gt;", '<');
    AfterGt(ReplaceAll(lt, '>', "&gt;"));
  }

  /** The `"` and `'` passes, on a string already free of `<` and `>`. */
  lemma AfterGt(gt: string)
    requires '<' !in gt && '>' !in gt
    ensures var r := ReplaceAll(ReplaceAll(gt, '"', "&quot;"), '\'', "&#039;");
            '<' !in r && '>' !in r && '"' !in r && '\'' !in r
  {
    StaysAbsent(gt, '"', "&quot;", '<');
    StaysAbsent(gt, '"', "&quot;", '>');
    AfterQuot(ReplaceAll(gt, '"', "&quot;"));
  }

  /** The `'` pass, on a string already free of `<`, `>` and `"`. */
  lemma AfterQuot(quot: string)
    requires '<' !in quot && '>' !in quot && '"' !in quot
    ensures var r := ReplaceAll(quot, '\'', "&#039;");
            '<' !in r && '>' !in r && '"' !in r && '\'' !in r
  {
    StaysAbsent(quot, '\'', "&#039;", '<');
    StaysAbsent(quot, '\'', "&#039;", '>');
    StaysAbsent(quot, '\'', "&#039;", '"');
  }

  /** Every character of a pass's output comes from the replacement or is a
      character of the input other than the pattern. */
  lemma {:induction false} ReplaceAllProvenance(s: string, pat: char, rep: string, c: char)
    requires c in ReplaceAll(s, pat, rep)
    ensures c in rep || (c in s && c != pat)
  {
    var head := if s[0] == pat then rep else [s[0]];
    assert ReplaceAll(s, pat, rep) == head + ReplaceAll(s[1..], pat, rep);
    if c !in head {
      ReplaceAllProvenance(s[1..], pat, rep, c);
      assert c in s[1..] ==> c in s;
    }
  }

  /** A pass neither introduces a character its replacement lacks nor
      resurrects one the input lacks. */
  lemma {:induction false} StaysAbsent(s: string, pat: char, rep: string, c: char)
    requires c !in s && c !in rep
    ensures c !in ReplaceAll(s, pat, rep)
  {
    if s != [] {
      assert c !in s[1..];
      StaysAbsent(s[1..], pat, rep, c);
    }
  }

  /** The five characters the source rewrites. */
  predicate IsSpecial(c: char) {
    c == '&' || c == '<' || c == '>' || c == '"' || c == '\''
  }

  /** The entity each character stands for in the output. */
  function Entity(c: char): (e: string)
    ensures !IsSpecial(c) ==> e == [c]
    ensures IsSpecial(c) ==> |e| > 1 && e[0] == '&' && '&' !in e[1..]
    ensures '<' !in e && '>' !in e && '"' !in e && '\'' !in e
  {
    match c
    case '&' => "&amp;"
    case '<' => "&lt;"
    case '>' => "&gt;"
    case '"' => "&quot;"
    case '\'' => "&#039;"
    case _ => [c]
  }

  /** Reference definition: each character replaced by its entity, independently. */
  function EscapeSpec(s: string): (r: string)
    ensures '<' !in r && '>' !in r && '"' !in r && '\'' !in r
  {
    if s == [] then [] else Entity(s[0]) + EscapeSpec(s[1..])
  }

  lemma {:induction false} SpecLength(s: string)
    ensures var m := multiset(s);
            |EscapeSpec(s)| == |s| + 4 * m['&'] + 3 * (m['<'] + m['>']) + 5 * (m['"'] + m['\''])
  {
    if s != [] {
      var c, t := s[0], s[1..];
      assert s == [c] + t;
      assert multiset(s) == multiset(t) + multiset{c};
      assert |EscapeSpec(s)| == |Entity(c)| + |EscapeSpec(t)|;
      EntityLength(c);
      SpecLength(t);
    }
  }

  /** The length of one character's entity, counted the way `SpecLength` counts. */
  lemma EntityLength(c: char)
    ensures var m := multiset{c};
            |Entity(c)| == 1 + 4 * m['&'] + 3 * (m['<'] + m['>']) + 5 * (m['"'] + m['\''])
  {
  }

  /** `i` starts one of the five entities in `s`. */
  predicate EntityAt(s: string, i: nat)
    requires i <= |s|
  {
    || "&amp;" <= s[i..] || "&lt;" <= s[i..] || "&gt;" <= s[i..]
    || "&quot;" <= s[i..] || "&#039;" <= s[i..]
  }

  /** Every `&` of `s` begins an entity. */
  predicate NoBareAmpersand(s: string) {
    forall i :: 0 <= i < |s| && s[i] == '&' ==> EntityAt(s, i)
  }

  /** `replaceAll` distributes over concatenation. */
  lemma {:induction false} ReplaceAllConcat(a: string, b: string, pat: char, rep: string)
    ensures ReplaceAll(a + b, pat, rep) == ReplaceAll(a, pat, rep) + ReplaceAll(b, pat, rep)
  {
    if a == [] {
      assert a + b == b;
    } else {
      var head := if a[0] == pat then rep else [a[0]];
      assert (a + b)[0] == a[0] && (a + b)[1..] == a[1..] + b;
      assert ReplaceAll(a + b, pat, rep) == head + ReplaceAll(a[1..] + b, pat, rep);
      ReplaceAllConcat(a[1..], b, pat, rep);
      Associative(head, ReplaceAll(a[1..], pat, rep), ReplaceAll(b, pat, rep));
    }
  }

  lemma Associative(x: string, y: string, z: string)
    ensures x + (y + z) == (x + y) + z
  {
  }

  /** The five passes distribute over concatenation. */
  lemma EscapeHtmlConcat(a: string, b: string)
    ensures EscapeHtml(a + b) == EscapeHtml(a) + EscapeHtml(b)
  {
    var a1, b1 := ReplaceAll(a, '&', "&amp;"), ReplaceAll(b, '&', "&amp;");
    ReplaceAllConcat(a, b, '&', "&amp;");
    var a2, b2 := ReplaceAll(a1, '<', "&lt;"), ReplaceAll(b1, '<', "&lt;");
    ReplaceAllConcat(a1, b1, '<', "&lt;");
    var a3, b3 := ReplaceAll(a2, '>', "&gt;"), ReplaceAll(b2, '>', "&gt;");
    ReplaceAllConcat(a2, b2, '>', "&gt;");
    var a4, b4 := ReplaceAll(a3, '"', "&quot;"), ReplaceAll(b3, '"', "&quot;");
    ReplaceAllConcat(a3, b3, '"', "&quot;");
    ReplaceAllConcat(a4, b4, '\'', "&#039;");
  }

  /** On a single character the five passes produce exactly its entity: no
      entity contains a character that a later pass rewrites. */
  lemma EscapeHtmlChar(c: char)
    ensures EscapeHtml([c]) == Entity(c)
  {
    var x1 := ReplaceAll([c], '&', "&amp;");
    ReplaceAllSingle(c, '&', "&amp;");
    var x2 := ReplaceAll(x1, '<', "&lt;");
    var x3 := ReplaceAll(x2, '>', "&gt;");
    var x4 := ReplaceAll(x3, '"', "&quot;");
    var x5 := ReplaceAll(x4, '\'', "&#039;");
    assert x5 == EscapeHtml([c]);
    if c == '&' {
      assert x1 == "&amp;";
    } else {
      ReplaceAllSingle(c, '<', "&lt;");
      if c == '<' {
        assert x2 == "&lt;";
      } else {
        ReplaceAllSingle(c, '>', "&gt;");
        if c == '>' {
          assert x3 == "&gt;";
        } else {
          ReplaceAllSingle(c, '"', "&quot;");
          if c == '"' {
            assert x4 == "&quot;";
          } else {
            ReplaceAllSingle(c, '\'', "&#039;");
          }
        }
      }
    }
  }

  lemma ReplaceAllSingle(c: char, pat: char, rep: string)
    ensures ReplaceAll([c], pat, rep) == if c == pat then rep else [c]
  {
    assert [c][1..] == [];
  }

  /** The sequential `replaceAll` chain equals the per-character entity map. */
  lemma {:induction false} EscapeHtmlIsEntityMap(s: string)
    ensures EscapeHtml(s) == EscapeSpec(s)
  {
    if s != [] {
      assert s == [s[0]] + s[1..];
      EscapeHtmlConcat([s[0]], s[1..]);
      EscapeHtmlChar(s[0]);
      EscapeHtmlIsEntityMap(s[1..]);
    }
  }

  /** A string with none of the five characters is returned unchanged. */
  lemma {:induction false} EscapeHtmlPlain(s: string)
    requires forall i :: 0 <= i < |s| ==> !IsSpecial(s[i])
    ensures EscapeHtml(s) == s
  {
    EscapeHtmlIsEntityMap(s);
    PlainSpec(s);
  }

  lemma {:induction false} PlainSpec(s: string)
    requires forall i :: 0 <= i < |s| ==> !IsSpecial(s[i])
    ensures EscapeSpec(s) == s
  {
    if s != [] {
      PlainSpec(s[1..]);
      assert s == [s[0]] + s[1..];
    }
  }

  /** Output length is input length plus 4 per `&`, 3 per `<` or `>`, and 5 per
      `"` or `'`; in particular escaping never shortens a string. */
  lemma EscapeHtmlLength(s: string)
    ensures var m := multiset(s);
            |EscapeHtml(s)| == |s| + 4 * m['&'] + 3 * (m['<'] + m['>']) + 5 * (m['"'] + m['\''])
    ensures |EscapeHtml(s)| >= |s|
  {
    EscapeHtmlIsEntityMap(s);
    SpecLength(s);
  }

  /** Every `&` of the output begins an entity: there are no bare ampersands. */
  lemma EscapeHtmlNoBareAmpersand(s: string)
    ensures NoBareAmpersand(EscapeHtml(s))
  {
    EscapeHtmlIsEntityMap(s);
    SpecNoBareAmpersand(s);
  }

  lemma {:induction false} SpecNoBareAmpersand(s: string)
    ensures NoBareAmpersand(EscapeSpec(s))
  {
    if s != [] {
      var e, rest := Entity(s[0]), EscapeSpec(s[1..]);
      var r := e + rest;
      assert r == EscapeSpec(s);
      SpecNoBareAmpersand(s[1..]);
      assert NoBareAmpersand(rest);
      forall i | 0 <= i < |r| && r[i] == '&' ensures EntityAt(r, i) {
        if i < |e| {
          EntityAmpersandOnlyFirst(s[0], i);
          assert r[i..] == e + rest;
          assert e <= r[i..];
        } else {
          assert rest[i - |e|] == '&';
          assert r[i..] == rest[i - |e|..];
        }
      }
    }
  }

  /** An entity holds `&` only in its first position, and only when it is one
      of the five entity strings. */
  lemma EntityAmpersandOnlyFirst(c: char, i: nat)
    requires i < |Entity(c)| && Entity(c)[i] == '&'
    ensures i == 0 && IsSpecial(c)
    ensures var e := Entity(c);
            e == "&amp;" || e == "&lt;" || e == "&gt;" || e == "&quot;" || e == "&#039;"
  {
  }
}
