/** HTML text escaping, `escapeHtml` (log.js:20-32): each of the five
    characters `& < > " '` becomes a fixed entity, every other character is
    copied, and the order of the input is kept. */
module Escape {

  /** The characters the escaping regular expression `/[&<>"']/g` matches. */
  predicate IsSpecial(c: char)
  {
    c == '&' || c == '<' || c == '>' || c == '"' || c == '\''
  }

  /** The characters that may open or close markup or an attribute value. */
  predicate IsMarkupChar(c: char)
  {
    c == '<' || c == '>' || c == '"' || c == '\''
  }

  /** The replacement table of `escapeHtml`. */
  function EscapeChar(c: char): string
  {
    match c
    case '&' => "&amp;"
    case '<' => "&lt;"
    case '>' => "&gt;"
    case '"' => "&quot;"
    case '\'' => "&#039;"
    case _ => [c]
  }

  /** `escapeHtml(s)`: every character replaced by its table entry, left to
      right. */
  function EscapeHtml(s: string): string
    decreases |s|
  {
    if s == [] then [] else EscapeChar(s[0]) + EscapeHtml(s[1..])
  }

  /** t starts with one of the five entities `escapeHtml` emits. */
  predicate StartsWithEntity(t: string)
  {
    "&amp;" <= t || "&lt;" <= t || "&gt;" <= t || "&quot;" <= t || "&#039;" <= t
  }

  /** The inverse of the escaping: reads an entity back as its character and
      copies every other character. */
  function Unescape(s: string): string
    decreases |s|
  {
    if s == [] then []
    else if "&amp;" <= s then "&" + Unescape(s[5..])
    else if "&lt;" <= s then "<" + Unescape(s[4..])
    else if "&gt;" <= s then ">" + Unescape(s[4..])
    else if "&quot;" <= s then "\"" + Unescape(s[6..])
    else if "&#039;" <= s then "'" + Unescape(s[6..])
    else [s[0]] + Unescape(s[1..])
  }

  /** Escaping works piecewise: the escape of a concatenation is the
      concatenation of the escapes, so characters keep their order. */
  lemma {:induction false} EscapeHtmlConcat(a: string, b: string)
    ensures EscapeHtml(a + b) == EscapeHtml(a) + EscapeHtml(b)
    decreases |a|
  {
    if a != [] {
      assert (a + b)[0] == a[0];
      assert (a + b)[1..] == a[1..] + b;
      EscapeHtmlConcat(a[1..], b);
    } else {
      assert a + b == b;
    }
  }

  /** Unescape reads one escaped character back, whatever follows it. */
  lemma UnescapeChar(c: char, rest: string)
    ensures Unescape(EscapeChar(c) + rest) == [c] + Unescape(rest)
  {
    var e := EscapeChar(c) + rest;
    if c == '&' {
      assert e[5..] == rest;
    } else if c == '<' {
      assert e[1] == 'l' && e[..4] == "&lt;" && e[4..] == rest;
    } else if c == '>' {
      assert e[1] == 'g' && e[..4] == "&gt;" && e[4..] == rest;
    } else if c == '"' {
      assert e[1] == 'q' && e[..6] == "&quot;" && e[6..] == rest;
    } else if c == '\'' {
      assert e[..6] == "&#039;" && e[6..] == rest;
      assert e[1] == '#';
      assert !("&amp;" <= e) && !("&lt;" <= e) && !("&gt;" <= e) && !("&quot;" <= e);
    } else {
      assert e[0] == c && e[1..] == rest;
    }
  }

  /** Escaping loses nothing: the original text can be read back from the
      escaped text. */
  lemma {:induction false} EscapeRoundTrip(s: string)
    ensures Unescape(EscapeHtml(s)) == s
    decreases |s|
  {
    if s != [] {
      UnescapeChar(s[0], EscapeHtml(s[1..]));
      EscapeRoundTrip(s[1..]);
    }
  }

  /** The escaped text contains none of `< > " '`, so it can open no tag and
      close no attribute value. */
  lemma {:induction false} EscapeHasNoMarkup(s: string)
    ensures forall i :: 0 <= i < |EscapeHtml(s)| ==> !IsMarkupChar(EscapeHtml(s)[i])
    decreases |s|
  {
    if s != [] {
      EscapeHasNoMarkup(s[1..]);
      var e, t := EscapeChar(s[0]), EscapeHtml(s[1..]);
      assert forall i :: 0 <= i < |e| ==> !IsMarkupChar(e[i]);
      assert forall i :: |e| <= i < |e + t| ==> (e + t)[i] == t[i - |e|];
    }
  }

  /** Every `&` of the escaped text starts one of the five entities. */
  lemma {:induction false} EscapeAmpersandsStartEntities(s: string)
    ensures forall i :: 0 <= i < |EscapeHtml(s)| && EscapeHtml(s)[i] == '&' ==>
              StartsWithEntity(EscapeHtml(s)[i..])
    decreases |s|
  {
    if s != [] {
      EscapeAmpersandsStartEntities(s[1..]);
      var e, t := EscapeChar(s[0]), EscapeHtml(s[1..]);
      forall i | 0 <= i < |e + t| && (e + t)[i] == '&'
        ensures StartsWithEntity((e + t)[i..])
      {
        if i < |e| {
          assert forall j :: 1 <= j < |e| ==> e[j] != '&';
          assert i == 0 && (e + t)[i..] == e + t;
          assert e <= e + t;
        } else {
          assert (e + t)[i..] == t[i - |e|..];
        }
      }
    }
  }

  /** Escaping never shortens, and it keeps the length exactly when there is
      nothing to escape. */
  lemma {:induction false} EscapeHtmlLength(s: string)
    ensures |EscapeHtml(s)| >= |s|
    ensures |EscapeHtml(s)| == |s| <==> forall i :: 0 <= i < |s| ==> !IsSpecial(s[i])
    decreases |s|
  {
    if s != [] {
      EscapeHtmlLength(s[1..]);
      assert forall i :: 1 <= i < |s| ==> s[i] == s[1..][i - 1];
    }
  }

  /** Text without any of the five characters is its own escape, and only
      such text is. */
  lemma {:induction false} EscapeHtmlIdentity(s: string)
    ensures EscapeHtml(s) == s <==> forall i :: 0 <= i < |s| ==> !IsSpecial(s[i])
    decreases |s|
  {
    EscapeHtmlLength(s);
    if s != [] {
      EscapeHtmlIdentity(s[1..]);
      assert forall i :: 1 <= i < |s| ==> s[i] == s[1..][i - 1];
      if !IsSpecial(s[0]) {
        assert EscapeHtml(s) == [s[0]] + EscapeHtml(s[1..]);
        assert s == [s[0]] + s[1..];
      }
    }
  }

  /** A tag name without any of the five characters, written between angle
      brackets, is displayed with the brackets as entities and the name as
      it is: a title `<script>` shows as `&lt;script&gt;`. */
  lemma EscapeTag(name: string)
    requires forall i :: 0 <= i < |name| ==> !IsSpecial(name[i])
    ensures EscapeHtml("<" + name + ">") == "&lt;" + name + "&gt;"
  {
    var l, r := "<", ">";
    EscapeHtmlIdentity(name);
    EscapeSingle('<');
    EscapeSingle('>');
    assert EscapeHtml(l) == "&lt;" && EscapeHtml(r) == "&gt;";
    EscapeHtmlConcat(l + name, r);
    EscapeHtmlConcat(l, name);
    assert EscapeHtml(l + name) == "&lt;" + name;
  }

  /** A one-character text escapes to that character's table entry. */
  lemma EscapeSingle(c: char)
    ensures EscapeHtml([c]) == EscapeChar(c)
  {
    assert [c][1..] == [];
  }
}
