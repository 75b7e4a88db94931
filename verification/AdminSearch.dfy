/** The e-mail search of the admin user list: a search text escaped for SQL LIKE. */
module AdminSearch {
  import opened TextReplace

  /** SQL LIKE with an ESCAPE character; a pattern that ends in the escape character matches nothing. */
  predicate Like(pattern: string, text: string, escape: char)
    decreases |pattern| + |text|
  {
    if pattern == "" then text == ""
    else if pattern[0] == escape then
      |pattern| >= 2 && text != "" && text[0] == pattern[1] && Like(pattern[2..], text[1..], escape)
    else if pattern[0] == '%' then
      Like(pattern[1..], text, escape) || (text != "" && Like(pattern, text[1..], escape))
    else
      text != "" && (pattern[0] == '_' || pattern[0] == text[0]) && Like(pattern[1..], text[1..], escape)
  }

  ghost predicate Contains(text: string, s: string) {
    exists k :: 0 <= k <= |text| && s <= text[k..]
  }

  /** `escape_like_search`: three replacements, the escape character first. */
  function EscapeLikeSearch(value: string, escape: char): string {
    Replace(Replace(Replace(value, escape, [escape, escape]), '%', [escape, '%']), '_', [escape, '_'])
  }

  /** The pattern of the query. */
  function SearchPattern(search: string, escape: char): string {
    "%" + EscapeLikeSearch(search, escape) + "%"
  }

  /** The one-pass reading of the escaping: every special character gets one escape character in front. */
  function EscapedOnce(value: string, escape: char): string {
    if value == "" then ""
    else EscapedChar(value[0], escape) + EscapedOnce(value[1..], escape)
  }

  function EscapedChar(c: char, escape: char): string {
    if c == escape || c == '%' || c == '_' then [escape, c] else [c]
  }

  lemma EscapeOneChar(c: char, escape: char)
    requires escape != '%' && escape != '_'
    ensures EscapeLikeSearch([c], escape) == EscapedChar(c, escape)
  {
    ReplaceOne(c, escape, [escape, escape]);
    ReplaceOne(c, '%', [escape, '%']);
    ReplaceOne(c, '_', [escape, '_']);
    ReplaceTwo(escape, escape, '%', [escape, '%']);
    ReplaceTwo(escape, escape, '_', [escape, '_']);
    ReplaceTwo(escape, '%', '_', [escape, '_']);
  }

  /** The three passes, in their order, escape every character exactly once. */
  lemma {:induction false} PassesEscapeOnce(value: string, escape: char)
    requires escape != '%' && escape != '_'
    ensures EscapeLikeSearch(value, escape) == EscapedOnce(value, escape)
  {
    if value != "" {
      var head, tail := [value[0]], value[1..];
      PassesEscapeOnce(tail, escape);
      EscapeOneChar(value[0], escape);
      assert value == head + tail;
      ReplaceConcat(head, tail, escape, [escape, escape]);
      var h1, t1 := Replace(head, escape, [escape, escape]), Replace(tail, escape, [escape, escape]);
      ReplaceConcat(h1, t1, '%', [escape, '%']);
      ReplaceConcat(Replace(h1, '%', [escape, '%']), Replace(t1, '%', [escape, '%']), '_', [escape, '_']);
    }
  }

  lemma {:induction false} PercentMatchesAll(text: string, escape: char)
    requires escape != '%'
    ensures Like("%", text, escape)
  {
    assert "%"[1..] == "";
    if text != "" {
      PercentMatchesAll(text[1..], escape);
    }
  }

  /** An escaped text followed by a percent sign matches exactly the texts that begin with it. */
  lemma {:induction false} EscapedMatchesPrefix(s: string, text: string, escape: char)
    requires escape != '%' && escape != '_'
    ensures Like(EscapedOnce(s, escape) + "%", text, escape) <==> s <= text
  {
    if s == "" {
      assert EscapedOnce(s, escape) + "%" == "%";
      PercentMatchesAll(text, escape);
    } else {
      var rest := EscapedOnce(s[1..], escape) + "%";
      var pattern := EscapedOnce(s, escape) + "%";
      assert pattern == EscapedChar(s[0], escape) + rest;
      if |EscapedChar(s[0], escape)| == 2 {
        assert pattern[2..] == rest;
      } else {
        assert pattern[1..] == rest;
      }
      if text != "" {
        EscapedMatchesPrefix(s[1..], text[1..], escape);
        PrefixStep(s, text);
      }
    }
  }

  lemma PrefixStep(s: string, text: string)
    requires s != "" && text != ""
    ensures s <= text <==> s[0] == text[0] && s[1..] <= text[1..]
  {
    if s[0] == text[0] && s[1..] <= text[1..] {
      assert s == [s[0]] + s[1..] && text == [text[0]] + text[1..];
    }
  }

  /** A leading percent sign tries every suffix. */
  lemma {:induction false} PercentTriesSuffixes(p: string, text: string, escape: char)
    requires escape != '%'
    ensures Like("%" + p, text, escape) <==> exists k :: 0 <= k <= |text| && Like(p, text[k..], escape)
  {
    assert ("%" + p)[1..] == p;
    assert text[0..] == text;
    if text != "" {
      var tail := text[1..];
      PercentTriesSuffixes(p, tail, escape);
      assert forall k :: 0 <= k <= |tail| ==> tail[k..] == text[k + 1..];
      if exists k :: 0 <= k <= |text| && Like(p, text[k..], escape) {
        var k :| 0 <= k <= |text| && Like(p, text[k..], escape);
        if k > 0 {
          assert tail[k - 1..] == text[k..];
        }
      }
      if exists k :: 0 <= k <= |tail| && Like(p, tail[k..], escape) {
        var k :| 0 <= k <= |tail| && Like(p, tail[k..], escape);
        assert Like(p, text[k + 1..], escape);
      }
    }
  }

  /** The search finds exactly the texts that contain the search text, whatever special characters it holds. */
  lemma SearchIsSubstring(search: string, text: string, escape: char)
    requires escape != '%' && escape != '_'
    ensures Like(SearchPattern(search, escape), text, escape) <==> Contains(text, search)
  {
    var p := EscapedOnce(search, escape) + "%";
    PassesEscapeOnce(search, escape);
    assert SearchPattern(search, escape) == "%" + p;
    PercentTriesSuffixes(p, text, escape);
    forall k | 0 <= k <= |text| ensures Like(p, text[k..], escape) <==> search <= text[k..] {
      EscapedMatchesPrefix(search, text[k..], escape);
    }
  }

  /** The backslash the query uses is one of the escape characters for which this holds; two are not. */
  lemma EscapeCharacterCondition(escape: char)
    ensures (forall search, text :: Like(SearchPattern(search, escape), text, escape) <==> Contains(text, search))
        <==> (escape != '%' && escape != '_')
  {
    if escape != '%' && escape != '_' {
      forall search, text ensures Like(SearchPattern(search, escape), text, escape) <==> Contains(text, search) {
        SearchIsSubstring(search, text, escape);
      }
    } else {
      WildcardEscapeFails(escape);
    }
  }

  /** With a wildcard as escape character its own replacement is escaped again. */
  lemma WildcardEscapeFails(escape: char)
    requires escape == '%' || escape == '_'
    ensures Contains([escape], [escape]) && !Like(SearchPattern([escape], escape), [escape], escape)
  {
    assert [escape] <= [escape][0..];
    ReplaceOne(escape, escape, [escape, escape]);
    if escape == '%' {
      ReplaceTwo('%', '%', '%', "%%");
      assert Replace("%%", '%', "%%") == "%%%%";
      assert Replace("%%%%", '_', "%_") == "%%%%" by {
        ReplaceConcat("%%", "%%", '_', "%_");
        ReplaceTwo('%', '%', '_', "%_");
      }
      assert SearchPattern("%", '%') == "%%%%%%";
      assert "%%%%%%"[2..] == "%%%%" && "%%%%"[2..] == "%%";
      assert !Like("%%%%", "", '%');
    } else {
      ReplaceTwo('_', '_', '%', "_%");
      ReplaceTwo('_', '_', '_', "__");
      assert SearchPattern("_", '_') == "%____%";
      assert "%____%"[1..] == "____%" && "____%"[2..] == "__%";
      assert !Like("__%", "", '_');
      assert !Like("____%", "_", '_');
      assert "_"[1..] == "";
      assert !Like("____%", "", '_');
      assert !Like("%____%", "", '_');
    }
  }
}
