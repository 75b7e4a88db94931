/**
 The `pointer` member of a validation error: path parts escaped and joined as a JSON Pointer
 (sections 3 and 4 of RFC 6901).  Parts are the texts that `str` makes of the path elements.
 */
module JsonPointer {
  import opened TextReplace

  function Escape(part: string): string {
    Replace(Replace(part, '~', "~0"), '/', "~1")
  }

  function Join(parts: seq<string>): string
    requires parts != []
  {
    if |parts| == 1 then parts[0] else parts[0] + "/" + Join(parts[1..])
  }

  function EscapeAll(parts: seq<string>): seq<string> {
    seq(|parts|, i requires 0 <= i < |parts| => Escape(parts[i]))
  }

  function Pointer(parts: seq<string>): string
    requires parts != []
  {
    "#/" + Join(EscapeAll(parts))
  }

  /** Section 4 of RFC 6901: first `~1` to `/`, then `~0` to `~`. */
  function Unescape(token: string): string {
    ReplacePair(ReplacePair(token, '~', '1', "/"), '~', '0', "~")
  }

  /** The reference tokens between the slashes. */
  function Split(text: string): (parts: seq<string>)
    ensures parts != []
  {
    if text == "" then [""]
    else
      var rest := Split(text[1..]);
      if text[0] == '/' then [""] + rest else [[text[0]] + rest[0]] + rest[1..]
  }

  function Parse(pointer: string): seq<string>
    requires |pointer| >= 2
  {
    var tokens := Split(pointer[2..]);
    seq(|tokens|, i requires 0 <= i < |tokens| => Unescape(tokens[i]))
  }

  /** Both replacements read as one: what each character becomes. */
  function EscapedOnce(part: string): string {
    if part == "" then "" else EscapedChar(part[0]) + EscapedOnce(part[1..])
  }

  function EscapedChar(c: char): string {
    if c == '~' then "~0" else if c == '/' then "~1" else [c]
  }

  lemma {:induction false} EscapeIsOnePass(part: string)
    ensures Escape(part) == EscapedOnce(part)
  {
    if part != "" {
      var c, tail := part[0], part[1..];
      EscapeIsOnePass(tail);
      ReplaceConcat(if c == '~' then "~0" else [c], Replace(tail, '~', "~0"), '/', "~1");
      ReplaceOne(c, '/', "~1");
      ReplaceTwo('~', '0', '/', "~1");
      assert Replace(part, '~', "~0") == (if c == '~' then "~0" else [c]) + Replace(tail, '~', "~0");
    }
  }

  /** After the first unescaping pass only the tildes are still escaped. */
  function TildesEscaped(part: string): string {
    if part == "" then "" else (if part[0] == '~' then "~0" else [part[0]]) + TildesEscaped(part[1..])
  }

  lemma {:induction false} FirstPass(part: string)
    ensures ReplacePair(EscapedOnce(part), '~', '1', "/") == TildesEscaped(part)
  {
    if part != "" {
      var c, tail := part[0], part[1..];
      FirstPass(tail);
      var rest := EscapedOnce(tail);
      var all := EscapedOnce(part);
      if c == '~' {
        assert all == "~0" + rest && all[1..] == "0" + rest && ("0" + rest)[1..] == rest;
        PlainHead('0', rest, '1', "/");
      } else if c == '/' {
        assert all == "~1" + rest && all[2..] == rest;
      } else {
        assert all == [c] + rest;
        PlainHead(c, rest, '1', "/");
      }
    }
  }

  lemma {:induction false} SecondPass(part: string)
    ensures ReplacePair(TildesEscaped(part), '~', '0', "~") == part
  {
    if part != "" {
      var c, tail := part[0], part[1..];
      SecondPass(tail);
      var rest := TildesEscaped(tail);
      var all := TildesEscaped(part);
      if c == '~' {
        assert all == "~0" + rest && all[2..] == rest;
      } else {
        assert all == [c] + rest;
        PlainHead(c, rest, '0', "~");
      }
      assert part == [c] + tail;
    }
  }

  /** A head that is not a tilde passes through. */
  lemma PlainHead(c: char, rest: string, b: char, r: string)
    requires c != '~'
    ensures ReplacePair([c] + rest, '~', b, r) == [c] + ReplacePair(rest, '~', b, r)
  {
    assert ([c] + rest)[1..] == rest;
  }

  lemma UnescapeEscape(part: string)
    ensures Unescape(Escape(part)) == part
  {
    EscapeIsOnePass(part);
    FirstPass(part);
    SecondPass(part);
  }

  lemma {:induction false} EscapeHasNoSlash(part: string)
    ensures '/' !in Escape(part)
  {
    EscapeIsOnePass(part);
    if part != "" {
      EscapeHasNoSlash(part[1..]);
      EscapeIsOnePass(part[1..]);
    }
  }

  /** Reading a slash-free token up to a slash or to the end. */
  lemma {:induction false} SplitToken(token: string, rest: string)
    requires '/' !in token
    ensures Split(token + "/" + rest) == [token] + Split(rest)
    ensures Split(token) == [token]
  {
    if token == "" {
      assert token + "/" + rest == "/" + rest && ("/" + rest)[1..] == rest;
    } else {
      SplitToken(token[1..], rest);
      assert (token + "/" + rest)[1..] == token[1..] + "/" + rest;
      assert token == [token[0]] + token[1..];
    }
  }

  lemma {:induction false} SplitJoin(tokens: seq<string>)
    requires tokens != [] && forall i :: 0 <= i < |tokens| ==> '/' !in tokens[i]
    ensures Split(Join(tokens)) == tokens
  {
    if |tokens| == 1 {
      SplitToken(tokens[0], "");
    } else {
      SplitJoin(tokens[1..]);
      SplitToken(tokens[0], Join(tokens[1..]));
    }
  }

  /** Parsing a pointer gives back the parts it was made of, including empty ones and ones with `/` and `~`. */
  lemma PointerRoundTrip(parts: seq<string>)
    requires parts != []
    ensures Parse(Pointer(parts)) == parts
  {
    var tokens := EscapeAll(parts);
    forall i | 0 <= i < |tokens| ensures '/' !in tokens[i] && Unescape(tokens[i]) == parts[i] {
      EscapeHasNoSlash(parts[i]);
      UnescapeEscape(parts[i]);
    }
    SplitJoin(tokens);
    assert Pointer(parts)[2..] == Join(tokens);
  }

  /** Different paths have different pointers. */
  lemma PointerIsInjective(a: seq<string>, b: seq<string>)
    requires a != [] && b != [] && Pointer(a) == Pointer(b)
    ensures a == b
  {
    PointerRoundTrip(a);
    PointerRoundTrip(b);
  }
}
