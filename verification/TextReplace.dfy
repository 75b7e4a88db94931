/** Python's `str.replace` for a one-character and a two-character needle. */
module TextReplace {

  function Replace(s: string, c: char, r: string): string {
    if s == "" then "" else (if s[0] == c then r else [s[0]]) + Replace(s[1..], c, r)
  }

  /** Left to right, without overlaps. */
  function ReplacePair(s: string, a: char, b: char, r: string): string {
    if |s| < 2 then s
    else if s[0] == a && s[1] == b then r + ReplacePair(s[2..], a, b, r)
    else [s[0]] + ReplacePair(s[1..], a, b, r)
  }

  lemma {:induction false} ReplaceConcat(s: string, t: string, c: char, r: string)
    ensures Replace(s + t, c, r) == Replace(s, c, r) + Replace(t, c, r)
  {
    if s == "" {
      assert s + t == t;
    } else {
      var head := if s[0] == c then r else [s[0]];
      calc {
        Replace(s + t, c, r);
      == { assert (s + t)[0] == s[0] && (s + t)[1..] == s[1..] + t; }
        head + Replace(s[1..] + t, c, r);
      == { ReplaceConcat(s[1..], t, c, r); }
        head + (Replace(s[1..], c, r) + Replace(t, c, r));
      ==
        (head + Replace(s[1..], c, r)) + Replace(t, c, r);
      }
    }
  }

  lemma ReplaceOne(d: char, c: char, r: string)
    ensures Replace([d], c, r) == if d == c then r else [d]
  {
    assert [d][1..] == "";
  }

  lemma ReplaceTwo(d: char, e: char, c: char, r: string)
    ensures Replace([d, e], c, r) == (if d == c then r else [d]) + (if e == c then r else [e])
  {
    assert [d, e] == [d] + [e];
    ReplaceConcat([d], [e], c, r);
    ReplaceOne(d, c, r);
    ReplaceOne(e, c, r);
  }
}
