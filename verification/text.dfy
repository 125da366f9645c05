/**
 * String substitution as the writers use it: Rust's `str::replace`, which
 * scans left to right, replaces every non-overlapping occurrence of the
 * pattern and never rescans the inserted text; the XML escaping of `&`
 * built on it; and the shape of a filled `%LOC%`/`%LASTMOD%` entry template.
 */
module Text {
  import opened Seqs

  const LOC_HOLE: string := "%LOC%"
  const LASTMOD_HOLE: string := "%LASTMOD%"

  /** `s` with every occurrence of `pat`, found left to right without overlap, replaced by `rep`. */
  function Replace(s: string, pat: string, rep: string): (r: string)
    requires pat != []
    ensures rep == pat ==> r == s
    ensures |rep| == |pat| ==> |r| == |s|
    decreases |s|
  {
    if s == [] then []
    else if pat <= s then rep + Replace(s[|pat|..], pat, rep)
    else [s[0]] + Replace(s[1..], pat, rep)
  }

  /** A match at the front is replaced and the scan continues after it. */
  lemma ReplaceAtMatch(pat: string, rep: string, b: string)
    requires pat != []
    ensures Replace(pat + b, pat, rep) == rep + Replace(b, pat, rep)
  {
    assert pat <= pat + b;
    assert (pat + b)[|pat|..] == b;
  }

  /** A front character that does not start a match is kept. */
  lemma ReplaceMiss(pat: string, rep: string, c: char, b: string)
    requires pat != []
    requires !(pat <= [c] + b)
    ensures Replace([c] + b, pat, rep) == [c] + Replace(b, pat, rep)
  {
    assert ([c] + b)[1..] == b;
  }

  /** Two strings that differ at a position both reach are not prefix-related. */
  lemma Mismatch(pat: string, s: string, i: nat)
    requires i < |pat| && i < |s| && pat[i] != s[i]
    ensures !(pat <= s)
  {
  }

  /** A prefix that cannot contain the start of a match is copied unchanged. */
  lemma {:induction false} ReplaceSkip(pat: string, rep: string, a: string, b: string)
    requires pat != []
    requires pat[0] !in a
    ensures Replace(a + b, pat, rep) == a + Replace(b, pat, rep)
  {
    if a == [] {
      assert a + b == b;
    } else {
      assert a + b == [a[0]] + (a[1..] + b);
      Mismatch(pat, [a[0]] + (a[1..] + b), 0);
      ReplaceMiss(pat, rep, a[0], a[1..] + b);
      ReplaceSkip(pat, rep, a[1..], b);
      assert a == [a[0]] + a[1..];
    }
  }

  /** Text in which the pattern's first character never occurs is left as it is. */
  lemma ReplaceAbsent(pat: string, rep: string, s: string)
    requires pat != []
    requires pat[0] !in s
    ensures Replace(s, pat, rep) == s
  {
    ReplaceSkip(pat, rep, s, []);
    assert s + [] == s;
  }

  /** The number of `&` characters in `s`. */
  function Ampersands(s: string): nat
  {
    if s == [] then 0 else (if s[0] == '&' then 1 else 0) + Ampersands(s[1..])
  }

  /** Replacing each `&` by the five characters of `&amp;` adds four characters per `&`. */
  lemma {:induction false} EscapeLength(s: string)
    ensures |Replace(s, "&", "&amp;")| == |s| + 4 * Ampersands(s)
  {
    if s != [] {
      EscapeLength(s[1..]);
      if s[0] == '&' {
        assert "&" <= s;
      } else {
        Mismatch("&", s, 0);
      }
    }
  }

  /** XML entity escaping of a `loc` value: every `&` becomes `&amp;`, so the text grows by four characters per `&`. */
  function Escape(s: string): (e: string)
    ensures |e| == |s| + 4 * Ampersands(s)
  {
    EscapeLength(s);
    Replace(s, "&", "&amp;")
  }

  /** The inverse of `Escape`: every `&amp;` becomes `&`. */
  function Unescape(s: string): string
  {
    Replace(s, "&amp;", "&")
  }

  /** Escaping loses nothing: unescaping gives back the original text, character for character. */
  lemma {:induction false} UnescapeEscape(s: string)
    ensures Unescape(Escape(s)) == s
  {
    if s != [] {
      var c, t := s[0], s[1..];
      assert s == [c] + t;
      UnescapeEscape(t);
      if c == '&' {
        assert "&" <= s;
        assert Escape(s) == "&amp;" + Escape(t);
        ReplaceAtMatch("&amp;", "&", Escape(t));
      } else {
        assert !("&" <= s);
        assert Escape(s) == [c] + Escape(t);
        Mismatch("&amp;", [c] + Escape(t), 0);
        ReplaceMiss("&amp;", "&", c, Escape(t));
      }
    }
  }

  /** Every `&` of escaped text begins an `&amp;` entity. */
  lemma {:induction false} EscapedAmpersands(s: string, i: nat)
    requires i < |Escape(s)| && Escape(s)[i] == '&'
    ensures i + 5 <= |Escape(s)| && Escape(s)[i .. i + 5] == "&amp;"
  {
    var c, t := s[0], s[1..];
    var h := if c == '&' then "&amp;" else [c];
    var e, r := Escape(s), Escape(t);
    assert e == h + r by {
      EscapeCons(c, t);
      assert s == [c] + t;
    }
    if i < |h| {
      assert e[i] == h[i];
      assert e[..5] == h;
    } else {
      EscapedAmpersands(t, i - |h|);
      assert e[i .. i + 5] == r[i - |h| .. i - |h| + 5];
    }
  }

  /** Escaping works character by character: `&` becomes `&amp;`, anything else is kept. */
  lemma EscapeCons(c: char, t: string)
    ensures Escape([c] + t) == (if c == '&' then "&amp;" else [c]) + Escape(t)
  {
    var s := [c] + t;
    assert s[0] == c && s[1..] == t;
    if c == '&' {
      assert "&" <= s;
    } else {
      Mismatch("&", s, 0);
    }
  }

  /** Escaping only inserts characters: text without `&` is unchanged. */
  lemma EscapeIdentity(s: string)
    requires '&' !in s
    ensures Escape(s) == s
  {
    ReplaceAbsent("&", "&amp;", s);
  }

  /** An entry template: literal markup around a `%LOC%` hole and a `%LASTMOD%` hole. */
  function Template(open: string, mid: string, close: string): string
  {
    open + LOC_HOLE + mid + LASTMOD_HOLE + close
  }

  /** `%LASTMOD%` does not match at a `%LOC%` hole followed by markup. */
  lemma ReplacePastLocHole(rep: string, x: string)
    requires x != [] && x[0] == '<'
    ensures Replace(LOC_HOLE + x, LASTMOD_HOLE, rep) == LOC_HOLE + Replace(x, LASTMOD_HOLE, rep)
  {
    var lm := LASTMOD_HOLE;
    var y := ['%'] + x;
    assert LOC_HOLE + x == ['%'] + ("LOC" + y);
    Mismatch(lm, ['%'] + ("LOC" + y), 2);
    ReplaceMiss(lm, rep, '%', "LOC" + y);
    ReplaceSkip(lm, rep, "LOC", y);
    Mismatch(lm, y, 1);
    ReplaceMiss(lm, rep, '%', x);
  }

  /** After the `%LOC%` hole and markup without `%`, the `%LASTMOD%` hole is the only match. */
  lemma FillLastmodTail(mid: string, close: string, lastmod: string)
    requires '%' !in mid && '%' !in close
    requires mid != [] && mid[0] == '<'
    ensures Replace(LOC_HOLE + (mid + (LASTMOD_HOLE + close)), LASTMOD_HOLE, lastmod)
              == LOC_HOLE + (mid + (lastmod + close))
  {
    var lm := LASTMOD_HOLE;
    ReplaceAtMatch(lm, lastmod, close);
    ReplaceAbsent(lm, lastmod, close);
    ReplaceSkip(lm, lastmod, mid, lm + close);
    ReplacePastLocHole(lastmod, mid + (lm + close));
  }

  /** Filling `%LASTMOD%` puts `lastmod` in its hole and leaves the `%LOC%` hole for later. */
  lemma FillLastmod(open: string, mid: string, close: string, lastmod: string)
    requires '%' !in open && '%' !in mid && '%' !in close
    requires mid != [] && mid[0] == '<'
    ensures Replace(Template(open, mid, close), LASTMOD_HOLE, lastmod)
              == open + (LOC_HOLE + (mid + (lastmod + close)))
  {
    var rest := LOC_HOLE + (mid + (LASTMOD_HOLE + close));
    assert Template(open, mid, close) == open + rest;
    ReplaceSkip(LASTMOD_HOLE, lastmod, open, rest);
    FillLastmodTail(mid, close, lastmod);
  }

  /** Filling `%LOC%` inserts `loc` verbatim, even when it contains `%`: inserted text is never rescanned. */
  lemma FillLoc(open: string, rest: string, loc: string)
    requires '%' !in open && '%' !in rest
    ensures Replace(open + (LOC_HOLE + rest), LOC_HOLE, loc) == open + (loc + rest)
  {
    ReplaceSkip(LOC_HOLE, loc, open, LOC_HOLE + rest);
    ReplaceAtMatch(LOC_HOLE, loc, rest);
    ReplaceAbsent(LOC_HOLE, loc, rest);
  }

  /**
   * Filling `%LASTMOD%` first and `%LOC%` second, as the writers do, puts
   * `loc` and `lastmod` in their holes and keeps the markup around them.
   */
  lemma FillTemplate(open: string, mid: string, close: string, lastmod: string, loc: string)
    requires '%' !in open && '%' !in mid && '%' !in close
    requires mid != [] && mid[0] == '<'
    requires '%' !in lastmod
    ensures Replace(Replace(Template(open, mid, close), LASTMOD_HOLE, lastmod), LOC_HOLE, loc)
              == open + loc + mid + lastmod + close
  {
    var rest := mid + (lastmod + close);
    AppendAssoc(open + loc + mid, lastmod, close);
    AppendAssoc(open + loc, mid, lastmod + close);
    AppendAssoc(open, loc, rest);
    FillLastmod(open, mid, close, lastmod);
    FillLoc(open, rest, loc);
  }
}
