/**
 * The sitemap run: every stored document whose item type is admitted
 * contributes its English name and then its Japanese name as search-page
 * URLs; a name already written, in either language, is skipped; each URL is
 * `&`-escaped into the `<url>` entry template and handed to the partition
 * writer, whose files are flushed at the end.
 */
module Driver {
  import opened Wrappers
  import opened Seqs
  import opened Text
  import opened Files
  import opened Sitemap

  /** A stored document, as read from the collection. */
  datatype FlatDocument = FlatDocument(
    id: string,
    itemType: int,
    unique: Option<string>,
    name: Option<string>,
    nameJapanese: Option<string>)

  /** A name that may be written as a URL, and whether it is the Japanese name. */
  datatype Candidate = Candidate(key: string, japanese: bool)

  /** Entries per sitemap partition in a run. */
  const PARTITION_SIZE: nat := 1000

  /** The markup of the `<url>` entry template around its two holes. */
  const URL_OPEN: string := "\n    <url>\n        <loc>"
  const URL_MID: string := "</loc>\n        <lastmod>"
  const URL_CLOSE: string := "</lastmod>\n    </url>"

  /** The `<url>` entry template, with a `%LOC%` and a `%LASTMOD%` hole. */
  function UrlTemplate(): (t: string)
    ensures t == URL_OPEN + LOC_HOLE + URL_MID + LASTMOD_HOLE + URL_CLOSE
  {
    Template(URL_OPEN, URL_MID, URL_CLOSE)
  }

  /** Item types that get through both filters of the loop: the first drops 0 and 3 and up, the second drops 2. */
  function Admitted(itemType: int): (b: bool)
    ensures b <==> itemType == 1 || itemType < 0
  {
    !(itemType == 0 || itemType >= 3) && itemType != 2
  }

  /** The names a document offers, English before Japanese; a filtered-out document offers none. */
  function DocCandidates(d: FlatDocument): (cs: seq<Candidate>)
    ensures !Admitted(d.itemType) ==> cs == []
    ensures Admitted(d.itemType) ==> |cs| == (if d.name.Some? then 1 else 0) + (if d.nameJapanese.Some? then 1 else 0)
    ensures forall c :: c in cs ==> if c.japanese then d.nameJapanese == Some(c.key) else d.name == Some(c.key)
    ensures forall i, j :: 0 <= i < j < |cs| ==> !cs[i].japanese && cs[j].japanese
  {
    if !Admitted(d.itemType) then [] else Named(d.name, false) + Named(d.nameJapanese, true)
  }

  /** The candidate an optional name field offers: none when the field is absent. */
  function Named(name: Option<string>, japanese: bool): seq<Candidate>
  {
    if name.Some? then [Candidate(name.value, japanese)] else []
  }

  /** The names of all documents, in document order. */
  function Candidates(docs: seq<FlatDocument>): seq<Candidate>
  {
    if docs == [] then []
    else
      var n := |docs| - 1;
      Candidates(docs[..n]) + DocCandidates(docs[n])
  }

  /** The names among `cs`, of either language. */
  function KeysOf(cs: seq<Candidate>): set<string>
  {
    if cs == [] then {}
    else
      var n := |cs| - 1;
      KeysOf(cs[..n]) + {cs[n].key}
  }

  /** The candidates whose name has not occurred earlier in `cs`, in order: the ones a shared seen-map lets through. */
  function FirstOccurrences(cs: seq<Candidate>): seq<Candidate>
  {
    if cs == [] then []
    else
      var n := |cs| - 1;
      FirstOccurrences(cs[..n]) + (if cs[n].key in KeysOf(cs[..n]) then [] else [cs[n]])
  }

  /** The query of a name's search page: `keyword`, then `item-type=all`, then `lang=ja` for a Japanese name. */
  function QueryPairs(c: Candidate): (ps: seq<(string, string)>)
    ensures |ps| == if c.japanese then 3 else 2
    ensures ps[0] == ("keyword", c.key) && ps[1] == ("item-type", "all")
    ensures c.japanese ==> ps[2] == ("lang", "ja")
  {
    [("keyword", c.key), ("item-type", "all")] + (if c.japanese then [("lang", "ja")] else [])
  }

  /** The search-page URL of a name; `encode` is the form-urlencoding of the query pairs. */
  function Loc(baseUrl: string, encode: seq<(string, string)> -> string, c: Candidate): (loc: string)
    ensures |loc| == |baseUrl| + 1 + |encode(QueryPairs(c))|
    ensures loc[..|baseUrl|] == baseUrl && loc[|baseUrl|] == '?' && loc[|baseUrl| + 1..] == encode(QueryPairs(c))
  {
    baseUrl + "?" + encode(QueryPairs(c))
  }

  /**
   * The entry written for a name: the template with its `&`-escaped URL in
   * the `%LOC%` hole. When the template is the `<url>` markup, the hole and
   * text without `%` after it, the URL lands in the hole and the rest is kept.
   */
  function Xml(f: string, baseUrl: string, encode: seq<(string, string)> -> string, c: Candidate): (x: string)
    ensures var n := |URL_OPEN + LOC_HOLE|;
      n <= |f| && f[..n] == URL_OPEN + LOC_HOLE && '%' !in f[n..] ==>
        x == URL_OPEN + Escape(Loc(baseUrl, encode, c)) + f[n..]
  {
    var e := Escape(Loc(baseUrl, encode, c));
    var n := |URL_OPEN + LOC_HOLE|;
    if n <= |f| && f[..n] == URL_OPEN + LOC_HOLE && '%' !in f[n..] then
      assert '%' !in URL_OPEN;
      assert f == URL_OPEN + (LOC_HOLE + f[n..]);
      FillLoc(URL_OPEN, f[n..], e);
      Replace(f, LOC_HOLE, e)
    else
      Replace(f, LOC_HOLE, e)
  }

  /** The entries for `cs`, in order. */
  function Xmls(f: string, baseUrl: string, encode: seq<(string, string)> -> string, cs: seq<Candidate>): (xs: seq<string>)
    ensures |xs| == |cs|
    ensures forall i :: 0 <= i < |cs| ==> xs[i] == Xml(f, baseUrl, encode, cs[i])
  {
    seq(|cs|, i requires 0 <= i < |cs| => Xml(f, baseUrl, encode, cs[i]))
  }

  lemma XmlsSnoc(f: string, baseUrl: string, encode: seq<(string, string)> -> string, cs: seq<Candidate>, c: Candidate)
    ensures Xmls(f, baseUrl, encode, cs + [c]) == Xmls(f, baseUrl, encode, cs) + [Xml(f, baseUrl, encode, c)]
  {
  }

  /** Seeing one more candidate: its name joins the seen names, and it is kept exactly when its name is new. */
  lemma CandidateSnoc(cs: seq<Candidate>, c: Candidate)
    ensures KeysOf(cs + [c]) == KeysOf(cs) + {c.key}
    ensures FirstOccurrences(cs + [c]) == FirstOccurrences(cs) + (if c.key in KeysOf(cs) then [] else [c])
  {
    assert (cs + [c])[..|cs|] == cs;
  }

  /**
   * Write the entry for `c` unless its name is already in `seen`, then
   * record the name; `history` is every candidate considered before.
   */
  method WriteCandidate(gen: Generator, seen: map<string, bool>, c: Candidate, f: string, baseUrl: string,
                        encode: seq<(string, string)> -> string, ghost history: seq<Candidate>)
    returns (seen': map<string, bool>)
    requires gen.Valid()
    requires seen.Keys == KeysOf(history)
    requires gen.Written() == Xmls(f, baseUrl, encode, FirstOccurrences(history))
    modifies gen, gen.disk
    ensures gen.Valid()
    ensures seen'.Keys == KeysOf(history + [c])
    ensures gen.Written() == Xmls(f, baseUrl, encode, FirstOccurrences(history + [c]))
    ensures c.key in seen ==> seen' == seen && gen.Written() == old(gen.Written())
    ensures c.key !in seen ==> seen' == seen[c.key := true] && gen.Written() == old(gen.Written()) + [Xml(f, baseUrl, encode, c)]
    ensures gen.disk.documents == old(gen.disk.documents)
  {
    CandidateSnoc(history, c);
    XmlsSnoc(f, baseUrl, encode, FirstOccurrences(history), c);
    seen' := seen;
    if c.key !in seen {
      var url := baseUrl + "?" + encode(QueryPairs(c));
      var xml := Replace(f, LOC_HOLE, Escape(url));
      gen.Write(xml);
      seen' := seen[c.key := true];
    } else {
      assert FirstOccurrences(history) + [] == FirstOccurrences(history);
    }
  }

  /** One `if let Some(..)` block of the loop: write the field's name unless already seen. */
  method WriteField(gen: Generator, seen: map<string, bool>, name: Option<string>, japanese: bool, f: string, baseUrl: string,
                    encode: seq<(string, string)> -> string, ghost history: seq<Candidate>)
    returns (seen': map<string, bool>)
    requires gen.Valid()
    requires seen.Keys == KeysOf(history)
    requires gen.Written() == Xmls(f, baseUrl, encode, FirstOccurrences(history))
    modifies gen, gen.disk
    ensures gen.Valid()
    ensures seen'.Keys == KeysOf(history + Named(name, japanese))
    ensures gen.Written() == Xmls(f, baseUrl, encode, FirstOccurrences(history + Named(name, japanese)))
    ensures gen.disk.documents == old(gen.disk.documents)
  {
    seen' := seen;
    if name.Some? {
      seen' := WriteCandidate(gen, seen, Candidate(name.value, japanese), f, baseUrl, encode, history);
    } else {
      assert history + Named(name, japanese) == history;
    }
  }

  /** The body of the loop for an admitted document: its English name, then its Japanese name. */
  method WriteNames(gen: Generator, seen: map<string, bool>, doc: FlatDocument, f: string, baseUrl: string,
                    encode: seq<(string, string)> -> string, ghost history: seq<Candidate>)
    returns (seen': map<string, bool>)
    requires Admitted(doc.itemType)
    requires gen.Valid()
    requires seen.Keys == KeysOf(history)
    requires gen.Written() == Xmls(f, baseUrl, encode, FirstOccurrences(history))
    modifies gen, gen.disk
    ensures gen.Valid()
    ensures seen'.Keys == KeysOf(history + DocCandidates(doc))
    ensures gen.Written() == Xmls(f, baseUrl, encode, FirstOccurrences(history + DocCandidates(doc)))
    ensures gen.disk.documents == old(gen.disk.documents)
  {
    var english := Named(doc.name, false);
    seen' := WriteField(gen, seen, doc.name, false, f, baseUrl, encode, history);
    seen' := WriteField(gen, seen', doc.nameJapanese, true, f, baseUrl, encode, history + english);
    AppendAssoc(history, english, Named(doc.nameJapanese, true));
  }

  /**
   * The run over the fetched documents: fill `%LASTMOD%` once, open the
   * partition writer, write each admitted document's unseen names, flush.
   */
  method GenerateSitemap(docs: seq<FlatDocument>, lastmod: string, baseUrl: string,
                         encode: seq<(string, string)> -> string, disk: Disk)
    returns (gen: Generator, seen: map<string, bool>)
    modifies disk
    ensures fresh(gen) && gen.Valid() && gen.disk == disk && gen.max == PARTITION_SIZE
    ensures gen.origin == old(disk.texts)
    ensures gen.Written()
            == Xmls(Replace(UrlTemplate(), LASTMOD_HOLE, lastmod), baseUrl, encode, FirstOccurrences(Candidates(docs)))
    ensures seen.Keys == KeysOf(Candidates(docs))
    ensures |gen.Written()| == |seen.Keys|
    ensures disk.documents == old(disk.documents)
  {
    var f := Replace(UrlTemplate(), LASTMOD_HOLE, lastmod);
    gen := new Generator(PARTITION_SIZE, disk);
    seen := map[];
    for i := 0 to |docs|
      invariant gen.Valid() && gen.disk == disk && gen.max == PARTITION_SIZE
      invariant gen.origin == old(disk.texts)
      invariant seen.Keys == KeysOf(Candidates(docs[..i]))
      invariant gen.Written() == Xmls(f, baseUrl, encode, FirstOccurrences(Candidates(docs[..i])))
      invariant disk.documents == old(disk.documents)
    {
      var doc := docs[i];
      ghost var before := Candidates(docs[..i]);
      assert Candidates(docs[..i + 1]) == before + DocCandidates(doc) by {
        assert docs[..i + 1][..i] == docs[..i];
      }
      if doc.itemType == 0 || doc.itemType >= 3 {
        assert before + [] == before;
        continue;
      }
      if doc.itemType == 2 {
        assert before + [] == before;
        continue;
      }
      seen := WriteNames(gen, seen, doc, f, baseUrl, encode, before);
    }
    assert docs[..|docs|] == docs;
    gen.Flush();
    WriteCount(Candidates(docs));
  }

  /** One write per seen name: the kept candidates are as many as the distinct names. */
  lemma {:induction false} WriteCount(cs: seq<Candidate>)
    ensures |FirstOccurrences(cs)| == |KeysOf(cs)|
  {
    if cs != [] {
      var n := |cs| - 1;
      var pre, c := cs[..n], cs[n];
      assert pre + [c] == cs;
      WriteCount(pre);
      CandidateSnoc(pre, c);
      if c.key in KeysOf(pre) {
        assert KeysOf(cs) == KeysOf(pre);
        assert FirstOccurrences(cs) == FirstOccurrences(pre) + [];
      } else {
        assert |KeysOf(pre) + {c.key}| == |KeysOf(pre)| + 1;
      }
    }
  }

  /** A name is among the seen names exactly when some candidate carries it. */
  lemma {:induction false} KeysOfMeaning(cs: seq<Candidate>, k: string)
    ensures k in KeysOf(cs) <==> exists i :: 0 <= i < |cs| && cs[i].key == k
  {
    if cs != [] {
      var n := |cs| - 1;
      KeysOfMeaning(cs[..n], k);
      if k in KeysOf(cs[..n]) {
        var i :| 0 <= i < n && cs[..n][i].key == k;
        assert cs[i].key == k;
      }
      if exists i :: 0 <= i < |cs| && cs[i].key == k {
        var i :| 0 <= i < |cs| && cs[i].key == k;
        if i < n {
          assert cs[..n][i].key == k;
        }
      }
    }
  }

  /** Every name seen is written: the kept candidates carry exactly the names of all candidates. */
  lemma {:induction false} FirstOccurrencesKeys(cs: seq<Candidate>)
    ensures KeysOf(FirstOccurrences(cs)) == KeysOf(cs)
  {
    if cs != [] {
      var n := |cs| - 1;
      var pre, c := cs[..n], cs[n];
      assert pre + [c] == cs;
      FirstOccurrencesKeys(pre);
      CandidateSnoc(pre, c);
      if c.key in KeysOf(pre) {
        assert FirstOccurrences(pre) + [] == FirstOccurrences(pre);
      } else {
        CandidateSnoc(FirstOccurrences(pre), c);
      }
    }
  }

  /** No name is written twice, in either language: the kept candidates carry pairwise distinct names. */
  lemma {:induction false} FirstOccurrencesDistinct(cs: seq<Candidate>)
    ensures forall i, j :: 0 <= i < j < |FirstOccurrences(cs)| ==> FirstOccurrences(cs)[i].key != FirstOccurrences(cs)[j].key
  {
    if cs != [] {
      var n := |cs| - 1;
      var pre, c := cs[..n], cs[n];
      assert pre + [c] == cs;
      FirstOccurrencesDistinct(pre);
      CandidateSnoc(pre, c);
      var kept := FirstOccurrences(pre);
      if c.key !in KeysOf(pre) {
        FirstOccurrencesKeys(pre);
        KeysOfMeaning(kept, c.key);
        assert FirstOccurrences(cs) == kept + [c];
      } else {
        assert FirstOccurrences(cs) == kept + [];
      }
    }
  }

  /** A candidate whose name occurs nowhere before it is written. */
  lemma {:induction false} FirstWins(cs: seq<Candidate>, i: nat)
    requires i < |cs|
    requires forall j :: 0 <= j < i ==> cs[j].key != cs[i].key
    ensures cs[i] in FirstOccurrences(cs)
  {
    var n := |cs| - 1;
    var pre := cs[..n];
    assert pre + [cs[n]] == cs;
    CandidateSnoc(pre, cs[n]);
    if i < n {
      FirstWins(pre, i);
    } else {
      KeysOfMeaning(pre, cs[n].key);
    }
  }

  /** English and Japanese names share one seen-map: a document whose two names agree writes at most the English one. */
  lemma SameNameBothLanguages(docs: seq<FlatDocument>, d: FlatDocument, x: string)
    requires Admitted(d.itemType) && d.name == Some(x) && d.nameJapanese == Some(x)
    ensures FirstOccurrences(Candidates(docs + [d]))
            == FirstOccurrences(Candidates(docs)) + (if x in KeysOf(Candidates(docs)) then [] else [Candidate(x, false)])
  {
    var pre := Candidates(docs);
    var en, ja := Candidate(x, false), Candidate(x, true);
    assert (docs + [d])[..|docs|] == docs;
    assert Candidates(docs + [d]) == (pre + [en]) + [ja];
    CandidateSnoc(pre, en);
    CandidateSnoc(pre + [en], ja);
  }

  /**
   * A written entry is the `<url>` markup around the escaped URL and
   * `lastmod`; the escaped URL unescapes back to the URL, and each of its
   * `&` begins an `&amp;` entity.
   */
  lemma EntryShape(lastmod: string, baseUrl: string, encode: seq<(string, string)> -> string, c: Candidate)
    requires '%' !in lastmod
    ensures var e := Escape(Loc(baseUrl, encode, c));
      && Xml(Replace(UrlTemplate(), LASTMOD_HOLE, lastmod), baseUrl, encode, c) == URL_OPEN + e + URL_MID + lastmod + URL_CLOSE
      && Unescape(e) == Loc(baseUrl, encode, c)
      && forall i :: 0 <= i < |e| && e[i] == '&' ==> i + 5 <= |e| && e[i .. i + 5] == "&amp;"
  {
    var loc := Loc(baseUrl, encode, c);
    assert '%' !in URL_OPEN && '%' !in URL_MID && '%' !in URL_CLOSE;
    FillTemplate(URL_OPEN, URL_MID, URL_CLOSE, lastmod, Escape(loc));
    UnescapeEscape(loc);
    forall i | 0 <= i < |Escape(loc)| && Escape(loc)[i] == '&'
      ensures i + 5 <= |Escape(loc)| && Escape(loc)[i .. i + 5] == "&amp;"
    {
      EscapedAmpersands(loc, i);
    }
  }
}
