/** The highlight tally `total_stats` (App.py:149-171, QuickApp.py:147-178):
    a counter per configured library, starting at 0, raised by one for each
    quad the page search returns, over pages, then libraries in
    configuration order, then each library's words. The search itself is an
    uninterpreted function from a page and a word to the quads found. */
module Tally {
  import opened PyDict
  import opened Registry

  /** Hits of one page for a word list, counting a repeated word once per
      repeat. */
  function WordHits<P, Q>(page: P, words: seq<string>, search: (P, string) -> seq<Q>): nat
    decreases |words|
  {
    if |words| == 0 then 0
    else WordHits(page, words[..|words| - 1], search) + |search(page, words[|words| - 1])|
  }

  /** Hits of a document for a word list: the page-major sum. */
  function LibHits<P, Q>(pages: seq<P>, words: seq<string>, search: (P, string) -> seq<Q>): nat
    decreases |pages|
  {
    if |pages| == 0 then 0
    else LibHits(pages[..|pages| - 1], words, search) + WordHits(pages[|pages| - 1], words, search)
  }

  /** Hits of one word over the whole document. */
  function DocHits<P, Q>(pages: seq<P>, word: string, search: (P, string) -> seq<Q>): nat
    decreases |pages|
  {
    if |pages| == 0 then 0
    else DocHits(pages[..|pages| - 1], word, search) + |search(pages[|pages| - 1], word)|
  }

  /** Reference definition: the word-major sum. */
  function WordMajorHits<P, Q>(pages: seq<P>, words: seq<string>, search: (P, string) -> seq<Q>): nat
    decreases |words|
  {
    if |words| == 0 then 0
    else WordMajorHits(pages, words[..|words| - 1], search) + DocHits(pages, words[|words| - 1], search)
  }

  /** `{name: 0 for name in final_configs}`. */
  method ZeroStats(names: seq<string>) returns (stats: Dict<nat>)
    requires Distinct(names)
    ensures PyDict.Valid(stats) && stats.keys == names
    ensures forall n :: n in stats.entries ==> stats.entries[n] == 0
  {
    stats := Empty();
    var j := 0;
    while j < |names|
      invariant 0 <= j <= |names|
      invariant PyDict.Valid(stats) && stats.keys == names[..j]
      invariant forall n :: n in stats.entries ==> stats.entries[n] == 0
    {
      assert names[j] !in stats.entries by {
        assert forall i :: 0 <= i < j ==> names[i] != names[j];
      }
      stats := Put(stats, names[j], 0);
      assert names[..j + 1] == names[..j] + [names[j]];
      j := j + 1;
    }
    assert names[..j] == names;
  }

  /** The innermost loop, `for quad in quads: total_stats[lib_name] += 1`:
      the named counter grows by the number of quads, no other moves. */
  method AddQuads<Q>(stats: Dict<nat>, name: string, quads: seq<Q>) returns (out: Dict<nat>)
    requires PyDict.Valid(stats) && name in stats.entries
    ensures PyDict.Valid(out) && out.keys == stats.keys
    ensures out.entries == stats.entries[name := stats.entries[name] + |quads|]
  {
    out := stats;
    var q := 0;
    while q < |quads|
      invariant 0 <= q <= |quads|
      invariant PyDict.Valid(out) && out.keys == stats.keys
      invariant out.entries == stats.entries[name := stats.entries[name] + q]
    {
      out := Put(out, name, out.entries[name] + 1);
      q := q + 1;
    }
  }

  /** One word of one library on one page. App runs the quad loop
      unconditionally; QuickApp first tests `if quads`. Either way the
      library's counter grows by the number of quads. */
  method AddWordHits<Q>(script: Script, stats: Dict<nat>, name: string, quads: seq<Q>) returns (out: Dict<nat>)
    requires PyDict.Valid(stats) && name in stats.entries
    ensures PyDict.Valid(out) && out.keys == stats.keys
    ensures out.entries == stats.entries[name := stats.entries[name] + |quads|]
  {
    if script == App || |quads| > 0 {
      out := AddQuads(stats, name, quads);
    } else {
      out := stats;
      assert stats.entries[name := stats.entries[name] + |quads|] == stats.entries;
    }
  }

  /** One library on one page: every quad of every word raises that
      library's counter by one, and no other counter moves. */
  method AddLibraryHits<P, Q>(script: Script, stats: Dict<nat>, name: string, page: P, words: seq<string>,
                              search: (P, string) -> seq<Q>)
    returns (out: Dict<nat>)
    requires PyDict.Valid(stats) && name in stats.entries
    ensures PyDict.Valid(out) && out.keys == stats.keys
    ensures out.entries == stats.entries[name := stats.entries[name] + WordHits(page, words, search)]
  {
    out := stats;
    var k := 0;
    while k < |words|
      invariant 0 <= k <= |words|
      invariant PyDict.Valid(out) && out.keys == stats.keys
      invariant out.entries == stats.entries[name := stats.entries[name] + WordHits(page, words[..k], search)]
    {
      var quads := search(page, words[k]);
      var before := stats.entries[name] + WordHits(page, words[..k], search);
      assert words[..k + 1][..k] == words[..k];
      assert WordHits(page, words[..k + 1], search) == before - stats.entries[name] + |quads|;
      out := AddWordHits(script, out, name, quads);
      assert stats.entries[name := before][name := before + |quads|] == stats.entries[name := before + |quads|];
      k := k + 1;
    }
    assert words[..k] == words;
  }

  /** One page over every configured library, in configuration order: each
      counter grows by that library's hits on the page. */
  method AddPageHits<P, Q>(script: Script, configs: Dict<LibConfig>, stats: Dict<nat>, page: P,
                           search: (P, string) -> seq<Q>)
    returns (out: Dict<nat>)
    requires PyDict.Valid(configs) && PyDict.Valid(stats) && stats.keys == configs.keys
    ensures PyDict.Valid(out) && out.keys == stats.keys
    ensures forall n :: n in out.entries ==>
              out.entries[n] == stats.entries[n] + WordHits(page, configs.entries[n].words, search)
  {
    var names := configs.keys;
    out := stats;
    var l := 0;
    while l < |names|
      invariant 0 <= l <= |names|
      invariant PyDict.Valid(out) && out.keys == names
      invariant forall m :: 0 <= m < |names| ==>
                  out.entries[names[m]] == stats.entries[names[m]] + (if m < l then WordHits(page, configs.entries[names[m]].words, search) else 0)
    {
      var name := names[l];
      forall m | 0 <= m < |names| && m != l
        ensures names[m] != name
      {
      }
      out := AddLibraryHits(script, out, name, page, configs.entries[name].words, search);
      l := l + 1;
    }
    forall n | n in out.entries
      ensures out.entries[n] == stats.entries[n] + WordHits(page, configs.entries[n].words, search)
    {
      var m :| 0 <= m < |names| && names[m] == n;
    }
  }

  /** The loop over pages: each library ends with its page-major hit count,
      under its own name only. */
  method CountHighlights<P, Q>(script: Script, configs: Dict<LibConfig>, pages: seq<P>,
                               search: (P, string) -> seq<Q>)
    returns (stats: Dict<nat>)
    requires PyDict.Valid(configs)
    ensures PyDict.Valid(stats)
    ensures stats.keys == configs.keys
    ensures forall n :: n in stats.entries ==>
              n in configs.entries && stats.entries[n] == LibHits(pages, configs.entries[n].words, search)
  {
    stats := ZeroStats(configs.keys);
    var i := 0;
    while i < |pages|
      invariant 0 <= i <= |pages|
      invariant PyDict.Valid(stats) && stats.keys == configs.keys
      invariant forall n :: n in stats.entries ==> stats.entries[n] == LibHits(pages[..i], configs.entries[n].words, search)
    {
      assert pages[..i + 1][..i] == pages[..i];
      stats := AddPageHits(script, configs, stats, pages[i], search);
      i := i + 1;
    }
    assert pages[..i] == pages;
  }

  lemma {:induction false} WordHitsConcat<P, Q>(page: P, a: seq<string>, b: seq<string>, search: (P, string) -> seq<Q>)
    ensures WordHits(page, a + b, search) == WordHits(page, a, search) + WordHits(page, b, search)
    decreases |b|
  {
    if |b| == 0 {
      assert a + b == a;
    } else {
      var b' := b[..|b| - 1];
      assert (a + b)[..|a + b| - 1] == a + b';
      WordHitsConcat(page, a, b', search);
    }
  }

  /** A word listed twice is counted twice: the tally of a word list is the
      sum of the tallies of its parts. */
  lemma {:induction false} LibHitsConcat<P, Q>(pages: seq<P>, a: seq<string>, b: seq<string>, search: (P, string) -> seq<Q>)
    ensures LibHits(pages, a + b, search) == LibHits(pages, a, search) + LibHits(pages, b, search)
    decreases |pages|
  {
    if |pages| > 0 {
      LibHitsConcat(pages[..|pages| - 1], a, b, search);
      WordHitsConcat(pages[|pages| - 1], a, b, search);
    }
  }

  lemma {:induction false} LibHitsOneWord<P, Q>(pages: seq<P>, w: string, search: (P, string) -> seq<Q>)
    ensures LibHits(pages, [w], search) == DocHits(pages, w, search)
    decreases |pages|
  {
    if |pages| > 0 {
      LibHitsOneWord(pages[..|pages| - 1], w, search);
      assert [w][..0] == [];
      assert WordHits(pages[|pages| - 1], [w], search) == |search(pages[|pages| - 1], w)|;
    }
  }

  /** The page-major tally the loop computes equals the word-major sum: the
      count does not depend on the loop order. */
  lemma {:induction false} PageMajorIsWordMajor<P, Q>(pages: seq<P>, words: seq<string>, search: (P, string) -> seq<Q>)
    ensures LibHits(pages, words, search) == WordMajorHits(pages, words, search)
    decreases |words|
  {
    if |words| == 0 {
      LibHitsEmpty(pages, search);
    } else {
      var init := words[..|words| - 1];
      var w := words[|words| - 1];
      assert words == init + [w];
      LibHitsConcat(pages, init, [w], search);
      LibHitsOneWord(pages, w, search);
      PageMajorIsWordMajor(pages, init, search);
    }
  }

  lemma {:induction false} LibHitsEmpty<P, Q>(pages: seq<P>, search: (P, string) -> seq<Q>)
    ensures LibHits(pages, [], search) == 0
    decreases |pages|
  {
    if |pages| > 0 {
      LibHitsEmpty(pages[..|pages| - 1], search);
    }
  }
}
