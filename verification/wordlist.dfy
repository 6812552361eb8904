/** The manual word-list split (App.py:75, QuickApp.py:93): newlines become
    commas, the text is split on commas, every piece is stripped, and empty
    pieces are dropped. Order is kept and nothing is de-duplicated. */
module WordList {
  import opened PyText

  /** What the split can produce: non-empty, no whitespace at either end,
      and neither separator inside. */
  predicate IsWord(w: string) {
    w != [] && IsStripped(w) && ',' !in w && '\n' !in w
  }

  /** `text.replace('\n', ',').split(',')`. */
  function Pieces(text: string): (pieces: seq<string>)
    ensures forall i :: 0 <= i < |pieces| ==> ',' !in pieces[i] && '\n' !in pieces[i]
  {
    var replaced := ReplaceChar(text, '\n', ',');
    assert '\n' !in replaced by {
      forall i | 0 <= i < |replaced|
        ensures replaced[i] != '\n'
      {
      }
    }
    Split(replaced, ',')
  }

  /** What one piece contributes: its stripped form, unless that is empty. */
  function KeepPiece(piece: string): (kept: seq<string>)
    ensures |kept| <= 1
  {
    var w := Strip(piece);
    if w != [] then [w] else []
  }

  /** A piece without separators contributes only a word. */
  lemma KeepPieceIsWord(piece: string)
    requires ',' !in piece && '\n' !in piece
    ensures forall j :: 0 <= j < |KeepPiece(piece)| ==> IsWord(KeepPiece(piece)[j])
  {
  }

  /** `[y for x in xs for y in f(x)]`. */
  function FlatMap<A, B>(f: A -> seq<B>, xs: seq<A>): seq<B>
  {
    if |xs| == 0 then [] else f(xs[0]) + FlatMap(f, xs[1..])
  }

  lemma {:induction false} FlatMapConcat<A, B>(f: A -> seq<B>, a: seq<A>, b: seq<A>)
    ensures FlatMap(f, a + b) == FlatMap(f, a) + FlatMap(f, b)
    decreases |a|
  {
    if |a| == 0 {
      assert a + b == b;
    } else {
      assert (a + b)[0] == a[0] && (a + b)[1..] == a[1..] + b;
      FlatMapConcat(f, a[1..], b);
    }
  }

  /** `[w.strip() for w in pieces if w.strip()]`. */
  function KeepWords(pieces: seq<string>): seq<string>
  {
    FlatMap(KeepPiece, pieces)
  }

  lemma {:induction false} KeepWordsAreWords(pieces: seq<string>)
    requires forall i :: 0 <= i < |pieces| ==> ',' !in pieces[i] && '\n' !in pieces[i]
    ensures forall j :: 0 <= j < |KeepWords(pieces)| ==> IsWord(KeepWords(pieces)[j])
    decreases |pieces|
  {
    if |pieces| > 0 {
      assert KeepWords(pieces) == KeepPiece(pieces[0]) + KeepWords(pieces[1..]);
      KeepPieceIsWord(pieces[0]);
      KeepWordsAreWords(pieces[1..]);
    }
  }

  /** The list of words a manual entry yields. */
  function ParseManualList(text: string): (words: seq<string>)
    ensures forall j :: 0 <= j < |words| ==> IsWord(words[j])
  {
    KeepWordsAreWords(Pieces(text));
    KeepWords(Pieces(text))
  }

  /** A comma or a newline between two texts separates their words: the
      words of the whole are those of the left part followed by those of the
      right part, so order is kept and repeats survive. */
  lemma ParseManualListConcat(a: string, b: string, sep: char)
    requires sep == ',' || sep == '\n'
    ensures ParseManualList(a + [sep] + b) == ParseManualList(a) + ParseManualList(b)
  {
    var ra := ReplaceChar(a, '\n', ',');
    var rb := ReplaceChar(b, '\n', ',');
    ReplaceCharConcat(a + [sep], b, '\n', ',');
    ReplaceCharConcat(a, [sep], '\n', ',');
    assert ReplaceChar([sep], '\n', ',') == [','];
    assert ReplaceChar(a + [sep] + b, '\n', ',') == ra + [','] + rb;
    SplitConcat(ra, rb, ',');
    FlatMapConcat(KeepPiece, Split(ra, ','), Split(rb, ','));
  }

  /** A text holding neither separator yields its stripped self, or nothing
      when it is blank. */
  lemma ParseManualListOnePiece(text: string)
    requires ',' !in text && '\n' !in text
    ensures ParseManualList(text) == (if AllSpace(text) then [] else [Strip(text)])
  {
    var replaced := ReplaceChar(text, '\n', ',');
    assert replaced == text;
    SplitWithoutSeparator(text, ',');
    assert [text][1..] == [];
    assert KeepWords([text]) == KeepPiece(text) + KeepWords([]);
  }

  /** A single word parses to itself. */
  lemma WordParsesToItself(w: string)
    requires IsWord(w)
    ensures ParseManualList(w) == [w]
  {
    assert !IsSpace(w[0]);
    ParseManualListOnePiece(w);
  }

  /** Round trip: words joined with commas (or with newlines) are split
      back into exactly the same list, duplicates and order included. */
  lemma {:induction false} ParseManualListJoin(words: seq<string>, sep: char)
    requires sep == ',' || sep == '\n'
    requires forall j :: 0 <= j < |words| ==> IsWord(words[j])
    ensures ParseManualList(Join(words, sep)) == words
    decreases |words|
  {
    if |words| == 0 {
      ParseManualListOnePiece([]);
    } else if |words| == 1 {
      WordParsesToItself(words[0]);
    } else {
      var w, rest := words[0], words[1..];
      WordParsesToItself(w);
      ParseManualListJoin(rest, sep);
      assert Join(words, sep) == w + [sep] + Join(rest, sep);
      ParseManualListConcat(w, Join(rest, sep), sep);
      assert [w] + rest == words;
    }
  }

  /** A word entered twice is kept twice. */
  lemma RepeatedWordKept(w: string)
    requires IsWord(w)
    ensures ParseManualList(w + [','] + w) == [w, w]
  {
    assert Join([w, w], ',') == w + [','] + Join([w], ',');
    ParseManualListJoin([w, w], ',');
  }

  /** A text that is only a separator yields no words. */
  lemma SeparatorOnly()
    ensures ParseManualList([',']) == []
  {
    ParseManualListConcat([], [], ',');
    ParseManualListOnePiece([]);
  }
}
