/**
 * The CSV-to-flashcards conversion of the flashcard page: the text is cut
 * into lines, blank lines are dropped, the first remaining line is a header
 * and is skipped, and each later line becomes a card from its first two
 * comma-separated cells, trimmed, when both are non-empty.
 */
module CardParser {
  import opened Wrappers
  import opened JsStrings

  /** One question (`item`) and its answer (`response`). */
  datatype Flashcard = Flashcard(item: string, response: string)

  /** What every parsed card satisfies: both sides non-empty, trimmed, and free of the cell separator. */
  predicate WellFormed(c: Flashcard) {
    && c.item != [] && c.response != []
    && IsTrimmed(c.item) && IsTrimmed(c.response)
    && ',' !in c.item && ',' !in c.response
  }

  /** `line.trim()` is truthy: the line holds something other than whitespace. */
  predicate NonBlank(line: string)
    ensures NonBlank(line) <==> !AllWhitespace(line)
  {
    Trim(line) != []
  }

  /** `xs.filter(p)`. */
  function Filter<T>(xs: seq<T>, p: T -> bool): (r: seq<T>)
    ensures |r| <= |xs|
    ensures forall k :: 0 <= k < |r| ==> p(r[k])
  {
    if xs == [] then []
    else
      var rest := Filter(xs[1..], p);
      if p(xs[0]) then [xs[0]] + rest else rest
  }

  /** `lines.filter(line => line.trim())`: the non-blank lines, in order. */
  function NonBlankLines(lines: seq<string>): (r: seq<string>)
    ensures |r| <= |lines|
    ensures forall k :: 0 <= k < |r| ==> NonBlank(r[k])
  {
    Filter(lines, NonBlank)
  }

  /**
   * One data row: `line.split(',').map(cell => cell.trim())`, of which the
   * first two cells are the item and the response (the second is
   * `undefined` when the line has no comma); the row is kept only when both
   * are non-empty. The later cells are trimmed too in the source but never read.
   */
  function RowToCard(line: string): (card: Option<Flashcard>)
    ensures card.Some? ==> WellFormed(card.value)
  {
    var cells := Split(line, ',');
    if |cells| < 2 then None
    else CardOfCells(cells[0], cells[1])
  }

  /** `{ item, response }` from two raw cells, kept when both trim to non-empty text. */
  function CardOfCells(first: string, second: string): (card: Option<Flashcard>)
    requires ',' !in first && ',' !in second
    ensures card.Some? ==> WellFormed(card.value)
    ensures card.Some? <==> !AllWhitespace(first) && !AllWhitespace(second)
    ensures card.Some? ==> card.value == Flashcard(Trim(first), Trim(second))
  {
    var item, response := Trim(first), Trim(second);
    if item != [] && response != [] then
      TrimKeepsOut(first, ',');
      TrimKeepsOut(second, ',');
      Some(Flashcard(item, response))
    else None
  }

  /** `xs.map(f).filter(...)` where `f` yields `None` for the dropped elements. */
  function FilterMap<T, U>(xs: seq<T>, f: T -> Option<U>): (ys: seq<U>)
    ensures |ys| <= |xs|
  {
    if xs == [] then []
    else
      match f(xs[0])
      case Some(y) => [y] + FilterMap(xs[1..], f)
      case None => FilterMap(xs[1..], f)
  }

  /** The data rows turned into cards, dropping the rows that make none, in their original order. */
  function CollectCards(rows: seq<string>): (cards: seq<Flashcard>)
    ensures |cards| <= |rows|
    ensures forall k :: 0 <= k < |cards| ==> WellFormed(cards[k])
  {
    var cards := FilterMap(rows, RowToCard);
    KeptFromCards(rows, RowToCard, 0);
    assert forall k :: 0 <= k < |cards| ==> RowToCard(rows[KeptFrom(rows, RowToCard, 0)[k]]) == Some(cards[k]);
    cards
  }

  /** The lines after the header: `lines.slice(1)`, which is empty when there are no lines. */
  function DropHeader(lines: seq<string>): (rows: seq<string>)
    ensures |rows| == if lines == [] then 0 else |lines| - 1
    ensures forall k :: 0 <= k < |rows| ==> rows[k] == lines[k + 1]
  {
    if lines == [] then [] else lines[1..]
  }

  /**
   * The cards read from an uploaded file's text. There is at most one card
   * per non-blank line after the first, so a file holding only a header
   * (or nothing) gives no cards.
   */
  function ParseCards(text: string): (cards: seq<Flashcard>)
    ensures forall k :: 0 <= k < |cards| ==> WellFormed(cards[k])
    ensures var n := |NonBlankLines(Split(text, '\n'))|;
            |cards| <= if n == 0 then 0 else n - 1
  {
    CollectCards(DropHeader(NonBlankLines(Split(text, '\n'))))
  }

  // ----- Rows -----

  /** A line without a comma has only one cell and makes no card. */
  lemma RowWithoutComma(line: string)
    requires ',' !in line
    ensures RowToCard(line) == None
  {
    assert Split(line, ',') == [line];
  }

  /**
   * Independent description of a row: for a line made of a first cell `a`,
   * a comma, a second cell `b`, and then either nothing or a comma followed
   * by anything, the card is the trimmed pair when both trimmed cells are
   * non-empty, and none otherwise; whatever follows the second cell is ignored.
   */
  lemma RowShape(a: string, b: string, tail: string)
    requires ',' !in a && ',' !in b
    requires tail == [] || tail[0] == ','
    ensures RowToCard(a + [','] + b + tail)
         == if Trim(a) != [] && Trim(b) != [] then Some(Flashcard(Trim(a), Trim(b))) else None
  {
    var line := a + [','] + b + tail;
    var rest := Split(b + tail, ',');
    assert rest[0] == b && |rest| >= 1 by {
      if tail == [] {
        assert b + tail == b;
      } else {
        assert b + tail == b + [','] + tail[1..];
        SplitAfterHead(b, ',', tail[1..]);
      }
    }
    assert Split(line, ',') == [a] + rest by {
      assert line == a + [','] + (b + tail);
      SplitAfterHead(a, ',', b + tail);
    }
  }

  /** Cells after the second never change the card a row makes. */
  lemma ExtraCellsIgnored(a: string, b: string, tail: string)
    requires ',' !in a && ',' !in b
    requires tail == [] || tail[0] == ','
    ensures RowToCard(a + [','] + b + tail) == RowToCard(a + [','] + b)
  {
    RowShape(a, b, tail);
    var short := a + [','] + b;
    assert RowToCard(short) == RowToCard(short + []) by {
      assert short + [] == short;
    }
    RowShape(a, b, []);
  }

  // ----- Order -----

  /** The positions, counted from `base`, of the elements `f` keeps, in increasing order. */
  function KeptFrom<T, U>(xs: seq<T>, f: T -> Option<U>, base: nat): (idx: seq<nat>)
    ensures forall k :: 0 <= k < |idx| ==> base <= idx[k] < base + |xs|
    ensures forall k, l :: 0 <= k < l < |idx| ==> idx[k] < idx[l]
  {
    if xs == [] then []
    else
      var rest := KeptFrom(xs[1..], f, base + 1);
      if f(xs[0]).Some? then [base] + rest else rest
  }

  /** As many positions are kept as `FilterMap` outputs. */
  lemma {:induction false} KeptFromLength<T, U>(xs: seq<T>, f: T -> Option<U>, base: nat)
    ensures |KeptFrom(xs, f, base)| == |FilterMap(xs, f)|
  {
    if xs != [] {
      KeptFromLength(xs[1..], f, base + 1);
    }
  }

  /** Output `k` of `FilterMap` is what `f` makes of the element at the `k`-th kept position. */
  lemma {:induction false} KeptFromCards<T, U>(xs: seq<T>, f: T -> Option<U>, base: nat)
    ensures var idx, ys := KeptFrom(xs, f, base), FilterMap(xs, f);
            && |idx| == |ys|
            && forall k :: 0 <= k < |idx| ==> f(xs[idx[k] - base]) == Some(ys[k])
  {
    KeptFromLength(xs, f, base);
    if xs != [] {
      KeptFromCards(xs[1..], f, base + 1);
      var rest, tail := KeptFrom(xs[1..], f, base + 1), FilterMap(xs[1..], f);
      forall k | 0 <= k < |rest|
        ensures f(xs[rest[k] - base]) == Some(tail[k])
      {
        assert xs[rest[k] - base] == xs[1..][rest[k] - (base + 1)];
      }
      if f(xs[0]).Some? {
        assert KeptFrom(xs, f, base) == [base] + rest;
        assert FilterMap(xs, f) == [f(xs[0]).value] + tail;
      }
    }
  }

  /** A position is kept exactly when `f` keeps the element there. */
  lemma {:induction false} KeptFromComplete<T, U>(xs: seq<T>, f: T -> Option<U>, base: nat)
    ensures forall j :: 0 <= j < |xs| ==> (base + j in KeptFrom(xs, f, base) <==> f(xs[j]).Some?)
  {
    if xs != [] {
      KeptFromComplete(xs[1..], f, base + 1);
      var rest := KeptFrom(xs[1..], f, base + 1);
      assert base !in rest;
      forall j | 1 <= j < |xs|
        ensures base + j in KeptFrom(xs, f, base) <==> f(xs[j]).Some?
      {
        assert xs[j] == xs[1..][j - 1];
      }
    }
  }

  /**
   * Cards keep the relative order of their rows: card `k` comes from row
   * `KeptFrom(rows, RowToCard, 0)[k]`, those positions increase, and a row is among them
   * exactly when it makes a card.
   */
  lemma CardsFollowRows(rows: seq<string>)
    ensures var idx, cards := KeptFrom(rows, RowToCard, 0), CollectCards(rows);
            && |idx| == |cards|
            && (forall k :: 0 <= k < |idx| ==> idx[k] < |rows| && RowToCard(rows[idx[k]]) == Some(cards[k]))
            && (forall k, l :: 0 <= k < l < |idx| ==> idx[k] < idx[l])
            && (forall j :: 0 <= j < |rows| ==> (j in idx <==> RowToCard(rows[j]).Some?))
  {
    KeptFromCards(rows, RowToCard, 0);
    KeptFromComplete(rows, RowToCard, 0);
  }

  // ----- Lines and the header -----

  lemma {:induction false} FilterAppend<T>(a: seq<T>, b: seq<T>, p: T -> bool)
    ensures Filter(a + b, p) == Filter(a, p) + Filter(b, p)
  {
    if a != [] {
      assert (a + b)[1..] == a[1..] + b;
      FilterAppend(a[1..], b, p);
    } else {
      assert a + b == b;
    }
  }

  /** `Filter` keeps exactly the elements that satisfy `p`. */
  lemma {:induction false} FilterMembers<T>(xs: seq<T>, p: T -> bool)
    ensures forall x :: x in Filter(xs, p) <==> x in xs && p(x)
  {
    if xs != [] {
      FilterMembers(xs[1..], p);
      assert forall x :: x in xs <==> x == xs[0] || x in xs[1..];
    }
  }

  /** A line survives the blank-line filter exactly when it is not blank. */
  lemma NonBlankLinesMembers(lines: seq<string>)
    ensures forall l :: l in NonBlankLines(lines) <==> l in lines && NonBlank(l)
  {
    FilterMembers(lines, NonBlank);
  }

  lemma {:induction false} FilterNone<T>(a: seq<T>, p: T -> bool)
    requires forall k :: 0 <= k < |a| ==> !p(a[k])
    ensures Filter(a, p) == []
  {
    if a != [] {
      FilterNone(a[1..], p);
    }
  }

  /** A sequence is what comes before position `h`, the element there, and what comes after. */
  lemma Around<T>(s: seq<T>, h: nat)
    requires h < |s|
    ensures s == s[..h] + ([s[h]] + s[h + 1..])
  {
  }

  /** After the blank lines before it, the first non-blank line heads the filtered lines. */
  lemma FirstNonBlankLeads(lines: seq<string>, h: nat)
    requires h < |lines| && NonBlank(lines[h])
    requires forall k :: 0 <= k < h ==> !NonBlank(lines[k])
    ensures NonBlankLines(lines) == [lines[h]] + NonBlankLines(lines[h + 1..])
  {
    var before, after := lines[..h], lines[h + 1..];
    Around(lines, h);
    FilterNone(before, NonBlank);
    assert Filter(before, NonBlank) == [];
    FilterAppend(before, [lines[h]] + after, NonBlank);
    assert Filter(lines, NonBlank) == Filter([lines[h]] + after, NonBlank) by {
      assert [] + Filter([lines[h]] + after, NonBlank) == Filter([lines[h]] + after, NonBlank);
    }
    assert ([lines[h]] + after)[1..] == after;
    assert Filter([lines[h]] + after, NonBlank) == [lines[h]] + Filter(after, NonBlank);
  }

  /**
   * The header is the first NON-BLANK line, not simply the first line: for
   * a text whose lines are some blank lines, then a non-blank line, then
   * `rest`, the cards are exactly those of the non-blank lines of `rest`.
   */
  lemma HeaderIsFirstNonBlankLine(lines: seq<string>, h: nat)
    requires forall k :: 0 <= k < |lines| ==> '\n' !in lines[k]
    requires h < |lines| && NonBlank(lines[h])
    requires forall k :: 0 <= k < h ==> !NonBlank(lines[k])
    ensures ParseCards(Join(lines, '\n')) == CollectCards(NonBlankLines(lines[h + 1..]))
  {
    SplitJoin(lines, '\n');
    FirstNonBlankLeads(lines, h);
    assert DropHeader([lines[h]] + NonBlankLines(lines[h + 1..])) == NonBlankLines(lines[h + 1..]);
  }
}
