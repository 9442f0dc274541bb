/**
 * The static class MyExtensions: the extension methods WordCount, Add and
 * Sum, with Sum taken at T = int. Enumerable.Aggregate, which the
 * declarative forms of Sum use, is modelled here as a left fold.
 */
module MyExtensions {
  import opened Int32

  // ---------------------------------------------------------------------
  // WordCount
  // ---------------------------------------------------------------------

  /** The one separator WordCount splits on. Tabs and newlines are not separators. */
  const Space: char := ' '

  /** The characters of s other than the separator, in order. */
  function RemoveSpaces(s: string): string {
    if s == [] then []
    else (if s[0] == Space then [] else [s[0]]) + RemoveSpaces(s[1..])
  }

  /** The pieces laid end to end. */
  function Flatten(pieces: seq<string>): string {
    if pieces == [] then [] else pieces[0] + Flatten(pieces[1..])
  }

  /** The pieces with one separator between each two neighbours. */
  function Join(pieces: seq<string>): string
    requires |pieces| >= 1
  {
    if |pieces| == 1 then pieces[0] else pieces[0] + [Space] + Join(pieces[1..])
  }

  /**
   * text.Split(new char[] {' '}) with no options: the text between
   * consecutive separators, so two adjacent separators give an empty piece
   * and a text with k separators gives k + 1 pieces. Joining the pieces
   * back gives the text again.
   */
  function Split(s: string): (pieces: seq<string>)
    ensures |pieces| >= 1
    ensures forall p :: p in pieces ==> Space !in p
    ensures Join(pieces) == s
    ensures Flatten(pieces) == RemoveSpaces(s)
  {
    if s == [] then [[]]
    else
      var rest := Split(s[1..]);
      if s[0] == Space then
        assert ([[]] + rest)[1..] == rest;
        [[]] + rest
      else
        var pieces := [[s[0]] + rest[0]] + rest[1..];
        assert pieces[1..] == rest[1..];
        assert |rest| > 1 ==> Join(rest) == rest[0] + [Space] + Join(rest[1..]);
        pieces
  }

  /**
   * StringSplitOptions.RemoveEmptyEntries: drops every empty piece and keeps
   * every other piece, in order.
   */
  function RemoveEmpty(pieces: seq<string>): (kept: seq<string>)
    ensures forall w :: w in kept ==> w != [] && w in pieces
    ensures forall p :: p in pieces && p != [] ==> p in kept
    ensures Flatten(kept) == Flatten(pieces)
  {
    if pieces == [] then []
    else
      var rest := RemoveEmpty(pieces[1..]);
      assert forall p :: p in pieces ==> p == pieces[0] || p in pieces[1..];
      if pieces[0] == [] then rest
      else
        assert ([pieces[0]] + rest)[1..] == rest;
        [pieces[0]] + rest
  }

  /** The words of a text: the entries of its split on ' ' that are not empty. */
  function Words(text: string): (words: seq<string>)
    ensures forall w :: w in words ==> w != [] && Space !in w
    ensures Flatten(words) == RemoveSpaces(text)
  {
    RemoveEmpty(Split(text))
  }

  /** RemoveEmpty decides on the first piece, then goes on with the rest. */
  lemma RemoveEmptyCons(p: string, rest: seq<string>)
    ensures RemoveEmpty([p] + rest) == (if p == [] then [] else [p]) + RemoveEmpty(rest)
  {
    assert ([p] + rest)[1..] == rest;
  }

  /** RemoveEmpty of one piece: nothing if it is empty, the piece itself otherwise. */
  lemma RemoveEmptySingle(p: string)
    ensures RemoveEmpty([p]) == if p == [] then [] else [p]
  {
    RemoveEmptyCons(p, []);
    assert [p] + [] == [p];
  }

  /** RemoveEmpty works piece by piece: it keeps the order and the number of copies of the kept pieces. */
  lemma {:induction false} RemoveEmptyConcat(a: seq<string>, b: seq<string>)
    ensures RemoveEmpty(a + b) == RemoveEmpty(a) + RemoveEmpty(b)
  {
    if a == [] {
      assert a + b == b;
    } else {
      var head := if a[0] == [] then [] else [a[0]];
      assert a == [a[0]] + a[1..];
      assert a + b == [a[0]] + (a[1..] + b);
      RemoveEmptyCons(a[0], a[1..] + b);
      RemoveEmptyCons(a[0], a[1..]);
      RemoveEmptyConcat(a[1..], b);
      assert head + (RemoveEmpty(a[1..]) + RemoveEmpty(b)) == (head + RemoveEmpty(a[1..])) + RemoveEmpty(b);
    }
  }

  /** Pieces that are all non-empty are all kept. */
  lemma {:induction false} RemoveEmptyKeepsAll(pieces: seq<string>)
    requires forall p :: p in pieces ==> p != []
    ensures RemoveEmpty(pieces) == pieces
  {
    if pieces != [] {
      assert pieces[0] in pieces;
      assert forall p :: p in pieces[1..] ==> p in pieces;
      RemoveEmptyKeepsAll(pieces[1..]);
      assert [pieces[0]] + pieces[1..] == pieces;
    }
  }

  /** Splitting a space-free word followed by more text: the word opens the first piece. */
  lemma {:induction false} SplitAfterWord(w: string, rest: string)
    requires Space !in w
    ensures Split(w + rest) == [w + Split(rest)[0]] + Split(rest)[1..]
  {
    var r := Split(rest);
    if w == [] {
      assert w + rest == rest;
      assert w + r[0] == r[0];
      assert [r[0]] + r[1..] == r;
    } else {
      var s := w + rest;
      assert s[0] == w[0];
      assert s[1..] == w[1..] + rest;
      assert w[0] in w;
      assert Space !in w[1..] by {
        assert forall c :: c in w[1..] ==> c in w;
      }
      SplitAfterWord(w[1..], rest);
      assert [w[0]] + (w[1..] + r[0]) == w + r[0];
    }
  }

  /** A separator at the front of a text opens an empty first piece. */
  lemma SplitSpace(rest: string)
    ensures Split([Space] + rest) == [[]] + Split(rest)
  {
    assert ([Space] + rest)[1..] == rest;
  }

  /** A space-free word on its own splits into itself. */
  lemma SplitWord(w: string)
    requires Space !in w
    ensures Split(w) == [w]
  {
    SplitAfterWord(w, []);
    assert w + [] == w;
  }

  /** Splitting the join of space-free pieces gives those pieces back, empty ones included. */
  lemma {:induction false} SplitJoin(pieces: seq<string>)
    requires |pieces| >= 1
    requires forall p :: p in pieces ==> Space !in p
    ensures Split(Join(pieces)) == pieces
  {
    var first := pieces[0];
    assert first in pieces;
    if |pieces| == 1 {
      SplitWord(first);
    } else {
      var others := pieces[1..];
      assert forall p :: p in others ==> p in pieces;
      var rest := [Space] + Join(others);
      assert Join(pieces) == first + rest;
      calc {
        Split(Join(pieces));
        Split(first + rest);
        { SplitAfterWord(first, rest); }
        [first + Split(rest)[0]] + Split(rest)[1..];
        { SplitSpace(Join(others)); SplitJoin(others); }
        [first + []] + others;
        { assert first + [] == first; }
        pieces;
      }
    }
  }

  /** The words of the join of non-empty, space-free words are those words, in order. */
  lemma WordsOfJoin(words: seq<string>)
    requires |words| >= 1
    requires forall w :: w in words ==> w != [] && Space !in w
    ensures Words(Join(words)) == words
  {
    SplitJoin(words);
    RemoveEmptyKeepsAll(words);
  }

  /** True when position i of s is the last character of a maximal run of non-space characters. */
  predicate EndsRun(s: string, i: int)
    requires 0 <= i < |s|
  {
    s[i] != Space && (i + 1 == |s| || s[i + 1] == Space)
  }

  /** The number of maximal runs of non-space characters in s, counted by their last characters. */
  function CountRuns(s: string): nat {
    if s == [] then 0 else (if EndsRun(s, 0) then 1 else 0) + CountRuns(s[1..])
  }

  /** A text is all separators exactly when no character survives RemoveSpaces. */
  lemma {:induction false} RemoveSpacesEmpty(s: string)
    ensures RemoveSpaces(s) == [] <==> forall i | 0 <= i < |s| :: s[i] == Space
  {
    if s != [] {
      RemoveSpacesEmpty(s[1..]);
      assert forall i | 1 <= i < |s| :: s[i] == s[1..][i - 1];
    }
  }

  /** The split has an empty first piece exactly when the text is empty or begins with a separator. */
  lemma SplitHeadEmpty(s: string)
    ensures Split(s)[0] == [] <==> s == [] || s[0] == Space
  {
  }

  /** The words of a text are as many as its maximal runs of non-space characters. */
  lemma {:induction false} WordCountIsRunCount(s: string)
    ensures |Words(s)| == CountRuns(s)
  {
    if s != [] {
      var t := s[1..];
      var r := Split(t);
      WordCountIsRunCount(t);
      SplitHeadEmpty(t);
      assert RemoveEmpty(r) == (if r[0] == [] then [] else [r[0]]) + RemoveEmpty(r[1..]);
      if s[0] == Space {
        assert Split(s) == [[]] + r;
        assert ([[]] + r)[1..] == r;
        assert Words(s) == RemoveEmpty(r);
      } else {
        var first := [s[0]] + r[0];
        assert Split(s) == [first] + r[1..];
        assert ([first] + r[1..])[1..] == r[1..];
        assert Words(s) == [first] + RemoveEmpty(r[1..]);
        assert EndsRun(s, 0) <==> t == [] || t[0] == Space;
      }
    }
  }

  /**
   * MyExtensions.WordCount: the number of maximal runs of characters other
   * than ' ', which is 0 exactly when the text is empty or all separators.
   */
  function WordCount(text: string): (n: nat)
    ensures n == CountRuns(text)
    ensures n == 0 <==> forall i | 0 <= i < |text| :: text[i] == Space
  {
    var words := Words(text);
    WordCountIsRunCount(text);
    RemoveSpacesEmpty(text);
    assert words != [] ==> Flatten(words) == words[0] + Flatten(words[1..]);
    assert words != [] ==> words[0] in words;
    |words|
  }

  /** A word followed by nothing or by a separator ends exactly one run before the rest of the text. */
  lemma {:induction false} CountRunsWordFirst(w: string, rest: string)
    requires w != [] && Space !in w
    requires rest == [] || rest[0] == Space
    ensures CountRuns(w + rest) == 1 + CountRuns(rest)
  {
    var s := w + rest;
    if |w| == 1 {
      assert s[1..] == rest;
    } else {
      assert s[1..] == w[1..] + rest;
      assert w[1] in w;
      CountRunsWordFirst(w[1..], rest);
    }
  }

  /** Joining k words with single separators gives a text of k words. */
  lemma {:induction false} WordCountOfJoin(words: seq<string>)
    requires |words| >= 1
    requires forall w :: w in words ==> w != [] && Space !in w
    ensures WordCount(Join(words)) == |words|
  {
    if |words| == 1 {
      assert words[0] in words;
      CountRunsWordFirst(words[0], []);
      assert words[0] + [] == words[0];
    } else {
      var tail := Join(words[1..]);
      assert words[0] in words;
      assert forall w :: w in words[1..] ==> w in words;
      WordCountOfJoin(words[1..]);
      CountRunsWordFirst(words[0], [Space] + tail);
      assert words[0] + [Space] + tail == words[0] + ([Space] + tail);
      assert ([Space] + tail)[1..] == tail;
    }
  }

  /** Join unfolded once at position k. */
  lemma JoinStep(words: seq<string>, k: nat)
    requires k + 1 < |words|
    ensures Join(words[k..]) == words[k] + [Space] + Join(words[k + 1..])
  {
    assert words[k..][1..] == words[k + 1..];
  }

  /** Join of nine pieces, written out. */
  lemma JoinNine(words: seq<string>)
    requires |words| == 9
    ensures Join(words) == words[0] + [Space] + (words[1] + [Space] + (words[2] + [Space] + (words[3] + [Space] +
      (words[4] + [Space] + (words[5] + [Space] + (words[6] + [Space] + (words[7] + [Space] + words[8])))))))
  {
    JoinStep(words, 7);
    JoinStep(words, 6);
    JoinStep(words, 5);
    JoinStep(words, 4);
    JoinStep(words, 3);
    JoinStep(words, 2);
    JoinStep(words, 1);
    JoinStep(words, 0);
    assert Join(words[8..]) == words[8];
    assert words[0..] == words;
  }

  /** The words of the sentence of ExampleUsageOfMyExtensionMethods.HowManyWords, with separators between them. */
  lemma SentenceSpelled(words: seq<string>)
    requires words == ["How", "many", "words", "are", "in", "this", "line", "of", "text"]
    ensures words[0] + [Space] + (words[1] + [Space] + (words[2] + [Space] + (words[3] + [Space] +
      (words[4] + [Space] + (words[5] + [Space] + (words[6] + [Space] + (words[7] + [Space] + words[8])))))))
      == "How many words are in this line of text"
  {
  }

  /** The sentence of ExampleUsageOfMyExtensionMethods.HowManyWords is its nine words joined by separators. */
  lemma SentenceIsJoin(words: seq<string>)
    requires words == ["How", "many", "words", "are", "in", "this", "line", "of", "text"]
    ensures Join(words) == "How many words are in this line of text"
  {
    JoinNine(words);
    SentenceSpelled(words);
  }

  /** Any text that is the nine words of the sentence joined by separators counts nine words. */
  lemma NineWordsJoined(words: seq<string>, text: string)
    requires words == ["How", "many", "words", "are", "in", "this", "line", "of", "text"]
    requires Join(words) == text
    ensures WordCount(text) == 9
  {
    forall w | w in words
      ensures w != [] && Space !in w
    {
    }
    WordCountOfJoin(words);
  }

  /** The call in ExampleUsageOfMyExtensionMethods.HowManyWords counts nine words. */
  lemma HowManyWords(text: string)
    requires text == "How many words are in this line of text"
    ensures WordCount(text) == 9
  {
    var words := ["How", "many", "words", "are", "in", "this", "line", "of", "text"];
    SentenceIsJoin(words);
    NineWordsJoined(words, text);
  }

  // ---------------------------------------------------------------------
  // Add, Aggregate, Sum
  // ---------------------------------------------------------------------

  /**
   * MyExtensions.Add at T = int. The compiled expression tree performs an
   * unchecked addition: the result agrees with a + b modulo 2^32 and is
   * exactly a + b when that fits in an int.
   */
  function Add(a: int32, b: int32): (r: int32)
    ensures (r as int - (a as int + b as int)) % Modulus == 0
    ensures InRange(a as int + b as int) ==> r as int == a as int + b as int
  {
    Wrap(a as int + b as int)
  }

  /** The call in ExampleUsageOfMyExtensionMethods.AddTwoNumbers gives 3. */
  lemma AddTwoNumbers()
    ensures Add(1, 2) == 3
  {
  }

  /** Unchecked addition is associative, overflow or not. */
  lemma AddAssociative(a: int32, b: int32, c: int32)
    ensures Add(Add(a, b), c) == Add(a, Add(b, c))
  {
    WrapCongruent(Add(a, b) as int + c as int, a as int + b as int + c as int);
    WrapCongruent(a as int + Add(b, c) as int, a as int + b as int + c as int);
  }

  /** func combines the seed with the first item, and the result is the seed for the rest. */
  function FoldForward<A, T>(seed: A, items: seq<T>, func: (A, T) -> A): A {
    if items == [] then seed else FoldForward(func(seed, items[0]), items[1..], func)
  }

  /** Folding forward over one more item applies func once more at the end. */
  lemma {:induction false} FoldForwardSnoc<A, T>(seed: A, items: seq<T>, x: T, func: (A, T) -> A)
    ensures FoldForward(seed, items + [x], func) == func(FoldForward(seed, items, func), x)
  {
    if items == [] {
      assert [] + [x] == [x];
      assert [x][1..] == [];
    } else {
      FoldForwardSnoc(func(seed, items[0]), items[1..], x, func);
      assert (items + [x])[1..] == items[1..] + [x];
    }
  }

  /**
   * Enumerable.Aggregate(items, seed, func): func applied from left to
   * right, starting from seed, once per item. It is the same as running
   * through the items from the first, as the enumeration does.
   */
  function Aggregate<A, T>(seed: A, items: seq<T>, func: (A, T) -> A): (r: A)
    ensures r == FoldForward(seed, items, func)
  {
    if items == [] then seed
    else
      var init, last := items[..|items| - 1], items[|items| - 1];
      FoldForwardSnoc(seed, init, last, func);
      assert init + [last] == items;
      func(Aggregate(seed, init, func), last)
  }

  /** Folding over a concatenation is folding over the second part from the first part's result. */
  lemma {:induction false} AggregateConcat<A, T>(seed: A, s: seq<T>, t: seq<T>, func: (A, T) -> A)
    ensures Aggregate(seed, s + t, func) == Aggregate(Aggregate(seed, s, func), t, func)
  {
    if t != [] {
      AggregateConcat(seed, s, t[..|t| - 1], func);
      assert (s + t)[..|s + t| - 1] == s + t[..|t| - 1];
    } else {
      assert s + t == s;
    }
  }

  /** The exact sum of a sequence of ints. */
  function SeqSum(s: seq<int32>): int {
    if s == [] then 0 else SeqSum(s[..|s| - 1]) + s[|s| - 1] as int
  }

  /**
   * Folding Add over items from a is the unchecked value of a plus the
   * exact sum of the items: overflow in a partial sum does not matter.
   */
  lemma {:induction false} AggregateAddIsWrappedSum(a: int32, items: seq<int32>)
    ensures Aggregate(a, items, Add) == Wrap(a as int + SeqSum(items))
  {
    if items != [] {
      var init, last := items[..|items| - 1], items[|items| - 1];
      AggregateAddIsWrappedSum(a, init);
      var partial := a as int + SeqSum(init);
      WrapCongruent(Wrap(partial) as int + last as int, partial + last as int);
    }
  }

  /**
   * The two declarative forms of Sum, items.Aggregate(a, (current, value) =>
   * Add(current, value)) and items.Aggregate(a, Add), compute the same value.
   */
  lemma {:induction false} AggregateFormsAgree(a: int32, items: seq<int32>)
    ensures Aggregate(a, items, (current, value) => Add(current, value)) == Aggregate(a, items, Add)
  {
    if items != [] {
      AggregateFormsAgree(a, items[..|items| - 1]);
    }
  }

  /**
   * MyExtensions.Sum at T = int: the foreach loop adds each item to the
   * accumulator in turn. It computes the left fold of Add, which is a plus
   * the sum of the items with 32-bit wrap-around; with no items it returns a.
   */
  method Sum(a: int32, items: array<int32>) returns (r: int32)
    ensures r == Aggregate(a, items[..], Add)
    ensures r == Wrap(a as int + SeqSum(items[..]))
    ensures InRange(a as int + SeqSum(items[..])) ==> r as int == a as int + SeqSum(items[..])
    ensures items.Length == 0 ==> r == a
  {
    r := a;
    var i := 0;
    while i < items.Length
      invariant 0 <= i <= items.Length
      invariant r == Aggregate(a, items[..i], Add)
    {
      AggregateConcat(a, items[..i], [items[i]], Add);
      assert items[..i] + [items[i]] == items[..i + 1];
      r := Add(r, items[i]);
      i := i + 1;
    }
    assert items[..] == items[..i];
    AggregateAddIsWrappedSum(a, items[..]);
  }

  /** The call in ExampleUsageOfMyExtensionMethods.AddManyNumbers: 1.Sum(2, ..., 9) is 45. */
  method AddManyNumbers() returns (x: int32)
    ensures x == 45
  {
    var items := new int32[] [2, 3, 4, 5, 6, 7, 8, 9];
    assert SeqSum(items[..]) == 44 by {
      var s := items[..];
      assert SeqSum(s[..1]) == 2;
      assert s[..2][..1] == s[..1];
      assert SeqSum(s[..2]) == 5;
      assert s[..3][..2] == s[..2];
      assert SeqSum(s[..3]) == 9;
      assert s[..4][..3] == s[..3];
      assert SeqSum(s[..4]) == 14;
      assert s[..5][..4] == s[..4];
      assert SeqSum(s[..5]) == 20;
      assert s[..6][..5] == s[..5];
      assert SeqSum(s[..6]) == 27;
      assert s[..7][..6] == s[..6];
      assert SeqSum(s[..7]) == 35;
      assert s == s[..8];
    }
    x := Sum(1, items);
  }
}
