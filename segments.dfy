/** The segment builder of the code preview (`renderCode`): it walks the token
    list with a cursor and cuts the code into plain gaps and clickable token
    spans, each span carrying its token's type, value and highlight flag. */
module Segments {
  import opened Model
  import opened Highlight

  /** A piece of the preview: bare text between tokens, or a clickable span. */
  datatype Segment =
    | Plain(text: string)
    | Tok(text: string, token: string, value: string, highlighted: bool)

  /** What `renderCode` returns: the code itself when there are no tokens,
      otherwise the list of pieces. */
  datatype Rendering = Whole(code: string) | Pieces(segments: seq<Segment>)

  /** The span rendered for token t. */
  function Span(code: string, t: Token, sel: Selection): Segment
  {
    Tok(Slice(code, t.start, t.end), t.token, t.value, Highlighted(t, sel))
  }

  /** The gap emitted before token t when the cursor stands at `last`. */
  function Gap(code: string, t: Token, last: int): seq<Segment>
  {
    if t.start > last then [Plain(Slice(code, last, t.start))] else []
  }

  /** The remainder emitted after the last token. */
  function Rest(code: string, last: int): seq<Segment>
  {
    if last < |code| then [Plain(Slice(code, last, |code|))] else []
  }

  /** The pieces emitted for `tokens` when the cursor stands at `last`: a gap
      before each token that starts after the cursor, the token's span, and
      after the last token the rest of the code if any remains. */
  function Walk(code: string, tokens: seq<Token>, sel: Selection, last: int): seq<Segment>
    decreases |tokens|
  {
    if tokens == [] then Rest(code, last)
    else Gap(code, tokens[0], last) + [Span(code, tokens[0], sel)] + Walk(code, tokens[1..], sel, tokens[0].end)
  }

  /** The preview as a function of the code, the tokens and the selection. */
  function Render(code: string, tokens: seq<Token>, sel: Selection): Rendering
  {
    if tokens == [] then Whole(code) else Pieces(Walk(code, tokens, sel, 0))
  }

  /** `renderCode`: one pass over the tokens, appending to `elements` and
      moving the cursor `last` to the end of each token. */
  method RenderCode(code: string, tokens: seq<Token>, sel: Selection) returns (r: Rendering)
    ensures r == Render(code, tokens, sel)
    ensures tokens == [] ==> r == Whole(code)
  {
    if |tokens| == 0 {
      return Whole(code);
    }
    var elements: seq<Segment> := [];
    var last := 0;
    for i := 0 to |tokens|
      invariant elements + Walk(code, tokens[i..], sel, last) == Walk(code, tokens, sel, 0)
    {
      var t := tokens[i];
      ghost var before := elements;
      WalkFrom(code, tokens, sel, i, last);
      if t.start > last {
        elements := elements + [Plain(Slice(code, last, t.start))];
      }
      var isHighlighted := Highlighted(t, sel);
      elements := elements + [Tok(Slice(code, t.start, t.end), t.token, t.value, isHighlighted)];
      assert elements == before + Gap(code, t, last) + [Span(code, t, sel)];
      AppendStep(before, Gap(code, t, last), Span(code, t, sel), Walk(code, tokens[i + 1..], sel, t.end));
      last := t.end;
    }
    assert tokens[|tokens|..] == [];
    if last < |code| {
      elements := elements + [Plain(Slice(code, last, |code|))];
    }
    r := Pieces(elements);
  }

  /** The walk from the i-th token on, unfolded by one token. */
  lemma WalkFrom(code: string, tokens: seq<Token>, sel: Selection, i: nat, last: int)
    requires i < |tokens|
    ensures Walk(code, tokens[i..], sel, last)
      == Gap(code, tokens[i], last) + [Span(code, tokens[i], sel)] + Walk(code, tokens[i + 1..], sel, tokens[i].end)
  {
    assert tokens[i..][0] == tokens[i] && tokens[i..][1..] == tokens[i + 1..];
  }

  lemma AppendStep(done: seq<Segment>, gap: seq<Segment>, span: Segment, later: seq<Segment>)
    ensures done + gap + [span] + later == done + (gap + [span] + later)
  {
  }

  // ---------------------------------------------------------------------
  // Text of the preview

  /** The pieces' texts joined in order. */
  function Concat(segs: seq<Segment>): string
  {
    if segs == [] then "" else segs[0].text + Concat(segs[1..])
  }

  /** The text a user sees in the preview. */
  function Text(r: Rendering): string
  {
    match r
    case Whole(code) => code
    case Pieces(segs) => Concat(segs)
  }

  lemma {:induction false} ConcatAppend(a: seq<Segment>, b: seq<Segment>)
    ensures Concat(a + b) == Concat(a) + Concat(b)
  {
    if a != [] {
      assert (a + b)[0] == a[0] && (a + b)[1..] == a[1..] + b;
      ConcatAppend(a[1..], b);
    } else {
      assert a + b == b;
    }
  }

  /** Every token lies inside the code, with start <= end. */
  predicate InBounds(tokens: seq<Token>, n: nat)
  {
    forall i :: 0 <= i < |tokens| ==> 0 <= tokens[i].start <= tokens[i].end <= n
  }

  lemma InBoundsTail(tokens: seq<Token>, n: nat)
    requires tokens != [] && InBounds(tokens, n)
    ensures InBounds(tokens[1..], n)
    ensures 0 <= tokens[0].start <= tokens[0].end <= n
  {
    forall i | 0 <= i < |tokens| - 1 ensures 0 <= tokens[1..][i].start <= tokens[1..][i].end <= n {
      assert tokens[1..][i] == tokens[i + 1];
    }
  }

  /** Each token starts no earlier than the previous one ends. */
  predicate Ordered(tokens: seq<Token>)
    decreases |tokens|
  {
    |tokens| < 2 || (tokens[0].end <= tokens[1].start && Ordered(tokens[1..]))
  }

  /** One step of the walk over an in-bounds token at or after the cursor
      covers the code from the cursor to the token's end. */
  lemma StepText(code: string, t: Token, sel: Selection, last: int)
    requires 0 <= last <= t.start <= t.end <= |code|
    ensures Concat(Gap(code, t, last) + [Span(code, t, sel)]) == code[last..t.end]
  {
    ConcatAppend(Gap(code, t, last), [Span(code, t, sel)]);
    assert Concat([Span(code, t, sel)]) == code[t.start..t.end];
    SliceSplit(code, last, t.start, t.end);
  }

  lemma SliceSplit(s: string, i: nat, j: nat, k: nat)
    requires i <= j <= k <= |s|
    ensures s[i..k] == s[i..j] + s[j..k]
  {
  }

  lemma SuffixSplit(s: string, i: nat, j: nat)
    requires i <= j <= |s|
    ensures s[i..] == s[i..j] + s[j..]
  {
  }

  lemma {:induction false} WalkReconstructs(code: string, tokens: seq<Token>, sel: Selection, last: int)
    requires InBounds(tokens, |code|) && Ordered(tokens)
    requires 0 <= last <= |code|
    requires tokens != [] ==> last <= tokens[0].start
    ensures Concat(Walk(code, tokens, sel, last)) == code[last..]
    decreases |tokens|
  {
    if tokens == [] {
      if last < |code| {
        assert Concat(Rest(code, last)) == Slice(code, last, |code|);
      } else {
        assert code[last..] == [];
      }
    } else {
      var t := tokens[0];
      var rest := tokens[1..];
      InBoundsTail(tokens, |code|);
      WalkReconstructs(code, rest, sel, t.end);
      StepText(code, t, sel, last);
      ConcatAppend(Gap(code, t, last) + [Span(code, t, sel)], Walk(code, rest, sel, t.end));
      SuffixSplit(code, last, t.end);
    }
  }

  /** Reconstruction: when every token lies inside the code and no two
      overlap, the preview shows exactly the code. */
  lemma Reconstruction(code: string, tokens: seq<Token>, sel: Selection)
    requires InBounds(tokens, |code|) && Ordered(tokens)
    ensures Text(Render(code, tokens, sel)) == code
  {
    if tokens != [] {
      WalkReconstructs(code, tokens, sel, 0);
    }
  }

  /** Some token, reached with the cursor at `last`, starts before the cursor. */
  predicate StartsBehind(tokens: seq<Token>, last: int)
    decreases |tokens|
  {
    tokens != [] && (tokens[0].start < last || StartsBehind(tokens[1..], tokens[0].end))
  }

  lemma {:induction false} StartsBehindUnordered(tokens: seq<Token>, last: int)
    ensures StartsBehind(tokens, last) <==> (tokens != [] && tokens[0].start < last) || !Ordered(tokens)
    decreases |tokens|
  {
    if tokens != [] {
      var rest := tokens[1..];
      StartsBehindUnordered(rest, tokens[0].end);
    }
  }

  /** With in-bounds tokens the pieces from `last` on are never shorter than
      the code from `last` on, and strictly longer once a token starts behind
      the cursor: the overlap is emitted twice. */
  lemma {:induction false} WalkLength(code: string, tokens: seq<Token>, sel: Selection, last: int)
    requires InBounds(tokens, |code|)
    requires 0 <= last <= |code|
    ensures |Concat(Walk(code, tokens, sel, last))| >= |code| - last
    ensures StartsBehind(tokens, last) ==> |Concat(Walk(code, tokens, sel, last))| > |code| - last
    decreases |tokens|
  {
    if tokens != [] {
      var t := tokens[0];
      var rest := tokens[1..];
      InBoundsTail(tokens, |code|);
      WalkLength(code, rest, sel, t.end);
      var gap := Gap(code, t, last);
      assert |Concat(gap)| == if t.start > last then t.start - last else 0;
      assert |Concat([Span(code, t, sel)])| == t.end - t.start;
      ConcatAppend(gap, [Span(code, t, sel)]);
      ConcatAppend(gap + [Span(code, t, sel)], Walk(code, rest, sel, t.end));
    }
  }

  /** For tokens inside the code, the preview reproduces the code exactly if
      and only if no token starts before the previous one ends; an overlap
      makes the preview strictly longer than the code. */
  lemma ReconstructionIff(code: string, tokens: seq<Token>, sel: Selection)
    requires InBounds(tokens, |code|)
    ensures Text(Render(code, tokens, sel)) == code <==> Ordered(tokens)
    ensures !Ordered(tokens) ==> |Text(Render(code, tokens, sel))| > |code|
  {
    if Ordered(tokens) {
      Reconstruction(code, tokens, sel);
    } else {
      StartsBehindUnordered(tokens, 0);
      WalkLength(code, tokens, sel, 0);
    }
  }

  /** Two overlapping tokens on an eight-character code: the overlap "de"
      appears twice in the preview. */
  lemma OverlapDuplicatesText()
    ensures Text(Render("abcdefgh", [Token("A", "a", 0, 5), Token("B", "b", 3, 8)], NoSelection))
      == "abcdedefgh"
  {
    var code := "abcdefgh";
    var ts := [Token("A", "a", 0, 5), Token("B", "b", 3, 8)];
    assert ts[1..] == [Token("B", "b", 3, 8)] && ts[1..][1..] == [];
    assert Slice(code, 0, 5) == "abcde" && Slice(code, 3, 8) == "defgh";
    assert Walk(code, ts, NoSelection, 0)
      == [Tok("abcde", "A", "a", false), Tok("defgh", "B", "b", false)];
  }

  // ---------------------------------------------------------------------
  // Clickable spans

  /** The clickable spans among the pieces, in order. */
  function Spans(segs: seq<Segment>): (r: seq<Segment>)
    ensures forall k :: 0 <= k < |r| ==> r[k].Tok?
    ensures |r| <= |segs|
  {
    if segs == [] then []
    else (if segs[0].Tok? then [segs[0]] else []) + Spans(segs[1..])
  }

  /** The clickable spans of a preview; the bare code has none. */
  function SpansOf(r: Rendering): seq<Segment>
  {
    match r
    case Whole(_) => []
    case Pieces(segs) => Spans(segs)
  }

  lemma {:induction false} SpansAppend(a: seq<Segment>, b: seq<Segment>)
    ensures Spans(a + b) == Spans(a) + Spans(b)
  {
    if a != [] {
      assert (a + b)[0] == a[0] && (a + b)[1..] == a[1..] + b;
      SpansAppend(a[1..], b);
    } else {
      assert a + b == b;
    }
  }

  lemma {:induction false} WalkSpans(code: string, tokens: seq<Token>, sel: Selection, last: int)
    ensures |Spans(Walk(code, tokens, sel, last))| == |tokens|
    ensures forall i :: 0 <= i < |tokens| ==> Spans(Walk(code, tokens, sel, last))[i] == Span(code, tokens[i], sel)
    decreases |tokens|
  {
    if tokens != [] {
      var t := tokens[0];
      var rest := tokens[1..];
      WalkSpans(code, rest, sel, t.end);
      var gap := Gap(code, t, last);
      var tail := Spans(Walk(code, rest, sel, t.end));
      SpansAppend(gap, [Span(code, t, sel)]);
      SpansAppend(gap + [Span(code, t, sel)], Walk(code, rest, sel, t.end));
      assert Spans(gap + [Span(code, t, sel)]) == [Span(code, t, sel)];
      var all := Spans(Walk(code, tokens, sel, last));
      assert all == [Span(code, t, sel)] + tail;
      forall i | 0 < i < |tokens| ensures all[i] == Span(code, tokens[i], sel) {
        assert all[i] == tail[i - 1] && rest[i - 1] == tokens[i];
      }
    }
  }

  /** One clickable span per token, in list order, holding the token's slice
      of the code, its type, its value and its highlight flag; this holds for
      any token list, well formed or not. */
  lemma SpanPerToken(code: string, tokens: seq<Token>, sel: Selection)
    ensures |SpansOf(Render(code, tokens, sel))| == |tokens|
    ensures forall i :: 0 <= i < |tokens| ==>
      SpansOf(Render(code, tokens, sel))[i]
        == Tok(Slice(code, tokens[i].start, tokens[i].end), tokens[i].token, tokens[i].value,
               Highlighted(tokens[i], sel))
  {
    if tokens != [] {
      WalkSpans(code, tokens, sel, 0);
    }
  }

  /** A span is highlighted exactly when its token passes the highlight test. */
  lemma SpanHighlightIff(code: string, tokens: seq<Token>, sel: Selection, i: nat)
    requires i < |tokens|
    ensures i < |SpansOf(Render(code, tokens, sel))|
    ensures SpansOf(Render(code, tokens, sel))[i].highlighted <==>
      tokens[i].value != "" && sel.value == Some(tokens[i].value)
      && (sel.token == None || sel.token == Some("") || sel.token == Some(tokens[i].token))
  {
    SpanPerToken(code, tokens, sel);
    HighlightedIff(tokens[i], sel);
  }

  // ---------------------------------------------------------------------
  // Plain gaps

  /** No two plain pieces are adjacent: a gap is always followed by a span
      and only the remainder of the code ends the list. */
  predicate GapsSeparated(segs: seq<Segment>)
  {
    forall i :: 0 <= i < |segs| - 1 && segs[i].Plain? ==> segs[i + 1].Tok?
  }

  lemma {:induction false} WalkGaps(code: string, tokens: seq<Token>, sel: Selection, last: int)
    ensures GapsSeparated(Walk(code, tokens, sel, last))
    ensures InBounds(tokens, |code|) && 0 <= last <= |code| ==>
      forall s :: s in Walk(code, tokens, sel, last) && s.Plain? ==> s.text != ""
    decreases |tokens|
  {
    if tokens != [] {
      var t := tokens[0];
      var rest := tokens[1..];
      WalkGaps(code, rest, sel, t.end);
      if InBounds(tokens, |code|) {
        InBoundsTail(tokens, |code|);
      }
      var w := Walk(code, tokens, sel, last);
      var tail := Walk(code, rest, sel, t.end);
      var gap := Gap(code, t, last);
      assert w == gap + [Span(code, t, sel)] + tail;
      forall i | 0 <= i < |w| - 1 && w[i].Plain? ensures w[i + 1].Tok? {
        if i >= |gap| + 1 {
          assert w[i] == tail[i - |gap| - 1] && w[i + 1] == tail[i - |gap|];
        }
      }
    }
  }

  /** Plain pieces fill gaps only: never two in a row, and, when every token
      lies inside the code, never empty. */
  lemma PlainPieces(code: string, tokens: seq<Token>, sel: Selection)
    requires tokens != []
    ensures GapsSeparated(Render(code, tokens, sel).segments)
    ensures InBounds(tokens, |code|) ==>
      forall s :: s in Render(code, tokens, sel).segments && s.Plain? ==> s.text != ""
  {
    WalkGaps(code, tokens, sel, 0);
  }

  /** Where the cursor stands when the i-th token is reached: the end of the
      previous token, or 0 for the first one. */
  function PrevEnd(tokens: seq<Token>, i: nat): int
    requires i <= |tokens|
  {
    if i == 0 then 0 else tokens[i - 1].end
  }

  /** How many of the first k tokens start after the previous token's end,
      that is, how many gaps the first k tokens bring. */
  function GapCount(tokens: seq<Token>, k: nat): nat
    requires k <= |tokens|
  {
    if k == 0 then 0
    else GapCount(tokens, k - 1) + (if tokens[k - 1].start > PrevEnd(tokens, k - 1) then 1 else 0)
  }

  /** The position of the first piece emitted for the i-th token (its gap if
      it has one, else its span); for i == |tokens|, of the remainder. */
  function SlotOf(tokens: seq<Token>, i: nat): nat
    requires i <= |tokens|
  {
    i + GapCount(tokens, i)
  }

  /** The position of the i-th token's span among the pieces. */
  function SpanIndex(tokens: seq<Token>, i: nat): nat
    requires i < |tokens|
  {
    i + GapCount(tokens, i + 1)
  }

  lemma DropPrefix(a: seq<Segment>, b: seq<Segment>)
    ensures (a + b)[|a|..] == b
  {
  }

  lemma DropTwice(w: seq<Segment>, m: nat, n: nat)
    requires m + n <= |w|
    ensures w[m..][n..] == w[m + n..]
  {
  }

  /** The pieces from the k-th token's slot on are the walk over the tokens
      from k on, with the cursor at the previous token's end. */
  lemma {:induction false} WalkSuffix(code: string, tokens: seq<Token>, sel: Selection, k: nat)
    requires k <= |tokens|
    ensures SlotOf(tokens, k) <= |Walk(code, tokens, sel, 0)|
    ensures Walk(code, tokens, sel, 0)[SlotOf(tokens, k)..] == Walk(code, tokens[k..], sel, PrevEnd(tokens, k))
    decreases k
  {
    var w := Walk(code, tokens, sel, 0);
    if k == 0 {
      assert tokens[0..] == tokens;
    } else {
      var j := k - 1;
      WalkSuffix(code, tokens, sel, j);
      WalkFrom(code, tokens, sel, j, PrevEnd(tokens, j));
      var step := Gap(code, tokens[j], PrevEnd(tokens, j)) + [Span(code, tokens[j], sel)];
      var later := Walk(code, tokens[k..], sel, tokens[j].end);
      assert w[SlotOf(tokens, j)..] == step + later;
      assert SlotOf(tokens, k) == SlotOf(tokens, j) + |step|;
      DropPrefix(step, later);
      DropTwice(w, SlotOf(tokens, j), |step|);
    }
  }

  /** Gap placement, stated without the cursor: the pieces of the i-th token
      start at `SlotOf(tokens, i)`, one past the previous token's span. When
      the token starts after the previous token's end (after 0 for the first
      token) they are the plain text between the two, then the span;
      otherwise the span alone. */
  lemma GapPlacement(code: string, tokens: seq<Token>, sel: Selection, i: nat)
    requires i < |tokens|
    ensures Render(code, tokens, sel).Pieces?
    ensures var segs := Render(code, tokens, sel).segments;
      && SlotOf(tokens, i) <= SpanIndex(tokens, i) < |segs|
      && SlotOf(tokens, i + 1) == SpanIndex(tokens, i) + 1
      && segs[SpanIndex(tokens, i)] == Span(code, tokens[i], sel)
      && (tokens[i].start > PrevEnd(tokens, i) ==>
            segs[SlotOf(tokens, i)..SpanIndex(tokens, i)]
              == [Plain(Slice(code, PrevEnd(tokens, i), tokens[i].start))])
      && (tokens[i].start <= PrevEnd(tokens, i) ==> SlotOf(tokens, i) == SpanIndex(tokens, i))
  {
    var w := Walk(code, tokens, sel, 0);
    WalkSuffix(code, tokens, sel, i);
    WalkFrom(code, tokens, sel, i, PrevEnd(tokens, i));
    var gap := Gap(code, tokens[i], PrevEnd(tokens, i));
    var later := Walk(code, tokens[i + 1..], sel, tokens[i].end);
    var from := w[SlotOf(tokens, i)..];
    assert from == gap + [Span(code, tokens[i], sel)] + later;
    assert SpanIndex(tokens, i) == SlotOf(tokens, i) + |gap|;
    assert w[SpanIndex(tokens, i)] == from[|gap|];
    assert w[SlotOf(tokens, i)..SpanIndex(tokens, i)] == from[..|gap|];
  }

  /** The remainder: after the last span comes exactly the code from the
      last token's end on, when that end lies before the end of the code,
      and nothing otherwise. */
  lemma TrailingRest(code: string, tokens: seq<Token>, sel: Selection)
    requires tokens != []
    ensures Render(code, tokens, sel).Pieces?
    ensures var segs := Render(code, tokens, sel).segments;
      var e := tokens[|tokens| - 1].end;
      && SlotOf(tokens, |tokens|) <= |segs|
      && (e < |code| ==> segs[SlotOf(tokens, |tokens|)..] == [Plain(Slice(code, e, |code|))])
      && (e >= |code| ==> SlotOf(tokens, |tokens|) == |segs|)
  {
    WalkSuffix(code, tokens, sel, |tokens|);
    assert tokens[|tokens|..] == [];
  }

  // ---------------------------------------------------------------------
  // Changing the selection

  /** A piece with its highlight flag cleared. */
  function Unflagged(seg: Segment): Segment
  {
    match seg
    case Plain(_) => seg
    case Tok(text, token, value, _) => Tok(text, token, value, false)
  }

  /** The pieces with every highlight flag cleared. */
  function Uncoloured(segs: seq<Segment>): seq<Segment>
  {
    if segs == [] then [] else [Unflagged(segs[0])] + Uncoloured(segs[1..])
  }

  lemma {:induction false} UncolouredAppend(a: seq<Segment>, b: seq<Segment>)
    ensures Uncoloured(a + b) == Uncoloured(a) + Uncoloured(b)
  {
    if a != [] {
      assert (a + b)[0] == a[0] && (a + b)[1..] == a[1..] + b;
      UncolouredAppend(a[1..], b);
    } else {
      assert a + b == b;
    }
  }

  lemma {:induction false} ConcatUncoloured(segs: seq<Segment>)
    ensures Concat(Uncoloured(segs)) == Concat(segs)
  {
    if segs != [] {
      ConcatUncoloured(segs[1..]);
    }
  }

  lemma {:induction false} WalkUncoloured(code: string, tokens: seq<Token>, s1: Selection, s2: Selection, last: int)
    ensures Uncoloured(Walk(code, tokens, s1, last)) == Uncoloured(Walk(code, tokens, s2, last))
    decreases |tokens|
  {
    if tokens != [] {
      var t := tokens[0];
      WalkUncoloured(code, tokens[1..], s1, s2, t.end);
      UncolouredAppend(Gap(code, t, last), [Span(code, t, s1)]);
      UncolouredAppend(Gap(code, t, last) + [Span(code, t, s1)], Walk(code, tokens[1..], s1, t.end));
      UncolouredAppend(Gap(code, t, last), [Span(code, t, s2)]);
      UncolouredAppend(Gap(code, t, last) + [Span(code, t, s2)], Walk(code, tokens[1..], s2, t.end));
    }
  }

  /** A new selection only recolours the preview: the pieces, their texts,
      types and values stay the same and only highlight flags may change. */
  lemma SelectionOnlyRecolours(code: string, tokens: seq<Token>, s1: Selection, s2: Selection)
    ensures Render(code, tokens, s1).Whole? <==> Render(code, tokens, s2).Whole?
    ensures Render(code, tokens, s1).Pieces? ==>
      Uncoloured(Render(code, tokens, s1).segments) == Uncoloured(Render(code, tokens, s2).segments)
    ensures Text(Render(code, tokens, s1)) == Text(Render(code, tokens, s2))
  {
    if tokens != [] {
      WalkUncoloured(code, tokens, s1, s2, 0);
      ConcatUncoloured(Walk(code, tokens, s1, 0));
      ConcatUncoloured(Walk(code, tokens, s2, 0));
    }
  }

  // ---------------------------------------------------------------------
  // Clicking a span

  /** A click on a piece: a span selects its own type and value, bare text
      has no click handler and leaves the selection as it was. */
  function Activate(sel: Selection, seg: Segment): (r: Selection)
    ensures seg.Plain? ==> r == sel
    ensures seg.Tok? ==> r == Selection(Some(seg.token), Some(seg.value))
  {
    match seg
    case Plain(_) => sel
    case Tok(_, token, value, _) => Selection(Some(token), Some(value))
  }

  /** Clicking the i-th span has the effect of the click handler built for
      the i-th token, whatever was selected before; re-rendering then
      highlights exactly the spans whose token has the clicked type and
      value (when both are non-empty). */
  lemma ClickSpan(code: string, tokens: seq<Token>, prev: Selection, i: nat)
    requires i < |tokens|
    ensures i < |SpansOf(Render(code, tokens, prev))|
    ensures Activate(prev, SpansOf(Render(code, tokens, prev))[i]) == Click(prev, tokens[i])
    ensures |SpansOf(Render(code, tokens, Click(prev, tokens[i])))| == |tokens|
    ensures tokens[i].token != "" && tokens[i].value != "" ==>
      var next := Click(prev, tokens[i]);
      forall j :: 0 <= j < |tokens| ==>
        (SpansOf(Render(code, tokens, next))[j].highlighted <==>
          (tokens[j].token == tokens[i].token && tokens[j].value == tokens[i].value))
  {
    SpanPerToken(code, tokens, prev);
    SpanPerToken(code, tokens, Click(prev, tokens[i]));
  }

  // ---------------------------------------------------------------------
  // Empty token list and a worked example

  /** With no tokens the preview is the code, unchanged. */
  lemma EmptyTokensShowCode(code: string, sel: Selection)
    ensures Render(code, [], sel) == Whole(code)
    ensures Text(Render(code, [], sel)) == code
  {
  }

  /** "int x=1;" with a keyword and an identifier: spans and gaps alternate,
      and selecting IDENT/x highlights only the identifier. */
  lemma ScenarioIntX()
    ensures Render("int x=1;", [Token("KEYWORD", "int", 0, 3), Token("IDENT", "x", 4, 5)], NoSelection)
      == Pieces([Tok("int", "KEYWORD", "int", false), Plain(" "), Tok("x", "IDENT", "x", false), Plain("=1;")])
    ensures Render("int x=1;", [Token("KEYWORD", "int", 0, 3), Token("IDENT", "x", 4, 5)],
                   Selection(Some("IDENT"), Some("x")))
      == Pieces([Tok("int", "KEYWORD", "int", false), Plain(" "), Tok("x", "IDENT", "x", true), Plain("=1;")])
  {
    var code := "int x=1;";
    var ts := [Token("KEYWORD", "int", 0, 3), Token("IDENT", "x", 4, 5)];
    assert ts[1..][1..] == [];
    assert Slice(code, 0, 3) == "int";
    assert Slice(code, 3, 4) == " ";
    assert Slice(code, 4, 5) == "x";
    assert Slice(code, 5, |code|) == "=1;";
  }
}
