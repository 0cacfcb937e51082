/**
 * The text matcher: the OR and AND patterns built from the operator's
 * keywords, what those patterns match when the keywords are literal text,
 * and `highlight_expressions`, which wraps every OR match in markers.
 */
module Matcher {
  import opened Wrappers
  import opened Text

  /** `map(str.lower, expressions)`. */
  function LowerAll(expressions: seq<string>): (keywords: seq<string>)
    ensures |keywords| == |expressions|
    ensures forall i :: 0 <= i < |expressions| ==> keywords[i] == Lower(expressions[i])
  {
    seq(|expressions|, i requires 0 <= i < |expressions| => Lower(expressions[i]))
  }

  /**
   * The keywords `--search` passes on: at least one (the option takes one
   * or more values), and none of them empty.
   */
  predicate Keywords(expressions: seq<string>)
  {
    expressions != [] && forall e :: e in expressions ==> e != ""
  }

  /** Lower-casing keeps every keyword non-empty. */
  lemma LowerAllNonEmpty(expressions: seq<string>)
    requires forall e :: e in expressions ==> e != ""
    ensures forall k :: k in LowerAll(expressions) ==> k != ""
  {
    forall k | k in LowerAll(expressions) ensures k != "" {
      var i :| 0 <= i < |expressions| && LowerAll(expressions)[i] == k;
      assert expressions[i] in expressions;
    }
  }

  /** Lower-casing neither creates nor removes a character that is not a letter. */
  lemma LowerKeepsSymbol(s: string, c: char)
    requires !('A' <= c <= 'Z') && !('a' <= c <= 'z')
    ensures c in Lower(s) <==> c in s
  {
    if c in s {
      var i :| 0 <= i < |s| && s[i] == c;
      assert Lower(s)[i] == c;
    }
  }

  // ---------------------------------------------------------------------
  // The pattern strings

  /** `'|'.join(keywords)`. */
  function JoinBar(keywords: seq<string>): (joined: string)
  {
    if keywords == [] then ""
    else if |keywords| == 1 then keywords[0]
    else keywords[0] + "|" + JoinBar(keywords[1..])
  }

  /** `or_pattern`: the lower-cased keywords joined by '|'. */
  function OrPattern(expressions: seq<string>): (pattern: string)
  {
    JoinBar(LowerAll(expressions))
  }

  /** The index of the first `c` in `s`, or `|s|` when there is none. */
  function Find(s: string, c: char): (i: nat)
    ensures i <= |s|
    ensures i < |s| ==> s[i] == c
    ensures forall j :: 0 <= j < i ==> s[j] != c
  {
    if s == [] then 0 else if s[0] == c then 0 else 1 + Find(s[1..], c)
  }

  /** The alternatives of a pattern without groups: the pieces between the '|'s. */
  function SplitBar(p: string): seq<string>
    decreases |p|
  {
    var i := Find(p, '|');
    if i == |p| then [p] else [p[..i]] + SplitBar(p[i + 1..])
  }

  lemma {:induction false} SplitJoinBar(keywords: seq<string>)
    requires keywords != []
    requires forall k :: k in keywords ==> '|' !in k
    ensures SplitBar(JoinBar(keywords)) == keywords
  {
    var k := keywords[0];
    assert k in keywords;
    assert Find(k, '|') == |k|;
    if |keywords| > 1 {
      var rest := JoinBar(keywords[1..]);
      var p := k + "|" + rest;
      assert Find(p, '|') == |k| by {
        assert p[|k|] == '|';
        forall j | 0 <= j < |k| ensures p[j] != '|' {
          assert p[j] == k[j];
        }
      }
      assert p[..|k|] == k && p[|k| + 1..] == rest;
      SplitJoinBar(keywords[1..]);
      assert keywords == [k] + keywords[1..];
    }
  }

  /**
   * Splitting the OR pattern at its '|'s gives back the lower-cased keywords,
   * one alternative per keyword, in order (keywords without '|').
   */
  lemma OrPatternAlternatives(expressions: seq<string>)
    requires expressions != []
    requires forall e :: e in expressions ==> '|' !in e
    ensures SplitBar(OrPattern(expressions)) == LowerAll(expressions)
  {
    forall k | k in LowerAll(expressions) ensures '|' !in k {
      var i :| 0 <= i < |expressions| && LowerAll(expressions)[i] == k;
      LowerKeepsSymbol(expressions[i], '|');
    }
    SplitJoinBar(LowerAll(expressions));
  }

  /** The zero-width assertion `(?=.*k)` for one keyword. */
  function Lookahead(keyword: string): string
  {
    "(?=.*" + keyword + ")"
  }

  /** `''.join(f'(?=.*{k})' for k in keywords)`. */
  function Lookaheads(keywords: seq<string>): string
  {
    if keywords == [] then "" else Lookahead(keywords[0]) + Lookaheads(keywords[1..])
  }

  /** `and_pattern`: one lookahead per lower-cased keyword. */
  function AndPattern(expressions: seq<string>): (pattern: string)
  {
    Lookaheads(LowerAll(expressions))
  }

  /** Reads a sequence of `(?=.*k)` groups back into their keywords. */
  function ParseLookaheads(p: string): Option<seq<string>>
    decreases |p|
  {
    if p == "" then Some([])
    else if |p| < 5 || p[..5] != "(?=.*" then None
    else
      var close := 5 + Find(p[5..], ')');
      if close == |p| then None
      else match ParseLookaheads(p[close + 1..])
        case None => None
        case Some(rest) => Some([p[5..close]] + rest)
  }

  lemma {:induction false} ParseLookaheadsRoundTrip(keywords: seq<string>)
    requires forall k :: k in keywords ==> ')' !in k
    ensures ParseLookaheads(Lookaheads(keywords)) == Some(keywords)
  {
    if keywords != [] {
      var k := keywords[0];
      assert k in keywords;
      var rest := Lookaheads(keywords[1..]);
      var p := Lookaheads(keywords);
      assert p == "(?=.*" + k + ")" + rest;
      assert p[..5] == "(?=.*";
      assert p[5..] == k + ")" + rest;
      assert Find(p[5..], ')') == |k| by {
        assert p[5..][|k|] == ')';
        forall j | 0 <= j < |k| ensures p[5..][j] != ')' {
          assert p[5..][j] == k[j];
        }
      }
      assert p[5..5 + |k|] == k;
      assert p[5 + |k| + 1..] == rest;
      ParseLookaheadsRoundTrip(keywords[1..]);
      assert keywords == [k] + keywords[1..];
    }
  }

  /**
   * Reading the AND pattern back gives the lower-cased keywords, one
   * lookahead per keyword, in order (keywords without ')').
   */
  lemma AndPatternLookaheads(expressions: seq<string>)
    requires forall e :: e in expressions ==> ')' !in e
    ensures ParseLookaheads(AndPattern(expressions)) == Some(LowerAll(expressions))
  {
    forall k | k in LowerAll(expressions) ensures ')' !in k {
      var i :| 0 <= i < |expressions| && LowerAll(expressions)[i] == k;
      LowerKeepsSymbol(expressions[i], ')');
    }
    ParseLookaheadsRoundTrip(LowerAll(expressions));
  }

  // ---------------------------------------------------------------------
  // What the patterns match, for literal keywords

  /**
   * `regex.match(and_pattern(expressions), text)`: every lookahead `(?=.*k)`
   * succeeds at position 0 exactly when `k` occurs somewhere in `text`.
   */
  predicate AndMatch(expressions: seq<string>, text: string)
  {
    forall k :: k in LowerAll(expressions) ==> Contains(text, k)
  }

  /** Stated on the expressions themselves: every lower-cased expression occurs in `text`. */
  lemma AndMatchMeaning(expressions: seq<string>, text: string)
    ensures AndMatch(expressions, text) <==> forall i :: 0 <= i < |expressions| ==> Contains(text, Lower(expressions[i]))
  {
    if forall i :: 0 <= i < |expressions| ==> Contains(text, Lower(expressions[i])) {
      forall k | k in LowerAll(expressions) ensures Contains(text, k) {
        var i :| 0 <= i < |expressions| && LowerAll(expressions)[i] == k;
      }
    }
  }

  /**
   * `regex.match(p, text)` for a pattern made only of `(?=.*k)` groups with
   * literal keywords: every group is a lookahead from position 0, so the
   * pattern matches iff each keyword occurs somewhere in `text`.  A string
   * that does not read back as such groups does not match.
   */
  predicate LookaheadsMatch(p: string, text: string)
  {
    match ParseLookaheads(p)
    case None => false
    case Some(keywords) => forall k :: k in keywords ==> Contains(text, k)
  }

  /**
   * The pattern string `and_pattern` builds matches a text iff every
   * lower-cased keyword occurs in it (keywords without ')').
   */
  lemma AndPatternMatches(expressions: seq<string>, text: string)
    requires forall e :: e in expressions ==> ')' !in e
    ensures LookaheadsMatch(AndPattern(expressions), text) <==> AndMatch(expressions, text)
    ensures LookaheadsMatch(AndPattern(expressions), text) <==>
      forall i :: 0 <= i < |expressions| ==> Contains(text, Lower(expressions[i]))
  {
    AndPatternLookaheads(expressions);
    AndMatchMeaning(expressions, text);
  }

  /** `k` is the alternative a regex alternation picks at `p`: the first listed one occurring there. */
  ghost predicate FirstAlternative(alternatives: seq<string>, text: string, p: int, k: string)
  {
    exists i :: 0 <= i < |alternatives| && alternatives[i] == k && OccursAt(k, text, p)
      && forall j :: 0 <= j < i ==> !OccursAt(alternatives[j], text, p)
  }

  /** What the alternation `k1|k2|...` matches at position `p`, if anything. */
  function MatchAt(alternatives: seq<string>, text: string, p: int): (r: Option<string>)
    ensures r.Some? ==> r.value in alternatives && OccursAt(r.value, text, p)
  {
    if alternatives == [] then None
    else if OccursAt(alternatives[0], text, p) then Some(alternatives[0])
    else MatchAt(alternatives[1..], text, p)
  }

  /**
   * The alternation matches at `p` iff some keyword occurs there, and then
   * it picks the first listed keyword that occurs there, not the longest.
   */
  lemma {:induction false} MatchAtSpec(alternatives: seq<string>, text: string, p: int)
    ensures var r := MatchAt(alternatives, text, p);
      && (r.None? <==> forall k :: k in alternatives ==> !OccursAt(k, text, p))
      && (r.Some? ==> FirstAlternative(alternatives, text, p, r.value))
  {
    if alternatives != [] && !OccursAt(alternatives[0], text, p) {
      var tail := alternatives[1..];
      MatchAtSpec(tail, text, p);
      var r := MatchAt(tail, text, p);
      assert alternatives == [alternatives[0]] + tail;
      if r.Some? {
        var i :| 0 <= i < |tail| && tail[i] == r.value && OccursAt(r.value, text, p)
          && forall j :: 0 <= j < i ==> !OccursAt(tail[j], text, p);
        forall j | 0 <= j < i + 1 ensures !OccursAt(alternatives[j], text, p) {
          if j > 0 { assert alternatives[j] == tail[j - 1]; }
        }
        assert alternatives[i + 1] == r.value;
      }
    } else if alternatives != [] {
      assert alternatives[0] in alternatives;
    }
  }

  /** A highlighted span `[start, stop)` of the text. */
  datatype Span = Span(start: nat, stop: nat)

  /** The spans are non-empty, inside a text of length `n`, and strictly left to right. */
  ghost predicate WellFormed(spans: seq<Span>, n: nat)
  {
    && (forall i :: 0 <= i < |spans| ==> spans[i].start < spans[i].stop <= n)
    && (forall i :: 0 < i < |spans| ==> spans[i - 1].stop <= spans[i].start)
  }

  /** Position `q` lies inside one of the spans. */
  ghost predicate Covered(spans: seq<Span>, q: int)
  {
    spans != [] && (spans[0].start <= q < spans[0].stop || Covered(spans[1..], q))
  }

  /**
   * `regex.finditer(or_pattern)` from `pos`: try the alternation at each
   * position; on a match, record its span and resume after it.
   */
  function FindIter(alternatives: seq<string>, text: string, pos: nat): (spans: seq<Span>)
    requires pos <= |text|
    requires forall k :: k in alternatives ==> k != ""
    decreases |text| - pos
    ensures WellFormed(spans, |text|)
    ensures forall i :: 0 <= i < |spans| ==> pos <= spans[i].start
  {
    if pos == |text| then []
    else match MatchAt(alternatives, text, pos)
      case Some(k) => [Span(pos, pos + |k|)] + FindIter(alternatives, text, pos + |k|)
      case None => FindIter(alternatives, text, pos + 1)
  }

  /** Each span is exactly what the alternation matches at the span's start. */
  lemma {:induction false} FindIterMatches(alternatives: seq<string>, text: string, pos: nat, i: nat)
    requires pos <= |text|
    requires forall k :: k in alternatives ==> k != ""
    requires i < |FindIter(alternatives, text, pos)|
    decreases |text| - pos
    ensures var s := FindIter(alternatives, text, pos)[i];
      MatchAt(alternatives, text, s.start) == Some(text[s.start..s.stop])
  {
    match MatchAt(alternatives, text, pos)
    case Some(k) =>
      assert FindIter(alternatives, text, pos) == [Span(pos, pos + |k|)] + FindIter(alternatives, text, pos + |k|);
      if i > 0 {
        FindIterMatches(alternatives, text, pos + |k|, i - 1);
      }
    case None =>
      assert FindIter(alternatives, text, pos) == FindIter(alternatives, text, pos + 1);
      FindIterMatches(alternatives, text, pos + 1, i);
  }

  /** Every position where some keyword occurs lies inside a span: finditer misses no match. */
  lemma {:induction false} FindIterComplete(alternatives: seq<string>, text: string, pos: nat, q: int)
    requires pos <= |text|
    requires forall k :: k in alternatives ==> k != ""
    requires pos <= q && MatchAt(alternatives, text, q).Some?
    decreases |text| - pos
    ensures Covered(FindIter(alternatives, text, pos), q)
  {
    var spans := FindIter(alternatives, text, pos);
    // At the end of the text no non-empty keyword can occur, so pos < |text|.
    if pos < |text| {
      match MatchAt(alternatives, text, pos)
      case Some(k) =>
        assert spans == [Span(pos, pos + |k|)] + FindIter(alternatives, text, pos + |k|);
        if q >= pos + |k| {
          FindIterComplete(alternatives, text, pos + |k|, q);
          assert spans[1..] == FindIter(alternatives, text, pos + |k|);
        }
      case None =>
        FindIterComplete(alternatives, text, pos + 1, q);
    }
  }

  /** finditer finds nothing iff no keyword occurs anywhere in the text. */
  lemma FindIterEmpty(alternatives: seq<string>, text: string)
    requires forall k :: k in alternatives ==> k != ""
    ensures FindIter(alternatives, text, 0) == [] <==> forall k :: k in alternatives ==> !Contains(text, k)
  {
    var spans := FindIter(alternatives, text, 0);
    if spans != [] {
      FindIterMatches(alternatives, text, 0, 0);
      var k := MatchAt(alternatives, text, spans[0].start).value;
      assert k in alternatives && OccursAt(k, text, spans[0].start);
    }
    if exists k :: k in alternatives && Contains(text, k) {
      var k :| k in alternatives && Contains(text, k);
      var q :| 0 <= q <= |text| && OccursAt(k, text, q);
      MatchAtSpec(alternatives, text, q);
      FindIterComplete(alternatives, text, 0, q);
    }
  }

  // ---------------------------------------------------------------------
  // highlight_expressions

  /** `''.join(parts)`. */
  function Concat(parts: seq<string>): string
  {
    if parts == [] then "" else Concat(parts[..|parts| - 1]) + parts[|parts| - 1]
  }

  lemma ConcatOne(before: seq<string>, a: string)
    ensures Concat(before + [a]) == Concat(before) + a
  {
    assert (before + [a])[..|before|] == before;
  }

  lemma ConcatChunk(before: seq<string>, a: string, b: string, c: string, d: string)
    ensures Concat(before + [a, b, c, d]) == Concat(before) + a + b + c + d
  {
    ConcatOne(before, a);
    ConcatOne(before + [a], b);
    ConcatOne(before + [a] + [b], c);
    ConcatOne(before + [a] + [b] + [c], d);
    assert before + [a] + [b] + [c] + [d] == before + [a, b, c, d];
  }

  /** Where the text after the last span begins. */
  function LastStop(spans: seq<Span>): nat
  {
    if spans == [] then 0 else spans[|spans| - 1].stop
  }

  /** Dropping the last span keeps the spans well formed, and the last one starts after the others stop. */
  lemma WellFormedInit(spans: seq<Span>, n: nat)
    requires WellFormed(spans, n) && spans != []
    ensures var init, s := spans[..|spans| - 1], spans[|spans| - 1];
      WellFormed(init, n) && LastStop(init) <= s.start < s.stop <= n
  {
  }

  /** Three consecutive slices join up into a prefix. */
  lemma SlicesJoin(text: string, i: nat, j: nat, k: nat)
    requires i <= j <= k <= |text|
    ensures text[..i] + text[i..j] + text[j..k] == text[..k]
  {
  }

  /**
   * The parts `text_parts` holds after the loop has handled `spans`: for each
   * span, the text since the previous span, `style`, the span's text, `reset`.
   */
  function MarkedParts(text: string, spans: seq<Span>, style: string, reset: string): (parts: seq<string>)
    requires WellFormed(spans, |text|)
    ensures |parts| == 4 * |spans|
  {
    if spans == [] then []
    else
      var init, s := spans[..|spans| - 1], spans[|spans| - 1];
      assert WellFormed(init, |text|);
      MarkedParts(text, init, style, reset) + [text[LastStop(init)..s.start], style, text[s.start..s.stop], reset]
  }

  /** All the parts: the marked spans, then the text after the last span. */
  function HighlightParts(text: string, spans: seq<Span>, style: string, reset: string): seq<string>
    requires WellFormed(spans, |text|)
  {
    MarkedParts(text, spans, style, reset) + [text[LastStop(spans)..]]
  }

  /** The spans of `regex.finditer(or_pattern(expressions), text.lower())`. */
  function OrMatches(text: string, expressions: seq<string>): (spans: seq<Span>)
    requires Keywords(expressions)
    ensures WellFormed(spans, |text|)
  {
    LowerAllNonEmpty(expressions);
    FindIter(LowerAll(expressions), Lower(text), 0)
  }

  /** The result of `highlight_expressions(text, expressions, style, reset)`. */
  function Highlight(text: string, expressions: seq<string>, style: string, reset: string): (highlighted: string)
    requires Keywords(expressions)
  {
    Concat(HighlightParts(text, OrMatches(text, expressions), style, reset))
  }

  /** When no keyword occurs in the lower-cased text, the text comes back unchanged. */
  lemma HighlightNoMatch(text: string, expressions: seq<string>, style: string, reset: string)
    requires Keywords(expressions)
    requires forall e :: e in expressions ==> !Contains(Lower(text), Lower(e))
    ensures Highlight(text, expressions, style, reset) == text
  {
    assert OrMatches(text, expressions) == [] by {
      LowerAllNonEmpty(expressions);
      forall k | k in LowerAll(expressions) ensures !Contains(Lower(text), k) {
        var i :| 0 <= i < |expressions| && LowerAll(expressions)[i] == k;
        assert expressions[i] in expressions;
      }
      FindIterEmpty(LowerAll(expressions), Lower(text));
    }
    calc {
      Highlight(text, expressions, style, reset);
      Concat(HighlightParts(text, [], style, reset));
      { assert HighlightParts(text, [], style, reset) == [text[0..]]; }
      Concat([text[0..]]);
      { assert [text[0..]][..0] == []; }
      text;
    }
  }

  /**
   * `highlight_expressions`: walk the OR matches of the lower-cased text left
   * to right and rebuild the original text with each match wrapped in
   * `style` and `reset`.
   */
  method HighlightExpressions(text: string, expressions: seq<string>, style: string, reset: string)
    returns (highlighted: string)
    requires Keywords(expressions)
    ensures highlighted == Highlight(text, expressions, style, reset)
    ensures (forall e :: e in expressions ==> !Contains(Lower(text), Lower(e))) ==> highlighted == text
  {
    var spans := OrMatches(text, expressions);
    var parts: seq<string> := [];
    var lastStop := 0;
    for i := 0 to |spans|
      invariant lastStop == LastStop(spans[..i])
      invariant parts == MarkedParts(text, spans[..i], style, reset)
    {
      var start, stop := spans[i].start, spans[i].stop;
      assert spans[..i + 1][..i] == spans[..i];
      parts := parts + [text[lastStop..start]];
      parts := parts + [style];
      parts := parts + [text[start..stop]];
      parts := parts + [reset];
      lastStop := stop;
    }
    assert spans[..|spans|] == spans;
    parts := parts + [text[lastStop..]];
    highlighted := Concat(parts);
    if forall e :: e in expressions ==> !Contains(Lower(text), Lower(e)) {
      HighlightNoMatch(text, expressions, style, reset);
    }
  }

  // ---------------------------------------------------------------------
  // What the highlighted text is made of

  /** The four parts the loop appends for the `j`-th span. */
  lemma {:induction false} MarkedPartsAt(text: string, spans: seq<Span>, style: string, reset: string, j: nat)
    requires WellFormed(spans, |text|)
    requires j < |spans|
    ensures var parts, gap := MarkedParts(text, spans, style, reset), if j == 0 then 0 else spans[j - 1].stop;
      && gap <= spans[j].start
      && parts[4 * j] == text[gap..spans[j].start]
      && parts[4 * j + 1] == style
      && parts[4 * j + 2] == text[spans[j].start..spans[j].stop]
      && parts[4 * j + 3] == reset
  {
    var init := spans[..|spans| - 1];
    if j < |spans| - 1 {
      assert WellFormed(init, |text|);
      MarkedPartsAt(text, init, style, reset, j);
      assert init[j] == spans[j];
      if j > 0 { assert init[j - 1] == spans[j - 1]; }
    }
  }

  /** The parts with the markers taken out: every other part, starting with the first. */
  function Unmark(parts: seq<string>): seq<string>
  {
    if |parts| <= 1 then parts else [parts[0]] + Unmark(parts[2..])
  }

  lemma {:induction false} UnmarkAppend(a: seq<string>, b: seq<string>)
    requires |a| % 2 == 0
    ensures Unmark(a + b) == Unmark(a) + Unmark(b)
  {
    if a == [] {
      assert a + b == b;
    } else {
      UnmarkAppend(a[2..], b);
      assert (a + b)[2..] == a[2..] + b;
    }
  }

  lemma UnmarkChunk(gap: string, style: string, hit: string, reset: string)
    ensures Unmark([gap, style, hit, reset]) == [gap, hit]
  {
    assert [gap, style, hit, reset][2..] == [hit, reset];
    assert Unmark([hit, reset]) == [hit] + Unmark([]);
  }

  /** Without the markers, the marked parts spell out the text up to the last span's end. */
  lemma {:induction false} MarkedPartsUnmark(text: string, spans: seq<Span>, style: string, reset: string)
    requires WellFormed(spans, |text|)
    ensures Concat(Unmark(MarkedParts(text, spans, style, reset))) == text[..LastStop(spans)]
  {
    if spans != [] {
      var init, s := spans[..|spans| - 1], spans[|spans| - 1];
      WellFormedInit(spans, |text|);
      var gap, hit := text[LastStop(init)..s.start], text[s.start..s.stop];
      var before := MarkedParts(text, init, style, reset);
      MarkedPartsUnmark(text, init, style, reset);
      UnmarkAppend(before, [gap, style, hit, reset]);
      UnmarkChunk(gap, style, hit, reset);
      ConcatOne(Unmark(before), gap);
      ConcatOne(Unmark(before) + [gap], hit);
      assert Unmark(before) + [gap] + [hit] == Unmark(before) + [gap, hit];
      SlicesJoin(text, LastStop(init), s.start, s.stop);
    }
  }

  /**
   * Round trip: taking the `style` and `reset` parts out of what
   * `highlight_expressions` joins gives back the input text exactly,
   * whatever the markers are.
   */
  lemma HighlightRoundTrip(text: string, expressions: seq<string>, style: string, reset: string)
    requires Keywords(expressions)
    ensures var parts := HighlightParts(text, OrMatches(text, expressions), style, reset);
      && Highlight(text, expressions, style, reset) == Concat(parts)
      && Concat(Unmark(parts)) == text
  {
    var spans := OrMatches(text, expressions);
    var marked := MarkedParts(text, spans, style, reset);
    var tail := text[LastStop(spans)..];
    MarkedPartsUnmark(text, spans, style, reset);
    UnmarkAppend(marked, [tail]);
    ConcatOne(Unmark(marked), tail);
    assert text[..LastStop(spans)] + tail == text;
  }

  /**
   * The highlighted spans of the output, in order: each is wrapped in
   * `style` and `reset`, holds the original text of its span, and its
   * lower-cased text is the first listed lower-cased keyword occurring there.
   */
  lemma HighlightMarksKeywords(text: string, expressions: seq<string>, style: string, reset: string, j: nat)
    requires Keywords(expressions)
    requires j < |OrMatches(text, expressions)|
    ensures var spans := OrMatches(text, expressions);
      var parts := HighlightParts(text, spans, style, reset);
      && parts[4 * j + 1] == style && parts[4 * j + 3] == reset
      && parts[4 * j + 2] == text[spans[j].start..spans[j].stop]
      && FirstAlternative(LowerAll(expressions), Lower(text), spans[j].start, Lower(parts[4 * j + 2]))
  {
    var spans := OrMatches(text, expressions);
    var s := spans[j];
    MarkedPartsAt(text, spans, style, reset, j);
    LowerAllNonEmpty(expressions);
    FindIterMatches(LowerAll(expressions), Lower(text), 0, j);
    MatchAtSpec(LowerAll(expressions), Lower(text), s.start);
    LowerSlice(text, s.start, s.stop);
  }

  /** `s` with every character in `markers` removed. */
  function Strip(s: string, markers: set<char>): string
  {
    if s == [] then "" else Strip(s[..|s| - 1], markers) + (if s[|s| - 1] in markers then "" else [s[|s| - 1]])
  }

  /** Stripping removes the marker characters and keeps every other character. */
  lemma {:induction false} StripSpec(s: string, markers: set<char>)
    ensures forall c :: c in Strip(s, markers) <==> c in s && c !in markers
  {
    if s != [] {
      var n := |s| - 1;
      StripSpec(s[..n], markers);
      assert s == s[..n] + [s[n]];
    }
  }

  lemma {:induction false} StripAppend(a: string, b: string, markers: set<char>)
    ensures Strip(a + b, markers) == Strip(a, markers) + Strip(b, markers)
  {
    if b != [] {
      StripAppend(a, b[..|b| - 1], markers);
      assert (a + b)[..|a + b| - 1] == a + b[..|b| - 1];
    } else {
      assert a + b == a;
    }
  }

  lemma {:induction false} StripNothing(s: string, markers: set<char>)
    requires forall c :: c in s ==> c !in markers
    ensures Strip(s, markers) == s
  {
    if s != [] {
      StripNothing(s[..|s| - 1], markers);
      assert s[|s| - 1] in s;
    }
  }

  lemma {:induction false} StripAll(s: string, markers: set<char>)
    requires forall c :: c in s ==> c in markers
    ensures Strip(s, markers) == ""
  {
    if s != [] {
      StripAll(s[..|s| - 1], markers);
      assert s[|s| - 1] in s;
    }
  }

  /** A slice of a text free of marker characters survives stripping. */
  lemma StripSlice(text: string, i: nat, j: nat, markers: set<char>)
    requires i <= j <= |text|
    requires forall c :: c in text ==> c !in markers
    ensures Strip(text[i..j], markers) == text[i..j]
  {
    forall c | c in text[i..j] ensures c !in markers {
      var m :| 0 <= m < j - i && text[i..j][m] == c;
      assert text[i + m] == c;
    }
    StripNothing(text[i..j], markers);
  }

  /** Stripping the four parts of one span leaves the gap and the span's text. */
  lemma StripChunk(prefix: string, gap: string, style: string, hit: string, reset: string, markers: set<char>)
    requires forall c :: c in style ==> c in markers
    requires forall c :: c in reset ==> c in markers
    ensures Strip(prefix + gap + style + hit + reset, markers)
      == Strip(prefix, markers) + Strip(gap, markers) + Strip(hit, markers)
  {
    StripAppend(prefix + gap + style + hit, reset, markers);
    StripAppend(prefix + gap + style, hit, markers);
    StripAppend(prefix + gap, style, markers);
    StripAppend(prefix, gap, markers);
    StripAll(style, markers);
    StripAll(reset, markers);
  }

  /** Stripped of the markers, the marked parts spell out the text up to the last span's end. */
  lemma {:induction false} StripMarkedParts(text: string, spans: seq<Span>, style: string, reset: string, markers: set<char>)
    requires WellFormed(spans, |text|)
    requires forall c :: c in style ==> c in markers
    requires forall c :: c in reset ==> c in markers
    requires forall c :: c in text ==> c !in markers
    ensures Strip(Concat(MarkedParts(text, spans, style, reset)), markers) == text[..LastStop(spans)]
  {
    if spans != [] {
      var init, s := spans[..|spans| - 1], spans[|spans| - 1];
      WellFormedInit(spans, |text|);
      var before := MarkedParts(text, init, style, reset);
      var gap, hit := text[LastStop(init)..s.start], text[s.start..s.stop];
      StripMarkedParts(text, init, style, reset, markers);
      ConcatChunk(before, gap, style, hit, reset);
      StripChunk(Concat(before), gap, style, hit, reset, markers);
      StripSlice(text, LastStop(init), s.start, markers);
      StripSlice(text, s.start, s.stop, markers);
      SlicesJoin(text, LastStop(init), s.start, s.stop);
    }
  }

  /** Stripped of the markers, all the parts spell out the whole text. */
  lemma StripHighlightParts(text: string, spans: seq<Span>, style: string, reset: string, markers: set<char>)
    requires WellFormed(spans, |text|)
    requires forall c :: c in style ==> c in markers
    requires forall c :: c in reset ==> c in markers
    requires forall c :: c in text ==> c !in markers
    ensures Strip(Concat(HighlightParts(text, spans, style, reset)), markers) == text
  {
    var marked := MarkedParts(text, spans, style, reset);
    var tail := text[LastStop(spans)..];
    ConcatOne(marked, tail);
    StripAppend(Concat(marked), tail, markers);
    StripMarkedParts(text, spans, style, reset, markers);
    StripSlice(text, LastStop(spans), |text|, markers);
    assert text[LastStop(spans)..|text|] == tail;
    assert text[..LastStop(spans)] + tail == text;
  }

  /**
   * With marker strings made only of characters the text does not contain
   * (the fallback markers are '[' and ']'), deleting those characters from
   * the highlighted text gives back the input.
   */
  lemma HighlightStripMarkers(text: string, expressions: seq<string>, style: string, reset: string, markers: set<char>)
    requires Keywords(expressions)
    requires forall c :: c in style ==> c in markers
    requires forall c :: c in reset ==> c in markers
    requires forall c :: c in text ==> c !in markers
    ensures Strip(Highlight(text, expressions, style, reset), markers) == text
  {
    StripHighlightParts(text, OrMatches(text, expressions), style, reset, markers);
  }
}
