/**
 * parseQuiz: a global regular expression for one quiz question (a numbered
 * question line, then four option lines labelled `a)` to `d)` and an answer
 * line labelled `Answer:`, each label after optional whitespace and each field
 * a non-empty rest of line), applied repeatedly with `exec`, one trimmed record
 * per match; six capture groups, one per line.
 *
 * The pattern is read as six pieces. Each piece is a prefix (`\d+\.` for the
 * first, `\s*` and a tag for the others), then `\s*[^\n]+`, then a line
 * feed (all but the last). PiecesAt accepts every way the text can be split
 * along the pattern. MatchPieces is the backtracking matcher: it tries the
 * greedy choices first, as the JavaScript engine does, and it is proved to
 * find a split exactly when one exists.
 */
module QuizParser {
  import opened Wrappers
  import opened JsText

  datatype Options = Options(a: string, b: string, c: string, d: string)

  datatype QuizQuestion = QuizQuestion(question: string, options: Options, answer: string)

  /** The fixed part that opens a piece: `\d+\.`, or `\s*` followed by a literal tag. */
  datatype Prefix = Numbered | Labelled(tag: string)

  const QuestionPattern: seq<Prefix> :=
    [Numbered, Labelled("a)"), Labelled("b)"), Labelled("c)"), Labelled("d)"), Labelled("Answer:")]

  /** One piece of a match: where the prefix ends (`body`), and the stretch
      `[capStart, capEnd)` that the piece's `[^\n]+` covers. */
  datatype Piece = Piece(body: nat, capStart: nat, capEnd: nat)

  /** A match of the whole pattern starting at `index`. */
  datatype Match = Match(index: nat, pieces: seq<Piece>)

  /** A tag starts with a non-space character, so `\s*` before it has only one way to match. */
  predicate ValidPattern(pats: seq<Prefix>) {
    forall k :: 0 <= k < |pats| ==> pats[k].Labelled? ==> pats[k].tag != [] && !IsSpace(pats[k].tag[0])
  }

  lemma {:induction false} ValidTail(pats: seq<Prefix>)
    requires pats != [] && ValidPattern(pats)
    ensures ValidPattern(pats[1..])
  {
    forall k | 0 <= k < |pats| - 1 ensures pats[1..][k] == pats[k + 1] {}
  }

  /** `text[from..to]` matches the prefix. */
  predicate PrefixMatches(text: string, pre: Prefix, from: nat, to: nat) {
    match pre
    case Numbered =>
      from + 2 <= to <= |text| && All(text[from..to - 1], Digit) && text[to - 1] == '.'
    case Labelled(tag) =>
      from + |tag| <= to <= |text| && AllSpace(text[from..to - |tag|]) && text[to - |tag|..to] == tag
  }

  /** `text[from..p.capEnd]` matches prefix, `\s*` and `[^\n]+`, the last
      ending where its line does; all but the last piece need a line feed after. */
  predicate PieceAt(text: string, pre: Prefix, from: nat, p: Piece, last: bool) {
    && PrefixMatches(text, pre, from, p.body)
    && p.body <= p.capStart < p.capEnd <= |text|
    && AllSpace(text[p.body..p.capStart])
    && '\n' !in text[p.capStart..p.capEnd]
    && (p.capEnd == |text| || text[p.capEnd] == '\n')
    && (!last ==> p.capEnd < |text|)
  }

  /** Where piece `k` starts: at `from`, or just past the line feed that closes piece `k - 1`. */
  function PieceFrom(from: nat, ps: seq<Piece>, k: nat): nat
    requires k <= |ps|
  {
    if k == 0 then from else ps[k - 1].capEnd + 1
  }

  /** The pieces split `text` from `from` along `pats`. */
  predicate PiecesAt(text: string, pats: seq<Prefix>, from: nat, ps: seq<Piece>)
    decreases |pats|
  {
    && |ps| == |pats|
    && (pats != [] ==>
         && PieceAt(text, pats[0], from, ps[0], |pats| == 1)
         && PiecesAt(text, pats[1..], ps[0].capEnd + 1, ps[1..]))
  }

  /** Piece `k` of a split matches the `k`-th prefix where the previous piece left off. */
  lemma {:induction false} PiecesAtEach(text: string, pats: seq<Prefix>, from: nat, ps: seq<Piece>, k: nat)
    requires PiecesAt(text, pats, from, ps)
    requires k < |pats|
    ensures PieceAt(text, pats[k], PieceFrom(from, ps, k), ps[k], k == |pats| - 1)
    decreases k
  {
    if k > 0 {
      PiecesAtEach(text, pats[1..], ps[0].capEnd + 1, ps[1..], k - 1);
      assert pats[1..][k - 1] == pats[k] && ps[1..][k - 1] == ps[k];
      assert PieceFrom(ps[0].capEnd + 1, ps[1..], k - 1) == PieceFrom(from, ps, k);
    }
  }

  /** The end of the prefix at `from`, found greedily: the whole digit run, or
      the whole whitespace run, then the literal. */
  function PrefixEnd(text: string, pre: Prefix, from: nat): Option<nat>
    requires from <= |text|
  {
    match pre
    case Numbered =>
      var j := RunEnd(text, from, Digit);
      if from < j < |text| && text[j] == '.' then Some(j + 1) else None
    case Labelled(tag) =>
      var j := RunEnd(text, from, Space);
      if j + |tag| <= |text| && text[j..j + |tag|] == tag then Some(j + |tag|) else None
  }

  /** The greedy prefix end is the only place the prefix can end. */
  lemma {:induction false} PrefixEndExact(text: string, pre: Prefix, from: nat, to: nat)
    requires from <= |text|
    requires pre.Labelled? ==> pre.tag != [] && !IsSpace(pre.tag[0])
    ensures PrefixMatches(text, pre, from, to) <==> PrefixEnd(text, pre, from) == Some(to)
  {
    match pre
    case Numbered =>
      if PrefixMatches(text, pre, from, to) {
        RunEndIsMaximal(text, from, to - 1, Digit);
        RunEndStops(text, from, to - 1, Digit);
      }
    case Labelled(tag) =>
      var j := RunEnd(text, from, Space);
      if PrefixMatches(text, pre, from, to) {
        var e := to - |tag|;
        assert All(text[from..e], Space);
        RunEndIsMaximal(text, from, e, Space);
        assert text[e] == tag[0];
        RunEndStops(text, from, e, Space);
      }
      if PrefixEnd(text, pre, from) == Some(to) {
        assert AllSpace(text[from..j]) by { assert All(text[from..j], Space); }
      }
  }

  /** The backtracking matcher: the split of `text` from `from` along `pats`
      that the JavaScript engine tries first, or None when there is none
      (MatchPiecesComplete proves that None means no split exists). */
  function MatchPieces(text: string, pats: seq<Prefix>, from: nat): (r: Option<seq<Piece>>)
    requires from <= |text|
    requires ValidPattern(pats)
    ensures r.Some? ==> PiecesAt(text, pats, from, r.value)
    decreases |pats|, |text| + 1
  {
    if pats == [] then Some([])
    else
      match PrefixEnd(text, pats[0], from)
      case None => None
      case Some(body) =>
        PrefixEndExact(text, pats[0], from, body);
        TryCaptures(text, pats, from, body, RunEnd(text, body, Space))
  }

  /** Tries the first piece's `[^\n]+` from `s`, then `s - 1`, down to `body`:
      the order in which a greedy `\s*` gives characters back. */
  function TryCaptures(text: string, pats: seq<Prefix>, from: nat, body: nat, s: nat): (r: Option<seq<Piece>>)
    requires pats != [] && ValidPattern(pats)
    requires PrefixMatches(text, pats[0], from, body)
    requires body <= s <= |text| && All(text[body..s], Space)
    ensures r.Some? ==> PiecesAt(text, pats, from, r.value)
    decreases |pats|, s - body + 1
  {
    match CaptureAt(text, pats, from, body, s)
    case Some(ps) => Some(ps)
    case None =>
      if s == body then None
      else
        AllShorter(text, body, s, s - 1, Space);
        TryCaptures(text, pats, from, body, s - 1)
  }

  /** The split, if any, whose first `[^\n]+` starts at `s`: it runs to the end
      of that line, and the rest of the pattern must match after the line feed. */
  function CaptureAt(text: string, pats: seq<Prefix>, from: nat, body: nat, s: nat): (r: Option<seq<Piece>>)
    requires pats != [] && ValidPattern(pats)
    requires PrefixMatches(text, pats[0], from, body)
    requires body <= s <= |text| && All(text[body..s], Space)
    ensures r.Some? ==> PiecesAt(text, pats, from, r.value)
    decreases |pats|, 0
  {
    if s < |text| && text[s] != '\n' then
      var n := LineEnd(text, s);
      var p := Piece(body, s, n);
      FirstPiece(text, pats[0], from, body, s);
      if |pats| == 1 then
        assert PiecesAt(text, pats[1..], n + 1, []);
        Some([p])
      else if n < |text| then
        match MatchPieces(text, pats[1..], n + 1)
        case Some(rest) =>
          assert ([p] + rest)[0] == p && ([p] + rest)[1..] == rest;
          Some([p] + rest)
        case None => None
      else None
    else None
  }

  /** The matcher is complete: whenever the text splits along the pattern
      from `from`, MatchPieces finds a split. */
  lemma {:induction false} MatchPiecesComplete(text: string, pats: seq<Prefix>, from: nat, ps: seq<Piece>)
    requires from <= |text| && ValidPattern(pats)
    requires PiecesAt(text, pats, from, ps)
    ensures MatchPieces(text, pats, from).Some?
    decreases |pats|, |text| + 1, 1
  {
    if pats != [] {
      CaptureAtSplit(text, pats, from, ps);
      MatchPiecesAtCapture(text, pats, from, ps[0].body, ps[0].capStart, ps[1..]);
    }
  }

  /** The matcher finds a split once the first prefix ends at `body` and the
      first `[^\n]+` can start at `c`, after which the rest of the pattern matches. */
  lemma {:induction false} MatchPiecesAtCapture(text: string, pats: seq<Prefix>, from: nat, body: nat, c: nat, rest: seq<Piece>)
    requires from <= |text| && pats != [] && ValidPattern(pats)
    requires PrefixMatches(text, pats[0], from, body)
    requires body <= c < |text| && text[c] != '\n' && AllSpace(text[body..c])
    requires |pats| > 1 ==> LineEnd(text, c) < |text| && PiecesAt(text, pats[1..], LineEnd(text, c) + 1, rest)
    ensures MatchPieces(text, pats, from).Some?
    decreases |pats|, |text| + 1, 0
  {
    PrefixEndExact(text, pats[0], from, body);
    assert All(text[body..c], Space);
    RunEndIsMaximal(text, body, c, Space);
    TryCapturesComplete(text, pats, from, body, RunEnd(text, body, Space), c, rest);
    MatchPiecesSome(text, pats, from, body);
  }

  /**
   * The backtracking search from `s` down reaches a capture start `c` whose line is
   * non-empty and after which the rest of the pattern matches, so it succeeds.
   */
  lemma {:induction false} TryCapturesComplete(text: string, pats: seq<Prefix>, from: nat, body: nat, s: nat, c: nat, rest: seq<Piece>)
    requires pats != [] && ValidPattern(pats)
    requires PrefixMatches(text, pats[0], from, body)
    requires body <= c <= s <= |text| && All(text[body..s], Space)
    requires c < |text| && text[c] != '\n'
    requires |pats| > 1 ==> LineEnd(text, c) < |text| && PiecesAt(text, pats[1..], LineEnd(text, c) + 1, rest)
    ensures TryCaptures(text, pats, from, body, s).Some?
    decreases |pats|, s - body + 1
  {
    if c == s {
      CaptureAtComplete(text, pats, from, body, s, rest);
    } else if CaptureAt(text, pats, from, body, s).None? {
      var t := s - 1;
      AllShorter(text, body, s, t, Space);
      TryCapturesComplete(text, pats, from, body, t, c, rest);
    }
    TryCapturesSome(text, pats, from, body, s);
  }

  lemma {:induction false} CaptureAtComplete(text: string, pats: seq<Prefix>, from: nat, body: nat, s: nat, rest: seq<Piece>)
    requires pats != [] && ValidPattern(pats)
    requires PrefixMatches(text, pats[0], from, body)
    requires body <= s < |text| && All(text[body..s], Space) && text[s] != '\n'
    requires |pats| > 1 ==> LineEnd(text, s) < |text| && PiecesAt(text, pats[1..], LineEnd(text, s) + 1, rest)
    ensures CaptureAt(text, pats, from, body, s).Some?
    decreases |pats|, 0
  {
    ValidTail(pats);
    if |pats| > 1 {
      MatchPiecesComplete(text, pats[1..], LineEnd(text, s) + 1, rest);
    }
    CaptureAtSome(text, pats, from, body, s);
  }

  /** A first `[^\n]+` that starts on a non-line-feed character after
      whitespace and runs to the end of its line is a valid piece. */
  lemma {:induction false} FirstPiece(text: string, pre: Prefix, from: nat, body: nat, s: nat)
    requires PrefixMatches(text, pre, from, body)
    requires body <= s < |text| && All(text[body..s], Space) && text[s] != '\n'
    ensures PieceAt(text, pre, from, Piece(body, s, LineEnd(text, s)), true)
    ensures LineEnd(text, s) < |text| ==> PieceAt(text, pre, from, Piece(body, s, LineEnd(text, s)), false)
  {
    assert AllSpace(text[body..s]) by { assert All(text[body..s], Space); }
    assert LineEnd(text, s) > s;
  }

  /** What a split whose first `[^\n]+` starts at `s` must look like. */
  lemma {:induction false} CaptureAtSplit(text: string, pats: seq<Prefix>, from: nat, ps: seq<Piece>)
    requires pats != [] && PiecesAt(text, pats, from, ps)
    ensures var s := ps[0].capStart;
      && PrefixMatches(text, pats[0], from, ps[0].body)
      && ps[0].body <= s && AllSpace(text[ps[0].body..s])
      && s < |text| && text[s] != '\n'
      && ps[0].capEnd == LineEnd(text, s)
      && (|pats| > 1 ==> ps[0].capEnd < |text| && PiecesAt(text, pats[1..], ps[0].capEnd + 1, ps[1..]))
  {
    var s := ps[0].capStart;
    assert text[s..ps[0].capEnd][0] == text[s];
    LineEndUnique(text, s, ps[0].capEnd);
  }

  lemma {:induction false} QuestionPatternValid()
    ensures ValidPattern(QuestionPattern)
  {
  }

  /** The pieces split `text` along the quiz pattern from `m.index`. */
  predicate IsMatch(text: string, m: Match) {
    PiecesAt(text, QuestionPattern, m.index, m.pieces)
  }

  /** Where a match ends: just after the answer's `[^\n]+`. */
  function MatchEnd(m: Match): nat {
    if m.pieces == [] then m.index else m.pieces[|m.pieces| - 1].capEnd
  }

  /** The six pieces of `m` lie inside `text`, so its capture groups can be read. */
  predicate InBounds(text: string, m: Match) {
    && |m.pieces| == 6
    && m.index <= m.pieces[0].capEnd
    && PieceInBounds(text, m.pieces[0]) && PieceInBounds(text, m.pieces[1]) && PieceInBounds(text, m.pieces[2])
    && PieceInBounds(text, m.pieces[3]) && PieceInBounds(text, m.pieces[4]) && PieceInBounds(text, m.pieces[5])
  }

  predicate PieceInBounds(text: string, p: Piece) {
    p.capStart <= p.capEnd <= |text|
  }

  lemma {:induction false} MatchInBounds(text: string, m: Match)
    requires IsMatch(text, m)
    ensures InBounds(text, m) && m.index < MatchEnd(m) <= |text|
  {
    MatchShape(text, m);
  }

  /** The pieces of any split lie inside the text, in order, each capture
      on a single line. */
  lemma {:induction false} PiecesShape(text: string, pats: seq<Prefix>, from: nat, ps: seq<Piece>)
    requires ValidPattern(pats) && PiecesAt(text, pats, from, ps)
    ensures forall k :: 0 <= k < |ps| ==>
      && from < ps[k].body <= ps[k].capStart < ps[k].capEnd <= |text|
      && '\n' !in text[ps[k].capStart..ps[k].capEnd]
    ensures forall i, j :: 0 <= i < j < |ps| ==> ps[i].capEnd < ps[j].body
    decreases |pats|
  {
    if pats != [] {
      var tail := pats[1..];
      var rest := ps[1..];
      assert ValidPattern(tail) by {
        forall k | 0 <= k < |tail| ensures tail[k] == pats[k + 1] { }
      }
      PiecesShape(text, tail, ps[0].capEnd + 1, rest);
      assert pats[0].Labelled? ==> pats[0].tag != [];
      forall k | 0 < k < |ps| ensures ps[k] == rest[k - 1] { }
    }
  }

  /** A match covers `text[m.index..MatchEnd(m)]`, its pieces in order, with the
      literal "Answer:" just before the last piece's `\s*`. */
  lemma {:induction false} MatchShape(text: string, m: Match)
    requires IsMatch(text, m)
    ensures InBounds(text, m)
    ensures m.index < m.pieces[0].capEnd
    ensures forall k :: 0 <= k < 6 ==>
      && m.pieces[k].capStart < m.pieces[k].capEnd <= |text|
      && '\n' !in text[m.pieces[k].capStart..m.pieces[k].capEnd]
    ensures forall i, j :: 0 <= i < j < 6 ==> m.pieces[i].capEnd < m.pieces[j].capStart
    ensures IsDigit(text[m.index])
    ensures var b := m.pieces[5].body; m.index + 7 <= b <= m.pieces[5].capStart && text[b - 7..b] == "Answer:"
  {
    var ps := m.pieces;
    QuestionPatternValid();
    PiecesShape(text, QuestionPattern, m.index, ps);
    PiecesAtEach(text, QuestionPattern, m.index, ps, 0);
    assert text[m.index..ps[0].body - 1][0] == text[m.index];
    assert InClass(text[m.index], Digit);
    PiecesAtEach(text, QuestionPattern, m.index, ps, 5);
  }

  /** The first match at or after `from`: what `exec` finds when `lastIndex` is `from`. */
  function Leftmost(text: string, from: nat): (r: Option<Match>)
    ensures r.Some? ==> from <= r.value.index && IsMatch(text, r.value)
    decreases |text| - from
  {
    if from > |text| then None
    else
      QuestionPatternValid();
      match MatchPieces(text, QuestionPattern, from)
      case Some(ps) => Some(Match(from, ps))
      case None => Leftmost(text, from + 1)
  }

  /** No match starts between `from` and the one Leftmost returns; when it
      returns None, no match starts anywhere at or after `from`. */
  lemma {:induction false} LeftmostIsFirst(text: string, from: nat, p: nat, ps: seq<Piece>)
    requires from <= p
    requires Leftmost(text, from).Some? ==> p < Leftmost(text, from).value.index
    ensures !PiecesAt(text, QuestionPattern, p, ps)
    decreases |text| - from
  {
    if p > |text| {
      if PiecesAt(text, QuestionPattern, p, ps) {
        PiecesAtEach(text, QuestionPattern, p, ps, 0);
      }
    } else if from == p {
      QuestionPatternValid();
      if PiecesAt(text, QuestionPattern, p, ps) {
        MatchPiecesComplete(text, QuestionPattern, p, ps);
      }
    } else {
      LeftmostIsFirst(text, from + 1, p, ps);
    }
  }

  /** The matches `exec` returns one after another, starting from `lastIndex == from`. */
  function ScanFrom(text: string, from: nat): (ms: seq<Match>)
    requires from <= |text|
    ensures forall i :: 0 <= i < |ms| ==> InBounds(text, ms[i])
    decreases |text| - from
  {
    match Leftmost(text, from)
    case None => []
    case Some(m) =>
      MatchInBounds(text, m);
      [m] + ScanFrom(text, MatchEnd(m))
  }

  /** One step of the scan: the leftmost match, then the scan from its end. */
  lemma {:induction false} ScanFromStep(text: string, from: nat)
    requires from <= |text|
    ensures Leftmost(text, from).None? ==> ScanFrom(text, from) == []
    ensures Leftmost(text, from).Some? ==>
      var m := Leftmost(text, from).value;
      && from <= m.index < MatchEnd(m) <= |text|
      && ScanFrom(text, from) == [m] + ScanFrom(text, MatchEnd(m))
  {
    if Leftmost(text, from).Some? {
      MatchInBounds(text, Leftmost(text, from).value);
    }
  }

  /** Every match the scan finds starts at or after where the scan began. */
  lemma {:induction false} ScanFromAfter(text: string, from: nat)
    requires from <= |text|
    ensures forall m :: m in ScanFrom(text, from) ==> from <= m.index
    decreases |text| - from
  {
    ScanFromStep(text, from);
    if Leftmost(text, from).Some? {
      ScanFromAfter(text, MatchEnd(Leftmost(text, from).value));
    }
  }

  /** Every match of the scan is a genuine match of the pattern. */
  lemma {:induction false} ScanFromGenuine(text: string, from: nat)
    requires from <= |text|
    ensures forall m :: m in ScanFrom(text, from) ==> IsMatch(text, m)
    decreases |text| - from
  {
    ScanFromStep(text, from);
    if Leftmost(text, from).Some? {
      ScanFromGenuine(text, MatchEnd(Leftmost(text, from).value));
    }
  }

  /** The scan misses no match: wherever the pattern matches at or after where
      the scan began, some match the scan returns covers that position. */
  lemma {:induction false} ScanFromComplete(text: string, from: nat, p: nat, ps: seq<Piece>)
    requires from <= p && from <= |text|
    requires PiecesAt(text, QuestionPattern, p, ps)
    ensures exists m :: m in ScanFrom(text, from) && m.index <= p < MatchEnd(m)
    decreases |text| - from
  {
    ScanFromStep(text, from);
    if Leftmost(text, from).None? {
      LeftmostIsFirst(text, from, p, ps);
      assert false;
    }
    var m := Leftmost(text, from).value;
    if p < m.index {
      LeftmostIsFirst(text, from, p, ps);
      assert false;
    }
    assert m in ScanFrom(text, from);
    if MatchEnd(m) <= p {
      ScanFromComplete(text, MatchEnd(m), p, ps);
      var later :| later in ScanFrom(text, MatchEnd(m)) && later.index <= p < MatchEnd(later);
      assert later in ScanFrom(text, from);
    }
  }

  /** The scan's matches are in text order and do not overlap. */
  lemma {:induction false} ScanFromOrdered(text: string, from: nat)
    requires from <= |text|
    ensures Disjoint(ScanFrom(text, from))
    decreases |text| - from
  {
    ScanFromStep(text, from);
    if Leftmost(text, from).Some? {
      var m := Leftmost(text, from).value;
      ScanFromOrdered(text, MatchEnd(m));
      ScanFromAfter(text, MatchEnd(m));
      DisjointCons(m, ScanFrom(text, MatchEnd(m)));
    }
  }

  /** Matches listed in order, each ending before the next begins. */
  predicate Disjoint(ms: seq<Match>) {
    forall i, j :: 0 <= i < j < |ms| ==> MatchEnd(ms[i]) <= ms[j].index
  }

  lemma {:induction false} DisjointCons(m: Match, rest: seq<Match>)
    requires Disjoint(rest)
    requires forall x :: x in rest ==> MatchEnd(m) <= x.index
    ensures Disjoint([m] + rest)
  {
    var ms := [m] + rest;
    forall i, j | 0 <= i < j < |ms| ensures MatchEnd(ms[i]) <= ms[j].index {
      assert ms[j] == rest[j - 1];
      if i == 0 {
        assert ms[j] in rest;
      } else {
        assert ms[i] == rest[i - 1];
      }
    }
  }

  /** The text of a piece's `[^\n]+`. */
  function Capture(text: string, p: Piece): string
    requires p.capStart <= p.capEnd <= |text|
  {
    text[p.capStart..p.capEnd]
  }

  /** The record pushed for one match: every capture group trimmed. Group 1
      runs from the match start, so it includes the number and `\s*`. */
  function RecordOf(text: string, m: Match): QuizQuestion
    requires InBounds(text, m)
  {
    var ps := m.pieces;
    QuizQuestion(
      Trim(text[m.index..ps[0].capEnd]),
      Options(Trim(Capture(text, ps[1])), Trim(Capture(text, ps[2])), Trim(Capture(text, ps[3])), Trim(Capture(text, ps[4]))),
      Trim(Capture(text, ps[5])))
  }

  /** One record per match, in order. */
  function Records(text: string, ms: seq<Match>): (qs: seq<QuizQuestion>)
    requires forall i :: 0 <= i < |ms| ==> InBounds(text, ms[i])
    ensures |qs| == |ms|
  {
    if ms == [] then []
    else
      var rest := ms[1..];
      assert forall i :: 0 <= i < |rest| ==> InBounds(text, rest[i]) by {
        forall i | 0 <= i < |rest| ensures InBounds(text, rest[i]) {
          assert rest[i] == ms[i + 1];
        }
      }
      [RecordOf(text, ms[0])] + Records(text, rest)
  }

  lemma {:induction false} RecordsCons(text: string, m: Match, ms: seq<Match>)
    requires InBounds(text, m)
    requires forall i :: 0 <= i < |ms| ==> InBounds(text, ms[i])
    ensures forall i :: 0 <= i < |[m] + ms| ==> InBounds(text, ([m] + ms)[i])
    ensures Records(text, [m] + ms) == [RecordOf(text, m)] + Records(text, ms)
  {
    var all := [m] + ms;
    forall i | 0 <= i < |all| ensures InBounds(text, all[i]) {
      if i > 0 { assert all[i] == ms[i - 1]; }
    }
    assert all[1..] == ms;
  }

  /** One round of the loop in parseQuiz: the record of the leftmost match
      moves from the records still to come onto the records produced. */
  lemma {:induction false} ParseStep(text: string, cursor: nat, done: seq<QuizQuestion>)
    requires cursor <= |text| && Leftmost(text, cursor).Some?
    requires done + Records(text, ScanFrom(text, cursor)) == Quiz(text)
    ensures var found := Leftmost(text, cursor).value;
      && InBounds(text, found) && cursor < MatchEnd(found) <= |text|
      && (done + [RecordOf(text, found)]) + Records(text, ScanFrom(text, MatchEnd(found))) == Quiz(text)
  {
    ScanFromStep(text, cursor);
    var found := Leftmost(text, cursor).value;
    MatchInBounds(text, found);
    var rest := ScanFrom(text, MatchEnd(found));
    RecordsCons(text, found, rest);
    AppendShift(done, RecordOf(text, found), Records(text, rest));
  }

  /** What parseQuiz returns. */
  function Quiz(text: string): seq<QuizQuestion> {
    Records(text, ScanFrom(text, 0))
  }

  /** parseQuiz finds nothing exactly when no segment of the text decomposes
      by the pattern. */
  lemma {:induction false} QuizEmptyIffNoMatch(text: string)
    ensures Quiz(text) == [] <==> forall p: nat, ps: seq<Piece> :: !PiecesAt(text, QuestionPattern, p, ps)
  {
    assert |Quiz(text)| == |ScanFrom(text, 0)|;
    ScanFromStep(text, 0);
    NoneIffNoMatch(text);
  }

  lemma {:induction false} NoneIffNoMatch(text: string)
    ensures Leftmost(text, 0).None? <==> forall p: nat, ps: seq<Piece> :: !PiecesAt(text, QuestionPattern, p, ps)
  {
    if Leftmost(text, 0).None? {
      forall p: nat, ps: seq<Piece> ensures !PiecesAt(text, QuestionPattern, p, ps) {
        LeftmostIsFirst(text, 0, p, ps);
      }
    } else {
      var m := Leftmost(text, 0).value;
      assert IsMatch(text, m);
      assert exists p: nat, ps: seq<Piece> :: PiecesAt(text, QuestionPattern, p, ps) by {
        assert PiecesAt(text, QuestionPattern, m.index, m.pieces);
      }
    }
  }

  /** The empty text yields no questions. */
  lemma {:induction false} EmptyTextNoQuiz()
    ensures Quiz("") == []
  {
    QuizEmptyIffNoMatch("");
  }

  /** What every emitted record looks like: each field trimmed, the question
      starting with its number, options and answer on a single line. */
  predicate WellFormed(q: QuizQuestion) {
    && IsTrimmed(q.question) && q.question != [] && IsDigit(q.question[0])
    && IsTrimmed(q.options.a) && '\n' !in q.options.a
    && IsTrimmed(q.options.b) && '\n' !in q.options.b
    && IsTrimmed(q.options.c) && '\n' !in q.options.c
    && IsTrimmed(q.options.d) && '\n' !in q.options.d
    && IsTrimmed(q.answer) && '\n' !in q.answer
  }

  lemma {:induction false} TrimmedLine(s: string)
    requires '\n' !in s
    ensures IsTrimmed(Trim(s)) && '\n' !in Trim(s)
  {
    TrimSplits(s);
    TrimKeepsNoNewline(s);
  }

  lemma {:induction false} RecordOfWellFormed(text: string, m: Match)
    requires IsMatch(text, m)
    ensures InBounds(text, m) && WellFormed(RecordOf(text, m))
    ensures RecordOf(text, m).question[0] == text[m.index]
  {
    MatchShape(text, m);
    var ps := m.pieces;
    var q := text[m.index..ps[0].capEnd];
    TrimSplits(q);
    TrimKeepsFirst(q);
    TrimmedLine(Capture(text, ps[1]));
    TrimmedLine(Capture(text, ps[2]));
    TrimmedLine(Capture(text, ps[3]));
    TrimmedLine(Capture(text, ps[4]));
    TrimmedLine(Capture(text, ps[5]));
  }

  lemma {:induction false} RecordsAt(text: string, ms: seq<Match>, i: nat)
    requires forall k :: 0 <= k < |ms| ==> InBounds(text, ms[k])
    requires i < |ms|
    ensures Records(text, ms)[i] == RecordOf(text, ms[i])
    decreases i
  {
    if i > 0 {
      var rest := ms[1..];
      forall k | 0 <= k < |rest| ensures InBounds(text, rest[k]) {
        assert rest[k] == ms[k + 1];
      }
      RecordsAt(text, rest, i - 1);
    }
  }

  /** Every record parseQuiz emits is complete and well formed. */
  lemma {:induction false} QuizWellFormed(text: string)
    ensures forall q :: q in Quiz(text) ==> WellFormed(q)
  {
    var ms := ScanFrom(text, 0);
    ScanFromGenuine(text, 0);
    forall q | q in Quiz(text) ensures WellFormed(q) {
      var i :| 0 <= i < |Quiz(text)| && Quiz(text)[i] == q;
      RecordsAt(text, ms, i);
      assert ms[i] in ms;
      RecordOfWellFormed(text, ms[i]);
    }
  }

  /** The number of positions at or after `c` where "Answer:" begins. */
  function AnswerCount(text: string, c: nat): nat
    decreases |text| - c
  {
    if c + 7 > |text| then 0
    else (if text[c..c + 7] == "Answer:" then 1 else 0) + AnswerCount(text, c + 1)
  }

  lemma {:induction false} AnswerCountMono(text: string, a: nat, b: nat)
    requires a <= b
    ensures AnswerCount(text, b) <= AnswerCount(text, a)
    decreases b - a
  {
    if a < b {
      AnswerCountMono(text, a + 1, b);
    }
  }

  /** An occurrence at `q` in `[a, b)` is counted from `a` but not from `b`. */
  lemma {:induction false} AnswerCountSkip(text: string, a: nat, q: nat, b: nat)
    requires a <= q < b && q + 7 <= |text| && text[q..q + 7] == "Answer:"
    ensures AnswerCount(text, b) + 1 <= AnswerCount(text, a)
  {
    AnswerCountMono(text, a, q);
    AnswerCountMono(text, q + 1, b);
  }

  lemma {:induction false} ScanFromCount(text: string, from: nat)
    requires from <= |text|
    ensures |ScanFrom(text, from)| <= AnswerCount(text, from)
    decreases |text| - from
  {
    ScanFromStep(text, from);
    if Leftmost(text, from).Some? {
      var m := Leftmost(text, from).value;
      MatchShape(text, m);
      AnswerCountSkip(text, from, m.pieces[5].body - 7, MatchEnd(m));
      ScanFromCount(text, MatchEnd(m));
    }
  }

  /** Each question consumes its own "Answer:", so there are no more
      questions than occurrences of "Answer:" in the text. */
  lemma {:induction false} QuizCount(text: string)
    ensures |Quiz(text)| <= AnswerCount(text, 0)
  {
    ScanFromCount(text, 0);
  }

  /** The global regular expression object, whose `lastIndex` carries the scan position between calls. */
  class QuestionRegex {
    var lastIndex: nat

    constructor ()
      ensures lastIndex == 0
    {
      lastIndex := 0;
    }

    /** RegExp.prototype.exec with the global flag: search from `lastIndex`;
        on a match move `lastIndex` to its end, otherwise reset it to 0. */
    method Exec(text: string) returns (m: Option<Match>)
      modifies this
      ensures m == Leftmost(text, old(lastIndex))
      ensures m.Some? ==> MatchEnd(m.value) <= |text| && lastIndex == MatchEnd(m.value)
      ensures m.None? ==> lastIndex == 0
    {
      m := Leftmost(text, lastIndex);
      if m.Some? {
        MatchShape(text, m.value);
        lastIndex := MatchEnd(m.value);
      } else {
        lastIndex := 0;
      }
    }
  }

  /** parseQuiz: one record per match, in the order `exec` finds them. */
  method ParseQuiz(quizText: string) returns (questions: seq<QuizQuestion>)
    ensures questions == Quiz(quizText)
    ensures forall q :: q in questions ==> WellFormed(q)
    ensures |questions| <= AnswerCount(quizText, 0)
  {
    questions := [];
    var questionRegex := new QuestionRegex();
    ghost var cursor: nat := 0;
    var m := questionRegex.Exec(quizText);
    EmptyAppend(Records(quizText, ScanFrom(quizText, 0)));
    while m.Some?
      invariant cursor <= |quizText|
      invariant m == Leftmost(quizText, cursor)
      invariant m.Some? ==> questionRegex.lastIndex == MatchEnd(m.value)
      invariant questions + Records(quizText, ScanFrom(quizText, cursor)) == Quiz(quizText)
      decreases |quizText| - cursor
    {
      ParseStep(quizText, cursor, questions);
      questions := questions + [RecordOf(quizText, m.value)];
      cursor := MatchEnd(m.value);
      m := questionRegex.Exec(quizText);
    }
    ScanFromStep(quizText, cursor);
    AppendEmpty(questions);
    QuizWellFormed(quizText);
    QuizCount(quizText);
  }

  // Proof helpers. Each lemma below unfolds or folds a definition by one
  // step, or regroups a concatenation of sequences. They guide the verifier
  // and have no counterpart in the source.

  /** The match succeeds once the prefix matches and the backtracking search after it succeeds. */
  lemma {:induction false} MatchPiecesSome(text: string, pats: seq<Prefix>, from: nat, body: nat)
    requires from <= |text| && ValidPattern(pats) && pats != []
    requires PrefixEnd(text, pats[0], from) == Some(body) && PrefixMatches(text, pats[0], from, body)
    requires TryCaptures(text, pats, from, body, RunEnd(text, body, Space)).Some?
    ensures MatchPieces(text, pats, from).Some?
  {
  }

  /** The backtracking search succeeds once the capture at `s`, or the search from `s - 1`, does. */
  lemma {:induction false} TryCapturesSome(text: string, pats: seq<Prefix>, from: nat, body: nat, s: nat)
    requires pats != [] && ValidPattern(pats)
    requires PrefixMatches(text, pats[0], from, body)
    requires body <= s <= |text| && All(text[body..s], Space)
    requires || CaptureAt(text, pats, from, body, s).Some?
             || (body < s && All(text[body..s - 1], Space) && TryCaptures(text, pats, from, body, s - 1).Some?)
    ensures TryCaptures(text, pats, from, body, s).Some?
  {
  }

  /** The capture at `s` succeeds once its line is non-empty and the rest of the pattern matches after it. */
  lemma {:induction false} CaptureAtSome(text: string, pats: seq<Prefix>, from: nat, body: nat, s: nat)
    requires pats != [] && ValidPattern(pats) && ValidPattern(pats[1..])
    requires PrefixMatches(text, pats[0], from, body)
    requires body <= s < |text| && All(text[body..s], Space) && text[s] != '\n'
    requires |pats| > 1 ==> LineEnd(text, s) < |text| && MatchPieces(text, pats[1..], LineEnd(text, s) + 1).Some?
    ensures CaptureAt(text, pats, from, body, s).Some?
  {
  }

  lemma {:induction false} AppendShift<T>(done: seq<T>, x: T, later: seq<T>)
    ensures done + ([x] + later) == (done + [x]) + later
  {
  }

  lemma {:induction false} EmptyAppend<T>(s: seq<T>)
    ensures [] + s == s
  {
  }

  lemma {:induction false} AppendEmpty<T>(s: seq<T>)
    ensures s + [] == s
  {
  }
}
