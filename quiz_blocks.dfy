/**
 * Question blocks written in the canonical layout: each line is its head (the
 * question number with its period, or the option or answer label), one space
 * and its field, and the lines are joined by line feeds. Every way the pattern
 * can split such a block yields exactly the fields it was written from, so
 * parseQuiz reads back what the block says.
 */
module QuizBlocks {
  import opened Wrappers
  import opened JsText
  import opened QuizParser

  /** A field as a canonical block writes it: non-empty, on one line, with no whitespace at either end. */
  predicate FieldOK(v: string) {
    v != [] && IsTrimmed(v) && '\n' !in v
  }

  /** The text that opens a line for the prefix: a digit run and a period, or the label itself. */
  predicate HeadFits(pre: Prefix, head: string) {
    match pre
    case Numbered => |head| >= 2 && All(head[..|head| - 1], Digit) && head[|head| - 1] == '.'
    case Labelled(tag) => head == tag
  }

  /** One head and one field per prefix of the pattern, each fitting it. */
  predicate Canonical(pats: seq<Prefix>, heads: seq<string>, fields: seq<string>)
    decreases |pats|
  {
    && |heads| == |pats| && |fields| == |pats|
    && (pats != [] ==>
         && (pats[0].Labelled? ==> pats[0].tag != [] && !IsSpace(pats[0].tag[0]))
         && HeadFits(pats[0], heads[0]) && FieldOK(fields[0])
         && Canonical(pats[1..], heads[1..], fields[1..]))
  }

  /** The canonical layout: `head + " " + field` per line, lines joined by line feeds. */
  function Block(heads: seq<string>, fields: seq<string>): string
    requires |heads| == |fields|
    decreases |heads|
  {
    if heads == [] then []
    else if |heads| == 1 then heads[0] + " " + fields[0]
    else heads[0] + " " + fields[0] + ("\n" + Block(heads[1..], fields[1..]))
  }

  /** Where a line `h + " " + v` followed by `rest` sits in the text. */
  lemma {:induction false} LineAt(text: string, f: nat, h: string, v: string, rest: string)
    requires f <= |text| && text[f..] == h + " " + v + rest
    ensures var b := f + |h|; var e := b + 1 + |v|;
      && e + |rest| == |text|
      && text[f..b] == h && text[b] == ' ' && text[b + 1..e] == v && text[e..] == rest
  {
    var u := text[f..];
    var b := f + |h|;
    var e := b + 1 + |v|;
    assert text[f..b] == h by {
      forall i | 0 <= i < |h| ensures text[f..b][i] == h[i] { assert text[f + i] == u[i]; }
    }
    assert text[b] == u[|h|];
    assert text[b + 1..e] == v by {
      forall i | 0 <= i < |v| ensures text[b + 1..e][i] == v[i] { assert text[b + 1 + i] == u[|h| + 1 + i]; }
    }
    assert text[e..] == rest by {
      forall i | 0 <= i < |rest| ensures text[e..][i] == rest[i] { assert text[e + i] == u[|h| + 1 + |v| + i]; }
    }
  }

  /** Where the first line of a block sits in the text, and what follows it. */
  lemma {:induction false} BlockLine(text: string, f: nat, heads: seq<string>, fields: seq<string>)
    requires |heads| == |fields| && heads != []
    requires f <= |text| && text[f..] == Block(heads, fields)
    ensures var b := f + |heads[0]|; var e := b + 1 + |fields[0]|;
      && e <= |text|
      && text[f..b] == heads[0] && text[b] == ' ' && text[b + 1..e] == fields[0]
      && (|heads| == 1 ==> e == |text|)
      && (|heads| > 1 ==> e < |text| && text[e] == '\n' && text[e + 1..] == Block(heads[1..], fields[1..]))
  {
    var h := heads[0];
    var v := fields[0];
    var e := f + |h| + 1 + |v|;
    if |heads| == 1 {
      assert h + " " + v + [] == h + " " + v;
      LineAt(text, f, h, v, []);
    } else {
      var rest := "\n" + Block(heads[1..], fields[1..]);
      LineAt(text, f, h, v, rest);
      assert text[e] == text[e..][0] == '\n';
      assert text[e + 1..] == text[e..][1..] == Block(heads[1..], fields[1..]);
    }
  }

  /** `w` occurs in the text at `f`, stated character by character. */
  predicate Spells(text: string, f: nat, w: string) {
    f + |w| <= |text| && forall i :: 0 <= i < |w| ==> w[i] == text[f + i]
  }

  lemma {:induction false} SpellsSlice(text: string, f: nat, w: string)
    requires f + |w| <= |text|
    ensures Spells(text, f, w) <==> text[f..f + |w|] == w
  {
    if Spells(text, f, w) {
      assert text[f..f + |w|] == w by {
        forall i | 0 <= i < |w| ensures text[f..f + |w|][i] == w[i] { }
      }
    }
    if text[f..f + |w|] == w {
      forall i | 0 <= i < |w| ensures w[i] == text[f + i] { assert text[f..f + |w|][i] == text[f + i]; }
    }
  }

  /** The text from `f` on holds the lines `heads[k] + " " + fields[k]`, joined by line feeds. */
  predicate LinesAt(text: string, f: nat, heads: seq<string>, fields: seq<string>)
    decreases |heads|
  {
    && |heads| == |fields|
    && (heads != [] ==>
         var b := f + |heads[0]|;
         var e := b + 1 + |fields[0]|;
         && e <= |text|
         && Spells(text, f, heads[0]) && text[b] == ' ' && Spells(text, b + 1, fields[0])
         && (|heads| == 1 ==> e == |text|)
         && (|heads| > 1 ==> e < |text| && text[e] == '\n' && LinesAt(text, e + 1, heads[1..], fields[1..])))
  }

  lemma {:induction false} LinesAtCons(text: string, f: nat, heads: seq<string>, fields: seq<string>, e: nat)
    requires |heads| == |fields| && heads != [] && e == f + |heads[0]| + 1 + |fields[0]| <= |text|
    requires text[f..f + |heads[0]|] == heads[0] && text[f + |heads[0]|] == ' '
    requires text[f + |heads[0]| + 1..e] == fields[0]
    requires |heads| == 1 ==> e == |text|
    requires |heads| > 1 ==> e < |text| && text[e] == '\n' && LinesAt(text, e + 1, heads[1..], fields[1..])
    ensures LinesAt(text, f, heads, fields)
  {
    SpellsSlice(text, f, heads[0]);
    SpellsSlice(text, f + |heads[0]| + 1, fields[0]);
  }

  /** A block in the text lays out its lines one after another. */
  lemma {:induction false} BlockLines(text: string, f: nat, heads: seq<string>, fields: seq<string>)
    requires |heads| == |fields| && f <= |text| && text[f..] == Block(heads, fields)
    ensures LinesAt(text, f, heads, fields)
    decreases |heads|
  {
    if heads != [] {
      var e := f + |heads[0]| + 1 + |fields[0]|;
      BlockLine(text, f, heads, fields);
      if |heads| > 1 {
        BlockLines(text, e + 1, heads[1..], fields[1..]);
      }
      LinesAtCons(text, f, heads, fields, e);
    }
  }

  /** On a canonical line the prefix ends exactly where the head does. */
  lemma {:induction false} LineBody(text: string, pre: Prefix, head: string, f: nat, to: nat)
    requires pre.Labelled? ==> pre.tag != [] && !IsSpace(pre.tag[0])
    requires HeadFits(pre, head)
    requires f + |head| <= |text| && text[f..f + |head|] == head
    requires PrefixMatches(text, pre, f, to)
    ensures to == f + |head|
  {
    var b := f + |head|;
    PrefixEndExact(text, pre, f, to);
    match pre {
      case Numbered =>
        assert All(text[f..b - 1], Digit) by { assert text[f..b - 1] == head[..|head| - 1]; }
        RunEndIsMaximal(text, f, b - 1, Digit);
        assert text[b - 1] == '.' by { assert text[f..b][|head| - 1] == text[b - 1]; }
        RunEndStops(text, f, b - 1, Digit);
      case Labelled(tag) =>
        assert text[f] == tag[0] by { assert text[f..b][0] == text[f]; }
        RunEndStops(text, f, f, Space);
    }
  }

  /** The whitespace before a field is at most the one space of the layout. */
  lemma {:induction false} LineCapStart(text: string, b: nat, c: nat)
    requires b + 1 < |text| && !IsSpace(text[b + 1])
    requires b <= c <= |text| && AllSpace(text[b..c])
    ensures c <= b + 1
  {
    RunEndIsMaximal(text, b, c, Space);
    RunEndStops(text, b, b + 1, Space);
  }

  /** A capture that starts on a line without further line feeds ends where the line does. */
  lemma {:induction false} LineCapEnd(text: string, b: nat, c: nat, e: nat, v: string, capEnd: nat)
    requires b <= c <= b + 1 && b < e <= |text| && text[b + 1..e] == v && '\n' !in v
    requires text[b] == ' ' && (e == |text| || text[e] == '\n')
    requires c <= capEnd <= |text| && '\n' !in text[c..capEnd]
    requires capEnd == |text| || text[capEnd] == '\n'
    ensures capEnd == e
  {
    assert '\n' !in text[c..e] by {
      forall x | c <= x < e ensures text[x] != '\n' {
        if x > b { assert text[b + 1..e][x - b - 1] == text[x]; }
      }
      assert forall ch :: ch in text[c..e] ==> ch != '\n';
    }
    LineEndUnique(text, c, capEnd);
    LineEndUnique(text, c, e);
  }

  /** A capture of the field with possibly the space before it trims to the field. */
  lemma {:induction false} LineCapTrim(text: string, b: nat, c: nat, e: nat, v: string)
    requires b <= c <= b + 1 && b + 1 <= e <= |text| && text[b] == ' '
    requires text[b + 1..e] == v && FieldOK(v)
    ensures Trim(text[c..e]) == v
  {
    var w := text[c..b + 1];
    assert AllSpace(w) by {
      forall x | 0 <= x < |w| ensures IsSpace(w[x]) { assert w[x] == text[b]; }
    }
    assert text[c..e] == w + v;
    TrimPadded(w, v);
  }

  /** Piece `p` captures `v`, which ends the capture, after at most one space. */
  predicate Takes(text: string, p: Piece, v: string)
  {
    && |v| <= p.capEnd <= |text|
    && p.capEnd - |v| - 1 <= p.capStart <= p.capEnd - |v|
    && Spells(text, p.capEnd - |v|, v)
    && (p.capStart < p.capEnd - |v| ==> text[p.capStart] == ' ')
  }

  /** A capture that takes a field trims to that field. */
  lemma {:induction false} TakesTrim(text: string, p: Piece, v: string)
    requires Takes(text, p, v) && FieldOK(v)
    ensures p.capStart <= p.capEnd <= |text| && Trim(Capture(text, p)) == v
  {
    var s := p.capEnd - |v|;
    SpellsSlice(text, s, v);
    if p.capStart == s {
      assert Capture(text, p) == [] + v;
      TrimPadded([], v);
    } else {
      LineCapTrim(text, p.capStart, p.capStart, p.capEnd, v);
    }
  }

  /** Any piece on a canonical line ends where the line does and captures the field,
      give or take the space before it. */
  lemma {:induction false} LinePiece(text: string, pre: Prefix, head: string, v: string, f: nat, p: Piece, last: bool)
    requires pre.Labelled? ==> pre.tag != [] && !IsSpace(pre.tag[0])
    requires HeadFits(pre, head) && FieldOK(v)
    requires f + |head| + 1 + |v| <= |text|
    requires Spells(text, f, head) && text[f + |head|] == ' ' && Spells(text, f + |head| + 1, v)
    requires f + |head| + 1 + |v| == |text| || text[f + |head| + 1 + |v|] == '\n'
    requires PieceAt(text, pre, f, p, last)
    ensures p.capEnd == f + |head| + 1 + |v|
    ensures Takes(text, p, v)
  {
    var b := f + |head|;
    var e := b + 1 + |v|;
    SpellsSlice(text, f, head);
    SpellsSlice(text, b + 1, v);
    LineBody(text, pre, head, f, p.body);
    assert text[b + 1] == v[0] by { assert text[b + 1..e][0] == text[b + 1]; }
    LineCapStart(text, b, p.capStart);
    LineCapEnd(text, b, p.capStart, e, v, p.capEnd);
  }

  /** Each capture of a split takes the corresponding field. */
  predicate YieldsFields(text: string, ps: seq<Piece>, fields: seq<string>)
    decreases |ps|
  {
    && |ps| == |fields|
    && (ps != [] ==>
         && Takes(text, ps[0], fields[0])
         && YieldsFields(text, ps[1..], fields[1..]))
  }

  /** Field `k` of a split that yields the fields. */
  lemma {:induction false} YieldsFieldsAt(text: string, ps: seq<Piece>, fields: seq<string>, k: nat)
    requires YieldsFields(text, ps, fields) && k < |ps|
    ensures Takes(text, ps[k], fields[k])
    decreases k
  {
    if k > 0 {
      YieldsFieldsAt(text, ps[1..], fields[1..], k - 1);
      assert ps[1..][k - 1] == ps[k] && fields[1..][k - 1] == fields[k];
    }
  }

  /** The first piece of a split of canonical lines takes the first field. */
  lemma {:induction false} LinesSplitHead(text: string, pats: seq<Prefix>, heads: seq<string>, fields: seq<string>, f: nat, ps: seq<Piece>)
    requires pats != [] && Canonical(pats, heads, fields)
    requires LinesAt(text, f, heads, fields)
    requires PiecesAt(text, pats, f, ps)
    ensures |ps| == |fields| == |pats| && ps[0].capEnd == f + |heads[0]| + 1 + |fields[0]|
    ensures Takes(text, ps[0], fields[0])
  {
    PiecesAtSplit(text, pats, f, ps);
    LinePiece(text, pats[0], heads[0], fields[0], f, ps[0], |pats| == 1);
  }

  /** Every split of canonical lines yields their fields, piece by piece,
      and the last piece ends where the lines do. */
  lemma {:induction false} LinesSplit(text: string, pats: seq<Prefix>, heads: seq<string>, fields: seq<string>, f: nat, ps: seq<Piece>)
    requires pats != [] && Canonical(pats, heads, fields)
    requires LinesAt(text, f, heads, fields)
    requires PiecesAt(text, pats, f, ps)
    ensures |ps| == |fields| && YieldsFields(text, ps, fields)
    ensures ps[0].capEnd == f + |heads[0]| + 1 + |fields[0]|
    ensures ps[|ps| - 1].capEnd == |text|
    decreases |pats|
  {
    LinesSplitHead(text, pats, heads, fields, f, ps);
    LinesSplitTail(text, pats, heads, fields, f, ps);
    if |pats| > 1 {
      LinesSplit(text, pats[1..], heads[1..], fields[1..], ps[0].capEnd + 1, ps[1..]);
    }
    YieldsFieldsCons(text, ps, fields);
  }

  /** Every split of a canonical block yields the block's fields, piece by piece,
      and the last piece ends where the block does. */
  lemma {:induction false} BlockSplits(text: string, pats: seq<Prefix>, heads: seq<string>, fields: seq<string>, f: nat, ps: seq<Piece>)
    requires pats != [] && Canonical(pats, heads, fields)
    requires f <= |text| && text[f..] == Block(heads, fields)
    requires PiecesAt(text, pats, f, ps)
    ensures |ps| == |fields| && YieldsFields(text, ps, fields)
    ensures ps[0].capEnd == f + |heads[0]| + 1 + |fields[0]|
    ensures ps[|ps| - 1].capEnd == |text|
  {
    BlockLines(text, f, heads, fields);
    LinesSplit(text, pats, heads, fields, f, ps);
  }

  /** The head of a canonical line matches its prefix. */
  lemma {:induction false} CanonPrefix(text: string, pre: Prefix, h: string, f: nat)
    requires HeadFits(pre, h) && f + |h| <= |text| && text[f..f + |h|] == h
    ensures PrefixMatches(text, pre, f, f + |h|)
  {
    var b := f + |h|;
    match pre {
      case Numbered =>
        assert text[f..b - 1] == h[..|h| - 1];
        assert text[b - 1] == text[f..b][|h| - 1];
      case Labelled(tag) =>
        assert text[f..b - |tag|] == [];
    }
  }

  /** The canonical split of one line is a piece of the line's prefix. */
  lemma {:induction false} CanonLine(text: string, pre: Prefix, h: string, v: string, f: nat, last: bool)
    requires HeadFits(pre, h) && v != [] && '\n' !in v
    requires f + |h| + 1 + |v| <= |text|
    requires Spells(text, f, h) && text[f + |h|] == ' ' && Spells(text, f + |h| + 1, v)
    requires f + |h| + 1 + |v| == |text| || text[f + |h| + 1 + |v|] == '\n'
    requires !last ==> f + |h| + 1 + |v| < |text|
    ensures PieceAt(text, pre, f, Piece(f + |h|, f + |h| + 1, f + |h| + 1 + |v|), last)
  {
    var b := f + |h|;
    SpellsSlice(text, f, h);
    SpellsSlice(text, b + 1, v);
    CanonPrefix(text, pre, h, f);
    assert AllSpace(text[b..b + 1]) by { assert text[b..b + 1] == [' ']; }
  }

  /** Canonical lines split along the pattern, each piece taking its field without the space before it. */
  lemma {:induction false} LinesHaveSplit(text: string, pats: seq<Prefix>, heads: seq<string>, fields: seq<string>, f: nat)
    returns (ps: seq<Piece>)
    requires pats != [] && Canonical(pats, heads, fields)
    requires LinesAt(text, f, heads, fields)
    ensures PiecesAt(text, pats, f, ps)
    decreases |pats|
  {
    var e := f + |heads[0]| + 1 + |fields[0]|;
    var p := Piece(f + |heads[0]|, f + |heads[0]| + 1, e);
    CanonLine(text, pats[0], heads[0], fields[0], f, |pats| == 1);
    var tail := [];
    if |pats| > 1 {
      tail := LinesHaveSplit(text, pats[1..], heads[1..], fields[1..], e + 1);
    }
    PiecesAtCons(text, pats, f, p, tail);
    ps := [p] + tail;
  }

  /** A canonical block does split along the pattern. */
  lemma {:induction false} BlockHasSplit(text: string, pats: seq<Prefix>, heads: seq<string>, fields: seq<string>, f: nat)
    returns (ps: seq<Piece>)
    requires pats != [] && Canonical(pats, heads, fields)
    requires f <= |text| && text[f..] == Block(heads, fields)
    ensures PiecesAt(text, pats, f, ps)
  {
    BlockLines(text, f, heads, fields);
    ps := LinesHaveSplit(text, pats, heads, fields, f);
  }

  /** The text of one question written canonically. */
  function QuestionText(n: string, q: string, a: string, b: string, c: string, d: string, x: string): string {
    n + ". " + q + "\na) " + a + "\nb) " + b + "\nc) " + c + "\nd) " + d + "\nAnswer: " + x
  }

  lemma {:induction false} BlockAt(heads: seq<string>, fields: seq<string>, k: nat)
    requires |heads| == |fields| && k < |heads|
    ensures Block(heads[k..], fields[k..]) ==
      if k + 1 == |heads| then heads[k] + " " + fields[k]
      else heads[k] + " " + fields[k] + ("\n" + Block(heads[k + 1..], fields[k + 1..]))
  {
    assert heads[k..][1..] == heads[k + 1..] && fields[k..][1..] == fields[k + 1..];
  }

  /** The layout of six lines, nested the way Block nests them. */
  function Nested(h: string, q: string, a: string, b: string, c: string, d: string, x: string): string {
    h + " " + q + ("\n" + ("a)" + " " + a + ("\n" + ("b)" + " " + b + ("\n" + ("c)" + " " + c
      + ("\n" + ("d)" + " " + d + ("\n" + ("Answer:" + " " + x))))))))))
  }

  /** The canonical question text, regrouped line by line. */
  lemma {:induction false} QuestionTextNested(n: string, q: string, a: string, b: string, c: string, d: string, x: string)
    ensures QuestionText(n, q, a, b, c, d, x) == Nested(n + ".", q, a, b, c, d, x)
  {
    var p0 := n + ". " + q;
    var p1 := p0 + "\na) " + a;
    var p2 := p1 + "\nb) " + b;
    var p3 := p2 + "\nc) " + c;
    var p4 := p3 + "\nd) " + d;
    var r5 := "Answer:" + " " + x;
    var r4 := "d)" + " " + d + ("\n" + r5);
    var r3 := "c)" + " " + c + ("\n" + r4);
    var r2 := "b)" + " " + b + ("\n" + r3);
    var r1 := "a)" + " " + a + ("\n" + r2);
    RegroupLast(p4, "\nAnswer: ", "Answer:", x);
    Regroup(p3, "\nd) ", "d)", d, "\n" + r5);
    Regroup(p2, "\nc) ", "c)", c, "\n" + r4);
    Regroup(p1, "\nb) ", "b)", b, "\n" + r3);
    Regroup(p0, "\na) ", "a)", a, "\n" + r2);
    RegroupFirst(n, q, "\n" + r1);
  }

  /** The block of a question's six lines, unfolded. */
  lemma {:induction false} QuestionBlockNested(h: string, q: string, a: string, b: string, c: string, d: string, x: string)
    ensures Block([h, "a)", "b)", "c)", "d)", "Answer:"], [q, a, b, c, d, x]) == Nested(h, q, a, b, c, d, x)
  {
    var heads := [h, "a)", "b)", "c)", "d)", "Answer:"];
    var fields := [q, a, b, c, d, x];
    BlockAt(heads, fields, 5);
    BlockAt(heads, fields, 4);
    BlockAt(heads, fields, 3);
    BlockAt(heads, fields, 2);
    BlockAt(heads, fields, 1);
    BlockAt(heads, fields, 0);
    assert heads[0..] == heads && fields[0..] == fields;
  }

  /** A question written canonically is the block of its six lines. */
  lemma {:induction false} QuestionTextIsBlock(n: string, q: string, a: string, b: string, c: string, d: string, x: string)
    ensures QuestionText(n, q, a, b, c, d, x)
      == Block([n + ".", "a)", "b)", "c)", "d)", "Answer:"], [q, a, b, c, d, x])
  {
    QuestionTextNested(n, q, a, b, c, d, x);
    QuestionBlockNested(n + ".", q, a, b, c, d, x);
  }

  /** The six heads of a canonically written question numbered `n`. */
  function QuestionHeads(n: string): seq<string> {
    [n + ".", "a)", "b)", "c)", "d)", "Answer:"]
  }

  /** One more line in front of a canonical suffix keeps it canonical. */
  lemma {:induction false} CanonicalFrom(pats: seq<Prefix>, heads: seq<string>, fields: seq<string>, k: nat)
    requires k < |pats| == |heads| == |fields|
    requires pats[k].Labelled? ==> pats[k].tag != [] && !IsSpace(pats[k].tag[0])
    requires HeadFits(pats[k], heads[k]) && FieldOK(fields[k])
    requires Canonical(pats[k + 1..], heads[k + 1..], fields[k + 1..])
    ensures Canonical(pats[k..], heads[k..], fields[k..])
  {
    assert pats[k..][1..] == pats[k + 1..] && heads[k..][1..] == heads[k + 1..] && fields[k..][1..] == fields[k + 1..];
  }

  /** The lines for options c and d and the answer are canonical for the end of the pattern. */
  lemma {:induction false} LabelsTailCanonical(pats: seq<Prefix>, heads: seq<string>, fields: seq<string>)
    requires pats == QuestionPattern[1..] && heads == ["a)", "b)", "c)", "d)", "Answer:"] && |fields| == 5
    requires FieldOK(fields[2]) && FieldOK(fields[3]) && FieldOK(fields[4])
    ensures Canonical(pats[2..], heads[2..], fields[2..])
  {
    assert Canonical(pats[5..], heads[5..], fields[5..]);
    CanonicalFrom(pats, heads, fields, 4);
    CanonicalFrom(pats, heads, fields, 3);
    CanonicalFrom(pats, heads, fields, 2);
  }

  /** The option and answer lines of a question are canonical for the labelled part of the pattern. */
  lemma {:induction false} LabelsCanonical(pats: seq<Prefix>, heads: seq<string>, fields: seq<string>)
    requires pats == QuestionPattern[1..] && heads == ["a)", "b)", "c)", "d)", "Answer:"] && |fields| == 5
    requires FieldOK(fields[0]) && FieldOK(fields[1]) && FieldOK(fields[2]) && FieldOK(fields[3]) && FieldOK(fields[4])
    ensures Canonical(pats, heads, fields)
  {
    LabelsTailCanonical(pats, heads, fields);
    CanonicalFrom(pats, heads, fields, 1);
    CanonicalFrom(pats, heads, fields, 0);
    assert pats[0..] == pats && heads[0..] == heads && fields[0..] == fields;
  }

  /** The quiz pattern fits the canonical heads of a question numbered by a digit run. */
  lemma {:induction false} QuestionCanonical(n: string, q: string, a: string, b: string, c: string, d: string, x: string)
    requires n != [] && All(n, Digit)
    requires FieldOK(q) && FieldOK(a) && FieldOK(b) && FieldOK(c) && FieldOK(d) && FieldOK(x)
    ensures Canonical(QuestionPattern, QuestionHeads(n), [q, a, b, c, d, x])
  {
    var heads := QuestionHeads(n);
    var fields := [q, a, b, c, d, x];
    assert fields[1..] == [a, b, c, d, x];
    LabelsCanonical(QuestionPattern[1..], heads[1..], fields[1..]);
    assert (n + ".")[..|n|] == n;
    CanonicalFrom(QuestionPattern, heads, fields, 0);
    assert QuestionPattern[0..] == QuestionPattern && heads[0..] == heads && fields[0..] == fields;
  }

  /** The question line `n. q` is already trimmed. */
  lemma {:induction false} QuestionLineTrimmed(text: string, n: string, q: string, e: nat)
    requires n != [] && All(n, Digit) && FieldOK(q)
    requires e == |n| + 2 + |q| <= |text|
    requires text[..|n| + 1] == n + "." && text[|n| + 1] == ' ' && text[|n| + 2..e] == q
    ensures Trim(text[0..e]) == n + ". " + q
  {
    var line := n + ". " + q;
    assert text[0..e] == line by {
      forall i | 0 <= i < e ensures text[0..e][i] == line[i] {
        if i < |n| + 1 {
          assert text[..|n| + 1][i] == (n + ".")[i];
        } else if i > |n| + 1 {
          assert text[|n| + 2..e][i - |n| - 2] == q[i - |n| - 2];
        }
      }
    }
    assert InClass(n[0], Digit);
    assert line[|line| - 1] == q[|q| - 1];
    assert [] + line == line;
    TrimPadded([], line);
  }

  /** No match starts at the very end of a text. */
  lemma {:induction false} NoMatchAtEnd(text: string)
    ensures Leftmost(text, |text|).None?
  {
    if Leftmost(text, |text|).Some? {
      MatchShape(text, Leftmost(text, |text|).value);
    }
  }

  /** A canonical block is matched once, from its first character to its last. */
  lemma {:induction false} BlockMatch(text: string, heads: seq<string>, fields: seq<string>)
    requires Canonical(QuestionPattern, heads, fields) && text == Block(heads, fields)
    ensures Leftmost(text, 0).Some?
    ensures var ps := Leftmost(text, 0).value.pieces;
      && Leftmost(text, 0).value.index == 0
      && |ps| == 6 && YieldsFields(text, ps, fields)
      && ps[0].capEnd == |heads[0]| + 1 + |fields[0]|
      && ps[5].capEnd == |text|
  {
    assert text[0..] == text;
    var split := BlockHasSplit(text, QuestionPattern, heads, fields, 0);
    QuestionPatternValid();
    MatchPiecesComplete(text, QuestionPattern, 0, split);
    var m := Leftmost(text, 0).value;
    BlockSplits(text, QuestionPattern, heads, fields, 0, m.pieces);
  }

  /** The scan over a canonical block finds that one match and nothing after it. */
  lemma {:induction false} BlockScan(text: string, heads: seq<string>, fields: seq<string>)
    requires Canonical(QuestionPattern, heads, fields) && text == Block(heads, fields)
    ensures Leftmost(text, 0).Some? && ScanFrom(text, 0) == [Leftmost(text, 0).value]
  {
    BlockMatch(text, heads, fields);
    NoMatchAtEnd(text);
    ScanFromStep(text, |text|);
    ScanFromStep(text, 0);
    assert [Leftmost(text, 0).value] + [] == [Leftmost(text, 0).value];
  }

  /** The record parsed from a canonical block: its question line, trimmed, and the other fields. */
  lemma {:induction false} BlockQuiz(text: string, heads: seq<string>, fields: seq<string>)
    requires Canonical(QuestionPattern, heads, fields) && text == Block(heads, fields)
    // Implied by Canonical, but up to five unfoldings deep; callers hold these
    // facts directly, and stating them keeps this proof small.
    requires FieldOK(fields[1]) && FieldOK(fields[2]) && FieldOK(fields[3]) && FieldOK(fields[4]) && FieldOK(fields[5])
    ensures |heads[0]| + 1 + |fields[0]| <= |text|
    ensures Quiz(text) == [QuizQuestion(Trim(text[0..|heads[0]| + 1 + |fields[0]|]),
      Options(fields[1], fields[2], fields[3], fields[4]), fields[5])]
  {
    BlockScan(text, heads, fields);
    BlockMatch(text, heads, fields);
    var m := Leftmost(text, 0).value;
    var ps := m.pieces;
    YieldsFieldsAt(text, ps, fields, 1);
    TakesTrim(text, ps[1], fields[1]);
    YieldsFieldsAt(text, ps, fields, 2);
    TakesTrim(text, ps[2], fields[2]);
    YieldsFieldsAt(text, ps, fields, 3);
    TakesTrim(text, ps[3], fields[3]);
    YieldsFieldsAt(text, ps, fields, 4);
    TakesTrim(text, ps[4], fields[4]);
    YieldsFieldsAt(text, ps, fields, 5);
    TakesTrim(text, ps[5], fields[5]);
    MatchInBounds(text, m);
    RecordsCons(text, m, []);
    assert [m] + [] == [m];
  }

  /** The first line of a canonical question, trimmed, is `n. q`. */
  lemma {:induction false} QuestionLine(text: string, n: string, q: string, heads: seq<string>, fields: seq<string>)
    requires n != [] && All(n, Digit) && FieldOK(q)
    requires heads == QuestionHeads(n) && |fields| == 6 && fields[0] == q
    requires text == Block(heads, fields)
    ensures |n| + 2 + |q| <= |text| && Trim(text[0..|n| + 2 + |q|]) == n + ". " + q
  {
    assert text[0..] == text;
    BlockLine(text, 0, heads, fields);
    QuestionLineTrimmed(text, n, q, |n| + 2 + |q|);
  }

  /** What the parser reads from a canonical question block. */
  lemma {:induction false} QuestionQuiz(text: string, n: string, q: string, a: string, b: string, c: string, d: string, x: string)
    requires n != [] && All(n, Digit)
    requires FieldOK(q) && FieldOK(a) && FieldOK(b) && FieldOK(c) && FieldOK(d) && FieldOK(x)
    requires text == Block(QuestionHeads(n), [q, a, b, c, d, x])
    ensures Quiz(text) == [QuizQuestion(n + ". " + q, Options(a, b, c, d), x)]
  {
    var heads := QuestionHeads(n);
    var fields := [q, a, b, c, d, x];
    QuestionCanonical(n, q, a, b, c, d, x);
    BlockQuiz(text, heads, fields);
    QuestionLine(text, n, q, heads, fields);
  }

  /** A question written canonically, with a digit run for its number and
      single-line, trimmed, non-empty fields, parses back to exactly the one
      record it was written from. */
  lemma {:induction false} QuizRoundTrip(n: string, q: string, a: string, b: string, c: string, d: string, x: string)
    requires n != [] && All(n, Digit)
    requires FieldOK(q) && FieldOK(a) && FieldOK(b) && FieldOK(c) && FieldOK(d) && FieldOK(x)
    ensures Quiz(n + ". " + q + "\na) " + a + "\nb) " + b + "\nc) " + c + "\nd) " + d + "\nAnswer: " + x)
      == [QuizQuestion(n + ". " + q, Options(a, b, c, d), x)]
  {
    QuestionTextIsBlock(n, q, a, b, c, d, x);
    QuestionQuiz(QuestionText(n, q, a, b, c, d, x), n, q, a, b, c, d, x);
  }

  // Proof helpers. Each lemma below unfolds or folds a definition by one
  // step, or regroups a concatenation of sequences. They guide the verifier
  // and have no counterpart in the source.

  lemma {:induction false} PiecesAtSplit(text: string, pats: seq<Prefix>, from: nat, ps: seq<Piece>)
    requires pats != [] && PiecesAt(text, pats, from, ps)
    ensures |ps| == |pats| && PieceAt(text, pats[0], from, ps[0], |pats| == 1)
    ensures PiecesAt(text, pats[1..], ps[0].capEnd + 1, ps[1..])
  {
  }

  lemma {:induction false} PiecesAtCons(text: string, pats: seq<Prefix>, from: nat, p: Piece, tail: seq<Piece>)
    requires pats != [] && PieceAt(text, pats[0], from, p, |pats| == 1)
    requires PiecesAt(text, pats[1..], p.capEnd + 1, tail)
    ensures PiecesAt(text, pats, from, [p] + tail)
  {
    assert ([p] + tail)[0] == p && ([p] + tail)[1..] == tail;
  }

  /** What holds of the rest of the lines once the first piece ends with the first line. */
  lemma {:induction false} LinesSplitTail(text: string, pats: seq<Prefix>, heads: seq<string>, fields: seq<string>, f: nat, ps: seq<Piece>)
    requires pats != [] && Canonical(pats, heads, fields)
    requires LinesAt(text, f, heads, fields)
    requires PiecesAt(text, pats, f, ps)
    requires ps[0].capEnd == f + |heads[0]| + 1 + |fields[0]|
    ensures |pats| == 1 ==> ps[0].capEnd == |text|
    ensures |pats| > 1 ==>
      && Canonical(pats[1..], heads[1..], fields[1..])
      && LinesAt(text, ps[0].capEnd + 1, heads[1..], fields[1..])
      && PiecesAt(text, pats[1..], ps[0].capEnd + 1, ps[1..])
  {
  }

  lemma {:induction false} YieldsFieldsCons(text: string, ps: seq<Piece>, fields: seq<string>)
    requires |ps| == |fields| && ps != []
    requires Takes(text, ps[0], fields[0])
    requires |ps| == 1 ==> ps[0].capEnd == |text|
    requires |ps| > 1 ==> YieldsFields(text, ps[1..], fields[1..]) && ps[1..][|ps| - 2].capEnd == |text|
    ensures YieldsFields(text, ps, fields) && ps[|ps| - 1].capEnd == |text|
  {
    if |ps| > 1 {
      assert ps[1..][|ps| - 2] == ps[|ps| - 1];
    }
  }

  lemma {:induction false} Regroup(p: string, sep: string, tag: string, v: string, t: string)
    requires sep == "\n" + tag + " "
    ensures p + sep + v + t == p + ("\n" + (tag + " " + v + t))
  {
  }

  lemma {:induction false} RegroupLast(p: string, sep: string, tag: string, v: string)
    requires sep == "\n" + tag + " "
    ensures p + sep + v == p + ("\n" + (tag + " " + v))
  {
  }

  lemma {:induction false} RegroupFirst(n: string, q: string, t: string)
    ensures n + ". " + q + t == n + "." + " " + q + t
  {
  }
}
